/** The mutable fragment builder, and its rendering with numbered placeholders. */
module Fragments {
  import opened Wrappers
  import opened SqlSyntax
  import opened SqlMeaning
  import L = Lowering
  import opened Decimals

  class SqlxFragment {
    var parts: seq<SqlPart>

    constructor Trusted(words: seq<Token>)
      ensures parts == Words(words)
    {
      parts := Words(words);
    }

    constructor BindValue(value: SqlValue)
      ensures parts == [Bind(value)]
    {
      parts := [Bind(value)];
    }

    method PushFragment(fragment: SqlxFragment)
      modifies this
      ensures parts == old(parts) + old(fragment.parts)
    {
      parts := parts + fragment.parts;
    }

    method PushSql(words: seq<Token>)
      modifies this
      ensures parts == old(parts) + Words(words)
    {
      parts := parts + Words(words);
    }

    method Wrapped() returns (fragment: SqlxFragment)
      ensures fresh(fragment) && fragment.parts == L.Wrapped(parts)
    {
      fragment := new SqlxFragment.Trusted([LParen]);
      fragment.PushFragment(this);
      fragment.PushSql([RParen]);
    }
  }

  function Words(words: seq<Token>): (parts: seq<SqlPart>)
    ensures |parts| == |words|
  {
    seq(|words|, i requires 0 <= i < |words| => SqlPart.Text(words[i]))
  }

  lemma OneWord(token: Token)
    ensures Words([token]) == T(token)
  {
  }

  ghost function PartsOf(fragments: seq<SqlxFragment>): (list: seq<L.Fragment>)
    reads fragments
    ensures |list| == |fragments|
    ensures forall i | 0 <= i < |list| :: list[i] == fragments[i].parts
  {
    seq(|fragments|, i requires 0 <= i < |fragments| reads fragments => fragments[i].parts)
  }

  method Unary(inner: SqlxFragment) returns (fragment: SqlxFragment)
    ensures fresh(fragment) && fragment.parts == L.Negated(inner.parts)
  {
    fragment := new SqlxFragment.Trusted([NotWord]);
    var wrapped := inner.Wrapped();
    fragment.PushFragment(wrapped);
  }

  method IsTrueOf(predicate_: SqlxFragment) returns (fragment: SqlxFragment)
    ensures fresh(fragment) && fragment.parts == L.IsTrueTest(predicate_.parts)
  {
    fragment := new SqlxFragment.Trusted([LParen]);
    fragment.PushFragment(predicate_);
    fragment.PushSql([RParen, IsWord, TrueWord]);
  }

  // Appending a word and a fragment to a growing list of parts, regrouped.
  lemma Regrouped(head: L.Fragment, tail: L.Fragment, word: Token, last: L.Fragment)
    ensures (head + tail) + Words([word]) + last == head + (tail + T(word) + last)
  {
    OneWord(word);
  }

  lemma BinaryTailStep(separator: Token, list: seq<L.Fragment>, i: nat)
    requires 1 <= i < |list|
    ensures L.BinaryTail(separator, list[1..i + 1]) ==
      L.BinaryTail(separator, list[1..i]) + T(separator) + L.Wrapped(list[i])
  {
    assert list[1..i + 1][..i - 1] == list[1..i];
  }

  lemma ArgumentTailStep(list: seq<L.Fragment>, i: nat)
    requires 1 <= i < |list|
    ensures L.ArgumentTail(list[1..i + 1]) == L.ArgumentTail(list[1..i]) + T(Comma) + list[i]
  {
    assert list[1..i + 1][..i - 1] == list[1..i];
  }

  method Binary(separator: Token, fragments: seq<SqlxFragment>) returns (fragment: SqlxFragment)
    ensures fresh(fragment) && fragment.parts == L.Binary(separator, old(PartsOf(fragments)))
  {
    if fragments == [] {
      fragment := new SqlxFragment.Trusted([FalseWord]);
      OneWord(FalseWord);
      return;
    }
    ghost var list := PartsOf(fragments);
    fragment := fragments[0].Wrapped();
    for i := 1 to |fragments|
      invariant fresh(fragment)
      invariant forall k | 0 <= k < |fragments| :: fragments[k].parts == list[k]
      invariant fragment.parts == L.Wrapped(list[0]) + L.BinaryTail(separator, list[1..i])
    {
      var wrapped := fragments[i].Wrapped();
      BinaryTailStep(separator, list, i);
      Regrouped(L.Wrapped(list[0]), L.BinaryTail(separator, list[1..i]), separator, L.Wrapped(list[i]));
      fragment.PushSql([separator]);
      fragment.PushFragment(wrapped);
    }
    assert list[1..|fragments|] == list[1..];
  }

  // The argument list between the parentheses of a function call.
  function Arguments(list: seq<L.Fragment>): L.Fragment {
    if list == [] then [] else list[0] + L.ArgumentTail(list[1..])
  }

  method PushArguments(fragment: SqlxFragment, fragments: seq<SqlxFragment>)
    requires fragment !in fragments
    modifies fragment
    ensures fragment.parts == old(fragment.parts) + Arguments(old(PartsOf(fragments)))
  {
    if fragments == [] {
      return;
    }
    ghost var list, before := PartsOf(fragments), fragment.parts;
    fragment.PushFragment(fragments[0]);
    for i := 1 to |fragments|
      invariant forall k | 0 <= k < |fragments| :: fragments[k].parts == list[k]
      invariant fragment.parts == (before + list[0]) + L.ArgumentTail(list[1..i])
    {
      ArgumentTailStep(list, i);
      Regrouped(before + list[0], L.ArgumentTail(list[1..i]), Comma, list[i]);
      fragment.PushSql([Comma]);
      fragment.PushFragment(fragments[i]);
    }
    assert list[1..|fragments|] == list[1..];
    assert (before + list[0]) + L.ArgumentTail(list[1..]) == before + Arguments(list);
  }

  lemma CallParts(name: string, list: seq<L.Fragment>)
    ensures Words([Name(name)]) + Words([LParen]) + Arguments(list) + Words([RParen]) == L.Invocation(name, list)
  {
    OneWord(Name(name));
    OneWord(LParen);
    OneWord(RParen);
  }

  method Function(name: string, fragments: seq<SqlxFragment>) returns (fragment: SqlxFragment)
    ensures fresh(fragment) && fragment.parts == L.Invocation(name, old(PartsOf(fragments)))
  {
    ghost var list := PartsOf(fragments);
    fragment := new SqlxFragment.Trusted([Name(name)]);
    fragment.PushSql([LParen]);
    PushArguments(fragment, fragments);
    fragment.PushSql([RParen]);
    CallParts(name, list);
  }

  method CaseWhen(condition: SqlxFragment, thenExpr: SqlxFragment, elseExpr: SqlxFragment)
    returns (fragment: SqlxFragment)
    ensures fresh(fragment)
    ensures fragment.parts == L.CaseWhen(condition.parts, thenExpr.parts, elseExpr.parts)
  {
    fragment := new SqlxFragment.Trusted([CaseWord, WhenWord]);
    fragment.PushFragment(condition);
    fragment.PushSql([ThenWord]);
    fragment.PushFragment(thenExpr);
    fragment.PushSql([ElseWord]);
    fragment.PushFragment(elseExpr);
    fragment.PushSql([EndWord]);
  }

  // One `WHEN (tested) IS NULL THEN value` branch.
  method PushNullBranch(fragment: SqlxFragment, tested: SqlxFragment, value: SqlxFragment)
    requires fragment != tested && fragment != value
    modifies fragment
    ensures fragment.parts == old(fragment.parts) + L.NullBranch(old(tested.parts), old(value.parts))
  {
    ghost var before, t, v := fragment.parts, tested.parts, value.parts;
    fragment.PushSql([WhenWord]);
    var wrapped := tested.Wrapped();
    fragment.PushFragment(wrapped);
    fragment.PushSql([IsWord, NullWord, ThenWord]);
    fragment.PushFragment(value);
    BranchParts(before, t, v);
  }

  lemma BranchParts(before: L.Fragment, tested: L.Fragment, value: L.Fragment)
    ensures before + Words([WhenWord]) + L.Wrapped(tested) + Words([IsWord, NullWord, ThenWord]) + value ==
      before + L.NullBranch(tested, value)
  {
    assert Words([IsWord, NullWord, ThenWord]) == T(IsWord) + T(NullWord) + T(ThenWord);
    OneWord(WhenWord);
  }

  lemma PairParts(name: string, left: L.Fragment, right: L.Fragment)
    ensures Words([CaseWord]) + L.NullBranch(left, right) + L.NullBranch(right, left)
      + Words([ElseWord]) + L.Invocation(name, [left, right]) + Words([EndWord]) == L.NullSafePair(name, left, right)
  {
    OneWord(CaseWord);
    OneWord(ElseWord);
    OneWord(EndWord);
  }

  method NullSafeGradePair(name: string, left: SqlxFragment, right: SqlxFragment) returns (fragment: SqlxFragment)
    ensures fresh(fragment)
    ensures fragment.parts == L.NullSafePair(name, old(left.parts), old(right.parts))
  {
    ghost var l, r := left.parts, right.parts;
    fragment := new SqlxFragment.Trusted([CaseWord]);
    PushNullBranch(fragment, left, right);
    PushNullBranch(fragment, right, left);
    fragment.PushSql([ElseWord]);
    var call := Function(name, [left, right]);
    fragment.PushFragment(call);
    fragment.PushSql([EndWord]);
    PairParts(name, l, r);
  }

  method NullSafeGrades(grades: seq<SqlxFragment>, name: string) returns (fragment: SqlxFragment)
    requires grades != []
    ensures fragment.parts == L.NullSafeChain(name, old(PartsOf(grades)))
  {
    ghost var list := PartsOf(grades);
    fragment := grades[0];
    assert list[..1] == [list[0]];
    for i := 1 to |grades|
      invariant forall k | 0 <= k < |grades| :: grades[k].parts == list[k]
      invariant fragment.parts == L.NullSafeChain(name, list[..i])
    {
      ChainStep(name, list, i);
      fragment := NullSafeGradePair(name, fragment, grades[i]);
    }
    assert list[..|grades|] == list;
  }

  lemma {:induction false} ChainStep(name: string, list: seq<L.Fragment>, i: nat)
    requires 1 <= i < |list|
    ensures L.NullSafeChain(name, list[..i + 1]) ==
      L.NullSafePair(name, L.NullSafeChain(name, list[..i]), list[i])
  {
    assert list[..i + 1][..i] == list[..i];
  }

  method GradeSet(backend: Backend, grades: seq<SqlxFragment>, name: string) returns (fragment: SqlxFragment)
    ensures fragment.parts == L.GradeSet(backend, old(PartsOf(grades)), name)
  {
    if |grades| == 0 {
      fragment := new SqlxFragment.Trusted([NullWord]);
      OneWord(NullWord);
    } else if |grades| == 1 {
      fragment := grades[0];
    } else if L.PropagatesNull(backend) {
      fragment := NullSafeGrades(grades, name);
    } else {
      fragment := Function(name, grades);
    }
  }

  // ----- rendering -----

  datatype Piece = Word(token: Token) | Placeholder(text: string)

  function Binds(parts: seq<SqlPart>): seq<SqlValue> {
    if parts == [] then []
    else
      var earlier, last := Binds(parts[..|parts| - 1]), parts[|parts| - 1];
      if last.Bind? then earlier + [last.value] else earlier
  }

  function PlaceholderText(backend: Backend, index: nat): string {
    if backend == Postgres then "$" + Decimal(index) else "?"
  }

  function Rendered(backend: Backend, part: SqlPart, index: nat): Piece {
    match part
    case Text(token) => Word(token)
    case Bind(_) => Placeholder(PlaceholderText(backend, index))
  }

  // The first `count` parts, each bind numbered by its own position among the binds.
  ghost predicate Renders(backend: Backend, parts: seq<SqlPart>, count: nat, sql: seq<Piece>)
    requires count <= |parts|
  {
    |sql| == count && forall i | 0 <= i < count :: sql[i] == RenderedAt(backend, parts, i)
  }

  function RenderedAt(backend: Backend, parts: seq<SqlPart>, i: nat): Piece
    requires i < |parts|
  {
    Rendered(backend, parts[i], |Binds(parts[..i])| + 1)
  }

  lemma BindsStep(parts: seq<SqlPart>, i: nat)
    requires i < |parts|
    ensures |Binds(parts[..i + 1])| == |Binds(parts[..i])| + (if parts[i].Bind? then 1 else 0)
  {
    assert parts[..i + 1][..i] == parts[..i];
  }

  method ToSql(backend: Backend, parts: seq<SqlPart>) returns (sql: seq<Piece>)
    ensures Renders(backend, parts, |parts|, sql)
  {
    sql := [];
    var placeholders := 0;
    for i := 0 to |parts|
      invariant placeholders == |Binds(parts[..i])|
      invariant Renders(backend, parts, i, sql)
    {
      BindsStep(parts, i);
      match parts[i]
      case Text(token) => sql := sql + [Word(token)];
      case Bind(_) =>
        placeholders := placeholders + 1;
        sql := sql + [Placeholder(PlaceholderText(backend, placeholders))];
    }
  }

  lemma {:induction false} BindsAppend(left: seq<SqlPart>, right: seq<SqlPart>)
    ensures Binds(left + right) == Binds(left) + Binds(right)
  {
    if right == [] {
      assert left + right == left;
    } else {
      var most := right[..|right| - 1];
      BindsAppend(left, most);
      assert (left + right)[..|left + right| - 1] == left + most;
    }
  }

  // The bind at part `i` is the one its placeholder's number names, counting from one.
  lemma PlaceholderNamesItsBind(parts: seq<SqlPart>, i: nat)
    requires i < |parts| && parts[i].Bind?
    ensures var k := |Binds(parts[..i])|;
      k < |Binds(parts)| && Binds(parts)[k] == parts[i].value
  {
    assert parts == parts[..i] + ([parts[i]] + parts[i + 1..]);
    BindsAppend(parts[..i], [parts[i]] + parts[i + 1..]);
    BindsAppend([parts[i]], parts[i + 1..]);
    assert [parts[i]][..0] == [];
    assert Binds([parts[i]]) == [parts[i].value];
  }

  // On PostgreSQL a placeholder is a dollar sign and the one-based position of its bind, without
  // leading zeros; elsewhere it is a question mark. Text parts stand for themselves.
  lemma PlaceholderReads(backend: Backend, parts: seq<SqlPart>, i: nat)
    requires i < |parts|
    ensures parts[i].Text? ==> RenderedAt(backend, parts, i) == Word(parts[i].token)
    ensures parts[i].Bind? ==> RenderedAt(backend, parts, i).Placeholder?
    ensures parts[i].Bind? ==>
      var text := RenderedAt(backend, parts, i).text;
      && (backend != Postgres ==> text == "?")
      && (backend == Postgres ==>
            && text != [] && text[0] == '$' && IsCanonical(text[1..])
            && 1 <= ValueOf(text[1..]) <= |Binds(parts)|
            && Binds(parts)[ValueOf(text[1..]) - 1] == parts[i].value)
  {
    if parts[i].Bind? {
      var number := |Binds(parts[..i])| + 1;
      PlaceholderNamesItsBind(parts, i);
      DecimalReadsBack(number);
      DecimalCanonical(number);
      assert ("$" + Decimal(number))[1..] == Decimal(number);
    }
  }

  predicate IsCanonical(text: string) {
    text != [] && text[0] != '0' && forall i | 0 <= i < |text| :: IsDigit(text[i])
  }

  // Postgres placeholders are distinct, so no two binds share one.
  lemma {:induction false} PostgresPlaceholdersDistinct(parts: seq<SqlPart>, i: nat, j: nat)
    requires i < j < |parts| && parts[i].Bind? && parts[j].Bind?
    ensures RenderedAt(Postgres, parts, i) != RenderedAt(Postgres, parts, j)
  {
    PlaceholderNamesItsBind(parts[..j], i);
    assert parts[..j][..i] == parts[..i];
    NumberedTextsDiffer(|Binds(parts[..i])| + 1, |Binds(parts[..j])| + 1);
  }

  lemma NumberedTextsDiffer(m: nat, n: nat)
    requires m != n
    ensures PlaceholderText(Postgres, m) != PlaceholderText(Postgres, n)
  {
    if PlaceholderText(Postgres, m) == PlaceholderText(Postgres, n) {
      assert Decimal(m) == ("$" + Decimal(m))[1..] == ("$" + Decimal(n))[1..] == Decimal(n);
      DecimalInjective(m, n);
    }
  }
}
