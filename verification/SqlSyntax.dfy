/** SQL tokens, concrete syntax, its printer, and a parser with SQL operator precedence. */
module SqlSyntax {
  import opened Wrappers
  import opened Facts

  // Scalar bind values; the variants the lowering does not produce itself are kept opaque.
  datatype SqlValue = I64(number: int) | Text(text: string) | OtherScalar(description: string)

  // `Raw` is one token of an application-owned predicate for `fact`.
  datatype Token =
    | LParen | RParen | Comma | Equals
    | AndWord | OrWord | NotWord | IsWord | TrueWord | FalseWord | NullWord
    | CaseWord | WhenWord | ThenWord | ElseWord | EndWord
    | Name(name: string)
    | Raw(fact: FactId, text: string)

  datatype SqlPart = Text(token: Token) | Bind(value: SqlValue)

  datatype Branch = Branch(condition: SqlExpr, value: SqlExpr)

  // Concrete syntax: parentheses are kept, so printing loses nothing.
  datatype SqlExpr =
    | TrueLit
    | FalseLit
    | NullLit
    | BindRef(bound: SqlValue)
    | Column(name: string)
    | Predicate(parts: seq<SqlPart>)
    | Paren(inner: SqlExpr)
    | IsTrue(inner: SqlExpr)
    | IsNull(inner: SqlExpr)
    | Equal(left: SqlExpr, right: SqlExpr)
    | Not(inner: SqlExpr)
    | And(items: seq<SqlExpr>)
    | Or(items: seq<SqlExpr>)
    | Case(branches: seq<Branch>, otherwise: SqlExpr)
    | Call(name: string, args: seq<SqlExpr>)

  function T(token: Token): seq<SqlPart> {
    [SqlPart.Text(token)]
  }

  // ----- printing -----

  function Print(e: SqlExpr): seq<SqlPart> {
    match e
    case TrueLit => T(TrueWord)
    case FalseLit => T(FalseWord)
    case NullLit => T(NullWord)
    case BindRef(value) => [Bind(value)]
    case Column(name) => T(Name(name))
    case Predicate(parts) => parts
    case Paren(inner) => T(LParen) + Print(inner) + T(RParen)
    case IsTrue(inner) => Print(inner) + T(IsWord) + T(TrueWord)
    case IsNull(inner) => Print(inner) + T(IsWord) + T(NullWord)
    case Equal(left, right) => Print(left) + T(Equals) + Print(right)
    case Not(inner) => T(NotWord) + Print(inner)
    case And(items) => PrintList(items, AndWord)
    case Or(items) => PrintList(items, OrWord)
    case Case(branches, otherwise) =>
      T(CaseWord) + PrintBranches(branches) + T(ElseWord) + Print(otherwise) + T(EndWord)
    case Call(name, args) => T(Name(name)) + T(LParen) + PrintList(args, Comma) + T(RParen)
  }

  function PrintList(items: seq<SqlExpr>, separator: Token): seq<SqlPart> {
    if items == [] then [] else Print(items[0]) + PrintTail(items[1..], separator)
  }

  function PrintTail(items: seq<SqlExpr>, separator: Token): seq<SqlPart> {
    if items == [] then [] else T(separator) + Print(items[0]) + PrintTail(items[1..], separator)
  }

  function PrintBranches(branches: seq<Branch>): seq<SqlPart> {
    if branches == [] then [] else PrintBranch(branches[0]) + PrintBranches(branches[1..])
  }

  function PrintBranch(branch: Branch): seq<SqlPart> {
    T(WhenWord) + Print(branch.condition) + T(ThenWord) + Print(branch.value)
  }

  // ----- parsing -----

  predicate Starts(ts: seq<SqlPart>, token: Token) {
    ts != [] && ts[0] == SqlPart.Text(token)
  }

  predicate InPredicate(part: SqlPart) {
    part.Bind? || part.token.Raw?
  }

  // The length of the leading run of application-owned parts.
  function RunLength(ts: seq<SqlPart>): (k: nat)
    ensures k <= |ts|
    ensures forall i | 0 <= i < k :: InPredicate(ts[i])
    ensures k < |ts| ==> !InPredicate(ts[k])
  {
    if ts == [] || !InPredicate(ts[0]) then 0 else 1 + RunLength(ts[1..])
  }

  // A single operand stands for itself.
  function Joined(items: seq<SqlExpr>, separator: Token): SqlExpr
    requires items != []
  {
    if |items| == 1 then items[0] else if separator == OrWord then Or(items) else And(items)
  }

  type Parse = Option<(SqlExpr, seq<SqlPart>)>

  // expression := conjunction (OR conjunction)*
  function ParseExpr(ts: seq<SqlPart>): (r: Parse)
    ensures r.Some? ==> |r.value.1| < |ts|
    decreases |ts|, 5
  {
    match ParseAnd(ts)
    case None => None
    case Some((first, rest)) => ParseItems([first], rest, OrWord)
  }

  // conjunction := negation (AND negation)*
  function ParseAnd(ts: seq<SqlPart>): (r: Parse)
    ensures r.Some? ==> |r.value.1| < |ts|
    decreases |ts|, 4
  {
    match ParseNot(ts)
    case None => None
    case Some((first, rest)) => ParseItems([first], rest, AndWord)
  }

  function ParseItems(items: seq<SqlExpr>, ts: seq<SqlPart>, separator: Token): (r: Parse)
    requires items != []
    ensures r.Some? ==> |r.value.1| <= |ts|
    decreases |ts|, 3
  {
    if Starts(ts, separator) then
      match if separator == OrWord then ParseAnd(ts[1..]) else ParseNot(ts[1..])
      case None => None
      case Some((next, rest)) => ParseItems(items + [next], rest, separator)
    else Some((Joined(items, separator), ts))
  }

  // negation := NOT negation | comparison
  function ParseNot(ts: seq<SqlPart>): (r: Parse)
    ensures r.Some? ==> |r.value.1| < |ts|
    decreases |ts|, 2
  {
    if Starts(ts, NotWord) then
      match ParseNot(ts[1..])
      case None => None
      case Some((inner, rest)) => Some((Not(inner), rest))
    else ParseComparison(ts)
  }

  // comparison := primary [IS TRUE | IS NULL | = primary]
  function ParseComparison(ts: seq<SqlPart>): (r: Parse)
    ensures r.Some? ==> |r.value.1| < |ts|
    decreases |ts|, 1
  {
    match ParsePrimary(ts)
    case None => None
    case Some((left, rest)) =>
      if Starts(rest, IsWord) then
        if Starts(rest[1..], TrueWord) then Some((IsTrue(left), rest[2..]))
        else if Starts(rest[1..], NullWord) then Some((IsNull(left), rest[2..]))
        else None
      else if Starts(rest, Equals) then
        match ParsePrimary(rest[1..])
        case None => None
        case Some((right, rest')) => Some((Equal(left, right), rest'))
      else Some((left, rest))
  }

  // primary := literal | bind | column | predicate run | (expression) | CASE … END | name(arguments)
  function ParsePrimary(ts: seq<SqlPart>): (r: Parse)
    ensures r.Some? ==> |r.value.1| < |ts|
    decreases |ts|, 0
  {
    if ts == [] then None
    else if ts[0].Bind? then Some((BindRef(ts[0].value), ts[1..]))
    else
      match ts[0].token
      case TrueWord => Some((TrueLit, ts[1..]))
      case FalseWord => Some((FalseLit, ts[1..]))
      case NullWord => Some((NullLit, ts[1..]))
      case Raw(_, _) =>
        var k := RunLength(ts);
        Some((Predicate(ts[..k]), ts[k..]))
      case LParen =>
        (match ParseExpr(ts[1..])
         case None => None
         case Some((inner, rest)) => if Starts(rest, RParen) then Some((Paren(inner), rest[1..])) else None)
      case CaseWord => ParseBranches([], ts[1..])
      case Name(name) =>
        if Starts(ts[1..], LParen) then ParseArgs(name, [], ts[2..]) else Some((Column(name), ts[1..]))
      case _ => None
  }

  function ParseBranches(branches: seq<Branch>, ts: seq<SqlPart>): (r: Parse)
    ensures r.Some? ==> |r.value.1| < |ts|
    decreases |ts|, 6
  {
    if Starts(ts, WhenWord) then
      match ParseExpr(ts[1..])
      case None => None
      case Some((condition, rest)) =>
        if !Starts(rest, ThenWord) then None
        else
          match ParseExpr(rest[1..])
          case None => None
          case Some((value, rest')) => ParseBranches(branches + [Branch(condition, value)], rest')
    else if Starts(ts, ElseWord) && branches != [] then
      match ParseExpr(ts[1..])
      case None => None
      case Some((otherwise, rest)) =>
        if Starts(rest, EndWord) then Some((Case(branches, otherwise), rest[1..])) else None
    else None
  }

  function ParseArgs(name: string, args: seq<SqlExpr>, ts: seq<SqlPart>): (r: Parse)
    ensures r.Some? ==> |r.value.1| < |ts|
    decreases |ts|, 6
  {
    match ParseExpr(ts)
    case None => None
    case Some((arg, rest)) =>
      if Starts(rest, RParen) then Some((Call(name, args + [arg]), rest[1..]))
      else if Starts(rest, Comma) then ParseArgs(name, args + [arg], rest[1..])
      else None
  }

  // The whole sequence is one expression.
  function Parsed(ts: seq<SqlPart>): Option<SqlExpr> {
    match ParseExpr(ts)
    case Some((e, rest)) => if rest == [] then Some(e) else None
    case None => None
  }

  // ----- expressions whose printed form is read back -----

  // A run of application-owned parts, led by a token of the predicate itself.
  predicate OpaqueRun(parts: seq<SqlPart>) {
    && parts != [] && parts[0].Text? && parts[0].token.Raw?
    && forall i | 0 <= i < |parts| :: InPredicate(parts[i])
  }

  // Operands of operators are parenthesised; a comparison is a column against a bind.
  predicate Guarded(e: SqlExpr) {
    match e
    case Predicate(parts) => OpaqueRun(parts)
    case Paren(inner) => Guarded(inner)
    case IsTrue(inner) => inner.Paren? && Guarded(inner)
    case IsNull(inner) => inner.Paren? && Guarded(inner)
    case Equal(left, right) => left.Column? && right.BindRef?
    case Not(inner) => inner.Paren? && Guarded(inner)
    case And(items) => |items| >= 2 && forall i | 0 <= i < |items| :: items[i].Paren? && Guarded(items[i])
    case Or(items) => |items| >= 2 && forall i | 0 <= i < |items| :: items[i].Paren? && Guarded(items[i])
    case Case(branches, otherwise) =>
      && branches != []
      && (forall i | 0 <= i < |branches| :: Guarded(branches[i].condition) && Guarded(branches[i].value))
      && Guarded(otherwise)
    case Call(_, args) => args != [] && forall i | 0 <= i < |args| :: Guarded(args[i])
    case _ => true
  }

  // What may follow a complete expression.
  predicate Follows(rest: seq<SqlPart>) {
    rest == [] ||
    (rest[0].Text? && rest[0].token in {RParen, Comma, WhenWord, ThenWord, ElseWord, EndWord})
  }

  // ----- reading printed expressions back -----

  // The operators that would extend a primary rather than end it.
  predicate Unextended(rest: seq<SqlPart>) {
    !Starts(rest, IsWord) && !Starts(rest, Equals)
  }

  lemma PrimaryIsExpression(ts: seq<SqlPart>, e: SqlExpr, rest: seq<SqlPart>)
    requires ParsePrimary(ts) == Some((e, rest)) && !Starts(ts, NotWord)
    ensures Unextended(rest) ==> ParseNot(ts) == Some((e, rest))
    ensures Unextended(rest) && !Starts(rest, AndWord) ==> ParseAnd(ts) == Some((e, rest))
    ensures Follows(rest) ==> ParseExpr(ts) == Some((e, rest))
  {
    if Unextended(rest) {
      assert ParseComparison(ts) == Some((e, rest));
    }
  }

  lemma NegationIsExpression(ts: seq<SqlPart>, e: SqlExpr, rest: seq<SqlPart>)
    requires ParseNot(ts) == Some((e, rest)) && Follows(rest)
    ensures ParseExpr(ts) == Some((e, rest))
  {
    assert ParseAnd(ts) == Some((e, rest));
  }

  lemma {:induction false} RunEnds(parts: seq<SqlPart>, rest: seq<SqlPart>)
    requires forall i | 0 <= i < |parts| :: InPredicate(parts[i])
    requires rest == [] || !InPredicate(rest[0])
    ensures RunLength(parts + rest) == |parts|
  {
    if parts == [] {
      assert parts + rest == rest;
    } else {
      assert (parts + rest)[1..] == parts[1..] + rest;
      RunEnds(parts[1..], rest);
    }
  }

  // A parenthesised expression is a primary, whatever follows it.
  lemma ParenReadsBack(inner: SqlExpr, rest: seq<SqlPart>)
    requires ParseExpr(Print(inner) + (T(RParen) + rest)) == Some((inner, T(RParen) + rest))
    ensures ParsePrimary(Print(Paren(inner)) + rest) == Some((Paren(inner), rest))
    ensures !Starts(Print(Paren(inner)) + rest, NotWord)
  {
    var ts := Print(Paren(inner)) + rest;
    assert ts == T(LParen) + (Print(inner) + (T(RParen) + rest));
    assert ts[1..] == Print(inner) + (T(RParen) + rest);
    assert (T(RParen) + rest)[1..] == rest;
  }

  ghost predicate ReadsBack(e: SqlExpr) {
    forall rest | Follows(rest) :: ParseExpr(Print(e) + rest) == Some((e, rest))
  }

  lemma GuardedParen(e: SqlExpr, rest: seq<SqlPart>)
    requires e.Paren? && ReadsBack(e.inner)
    ensures ParsePrimary(Print(e) + rest) == Some((e, rest))
    ensures !Starts(Print(e) + rest, NotWord)
  {
    assert Follows(T(RParen) + rest);
    ParenReadsBack(e.inner, rest);
  }

  lemma ItemStep(
      items: seq<SqlExpr>, next: SqlExpr, ts: seq<SqlPart>, later: seq<SqlPart>, separator: Token)
    requires items != [] && Starts(ts, separator)
    requires (if separator == OrWord then ParseAnd(ts[1..]) else ParseNot(ts[1..])) == Some((next, later))
    ensures ParseItems(items, ts, separator) == ParseItems(items + [next], later, separator)
  {
  }

  lemma {:induction false} ItemsReadBack(
      items: seq<SqlExpr>, more: seq<SqlExpr>, separator: Token, rest: seq<SqlPart>)
    requires items != [] && (separator == AndWord || separator == OrWord)
    requires forall i | 0 <= i < |more| :: more[i].Paren? && ReadsBack(more[i].inner)
    requires Follows(rest)
    ensures ParseItems(items, PrintTail(more, separator) + rest, separator) ==
      Some((Joined(items + more, separator), rest))
    decreases more
  {
    if more == [] {
      assert PrintTail(more, separator) + rest == rest && items + more == items;
    } else {
      var later := PrintTail(more[1..], separator) + rest;
      FirstItemReadsBack(more, separator, rest);
      ItemStep(items, more[0], PrintTail(more, separator) + rest, later, separator);
      ItemsReadBack(items + [more[0]], more[1..], separator, rest);
      assert items + [more[0]] + more[1..] == items + more;
    }
  }

  lemma FirstItemReadsBack(more: seq<SqlExpr>, separator: Token, rest: seq<SqlPart>)
    requires separator == AndWord || separator == OrWord
    requires more != [] && more[0].Paren? && ReadsBack(more[0].inner)
    requires Follows(rest)
    ensures var ts, later := PrintTail(more, separator) + rest, PrintTail(more[1..], separator) + rest;
      && Starts(ts, separator)
      && (if separator == OrWord then ParseAnd(ts[1..]) else ParseNot(ts[1..])) == Some((more[0], later))
  {
    var ts, later := PrintTail(more, separator) + rest, PrintTail(more[1..], separator) + rest;
    TailShape(more, separator, rest);
    GuardedParen(more[0], later);
    TailStart(more[1..], separator, rest);
    PrimaryIsExpression(ts[1..], more[0], later);
  }

  lemma TailShape(more: seq<SqlExpr>, separator: Token, rest: seq<SqlPart>)
    requires more != []
    ensures var ts, later := PrintTail(more, separator) + rest, PrintTail(more[1..], separator) + rest;
      Starts(ts, separator) && ts[1..] == Print(more[0]) + later
  {
    var first, tail := Print(more[0]), PrintTail(more[1..], separator);
    assert PrintTail(more, separator) == T(separator) + first + tail;
    assert (T(separator) + first + tail + rest)[1..] == first + (tail + rest);
  }

  lemma TailStart(more: seq<SqlExpr>, separator: Token, rest: seq<SqlPart>)
    requires separator == AndWord || separator == OrWord
    requires Follows(rest)
    ensures var ts := PrintTail(more, separator) + rest;
      && Unextended(ts)
      && (more == [] || separator == OrWord ==> !Starts(ts, AndWord))
  {
    if more == [] {
      assert PrintTail(more, separator) + rest == rest;
    }
  }

  lemma ChainReadsBack(items: seq<SqlExpr>, separator: Token, rest: seq<SqlPart>)
    requires separator == AndWord || separator == OrWord
    requires |items| >= 2 && forall i | 0 <= i < |items| :: items[i].Paren? && ReadsBack(items[i].inner)
    requires Follows(rest)
    ensures ParseExpr(PrintList(items, separator) + rest) == Some((Joined(items, separator), rest))
  {
    var later := PrintTail(items[1..], separator) + rest;
    var ts := PrintList(items, separator) + rest;
    assert ts == Print(items[0]) + later;
    GuardedParen(items[0], later);
    TailStart(items[1..], separator, rest);
    PrimaryIsExpression(ts, items[0], later);
    ItemsReadBack([items[0]], items[1..], separator, rest);
    assert [items[0]] + items[1..] == items;
    if separator == AndWord {
      assert ParseAnd(ts) == Some((And(items), rest));
    } else {
      assert ParseAnd(ts) == Some((items[0], later));
    }
  }

  lemma {:induction false} BranchStep(before: seq<Branch>, branch: Branch, later: seq<SqlPart>)
    requires ReadsBack(branch.condition) && ReadsBack(branch.value) && Follows(later)
    ensures ParseBranches(before, PrintBranch(branch) + later) == ParseBranches(before + [branch], later)
  {
    var ts := PrintBranch(branch) + later;
    var afterCondition := T(ThenWord) + (Print(branch.value) + later);
    assert ts[1..] == Print(branch.condition) + afterCondition;
    assert Follows(afterCondition);
    assert afterCondition[1..] == Print(branch.value) + later;
    assert Branch(branch.condition, branch.value) == branch;
  }

  function PrintElse(otherwise: SqlExpr): seq<SqlPart> {
    T(ElseWord) + Print(otherwise) + T(EndWord)
  }

  lemma ElseReadsBack(branches: seq<Branch>, otherwise: SqlExpr, rest: seq<SqlPart>)
    requires branches != [] && ReadsBack(otherwise)
    ensures ParseBranches(branches, PrintElse(otherwise) + rest) == Some((Case(branches, otherwise), rest))
  {
    var ts := PrintElse(otherwise) + rest;
    var later := T(EndWord) + rest;
    assert ts[1..] == Print(otherwise) + later;
    assert Follows(later) && later[1..] == rest;
  }

  lemma {:induction false} BranchesReadBack(
      before: seq<Branch>, branches: seq<Branch>, otherwise: SqlExpr, rest: seq<SqlPart>)
    requires before + branches != []
    requires forall i | 0 <= i < |branches| :: ReadsBack(branches[i].condition) && ReadsBack(branches[i].value)
    requires ReadsBack(otherwise)
    ensures ParseBranches(before, PrintBranches(branches) + (PrintElse(otherwise) + rest)) ==
      Some((Case(before + branches, otherwise), rest))
    decreases branches
  {
    var tail := PrintElse(otherwise) + rest;
    if branches == [] {
      assert PrintBranches(branches) + tail == tail && before + branches == before;
      ElseReadsBack(before, otherwise, rest);
    } else {
      var later := PrintBranches(branches[1..]) + tail;
      BranchTailFollows(branches[1..], tail);
      assert PrintBranches(branches) + tail == PrintBranch(branches[0]) + later;
      BranchStep(before, branches[0], later);
      BranchesReadBack(before + [branches[0]], branches[1..], otherwise, rest);
      assert before + [branches[0]] + branches[1..] == before + branches;
    }
  }

  lemma BranchTailFollows(branches: seq<Branch>, tail: seq<SqlPart>)
    requires Follows(tail)
    ensures Follows(PrintBranches(branches) + tail)
  {
    if branches == [] {
      assert PrintBranches(branches) + tail == tail;
    }
  }

  lemma {:induction false} ArgsReadBack(name: string, before: seq<SqlExpr>, args: seq<SqlExpr>, rest: seq<SqlPart>)
    requires args != [] && forall i | 0 <= i < |args| :: ReadsBack(args[i])
    ensures ParseArgs(name, before, PrintList(args, Comma) + (T(RParen) + rest)) ==
      Some((Call(name, before + args), rest))
    decreases args
  {
    var ts := PrintList(args, Comma) + (T(RParen) + rest);
    var later := PrintTail(args[1..], Comma) + (T(RParen) + rest);
    assert ts == Print(args[0]) + later;
    if |args| == 1 {
      assert later == T(RParen) + rest && before + args == before + [args[0]];
      assert Follows(later) && later[1..] == rest;
    } else {
      assert Follows(later);
      assert later[1..] == PrintList(args[1..], Comma) + (T(RParen) + rest);
      ArgsReadBack(name, before + [args[0]], args[1..], rest);
      assert before + [args[0]] + args[1..] == before + args;
    }
  }

  lemma TestReadsBack(e: SqlExpr, rest: seq<SqlPart>)
    requires (e.IsTrue? || e.IsNull?) && e.inner.Paren? && ReadsBack(e.inner.inner) && Follows(rest)
    ensures ParseExpr(Print(e) + rest) == Some((e, rest))
  {
    var word := if e.IsTrue? then TrueWord else NullWord;
    var later := T(IsWord) + (T(word) + rest);
    var ts := Print(e) + rest;
    assert ts == Print(e.inner) + later;
    GuardedParen(e.inner, later);
    assert later[1..] == T(word) + rest && later[2..] == rest;
    assert ParseComparison(ts) == Some((e, rest));
    NegationIsExpression(ts, e, rest);
  }

  lemma EqualReadsBack(e: SqlExpr, rest: seq<SqlPart>)
    requires e.Equal? && e.left.Column? && e.right.BindRef? && Follows(rest)
    ensures ParseExpr(Print(e) + rest) == Some((e, rest))
  {
    var later := T(Equals) + (Print(e.right) + rest);
    var ts := Print(e) + rest;
    assert ts == Print(e.left) + later && ts[1..] == later;
    assert ParsePrimary(ts) == Some((e.left, later));
    assert later[1..] == Print(e.right) + rest && later[1..][1..] == rest;
    assert ParsePrimary(later[1..]) == Some((e.right, rest));
    assert ParseComparison(ts) == Some((e, rest));
    NegationIsExpression(ts, e, rest);
  }

  lemma NotReadsBack(e: SqlExpr, rest: seq<SqlPart>)
    requires e.Not? && e.inner.Paren? && ReadsBack(e.inner.inner) && Follows(rest)
    ensures ParseExpr(Print(e) + rest) == Some((e, rest))
  {
    var ts := Print(e) + rest;
    assert ts[1..] == Print(e.inner) + rest;
    GuardedParen(e.inner, rest);
    PrimaryIsExpression(ts[1..], e.inner, rest);
    NegationIsExpression(ts, e, rest);
  }

  lemma CaseReadsBack(e: SqlExpr, rest: seq<SqlPart>)
    requires e.Case? && e.branches != [] && ReadsBack(e.otherwise) && Follows(rest)
    requires forall i | 0 <= i < |e.branches| ::
      ReadsBack(e.branches[i].condition) && ReadsBack(e.branches[i].value)
    ensures ParseExpr(Print(e) + rest) == Some((e, rest))
  {
    var ts := Print(e) + rest;
    BranchesReadBack([], e.branches, e.otherwise, rest);
    assert [] + e.branches == e.branches;
    CaseShape(e.branches, e.otherwise, rest);
    CasePrimary(ts, e, rest);
    PrimaryIsExpression(ts, e, rest);
  }

  lemma CaseShape(branches: seq<Branch>, otherwise: SqlExpr, rest: seq<SqlPart>)
    ensures var ts := Print(Case(branches, otherwise)) + rest;
      Starts(ts, CaseWord) && ts[1..] == PrintBranches(branches) + (PrintElse(otherwise) + rest)
  {
    var arms, other := PrintBranches(branches), Print(otherwise);
    assert (T(CaseWord) + arms + T(ElseWord) + other + T(EndWord) + rest)[1..] ==
      arms + (T(ElseWord) + other + T(EndWord) + rest);
  }

  lemma CasePrimary(ts: seq<SqlPart>, e: SqlExpr, rest: seq<SqlPart>)
    requires Starts(ts, CaseWord) && ParseBranches([], ts[1..]) == Some((e, rest))
    ensures ParsePrimary(ts) == Some((e, rest))
  {
  }

  lemma {:induction false} CallReadsBack(e: SqlExpr, rest: seq<SqlPart>)
    requires e.Call? && e.args != [] && Follows(rest)
    requires forall i | 0 <= i < |e.args| :: ReadsBack(e.args[i])
    ensures ParseExpr(Print(e) + rest) == Some((e, rest))
  {
    var ts := Print(e) + rest;
    ArgsReadBack(e.name, [], e.args, rest);
    assert [] + e.args == e.args;
    assert ts == T(Name(e.name)) + (T(LParen) + (PrintList(e.args, Comma) + (T(RParen) + rest)));
    assert ts[1..] == T(LParen) + (PrintList(e.args, Comma) + (T(RParen) + rest));
    assert ts[2..] == PrintList(e.args, Comma) + (T(RParen) + rest);
    PrimaryIsExpression(ts, e, rest);
  }

  lemma AtomReadsBack(e: SqlExpr, rest: seq<SqlPart>)
    requires e.TrueLit? || e.FalseLit? || e.NullLit? || e.BindRef? || e.Column? || (e.Predicate? && OpaqueRun(e.parts))
    requires Follows(rest)
    ensures ParseExpr(Print(e) + rest) == Some((e, rest))
  {
    var ts := Print(e) + rest;
    if e.Predicate? {
      RunEnds(e.parts, rest);
      assert ts[..|e.parts|] == e.parts && ts[|e.parts|..] == rest;
    } else {
      assert ts[1..] == rest;
    }
    PrimaryIsExpression(ts, e, rest);
  }

  // Whatever the lowering prints, SQL precedence reads back unchanged.
  lemma {:induction false} GuardedReadsBack(e: SqlExpr)
    requires Guarded(e)
    ensures ReadsBack(e)
    decreases e
  {
    match e {
      case Paren(inner) => GuardedReadsBack(inner);
      case IsTrue(inner) => GuardedReadsBack(inner.inner);
      case IsNull(inner) => GuardedReadsBack(inner.inner);
      case Not(inner) => GuardedReadsBack(inner.inner);
      case And(items) => forall i | 0 <= i < |items| { GuardedReadsBack(items[i].inner); }
      case Or(items) => forall i | 0 <= i < |items| { GuardedReadsBack(items[i].inner); }
      case Case(branches, otherwise) =>
        GuardedReadsBack(otherwise);
        forall i | 0 <= i < |branches|
          ensures ReadsBack(branches[i].condition) && ReadsBack(branches[i].value)
        {
          GuardedReadsBack(branches[i].condition);
          GuardedReadsBack(branches[i].value);
        }
      case Call(_, args) => forall i | 0 <= i < |args| { GuardedReadsBack(args[i]); }
      case _ =>
    }
    forall rest | Follows(rest) ensures ParseExpr(Print(e) + rest) == Some((e, rest)) {
      match e
      case Paren(_) =>
        GuardedParen(e, rest);
        PrimaryIsExpression(Print(e) + rest, e, rest);
      case IsTrue(_) => TestReadsBack(e, rest);
      case IsNull(_) => TestReadsBack(e, rest);
      case Equal(_, _) => EqualReadsBack(e, rest);
      case Not(_) => NotReadsBack(e, rest);
      case And(items) => ChainReadsBack(items, AndWord, rest);
      case Or(items) => ChainReadsBack(items, OrWord, rest);
      case Case(_, _) => CaseReadsBack(e, rest);
      case Call(_, _) => CallReadsBack(e, rest);
      case _ => AtomReadsBack(e, rest);
    }
  }

  lemma PrintedIsParsed(e: SqlExpr)
    requires Guarded(e)
    ensures Parsed(Print(e)) == Some(e)
  {
    GuardedReadsBack(e);
    assert Print(e) + [] == Print(e);
    assert Follows([]);
  }
}
