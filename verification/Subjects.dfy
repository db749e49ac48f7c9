/** The tenant-scoped subject kind, and why no two scoped principals share one. */
module Subjects {
  import opened Decimals
  import opened Identities
  import opened Contexts

  // A length in UTF-8 bytes, a colon, and the text it measures.
  function Prefixed(text: string): string {
    Decimal(|Encode(text)|) + ":" + text
  }

  function TenantPrincipalKind(tenant: string, principalKind: string): string {
    "tenant:" + Prefixed(tenant) + ("principal:" + Prefixed(principalKind))
  }

  function TenantScopedSubject(tenant: string, principal: SubjectRef): SubjectRef {
    SubjectRef(TenantPrincipalKind(tenant, principal.kind), principal.id)
  }

  // The kind in full: each part behind its own name and its length in UTF-8 bytes, tenant first.
  lemma ScopedSubjectIs(tenant: string, principal: SubjectRef)
    ensures var subject := TenantScopedSubject(tenant, principal);
      && subject.id == principal.id
      && subject.kind ==
        "tenant:" + Decimal(|Encode(tenant)|) + ":" + tenant +
        "principal:" + Decimal(|Encode(principal.kind)|) + ":" + principal.kind
  {
  }

  // ----- reading an encoding back -----

  predicate Digits(text: string) {
    forall i | 0 <= i < |text| :: IsDigit(text[i])
  }

  // Digits end at the first colon, so the split is forced.
  lemma ColonSplits(left: string, leftRest: string, right: string, rightRest: string)
    requires Digits(left) && Digits(right)
    requires left + ":" + leftRest == right + ":" + rightRest
    ensures left == right && leftRest == rightRest
  {
    var whole := left + ":" + leftRest;
    assert whole[|left|] == ':' && whole[|right|] == ':';
    assert left == whole[..|left|] == right;
    assert leftRest == whole[|left| + 1..] == rightRest;
  }

  lemma {:induction false} EncodeAppend(left: string, right: string)
    ensures Encode(left + right) == Encode(left) + Encode(right)
  {
    if left == [] {
      assert left + right == right;
    } else {
      EncodeAppend(left[1..], right);
      assert (left + right)[1..] == left[1..] + right;
    }
  }

  // Of two prefixes of one text, the shorter is fewer bytes.
  lemma BytesMeasurePrefixes(left: string, leftRest: string, right: string, rightRest: string)
    requires left + leftRest == right + rightRest
    requires |Encode(left)| == |Encode(right)|
    ensures left == right && leftRest == rightRest
  {
    var whole := left + leftRest;
    if |left| < |right| {
      StrictPrefixIsFewerBytes(left, right, whole);
    } else if |right| < |left| {
      StrictPrefixIsFewerBytes(right, left, whole);
    }
    assert left == whole[..|left|] == right;
    assert leftRest == whole[|left|..] == rightRest;
  }

  lemma StrictPrefixIsFewerBytes(short: string, long: string, whole: string)
    requires |short| < |long| <= |whole|
    requires short == whole[..|short|] && long == whole[..|long|]
    ensures |Encode(short)| < |Encode(long)|
  {
    var extra := whole[|short|..|long|];
    assert long == short + extra;
    EncodeAppend(short, extra);
    assert |Encode(extra)| >= |Utf8(extra[0])|;
  }

  lemma Regrouped(a: string, b: string, c: string)
    ensures a + b + c == a + (b + c)
  {
  }

  lemma SamePrefix(prefix: string, left: string, right: string)
    requires prefix + left == prefix + right
    ensures left == right
  {
    assert left == (prefix + left)[|prefix|..] == (prefix + right)[|prefix|..] == right;
  }

  lemma PrefixedSplits(left: string, leftRest: string, right: string, rightRest: string)
    requires Prefixed(left) + leftRest == Prefixed(right) + rightRest
    ensures left == right && leftRest == rightRest
  {
    var m, n := |Encode(left)|, |Encode(right)|;
    DecimalReadsBack(m);
    DecimalReadsBack(n);
    assert Decimal(m) + ":" + (left + leftRest) == Prefixed(left) + leftRest;
    assert Decimal(n) + ":" + (right + rightRest) == Prefixed(right) + rightRest;
    ColonSplits(Decimal(m), left + leftRest, Decimal(n), right + rightRest);
    DecimalInjective(m, n);
    BytesMeasurePrefixes(left, leftRest, right, rightRest);
  }

  // Whatever digits, colons or `principal:` the parts contain, distinct parts encode differently.
  lemma KindInjective(tenant: string, kind: string, otherTenant: string, otherKind: string)
    requires TenantPrincipalKind(tenant, kind) == TenantPrincipalKind(otherTenant, otherKind)
    ensures tenant == otherTenant && kind == otherKind
  {
    var rest, otherRest := "principal:" + Prefixed(kind), "principal:" + Prefixed(otherKind);
    Regrouped("tenant:", Prefixed(tenant), rest);
    Regrouped("tenant:", Prefixed(otherTenant), otherRest);
    SamePrefix("tenant:", Prefixed(tenant) + rest, Prefixed(otherTenant) + otherRest);
    PrefixedSplits(tenant, rest, otherTenant, otherRest);
    SamePrefix("principal:", Prefixed(kind), Prefixed(otherKind));
    assert Prefixed(kind) + [] == Prefixed(otherKind) + [];
    PrefixedSplits(kind, [], otherKind, []);
  }

  lemma ScopedSubjectsAreDistinct(tenant: string, principal: SubjectRef, otherTenant: string, other: SubjectRef)
    ensures TenantScopedSubject(tenant, principal) == TenantScopedSubject(otherTenant, other) <==>
      tenant == otherTenant && principal == other
  {
    if TenantScopedSubject(tenant, principal) == TenantScopedSubject(otherTenant, other) {
      KindInjective(tenant, principal.kind, otherTenant, other.kind);
    }
  }
}
