/** Identifier validation: over scalar values at run time, over UTF-8 bytes for static identifiers. */
module Identities {
  import opened Wrappers
  import opened Arithmetic

  const MAX_TENANT_ID_BYTES := 255

  type Byte = b: int | 0 <= b < 0x100

  datatype TenantIdError =
    | EmptyIdentifier
    | TooLong(actualBytes: nat)
    | ControlCharacter(codePoint: nat)
    | Noncharacter(codePoint: nat)

  // ----- scalar values -----

  // The characters of the Unicode property White_Space.
  predicate Whitespace(c: char) {
    var n := c as int;
    || 0x09 <= n <= 0x0D || n == 0x20 || n == 0x85 || n == 0xA0 || n == 0x1680
    || 0x2000 <= n <= 0x200A || n == 0x2028 || n == 0x2029 || n == 0x202F || n == 0x205F || n == 0x3000
  }

  predicate Blank(value: string) {
    forall i | 0 <= i < |value| :: Whitespace(value[i])
  }

  predicate Control(c: char) {
    c as int <= 0x1F || 0x7F <= c as int <= 0x9F
  }

  predicate IsNoncharacter(c: char) {
    var n := c as int;
    0xFDD0 <= n <= 0xFDEF || n % 0x1_0000 == 0xFFFF || n % 0x1_0000 == 0xFFFE
  }

  predicate Forbidden(c: char) {
    Control(c) || IsNoncharacter(c)
  }

  function FirstForbidden(value: string): (k: nat)
    ensures k <= |value|
    ensures forall i | 0 <= i < k :: !Forbidden(value[i])
    ensures k < |value| ==> Forbidden(value[k])
  {
    if value == [] || Forbidden(value[0]) then 0 else 1 + FirstForbidden(value[1..])
  }

  function ValidateTenantId(value: string): Result<string, TenantIdError> {
    if Blank(value) then Err(EmptyIdentifier)
    else if |Encode(value)| > MAX_TENANT_ID_BYTES then Err(TooLong(|Encode(value)|))
    else
      var k := FirstForbidden(value);
      if k == |value| then Ok(value)
      else
        var codePoint := value[k] as int;
        if Control(value[k]) then Err(ControlCharacter(codePoint)) else Err(Noncharacter(codePoint))
  }

  // A tenant identity is accepted exactly when it is not blank, takes at most 255 bytes and has no
  // forbidden character; otherwise the first of these that fails is named, with what was found.
  lemma TenantIdVerdict(value: string)
    ensures var verdict, short := ValidateTenantId(value), |Encode(value)| <= 255;
      && (verdict.Ok? <==> !Blank(value) && short && forall i | 0 <= i < |value| :: !Forbidden(value[i]))
      && (verdict.Ok? ==> verdict.value == value)
      && (verdict == Err(EmptyIdentifier) <==> Blank(value))
      && (!Blank(value) && !short ==> verdict == Err(TooLong(|Encode(value)|)))
      && (verdict.Err? && !Blank(value) && short ==>
            exists k | 0 <= k < |value| :: FirstForbiddenAt(value, k) &&
              verdict.error ==
                if Control(value[k]) then ControlCharacter(value[k] as int) else Noncharacter(value[k] as int))
  {
    var k := FirstForbidden(value);
    if k < |value| {
      assert FirstForbiddenAt(value, k);
    }
  }

  predicate FirstForbiddenAt(value: string, k: nat)
    requires k < |value|
  {
    Forbidden(value[k]) && forall i | 0 <= i < k :: !Forbidden(value[i])
  }

  // ----- UTF-8, sections 3 and 4 of RFC 3629 -----

  function Utf8(c: char): (bytes: seq<Byte>)
    ensures 1 <= |bytes| <= 4
  {
    var n := c as int;
    if n < 0x80 then [n]
    else if n < 0x800 then [0xC0 + n / 0x40, 0x80 + n % 0x40]
    else if n < 0x1_0000 then [0xE0 + n / 0x1000, 0x80 + n / 0x40 % 0x40, 0x80 + n % 0x40]
    else [0xF0 + n / 0x4_0000, 0x80 + n / 0x1000 % 0x40, 0x80 + n / 0x40 % 0x40, 0x80 + n % 0x40]
  }

  function Encode(value: string): seq<Byte> {
    if value == [] then [] else Utf8(value[0]) + Encode(value[1..])
  }

  // ----- the static scanners -----

  // How many leading bytes spell one whitespace character; none is zero.
  function WhitespacePrefix(bytes: seq<Byte>): (n: nat)
    ensures n <= |bytes|
  {
    if |bytes| >= 1 && (bytes[0] == 0x20 || 0x09 <= bytes[0] <= 0x0D) then 1
    else if |bytes| >= 2 && bytes[0] == 0xC2 && (bytes[1] == 0x85 || bytes[1] == 0xA0) then 2
    else if |bytes| >= 3 && bytes[0] == 0xE1 && bytes[1] == 0x9A && bytes[2] == 0x80 then 3
    else if |bytes| >= 3 && bytes[0] == 0xE2 && bytes[1] == 0x80
            && (0x80 <= bytes[2] <= 0x8A || bytes[2] == 0xA8 || bytes[2] == 0xA9 || bytes[2] == 0xAF) then 3
    else if |bytes| >= 3 && bytes[0] == 0xE2 && bytes[1] == 0x81 && bytes[2] == 0x9F then 3
    else if |bytes| >= 3 && bytes[0] == 0xE3 && bytes[1] == 0x80 && bytes[2] == 0x80 then 3
    else 0
  }

  predicate ControlHead(bytes: seq<Byte>) {
    || (|bytes| >= 1 && (bytes[0] <= 0x1F || bytes[0] == 0x7F))
    || (|bytes| >= 2 && bytes[0] == 0xC2 && 0x80 <= bytes[1] <= 0x9F)
  }

  predicate NoncharacterHead(bytes: seq<Byte>) {
    || (|bytes| >= 3 && bytes[0] == 0xEF && bytes[1] == 0xB7 && 0x90 <= bytes[2] <= 0xAF)
    || (|bytes| >= 3 && bytes[0] == 0xEF && bytes[1] == 0xBF && 0xBE <= bytes[2] <= 0xBF)
    || (|bytes| >= 4 && 0xF0 <= bytes[0] <= 0xF4 && bytes[1] % 0x10 == 0x0F
        && bytes[2] == 0xBF && 0xBE <= bytes[3] <= 0xBF)
  }

  // No position of the bytes, on a character boundary or off it, opens a forbidden sequence.
  predicate Clean(bytes: seq<Byte>) {
    bytes == [] || (!ControlHead(bytes) && !NoncharacterHead(bytes) && Clean(bytes[1..]))
  }

  method StaticIdPasses(value: string) returns (passes: bool)
    ensures passes <==> !Blank(value)
  {
    var remaining := Encode(value);
    if remaining == [] {
      return false;
    }
    ghost var k := 0;
    while remaining != []
      invariant k <= |value| && remaining == Encode(value[k..])
      invariant forall i | 0 <= i < k :: Whitespace(value[i])
      decreases |value| - k
    {
      PrefixIsFirstCharacter(value[k..]);
      var n := WhitespacePrefix(remaining);
      if n == 0 {
        return true;
      }
      remaining := remaining[n..];
      assert value[k..][1..] == value[k + 1..];
      k := k + 1;
    }
    passes := false;
  }

  method StaticTenantIdPasses(value: string) returns (passes: bool)
    ensures passes <==> ValidateTenantId(value).Ok?
  {
    CleanIffNothingForbidden(value);
    passes := StaticIdPasses(value);
    if !passes {
      return;
    }
    if |Encode(value)| > MAX_TENANT_ID_BYTES {
      return false;
    }
    var remaining := Encode(value);
    while remaining != []
      invariant Clean(remaining) <==> Clean(Encode(value))
      decreases |remaining|
    {
      if ControlHead(remaining) || NoncharacterHead(remaining) {
        return false;
      }
      remaining := remaining[1..];
    }
  }

  // ----- bytes against scalar values -----

  lemma PrefixOfCharacter(c: char, rest: seq<Byte>)
    ensures WhitespacePrefix(Utf8(c) + rest) == if Whitespace(c) then |Utf8(c)| else 0
  {
    var n := c as int;
    var bytes := Utf8(c) + rest;
    if 0x80 <= n < 0x800 {
      assert bytes[0] == 0xC0 + n / 0x40 && bytes[1] == 0x80 + n % 0x40;
    } else if 0x800 <= n < 0x1_0000 {
      assert bytes[0] == 0xE0 + n / 0x1000 && bytes[1] == 0x80 + n / 0x40 % 0x40 && bytes[2] == 0x80 + n % 0x40;
    }
  }

  lemma PrefixIsFirstCharacter(value: string)
    requires Encode(value) != []
    ensures value != []
    ensures var n := WhitespacePrefix(Encode(value));
      if Whitespace(value[0]) then n > 0 && Encode(value)[n..] == Encode(value[1..]) else n == 0
  {
    PrefixOfCharacter(value[0], Encode(value[1..]));
  }

  // A continuation byte opens none of the forbidden sequences.
  lemma ContinuationIsClean(byte: Byte, rest: seq<Byte>)
    requires 0x80 <= byte < 0xC0
    ensures Clean([byte] + rest) <==> Clean(rest)
  {
    assert ([byte] + rest)[1..] == rest;
  }

  lemma {:induction false} ContinuationsAreClean(bytes: seq<Byte>, rest: seq<Byte>)
    requires forall i | 0 <= i < |bytes| :: 0x80 <= bytes[i] < 0xC0
    ensures Clean(bytes + rest) <==> Clean(rest)
  {
    if bytes == [] {
      assert bytes + rest == rest;
    } else {
      ContinuationsAreClean(bytes[1..], rest);
      ContinuationIsClean(bytes[0], bytes[1..] + rest);
      assert bytes + rest == [bytes[0]] + (bytes[1..] + rest);
    }
  }

  // The low sixteen bits of a scalar value, from the fields its encoding carries.
  lemma LowSixteenBits(n: nat)
    ensures n % 0x1_0000 == 0x1000 * (n / 0x1000 % 0x10) + 0x40 * (n / 0x40 % 0x40) + n % 0x40
    ensures n / 0x1000 % 0x40 % 0x10 == n / 0x1000 % 0x10
    ensures (0x80 + n / 0x1000 % 0x40) % 0x10 == n / 0x1000 % 0x10
  {
    var m, d := n / 0x40, n % 0x40;
    var p, q := m / 0x40, m % 0x40;
    QuotientIs(n, 0x1000, p, 0x40 * q + d);
    QuotientIs(n, 0x1_0000, p / 0x10, 0x1000 * (p % 0x10) + 0x40 * q + d);
    var r := p % 0x40;
    QuotientIs(p, 0x10, 4 * (p / 0x40) + r / 0x10, r % 0x10);
    QuotientIs(0x80 + r, 0x10, 8 + r / 0x10, r % 0x10);
  }

  lemma ShortHead(c: char, rest: seq<Byte>)
    requires c as int < 0x800
    ensures ControlHead(Utf8(c) + rest) <==> Control(c)
    ensures !NoncharacterHead(Utf8(c) + rest) && !IsNoncharacter(c)
  {
    var n := c as int;
    var bytes := Utf8(c) + rest;
    if 0x80 <= n {
      assert bytes[0] == 0xC0 + n / 0x40 && bytes[1] == 0x80 + n % 0x40;
    }
  }

  lemma ThreeByteHead(c: char, rest: seq<Byte>)
    requires 0x800 <= c as int < 0x1_0000
    ensures !ControlHead(Utf8(c) + rest) && !Control(c)
    ensures NoncharacterHead(Utf8(c) + rest) <==> IsNoncharacter(c)
  {
    var n := c as int;
    var bytes := Utf8(c) + rest;
    assert bytes[0] == 0xE0 + n / 0x1000 && bytes[1] == 0x80 + n / 0x40 % 0x40 && bytes[2] == 0x80 + n % 0x40;
  }

  lemma FourByteHead(c: char, rest: seq<Byte>)
    requires 0x1_0000 <= c as int
    ensures !ControlHead(Utf8(c) + rest) && !Control(c)
    ensures NoncharacterHead(Utf8(c) + rest) <==> IsNoncharacter(c)
  {
    var n := c as int;
    var bytes := Utf8(c) + rest;
    var p, q, d := n / 0x1000 % 0x40, n / 0x40 % 0x40, n % 0x40;
    LowSixteenBits(n);
    assert bytes[0] == 0xF0 + n / 0x4_0000 && bytes[1] == 0x80 + p && bytes[2] == 0x80 + q && bytes[3] == 0x80 + d;
    assert 0xF0 <= bytes[0] <= 0xF4;
    assert NoncharacterHead(bytes) <==> bytes[1] % 0x10 == 0x0F && q == 0x3F && d >= 0x3E;
    assert IsNoncharacter(c) <==> n % 0x1_0000 >= 0xFFFE;
  }

  lemma HeadOfCharacter(c: char, rest: seq<Byte>)
    ensures ControlHead(Utf8(c) + rest) <==> Control(c)
    ensures NoncharacterHead(Utf8(c) + rest) <==> IsNoncharacter(c)
  {
    if c as int < 0x800 {
      ShortHead(c, rest);
    } else if c as int < 0x1_0000 {
      ThreeByteHead(c, rest);
    } else {
      FourByteHead(c, rest);
    }
  }

  lemma CleanCharacter(c: char, rest: seq<Byte>)
    ensures Clean(Utf8(c) + rest) <==> !Forbidden(c) && Clean(rest)
  {
    HeadOfCharacter(c, rest);
    ContinuationsAreClean(Utf8(c)[1..], rest);
    assert (Utf8(c) + rest)[1..] == Utf8(c)[1..] + rest;
  }

  // Advancing byte by byte, blind to character boundaries, finds exactly the forbidden characters.
  lemma {:induction false} CleanIffNothingForbidden(value: string)
    ensures Clean(Encode(value)) <==> FirstForbidden(value) == |value|
  {
    if value != [] {
      CleanIffNothingForbidden(value[1..]);
      CleanCharacter(value[0], Encode(value[1..]));
    }
  }
}
