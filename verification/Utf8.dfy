/**
 The UTF-8 validator of the JSON library, against the encoding of section 3 and the
 grammar of section 4 of RFC 3629.
 */
module Utf8 {
  import opened Bytes

  /** A Unicode scalar value: a code point that is not a surrogate half. */
  type scalar = c: int | 0 <= c <= 0x10FFFF && !(0xD800 <= c <= 0xDFFF)

  // ------------------------------------------------------------------ the source's validator

  /** IS_CONT: the top two bits are 10. */
  predicate IsCont(c: byte) { c / 64 == 2 }

  function NumBytesInSequence(c: byte): (n: nat)
    ensures n <= 4
  {
    if c == 0xC0 || c == 0xC1 || c > 0xF4 || IsCont(c) then 0
    else if c < 0x80 then 1
    else if c / 32 == 6 then 2
    else if c / 16 == 14 then 3
    else if c / 8 == 30 then 4
    else 0
  }

  /** (cp << 6) | (c & 0x3F) */
  function Shift(cp: int, c: byte): int { cp * 64 + c % 64 }

  /** The code point assembled from the first n bytes, or None when a continuation byte is missing. */
  function Assemble(s: bytes, n: nat): Option<int>
    requires s != []
  {
    if n == 1 then Some(s[0])
    else if n == 2 && IsCont(At(s, 1)) then Some(Shift(s[0] % 32, At(s, 1)))
    else if n == 3 && IsCont(At(s, 1)) && IsCont(At(s, 2)) then
      Some(Shift(Shift(s[0] % 16, At(s, 1)), At(s, 2)))
    else if n == 4 && IsCont(At(s, 1)) && IsCont(At(s, 2)) && IsCont(At(s, 3)) then
      Some(Shift(Shift(Shift(s[0] % 8, At(s, 1)), At(s, 2)), At(s, 3)))
    else None
  }

  /** verify_utf8_sequence: the length of the sequence at the start of s, or 0 when it is refused. */
  function VerifySequence(s: bytes): (n: nat)
    requires s != []
    ensures n <= |s|
  {
    var n := NumBytesInSequence(s[0]);
    match Assemble(s, n)
    case None => 0
    case Some(cp) =>
      if (cp < 0x80 && n > 1) || (cp < 0x800 && n > 2) || (cp < 0x10000 && n > 3) then 0
      else if cp > 0x10FFFF then 0
      else if 0xD800 <= cp <= 0xDFFF then 0
      else n
  }

  // ------------------------------------------------------------------ section 4: the grammar

  predicate Tail(c: byte) { 0x80 <= c <= 0xBF }

  predicate Utf8Char1(s: bytes) { |s| == 1 && s[0] <= 0x7F }
  predicate Utf8Char2(s: bytes) { |s| == 2 && 0xC2 <= s[0] <= 0xDF && Tail(s[1]) }
  predicate Utf8Char3(s: bytes) {
    && |s| == 3
    && Tail(s[2])
    && (|| (s[0] == 0xE0 && 0xA0 <= s[1] <= 0xBF)
        || (0xE1 <= s[0] <= 0xEC && Tail(s[1]))
        || (s[0] == 0xED && 0x80 <= s[1] <= 0x9F)
        || (0xEE <= s[0] <= 0xEF && Tail(s[1])))
  }
  predicate Utf8Char4(s: bytes) {
    && |s| == 4
    && Tail(s[2])
    && Tail(s[3])
    && (|| (s[0] == 0xF0 && 0x90 <= s[1] <= 0xBF)
        || (0xF1 <= s[0] <= 0xF3 && Tail(s[1]))
        || (s[0] == 0xF4 && 0x80 <= s[1] <= 0x8F))
  }
  predicate Utf8Char(s: bytes) { Utf8Char1(s) || Utf8Char2(s) || Utf8Char3(s) || Utf8Char4(s) }

  /** UTF8-octets = *( UTF8-char ) */
  predicate Utf8Octets(s: bytes)
    decreases |s|
  {
    s == [] || exists k | 1 <= k <= |s| :: Utf8Char(s[..k]) && Utf8Octets(s[k..])
  }

  /** The validator accepts a first character exactly when the grammar does, with the same length. */
  lemma VerifyAgreesWithGrammar(s: bytes)
    requires s != []
    ensures VerifySequence(s) > 0 ==> Utf8Char(s[..VerifySequence(s)])
    ensures forall k | 1 <= k <= |s| && Utf8Char(s[..k]) :: k == VerifySequence(s)
  {
    var n := VerifySequence(s);
    forall k | 1 <= k <= |s| && Utf8Char(s[..k])
      ensures k == n
    {
      VerifyAccepts(s, k);
    }
  }

  lemma VerifyAccepts(s: bytes, k: nat)
    requires 1 <= k <= |s| && Utf8Char(s[..k])
    ensures VerifySequence(s) == k
  {
    assert s[..k][0] == s[0];
    assert k > 1 ==> s[..k][1] == s[1];
    assert k > 2 ==> s[..k][2] == s[2];
    assert k > 3 ==> s[..k][3] == s[3];
  }

  lemma OctetsStep(s: bytes)
    requires s != []
    ensures VerifySequence(s) == 0 ==> !Utf8Octets(s)
    ensures VerifySequence(s) > 0 ==> (Utf8Octets(s) <==> Utf8Octets(s[VerifySequence(s)..]))
  {
    hide VerifySequence, Utf8Char;
    VerifyAgreesWithGrammar(s);
  }

  lemma NoOctets(s: bytes)
    requires s == []
    ensures Utf8Octets(s)
  {
  }

  /** is_valid_utf8 accepts exactly the strings of the grammar. */
  method IsValidUtf8(s: bytes) returns (ok: bool)
    ensures ok <==> Utf8Octets(s)
  {
    hide VerifySequence, Utf8Octets;
    var i := 0;
    assert s[0..] == s;
    while i < |s|
      invariant i <= |s|
      invariant Utf8Octets(s) <==> Utf8Octets(s[i..])
    {
      var len := VerifySequence(s[i..]);
      OctetsStep(s[i..]);
      if len == 0 {
        return false;
      }
      assert s[i..][len..] == s[i + len..];
      i := i + len;
    }
    NoOctets(s[i..]);
    return true;
  }

  // ------------------------------------------------------------------ section 3: the encoding

  function Encode(c: scalar): (r: bytes)
    ensures 1 <= |r| <= 4
  {
    if c < 0x80 then [c]
    else if c < 0x800 then [0xC0 + c / 64, 0x80 + c % 64]
    else if c < 0x10000 then [0xE0 + c / 4096, 0x80 + c / 64 % 64, 0x80 + c % 64]
    else [0xF0 + c / 262144, 0x80 + c / 4096 % 64, 0x80 + c / 64 % 64, 0x80 + c % 64]
  }

  function EncodeAll(cs: seq<scalar>): bytes
  {
    if cs == [] then [] else Encode(cs[0]) + EncodeAll(cs[1..])
  }

  lemma EncodeTwo(c: scalar)
    requires 0x80 <= c < 0x800
    ensures Utf8Char2(Encode(c))
  {
    assert 2 <= c / 64 < 32;
  }

  lemma EncodeThree(c: scalar)
    requires 0x800 <= c < 0x10000
    ensures Utf8Char3(Encode(c))
  {
    var a, b := c / 4096, c / 64 % 64;
    assert c / 64 == a * 64 + b;
    assert a < 16;
    assert a == 0 ==> b >= 32;
    assert a == 13 ==> b < 32;
  }

  lemma EncodeFour(c: scalar)
    requires 0x10000 <= c
    ensures Utf8Char4(Encode(c))
  {
    var a, b := c / 262144, c / 4096 % 64;
    assert c / 4096 == a * 64 + b;
    assert a <= 4;
    assert a == 0 ==> b >= 16;
    assert a == 4 ==> b < 16;
  }

  lemma EncodeIsChar(c: scalar)
    ensures Utf8Char(Encode(c))
  {
    hide Utf8Char2, Utf8Char3, Utf8Char4;
    if 0x10000 <= c {
      EncodeFour(c);
    } else if 0x800 <= c {
      EncodeThree(c);
    } else if 0x80 <= c {
      EncodeTwo(c);
    }
  }

  /** The number with the given base-64 digits. */
  function FromSextets(a: int, b: int, d: int, e: int): int { ((a * 64 + b) * 64 + d) * 64 + e }

  /** Taking a number apart in base 64 gives back the digits it was put together from. */
  lemma SextetsOf(a: int, b: int, d: int, e: int)
    requires 0 <= a && 0 <= b < 64 && 0 <= d < 64 && 0 <= e < 64
    ensures var c := FromSextets(a, b, d, e);
            c / 262144 == a && c / 4096 == a * 64 + b && c / 4096 % 64 == b && c / 64 % 64 == d && c % 64 == e
  {
    var c := FromSextets(a, b, d, e);
    assert c / 64 == (a * 64 + b) * 64 + d;
    assert c / 4096 == a * 64 + b;
  }

  function DecodeChar3(s: bytes): (c: scalar)
    requires Utf8Char3(s)
    ensures Encode(c) == s
  {
    SextetsOf(0, s[0] - 0xE0, s[1] - 0x80, s[2] - 0x80);
    FromSextets(0, s[0] - 0xE0, s[1] - 0x80, s[2] - 0x80)
  }

  function DecodeChar4(s: bytes): (c: scalar)
    requires Utf8Char4(s)
    ensures Encode(c) == s
  {
    SextetsOf(s[0] - 0xF0, s[1] - 0x80, s[2] - 0x80, s[3] - 0x80);
    FromSextets(s[0] - 0xF0, s[1] - 0x80, s[2] - 0x80, s[3] - 0x80)
  }

  /** Every character of the grammar is the encoding of a scalar value. */
  function DecodeChar(s: bytes): (c: scalar)
    requires Utf8Char(s)
    ensures Encode(c) == s
  {
    if |s| == 1 then s[0]
    else if |s| == 2 then FromSextets(0, 0, s[0] - 0xC0, s[1] - 0x80)
    else if |s| == 3 then DecodeChar3(s)
    else DecodeChar4(s)
  }

  /** The scalar values a valid string encodes. */
  function DecodeAll(s: bytes): (cs: seq<scalar>)
    requires Utf8Octets(s)
    ensures EncodeAll(cs) == s
    decreases |s|
  {
    if s == [] then []
    else
      VerifyAgreesWithGrammar(s);
      var k := VerifySequence(s);
      assert s == s[..k] + s[k..];
      [DecodeChar(s[..k])] + DecodeAll(s[k..])
  }

  /** Together with DecodeAll: the grammar of section 4 is the image of the encoding of section 3. */
  lemma {:induction false} EncodeAllIsValid(cs: seq<scalar>)
    ensures Utf8Octets(EncodeAll(cs))
  {
    if cs != [] {
      EncodeAllIsValid(cs[1..]);
      EncodeIsChar(cs[0]);
      var s, k := EncodeAll(cs), |Encode(cs[0])|;
      assert s[..k] == Encode(cs[0]) && s[k..] == EncodeAll(cs[1..]);
    }
  }

  /** Cutting a valid string at its first NUL leaves a valid string. */
  lemma {:induction false} CutAtNulIsValid(s: bytes)
    requires Utf8Octets(s)
    ensures Utf8Octets(CStr(s))
    decreases |s|
  {
    if s != [] && s[0] != NUL {
      VerifyAgreesWithGrammar(s);
      var k := VerifySequence(s);
      CutAtNulIsValid(s[k..]);
      CStrPastChar(s, k);
      var r := CStr(s);
      assert r[..k] == s[..k] && r[k..] == CStr(s[k..]);
    }
  }

  lemma CStrPastChar(s: bytes, k: nat)
    requires 1 <= k <= |s| && Utf8Char(s[..k]) && s[0] != NUL
    ensures CStr(s) == s[..k] + CStr(s[k..])
  {
    hide Utf8Char, CStr;
    var c := s[..k];
    assert c[0] == s[0];
    CharHasNoNul(c);
    assert forall j | 0 <= j < k :: s[j] == c[j];
    CStrPast(s, k);
  }

  lemma CharHasNoNul(c: bytes)
    requires Utf8Char(c) && c[0] != NUL
    ensures forall j | 0 <= j < |c| :: c[j] != NUL
  {
  }

  lemma {:induction false} CStrPast(s: bytes, k: nat)
    requires k <= |s| && forall j | 0 <= j < k :: s[j] != NUL
    ensures CStr(s) == s[..k] + CStr(s[k..])
  {
    if k > 0 {
      CStrPast(s[1..], k - 1);
      assert s[1..][k - 1..] == s[k..];
      assert s[..k] == [s[0]] + s[1..][..k - 1];
    }
  }
}
