/**
 JSON string literals: the quote scanner, the unescaper with its UTF-16 surrogate
 pairs, and the escaper.
 */
module JsonString {
  import opened Bytes
  import opened Utf8

  // ------------------------------------------------------------------ scanning and unescaping

  function Plus(k: nat, r: Option<nat>): Option<nat>
  {
    if r.Some? then Some(k + r.value) else None
  }

  /** The quote scanner, run on what follows an opening quote: where the closing quote is. */
  function QuoteEnd(s: bytes): (r: Option<nat>)
    ensures r.Some? ==> r.value < |s|
  {
    if s == [] || s[0] == NUL then None
    else if s[0] == QUOTE then Some(0)
    else if s[0] != BACKSLASH then Plus(1, QuoteEnd(s[1..]))
    else if |s| < 2 || s[1] == NUL then None
    else Plus(2, QuoteEnd(s[2..]))
  }

  function HexValue(c: byte): (v: nat)
    requires IsHex(c)
    ensures v < 16
  {
    if c <= 57 then c - 48 else if c <= 70 then c - 55 else c - 87
  }

  /** is_utf16_hex at index i. */
  predicate Hex4(s: bytes, i: nat)
  {
    i + 4 <= |s| && IsHex(s[i]) && IsHex(s[i + 1]) && IsHex(s[i + 2]) && IsHex(s[i + 3])
  }

  /** sscanf with "%4x" on four hexadecimal digits. */
  function Hex4Value(s: bytes, i: nat): (v: nat)
    requires Hex4(s, i)
    ensures v < 0x10000
  {
    ((HexValue(s[i]) * 16 + HexValue(s[i + 1])) * 16 + HexValue(s[i + 2])) * 16 + HexValue(s[i + 3])
  }

  predicate IsLead(cp: int) { 0xD800 <= cp <= 0xDBFF }
  predicate IsTrail(cp: int) { 0xDC00 <= cp <= 0xDFFF }

  /** The code point of a surrogate pair (section 7 of RFC 8259). */
  function Combine(lead: nat, trail: nat): (c: scalar)
    requires IsLead(lead) && IsTrail(trail)
    ensures c >= 0x10000
  {
    ((lead - 0xD800) % 1024 * 1024 + (trail - 0xDC00) % 1024) + 0x10000
  }

  /** The bytes stored for a code point below 0x10000 that is not a surrogate. */
  function StoreUnit(cp: nat): bytes
    requires cp < 0x10000
  {
    if cp < 0x80 then [cp]
    else if cp < 0x800 then [cp / 64 % 32 + 0xC0, cp % 64 + 0x80]
    else [cp / 4096 % 16 + 0xE0, cp / 64 % 64 + 0x80, cp % 64 + 0x80]
  }

  /** The bytes stored for the code point of a surrogate pair. */
  function StorePair(cp: nat): bytes
  {
    [cp / 262144 % 8 + 0xF0, cp / 4096 % 64 + 0x80, cp / 64 % 64 + 0x80, cp % 64 + 0x80]
  }

  /** What one \u escape (a pair of them for a surrogate pair) decodes to and how long it is. */
  datatype Escape = Escape(decoded: bytes, length: nat)

  /** parse_utf_16, on the text from the u of the escape. */
  function Utf16Escape(s: bytes): (r: Option<Escape>)
    ensures r.Some? ==> |r.value.decoded| <= r.value.length <= |s|
  {
    if !Hex4(s, 1) then None
    else
      var cp := Hex4Value(s, 1);
      if !IsLead(cp) && !IsTrail(cp) then Some(Escape(StoreUnit(cp), 5))
      else if IsLead(cp) && |s| >= 11 && s[5] == BACKSLASH && s[6] == LOWER_U && Hex4(s, 7)
              && IsTrail(Hex4Value(s, 7)) then
        Some(Escape(StorePair(Combine(cp, Hex4Value(s, 7))), 11))
      else None
  }

  /** The escapes of a backslash and one character. */
  function SimpleEscape(c: byte): Option<byte>
  {
    if c == QUOTE then Some(QUOTE)
    else if c == BACKSLASH then Some(BACKSLASH)
    else if c == SLASH then Some(SLASH)
    else if c == 98 then Some(8)
    else if c == 102 then Some(12)
    else if c == 110 then Some(10)
    else if c == 114 then Some(13)
    else if c == 116 then Some(9)
    else None
  }

  function Prepend(p: bytes, r: Option<bytes>): Option<bytes>
  {
    if r.Some? then Some(p + r.value) else None
  }

  /** What the bytes between two quotes decode to, before the C string is cut at a NUL. */
  function Unescape(s: bytes): (r: Option<bytes>)
    ensures r.Some? ==> |r.value| <= |s|
  {
    if s == [] then Some([])
    else if s[0] == BACKSLASH then
      if |s| < 2 then None
      else if s[1] == LOWER_U then
        match Utf16Escape(s[1..])
        case None => None
        case Some(e) => Prepend(e.decoded, Unescape(s[1 + e.length..]))
      else
        match SimpleEscape(s[1])
        case None => None
        case Some(c) => Prepend([c], Unescape(s[2..]))
    else if s[0] < 0x20 then None
    else Prepend([s[0]], Unescape(s[1..]))
  }

  /** get_quoted_string on text that starts with a quote: the decoded C string and what follows. */
  datatype Quoted = NotQuoted | Quoted(text: bytes, rest: bytes)

  function QuotedString(s: bytes): (r: Quoted)
    ensures r.Quoted? ==> |r.rest| + 2 <= |s|
  {
    if s == [] || s[0] != QUOTE then NotQuoted
    else
      match QuoteEnd(s[1..])
      case None => NotQuoted
      case Some(k) =>
        match Unescape(s[1..][..k])
        case None => NotQuoted
        case Some(t) => Quoted(CStr(t), s[k + 2..])
  }

  // ------------------------------------------------------------------ the loops of the source

  /** skip_quotes: the cursor ends just past the closing quote, and never passes the terminator. */
  method SkipQuotes(s: bytes, start: nat) returns (ok: bool, pos: nat)
    requires start <= |s| && NulFree(s)
    ensures start <= pos <= |s|
    ensures ok <==> start < |s| && s[start] == QUOTE && QuoteEnd(s[start + 1..]).Some?
    ensures ok ==> QuoteEnd(s[start + 1..]) == Some(pos - start - 2)
  {
    hide QuoteEnd;
    pos := start;
    if At(s, pos) != QUOTE {
      return false, pos;
    }
    pos := pos + 1;
    while At(s, pos) != QUOTE
      invariant start < pos <= |s|
      invariant QuoteEnd(s[start + 1..]) == Plus(pos - start - 1, QuoteEnd(s[pos..]))
      decreases |s| - pos
    {
      var step := 1;
      if At(s, pos) == NUL {
        QuoteEndAt(s, pos);
        return false, pos;
      } else if At(s, pos) == BACKSLASH {
        step := 2;
        if At(s, pos + 1) == NUL {
          QuoteEndAt(s, pos);
          return false, pos + 1;
        }
      }
      ScanStep(s, start, pos, step);
      pos := pos + step;
    }
    QuoteEndAt(s, pos);
    return true, pos + 1;
  }

  lemma ScanStep(s: bytes, start: nat, pos: nat, step: nat)
    requires start < pos < |s| && NulFree(s) && s[pos] != QUOTE
    requires step == (if s[pos] == BACKSLASH then 2 else 1) && pos + step <= |s|
    requires QuoteEnd(s[start + 1..]) == Plus(pos - start - 1, QuoteEnd(s[pos..]))
    ensures QuoteEnd(s[start + 1..]) == Plus(pos + step - start - 1, QuoteEnd(s[pos + step..]))
  {
    QuoteEndAt(s, pos);
    PlusTwice(pos - start - 1, step, QuoteEnd(s[pos + step..]));
  }

  lemma {:induction false} QuoteEndIsQuote(s: bytes)
    requires QuoteEnd(s).Some?
    ensures s[QuoteEnd(s).value] == QUOTE
  {
    if s[0] == BACKSLASH {
      QuoteEndIsQuote(s[2..]);
    } else if s[0] != QUOTE {
      QuoteEndIsQuote(s[1..]);
    }
  }

  lemma PlusTwice(j: nat, k: nat, r: Option<nat>)
    ensures Plus(j, Plus(k, r)) == Plus(j + k, r)
  {
  }

  /** One turn of the scanner at a cursor. */
  lemma QuoteEndAt(s: bytes, pos: nat)
    requires pos <= |s| && NulFree(s)
    ensures QuoteEnd(s[pos..]) ==
            if pos == |s| then None
            else if s[pos] == QUOTE then Some(0)
            else if s[pos] != BACKSLASH then Plus(1, QuoteEnd(s[pos + 1..]))
            else if pos + 1 == |s| then None
            else Plus(2, QuoteEnd(s[pos + 2..]))
  {
    var t := s[pos..];
    if pos < |s| {
      assert t[0] == s[pos] && t[1..] == s[pos + 1..];
      if pos + 1 < |s| {
        assert t[1] == s[pos + 1] && t[2..] == s[pos + 2..];
      }
    }
  }

  /** Runs of hexadecimal digits hold no quote and no backslash, so the scanner walks over them. */
  lemma {:induction false} QuoteEndPastHex(s: bytes, k: nat)
    requires k <= |s| && forall j | 0 <= j < k :: IsHex(s[j])
    ensures QuoteEnd(s) == Plus(k, QuoteEnd(s[k..]))
  {
    if k > 0 {
      QuoteEndPastHex(s[1..], k - 1);
      assert s[1..][k - 1..] == s[k..];
    }
  }

  /**
   parse_utf_16 on a literal that ends at its closing quote: the checks are made one byte at a
   time, and no byte behind the quote is ever read, not even inside a surrogate pair.
   */
  method ParseUtf16(lit: bytes, u: nat) returns (r: Option<Escape>)
    requires u + 1 < |lit| && lit[|lit| - 1] == QUOTE
    ensures r == Utf16Escape(lit[u..|lit| - 1])
  {
    if !(IsHex(lit[u + 1]) && IsHex(lit[u + 2]) && IsHex(lit[u + 3]) && IsHex(lit[u + 4])) {
      return None;
    }
    var cp := Hex4Value(lit, u + 1);
    if !IsLead(cp) && !IsTrail(cp) {
      return Some(Escape(StoreUnit(cp), 5));
    }
    if IsTrail(cp) || lit[u + 5] != BACKSLASH || lit[u + 6] != LOWER_U
       || !(IsHex(lit[u + 7]) && IsHex(lit[u + 8]) && IsHex(lit[u + 9]) && IsHex(lit[u + 10])) {
      return None;
    }
    var trail := Hex4Value(lit, u + 7);
    if !IsTrail(trail) {
      return None;
    }
    return Some(Escape(StorePair(Combine(cp, trail)), 11));
  }

  lemma QuoteEndPastUnit(s: bytes)
    requires UnitShape(s)
    ensures QuoteEnd(s) == Plus(6, QuoteEnd(s[6..]))
  {
    assert QuoteEnd(s) == Plus(2, QuoteEnd(s[2..]));
    assert forall j | 0 <= j < 4 :: s[2..][j] == s[2 + j] && IsHex(s[2 + j]);
    QuoteEndPastHex(s[2..], 4);
    assert s[2..][4..] == s[6..];
  }

  /** The text s starts with one escape of the form \uXXXX, or with two in a row. */
  predicate EscapeShape(s: bytes, length: nat)
  {
    && length <= |s|
    && ((length == 6 && UnitShape(s)) || (length == 12 && UnitShape(s) && UnitShape(s[6..])))
  }

  predicate UnitShape(s: bytes)
  {
    |s| >= 6 && s[0] == BACKSLASH && s[1] == LOWER_U && Hex4(s, 2)
  }

  lemma Utf16EscapeShape(s: bytes, end: nat)
    requires 2 <= end <= |s| && s[0] == BACKSLASH && s[1] == LOWER_U
    requires Utf16Escape(s[1..end]).Some?
    ensures EscapeShape(s, 1 + Utf16Escape(s[1..end]).value.length)
  {
    var c := s[1..end];
    assert forall j | 0 <= j < |c| :: c[j] == s[j + 1];
    if Utf16Escape(c).value.length == 11 {
      assert forall j | 0 <= j < 6 :: s[6..][j] == c[5 + j];
    }
  }

  /** The scanner's view of the escape the unescaper has just consumed. */
  lemma QuoteEndPastEscape(s: bytes, k: nat)
    requires EscapeShape(s, k)
    ensures QuoteEnd(s) == Plus(k, QuoteEnd(s[k..]))
  {
    QuoteEndPastUnit(s);
    if k == 12 {
      QuoteEndPastUnit(s[6..]);
      assert s[6..][6..] == s[12..];
      PlusTwice(6, 6, QuoteEnd(s[12..]));
    }
  }

  /** One turn of process_string: the bytes stored, and how much of the literal they stand for. */
  function UnescapeStep(s: bytes): (r: Option<Escape>)
    requires s != []
    ensures r.Some? ==> 1 <= r.value.length <= |s| && |r.value.decoded| <= r.value.length
  {
    if s[0] != BACKSLASH then (if s[0] < 0x20 then None else Some(Escape([s[0]], 1)))
    else if |s| < 2 then None
    else if s[1] == LOWER_U then
      var e := Utf16Escape(s[1..]);
      if e.None? then None else Some(Escape(e.value.decoded, 1 + e.value.length))
    else
      var c := SimpleEscape(s[1]);
      if c.None? then None else Some(Escape([c.value], 2))
  }

  lemma UnescapeBySteps(s: bytes)
    requires s != []
    ensures var e := UnescapeStep(s);
            Unescape(s) == if e.None? then None else Prepend(e.value.decoded, Unescape(s[e.value.length..]))
  {
    if s[0] == BACKSLASH && |s| >= 2 && s[1] == LOWER_U && Utf16Escape(s[1..]).Some? {
      var k := Utf16Escape(s[1..]).value.length;
      assert s[1 + k..] == s[1..][k..];
    }
  }

  /** The unescaper stays in step with the quote scanner. */
  lemma InStep(s: bytes, end: nat, r: Escape)
    requires 0 < end && QuoteEnd(s) == Some(end) && UnescapeStep(s[..end]) == Some(r)
    ensures r.length <= end && QuoteEnd(s[r.length..]) == Some(end - r.length)
  {
    if s[0] == BACKSLASH && s[1] == LOWER_U {
      assert s[..end][1..] == s[1..end];
      Utf16EscapeShape(s, end);
      QuoteEndPastEscape(s, r.length);
    }
  }

  /** Where process_string stands: i bytes of the literal have become the bytes in done. */
  ghost predicate Processed(lit: bytes, len: nat, i: nat, done: bytes)
    requires |lit| == len + 1
  {
    && |done| <= i <= len
    && QuoteEnd(lit[i..]) == Some(len - i)
    && Unescape(lit[..len]) == Prepend(done, Unescape(lit[i..len]))
  }

  lemma ProcessedStart(lit: bytes, len: nat)
    requires |lit| == len + 1 && QuoteEnd(lit) == Some(len)
    ensures Processed(lit, len, 0, [])
  {
    assert lit[0..] == lit && lit[0..len] == lit[..len];
    PrependNothing(Unescape(lit[..len]));
  }

  lemma ProcessedStep(lit: bytes, len: nat, i: nat, done: bytes)
    requires |lit| == len + 1 && i < len && Processed(lit, len, i, done)
    ensures var e := UnescapeStep(lit[i..len]);
            if e.None? then Unescape(lit[..len]) == None
            else Processed(lit, len, i + e.value.length, done + e.value.decoded)
  {
    var s, e := lit[i..], UnescapeStep(lit[i..len]);
    UnescapeBySteps(lit[i..len]);
    if e.Some? {
      var k := e.value.length;
      assert s[..len - i] == lit[i..len];
      InStep(s, len - i, e.value);
      assert s[k..] == lit[i + k..];
      assert lit[i..len][k..] == lit[i + k..len];
      PrependTwice(done, e.value.decoded, Unescape(lit[i + k..len]));
    }
  }

  lemma ProcessedEnd(lit: bytes, len: nat, done: bytes)
    requires |lit| == len + 1 && Processed(lit, len, len, done)
    ensures Unescape(lit[..len]) == Some(done)
  {
    assert lit[len..len] == [];
    assert done + [] == done;
  }

  /** The step the switch of process_string takes, one byte read at a time. */
  method ReadStep(lit: bytes, len: nat, i: nat, ghost done: bytes) returns (e: Option<Escape>)
    requires |lit| == len + 1 && i < len && Processed(lit, len, i, done)
    ensures if e.None? then Unescape(lit[..len]) == None
            else && 0 < e.value.length <= len - i && |done| + |e.value.decoded| <= len
                 && Processed(lit, len, i + e.value.length, done + e.value.decoded)
  {
    e := SwitchStep(lit, len, i);
    ProcessedStep(lit, len, i, done);
  }

  method SwitchStep(lit: bytes, len: nat, i: nat) returns (e: Option<Escape>)
    requires |lit| == len + 1 && i < len && QuoteEnd(lit[i..]) == Some(len - i)
    ensures e == UnescapeStep(lit[i..len])
  {
    QuoteEndIsQuote(lit[i..]);
    if lit[i] == BACKSLASH {
      assert i + 1 < len;
      if lit[i + 1] == LOWER_U {
        var u := ParseUtf16(lit, i + 1);
        assert lit[i..len][1..] == lit[i + 1..len];
        return if u.None? then None else Some(Escape(u.value.decoded, 1 + u.value.length));
      }
      var c := SimpleEscape(lit[i + 1]);
      return if c.None? then None else Some(Escape([c.value], 2));
    }
    return if lit[i] < 0x20 then None else Some(Escape([lit[i]], 1));
  }

  /**
   process_string, given the literal up to and including its closing quote. On success the
   input cursor stops exactly at the quote; a buffer of len + 1 bytes holds the output and
   its terminator.
   */
  method ProcessString(lit: bytes, len: nat) returns (r: Option<bytes>)
    requires |lit| == len + 1 && NulFree(lit)
    requires QuoteEnd(lit) == Some(len)
    ensures r == Unescape(lit[..len])
  {
    hide Processed, QuoteEnd, Unescape;
    var output := new byte[len + 1];
    var i: nat, j: nat := 0, 0;
    ProcessedStart(lit, len);
    while At(lit, i) != NUL && i < len
      invariant i <= len && j <= len && Processed(lit, len, i, output[..j])
      decreases len - i
    {
      var e := ReadStep(lit, len, i, output[..j]);
      if e.None? {
        return None;
      }
      CopyInto(output, j, e.value.decoded);
      i, j := i + e.value.length, j + |e.value.decoded|;
    }
    ProcessedEnd(lit, len, output[..j]);
    r := Some(output[..j]);
    output[j] := NUL;
  }

  lemma PrependNothing(r: Option<bytes>)
    ensures Prepend([], r) == r
  {
    if r.Some? {
      assert [] + r.value == r.value;
    }
  }

  method CopyInto(a: array<byte>, at: nat, s: bytes)
    requires at + |s| <= a.Length
    modifies a
    ensures a[..at + |s|] == old(a[..at]) + s
    ensures a[at + |s|..] == old(a[at + |s|..])
  {
    for k := 0 to |s|
      invariant a[..at + k] == old(a[..at]) + s[..k]
      invariant a[at + |s|..] == old(a[at + |s|..])
    {
      a[at + k] := s[k];
    }
  }

  lemma PrependTwice(a: bytes, b: bytes, r: Option<bytes>)
    ensures Prepend(a, Prepend(b, r)) == Prepend(a + b, r)
  {
    if r.Some? {
      assert a + (b + r.value) == (a + b) + r.value;
    }
  }

  /** get_quoted_string: skip_quotes, then process_string on the bytes it passed over. */
  method GetQuotedString(s: bytes, start: nat) returns (r: Option<bytes>, pos: nat)
    requires start <= |s| && NulFree(s)
    ensures start <= pos <= |s|
    ensures r.Some? <==> QuotedString(s[start..]).Quoted?
    ensures r.Some? ==> QuotedString(s[start..]) == Quoted(r.value, s[pos..])
  {
    var ok;
    ok, pos := SkipQuotes(s, start);
    assert start < |s| ==> s[start..][1..] == s[start + 1..];
    if !ok {
      return None, pos;
    }
    var len := pos - start - 2;
    var lit := s[start + 1..start + 2 + len];
    QuoteEndOfPrefix(s[start + 1..]);
    assert lit == s[start + 1..][..len + 1] && lit[..len] == s[start + 1..][..len];
    var t := ProcessString(lit, len);
    if t.None? {
      return None, pos;
    }
    assert s[start..][len + 2..] == s[pos..];
    return Some(CStr(t.value)), pos;
  }

  /** The scanner needs nothing behind the quote it stops at. */
  lemma {:induction false} QuoteEndOfPrefix(s: bytes)
    requires QuoteEnd(s).Some?
    ensures QuoteEnd(s[..QuoteEnd(s).value + 1]) == QuoteEnd(s)
  {
    var k := QuoteEnd(s).value;
    if s[0] == BACKSLASH {
      QuoteEndOfPrefix(s[2..]);
      assert s[2..][..k - 1] == s[..k + 1][2..];
    } else if s[0] != QUOTE {
      QuoteEndOfPrefix(s[1..]);
      assert s[1..][..k] == s[..k + 1][1..];
    }
  }

  // ------------------------------------------------------------------ escaping

  function HexDigit(d: nat): byte
    requires d < 16
  {
    if d < 10 then 48 + d else 87 + d
  }

  /** One case of the switch in json_serialize_string. */
  function EscapeByte(c: byte): (r: bytes)
    ensures r != []
  {
    if c == QUOTE then [BACKSLASH, QUOTE]
    else if c == BACKSLASH then [BACKSLASH, BACKSLASH]
    else if c == SLASH then [BACKSLASH, SLASH]
    else if c == 8 then [BACKSLASH, 98]
    else if c == 12 then [BACKSLASH, 102]
    else if c == 10 then [BACKSLASH, 110]
    else if c == 13 then [BACKSLASH, 114]
    else if c == 9 then [BACKSLASH, 116]
    else if c < 0x20 then [BACKSLASH, LOWER_U, ZERO, ZERO, HexDigit(c / 16), HexDigit(c % 16)]
    else [c]
  }

  function EscapeBytes(s: bytes): bytes
  {
    if s == [] then [] else EscapeByte(s[0]) + EscapeBytes(s[1..])
  }

  /** json_serialize_string */
  function StringText(s: bytes): bytes
  {
    [QUOTE] + EscapeBytes(s) + [QUOTE]
  }

  /** The unescaper's step undoes the escape of one byte. */
  lemma ByteStep(c: byte, rest: bytes)
    ensures UnescapeStep(EscapeByte(c) + rest) == Some(Escape([c], |EscapeByte(c)|))
  {
    var s := EscapeByte(c) + rest;
    if |EscapeByte(c)| == 6 {
      HexByteStep(c, s);
    } else {
      hide Utf16Escape, Hex4, Hex4Value;
      assert s[0] == EscapeByte(c)[0];
      assert |EscapeByte(c)| == 2 ==> s[1] == EscapeByte(c)[1];
    }
  }

  lemma HexByteStep(c: byte, s: bytes)
    requires |EscapeByte(c)| == 6 && EscapeByte(c) <= s
    ensures UnescapeStep(s) == Some(Escape([c], 6))
  {
    var t := s[1..];
    assert t[0] == LOWER_U && t[1] == ZERO && t[2] == ZERO && t[3] == HexDigit(c / 16) && t[4] == HexDigit(c % 16);
    assert Hex4Value(t, 1) == c;
  }

  /** Unescaping the escape of one byte and then the rest. */
  lemma UnescapeByte(c: byte, rest: bytes)
    ensures Unescape(EscapeByte(c) + rest) == Prepend([c], Unescape(rest))
  {
    hide EscapeByte, UnescapeStep, Unescape;
    var s := EscapeByte(c) + rest;
    ByteStep(c, rest);
    UnescapeBySteps(s);
    assert s[|EscapeByte(c)|..] == rest;
  }

  lemma QuoteEndPastByte(c: byte, rest: bytes)
    requires c != NUL
    ensures QuoteEnd(EscapeByte(c) + rest) == Plus(|EscapeByte(c)|, QuoteEnd(rest))
  {
    var e := EscapeByte(c);
    var s := e + rest;
    assert s[|e|..] == rest;
    if |e| == 6 {
      assert s[0] == e[0] && s[1] == e[1] && s[2] == e[2] && s[3] == e[3] && s[4] == e[4] && s[5] == e[5];
      hide QuoteEnd;
      QuoteEndPastUnit(s);
    } else if |e| == 2 {
      QuoteEndPastPair(e[1], rest);
      assert e == [BACKSLASH, e[1]];
    }
  }

  lemma QuoteEndPastPair(x: byte, rest: bytes)
    requires x != NUL
    ensures QuoteEnd([BACKSLASH, x] + rest) == Plus(2, QuoteEnd(rest))
  {
    assert ([BACKSLASH, x] + rest)[2..] == rest;
  }

  /** The unescaper undoes the escaper on every byte string. */
  lemma {:induction false} UnescapeEscape(s: bytes)
    ensures Unescape(EscapeBytes(s)) == Some(s)
  {
    if s != [] {
      UnescapeEscape(s[1..]);
      UnescapeByte(s[0], EscapeBytes(s[1..]));
      assert s == [s[0]] + s[1..];
    }
  }

  lemma {:induction false} QuoteEndEscape(s: bytes, rest: bytes)
    requires NulFree(s)
    ensures QuoteEnd(EscapeBytes(s) + [QUOTE] + rest) == Some(|EscapeBytes(s)|)
  {
    if s == [] {
      assert EscapeBytes(s) + [QUOTE] + rest == [QUOTE] + rest;
    } else {
      var e, t := EscapeByte(s[0]), EscapeBytes(s[1..]);
      QuoteEndEscape(s[1..], rest);
      QuoteEndPastByte(s[0], t + [QUOTE] + rest);
      assert EscapeBytes(s) + [QUOTE] + rest == e + (t + [QUOTE] + rest);
    }
  }

  /** Reading back a serialised string gives the string and leaves what follows its closing quote. */
  lemma QuotedStringText(s: bytes, rest: bytes)
    requires NulFree(s)
    ensures QuotedString(StringText(s) + rest) == Quoted(s, rest)
  {
    var t := StringText(s) + rest;
    var k := |EscapeBytes(s)|;
    assert t[1..] == EscapeBytes(s) + [QUOTE] + rest;
    QuoteEndEscape(s, rest);
    assert t[1..][..k] == EscapeBytes(s);
    UnescapeEscape(s);
    CStrOfNulFree(s);
    assert t[k + 2..] == rest;
  }

  // ------------------------------------------------------------------ decoding of code points

  /** One escape or one plain character, and how many characters it takes. */
  datatype Step = Step(c: scalar, length: nat)

  function ScalarStep(cs: seq<scalar>): (r: Option<Step>)
    requires cs != []
    ensures r.Some? ==> 1 <= r.value.length <= |cs|
  {
    if cs[0] != BACKSLASH then (if cs[0] < 0x20 then None else Some(Step(cs[0], 1)))
    else if |cs| < 2 then None
    else if cs[1] == LOWER_U then
      if !HexScalars(cs, 2) then None
      else
        var unit := ScalarHex(cs, 2);
        if !IsLead(unit) && !IsTrail(unit) then Some(Step(unit, 6))
        else if IsLead(unit) && |cs| >= 8 && cs[6] == BACKSLASH && cs[7] == LOWER_U && HexScalars(cs, 8)
                && IsTrail(ScalarHex(cs, 8)) then Some(Step(Combine(unit, ScalarHex(cs, 8)), 12))
        else None
    else if cs[1] < 0x80 && SimpleEscape(cs[1]).Some? then Some(Step(SimpleEscape(cs[1]).value, 2))
    else None
  }

  /**
   Section 7 of RFC 8259 read on code points instead of bytes: what the characters between
   two quotes stand for. It is the reference the byte-level unescaper is compared with.
   */
  function UnescapeScalars(cs: seq<scalar>): Option<seq<scalar>>
  {
    if cs == [] then Some([])
    else match ScalarStep(cs)
         case None => None
         case Some(step) => PrependScalar(step.c, UnescapeScalars(cs[step.length..]))
  }

  function PrependScalar(c: scalar, r: Option<seq<scalar>>): Option<seq<scalar>>
  {
    if r.Some? then Some([c] + r.value) else None
  }

  predicate HexScalars(cs: seq<scalar>, i: nat)
  {
    i + 4 <= |cs| && forall j | i <= j < i + 4 :: cs[j] < 0x80 && IsHex(cs[j])
  }

  function ScalarHex(cs: seq<scalar>, i: nat): nat
    requires HexScalars(cs, i)
  {
    Hex4Value([cs[i], cs[i + 1], cs[i + 2], cs[i + 3]], 0)
  }

  function EncodeResult(r: Option<seq<scalar>>): Option<bytes>
  {
    if r.Some? then Some(EncodeAll(r.value)) else None
  }

  /** The encoding starts with an ASCII byte exactly when its first character is that byte. */
  lemma EncodeHead(cs: seq<scalar>)
    requires cs != []
    ensures EncodeAll(cs) != []
    ensures cs[0] < 0x80 ==> EncodeAll(cs)[0] == cs[0] && EncodeAll(cs)[1..] == EncodeAll(cs[1..])
    ensures cs[0] >= 0x80 ==> forall j | 0 <= j < |Encode(cs[0])| :: EncodeAll(cs)[j] >= 0x80
  {
    var e := Encode(cs[0]);
    EncodeIsChar(cs[0]);
    assert forall j | 0 <= j < |e| :: EncodeAll(cs)[j] == e[j];
    assert cs[0] >= 0x80 ==> forall j | 0 <= j < |e| :: e[j] >= 0x80;
  }

  /** Walking over k ASCII characters of an encoding. */
  lemma {:induction false} EncodePrefix(cs: seq<scalar>, k: nat)
    requires k <= |cs| && forall j | 0 <= j < k :: cs[j] < 0x80
    ensures |EncodeAll(cs)| >= k
    ensures forall j | 0 <= j < k :: EncodeAll(cs)[j] == cs[j]
    ensures EncodeAll(cs)[k..] == EncodeAll(cs[k..])
  {
    if k > 0 {
      EncodeHead(cs);
      EncodePrefix(cs[1..], k - 1);
      assert cs[1..][k - 1..] == cs[k..];
      var e := EncodeAll(cs);
      assert e[1..][k - 1..] == e[k..];
      assert forall j | 1 <= j < k :: e[j] == e[1..][j - 1] && cs[j] == cs[1..][j - 1];
    }
  }

  /** The bytes e and the characters cs share exactly n leading ASCII characters. */
  ghost predicate SharedAscii(e: bytes, cs: seq<scalar>, n: nat)
  {
    && n <= |e| && n <= |cs|
    && (forall j | 0 <= j < n :: e[j] == cs[j] < 0x80)
    && (n == |e| <==> n == |cs|)
    && (n < |e| && n < |cs| ==> e[n] >= 0x80 && cs[n] >= 0x80)
  }

  lemma {:induction false} EncodingSharesAscii(cs: seq<scalar>) returns (n: nat)
    ensures SharedAscii(EncodeAll(cs), cs, n)
  {
    if cs == [] {
      n := 0;
    } else {
      EncodeHead(cs);
      if cs[0] >= 0x80 {
        n := 0;
      } else {
        n := EncodingSharesAscii(cs[1..]);
        n := n + 1;
        var e := EncodeAll(cs);
        assert forall j | 1 <= j < |e| :: e[j] == e[1..][j - 1];
        assert forall j | 1 <= j < |cs| :: cs[j] == cs[1..][j - 1];
      }
    }
  }

  lemma HexAgrees(e: bytes, cs: seq<scalar>, n: nat, i: nat)
    requires SharedAscii(e, cs, n) && i <= n
    ensures Hex4(e, i) <==> HexScalars(cs, i)
    ensures HexScalars(cs, i) ==> i + 4 <= n && Hex4Value(e, i) == ScalarHex(cs, i)
  {
    assert forall j | i <= j < i + 4 && j < n :: e[j] == cs[j];
    if HexScalars(cs, i) {
      assert cs[i] < 0x80 && cs[i + 1] < 0x80 && cs[i + 2] < 0x80 && cs[i + 3] < 0x80;
    }
  }

  lemma StoresEncoding(c: scalar)
    ensures c < 0x10000 ==> StoreUnit(c) == Encode(c)
    ensures c >= 0x10000 ==> StorePair(c) == Encode(c)
  {
  }

  /** The byte-level step is the character-level step, and stays within the shared ASCII. */
  ghost predicate StepsAgree(e: bytes, cs: seq<scalar>, n: nat)
    requires e != [] && cs != []
  {
    var b, c := UnescapeStep(e), ScalarStep(cs);
    if c.None? then b.None?
    else b == Some(Escape(Encode(c.value.c), c.value.length)) && c.value.length <= n
  }

  lemma SimpleStepAgrees(e: bytes, cs: seq<scalar>, n: nat)
    requires SharedAscii(e, cs, n) && n > 0
    requires !(|cs| >= 2 && cs[0] == BACKSLASH && cs[1] == LOWER_U)
    ensures StepsAgree(e, cs, n)
  {
    var step := ScalarStep(cs);
    if step.Some? {
      StoresEncoding(step.value.c);
    }
  }

  /** The \u case of the step, with its tests read off the whole text instead of from the u on. */
  lemma Utf16EscapeAt(e: bytes)
    requires |e| >= 2 && e[0] == BACKSLASH && e[1] == LOWER_U
    ensures UnescapeStep(e) ==
            if !Hex4(e, 2) then None
            else if !IsLead(Hex4Value(e, 2)) && !IsTrail(Hex4Value(e, 2))
                then Some(Escape(StoreUnit(Hex4Value(e, 2)), 6))
            else if IsLead(Hex4Value(e, 2)) && |e| >= 8 && e[6] == BACKSLASH && e[7] == LOWER_U && Hex4(e, 8)
                    && IsTrail(Hex4Value(e, 8)) then
              Some(Escape(StorePair(Combine(Hex4Value(e, 2), Hex4Value(e, 8))), 12))
            else None
  {
    var t := e[1..];
    assert forall j | 0 <= j < |t| :: t[j] == e[j + 1];
  }

  lemma UnicodeStepAgrees(e: bytes, cs: seq<scalar>, n: nat)
    requires SharedAscii(e, cs, n) && n >= 2 && cs[0] == BACKSLASH && cs[1] == LOWER_U
    ensures StepsAgree(e, cs, n)
  {
    Utf16EscapeAt(e);
    HexAgrees(e, cs, n, 2);
    if HexScalars(cs, 2) {
      if n >= 8 {
        HexAgrees(e, cs, n, 8);
      }
      var step := ScalarStep(cs);
      if step.Some? {
        StoresEncoding(step.value.c);
      }
    }
  }

  /** Bytes above 0x7F pass through the unescaper as they are. */
  lemma {:induction false} RawRun(s: bytes, k: nat)
    requires k <= |s| && forall j | 0 <= j < k :: s[j] >= 0x80
    ensures Unescape(s) == Prepend(s[..k], Unescape(s[k..]))
  {
    if k == 0 {
      PrependNothing(Unescape(s));
    } else {
      RawRun(s[1..], k - 1);
      assert s[1..][k - 1..] == s[k..];
      PrependTwice([s[0]], s[1..][..k - 1], Unescape(s[k..]));
      assert [s[0]] + s[1..][..k - 1] == s[..k];
    }
  }

  /**
   Unescaping the UTF-8 of any characters gives the UTF-8 of the characters they stand for
   (and fails exactly when they stand for nothing): each \u escape and each surrogate pair
   becomes the encoding of its code point.
   */
  lemma {:induction false} UnescapeEncoded(cs: seq<scalar>)
    ensures Unescape(EncodeAll(cs)) == EncodeResult(UnescapeScalars(cs))
  {
    if cs != [] {
      var e, step := EncodeAll(cs), ScalarStep(cs);
      EncodeHead(cs);
      if cs[0] < 0x80 {
        var n := EncodingSharesAscii(cs);
        if |cs| >= 2 && cs[0] == BACKSLASH && cs[1] == LOWER_U {
          UnicodeStepAgrees(e, cs, n);
        } else {
          SimpleStepAgrees(e, cs, n);
        }
        UnescapeBySteps(e);
        if step.Some? {
          EncodePrefix(cs, step.value.length);
        }
      } else {
        var k := |Encode(cs[0])|;
        RawRun(e, k);
        assert e[..k] == Encode(cs[0]) && e[k..] == EncodeAll(cs[1..]);
      }
      if step.Some? {
        UnescapeEncoded(cs[step.value.length..]);
        EncodePrepended(step.value.c, UnescapeScalars(cs[step.value.length..]));
      }
    }
  }

  lemma EncodePrepended(c: scalar, r: Option<seq<scalar>>)
    ensures EncodeResult(PrependScalar(c, r)) == Prepend(Encode(c), EncodeResult(r))
  {
    if r.Some? {
      assert ([c] + r.value)[1..] == r.value;
    }
  }

  /** Valid UTF-8 between the quotes makes the decoded C string valid UTF-8. */
  lemma DecodedIsValid(s: bytes)
    requires Utf8Octets(s) && Unescape(s).Some?
    ensures Utf8Octets(Unescape(s).value) && Utf8Octets(CStr(Unescape(s).value))
  {
    UnescapeEncoded(DecodeAll(s));
    EncodeAllIsValid(UnescapeScalars(DecodeAll(s)).value);
    CutAtNulIsValid(Unescape(s).value);
  }
}
