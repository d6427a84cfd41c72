/**
 The grammar of RFC 8259, with any white space, any escapes and any numbers: what every text
 of it denotes, and that the parser finds just that, or refuses it for a stated reason.
 */
module JsonGrammar {
  import opened Bytes
  import opened Utf8
  import opened JsonNumber
  import opened JsonString
  import opened JsonValue
  import opened JsonSerializer
  import opened JsonParser
  import opened JsonRoundTrip

  // ------------------------------------------------------------------ strings (section 7)

  /** A character between quotes: one byte as it is, a short escape, or four hexadecimal digits. */
  datatype Piece = Raw(c: byte) | Short(c: byte) | Unit(h: bytes)

  predicate GoodPiece(p: Piece)
  {
    match p
    case Raw(c) => c >= 0x20 && c != QUOTE && c != BACKSLASH
    case Short(c) => SimpleEscape(c).Some?
    case Unit(h) => |h| == 4 && Hex4(h, 0)
  }

  predicate GoodPieces(ps: seq<Piece>) { forall i | 0 <= i < |ps| :: GoodPiece(ps[i]) }

  function PieceText(p: Piece): bytes
  {
    match p
    case Raw(c) => [c]
    case Short(c) => [BACKSLASH, c]
    case Unit(h) => [BACKSLASH, LOWER_U] + h
  }

  function PiecesText(ps: seq<Piece>): bytes
  {
    if ps == [] then [] else PieceText(ps[0]) + PiecesText(ps[1..])
  }

  /** The code unit of four hexadecimal digits. */
  function UnitOf(p: Piece): nat
    requires p.Unit? && GoodPiece(p)
  {
    Hex4Value(p.h, 0)
  }

  predicate LeadPiece(p: Piece) { p.Unit? && GoodPiece(p) && IsLead(UnitOf(p)) }
  predicate TrailPiece(p: Piece) { p.Unit? && GoodPiece(p) && IsTrail(UnitOf(p)) }

  /** What a character that is no surrogate stands for, in UTF-8. */
  function Single(p: Piece): bytes
    requires GoodPiece(p) && !LeadPiece(p) && !TrailPiece(p)
  {
    match p
    case Raw(c) => [c]
    case Short(c) => [SimpleEscape(c).value]
    case Unit(_) => Encode(UnitOf(p))
  }

  function Double(p: Piece, q: Piece): bytes
    requires LeadPiece(p) && TrailPiece(q)
  {
    Encode(Combine(UnitOf(p), UnitOf(q)))
  }

  /** What the characters stand for; nothing when a surrogate has no partner. */
  function Meaning(ps: seq<Piece>): Option<bytes>
    requires GoodPieces(ps)
    decreases |ps|
  {
    if ps == [] then Some([])
    else if LeadPiece(ps[0]) then
      if |ps| > 1 && TrailPiece(ps[1]) then Prepend(Double(ps[0], ps[1]), Meaning(ps[2..])) else None
    else if TrailPiece(ps[0]) then None
    else Prepend(Single(ps[0]), Meaning(ps[1..]))
  }

  lemma RawStep(c: byte, t: bytes)
    requires GoodPiece(Raw(c))
    ensures Unescape([c] + t) == Prepend([c], Unescape(t))
    ensures QuoteEnd([c] + t) == Plus(1, QuoteEnd(t))
  {
    assert ([c] + t)[1..] == t;
  }

  lemma ShortStep(c: byte, t: bytes)
    requires GoodPiece(Short(c))
    ensures Unescape([BACKSLASH, c] + t) == Prepend([SimpleEscape(c).value], Unescape(t))
    ensures QuoteEnd([BACKSLASH, c] + t) == Plus(2, QuoteEnd(t))
  {
    hide QuoteEnd, Utf16Escape, Unescape;
    QuoteEndPastPair(c, t);
    var s := [BACKSLASH, c] + t;
    assert s[2..] == t;
    UnescapeBySteps(s);
  }

  lemma UnitText(h: bytes, t: bytes)
    requires GoodPiece(Unit(h))
    ensures var s := PieceText(Unit(h)) + t;
            && UnitShape(s) && Hex4Value(s, 2) == Hex4Value(h, 0) && |s| == 6 + |t| && s[6..] == t
            && forall i | 0 <= i < |t| :: s[6 + i] == t[i]
  {
    var s := PieceText(Unit(h)) + t;
    assert s[2] == h[0] && s[3] == h[1] && s[4] == h[2] && s[5] == h[3];
  }

  lemma UnitQuoteEnd(h: bytes, t: bytes)
    requires GoodPiece(Unit(h))
    ensures QuoteEnd(PieceText(Unit(h)) + t) == Plus(6, QuoteEnd(t))
  {
    UnitText(h, t);
    QuoteEndPastUnit(PieceText(Unit(h)) + t);
  }

  /** A code unit that is no surrogate. */
  lemma PlainUnitStep(p: Piece, t: bytes)
    requires p.Unit? && GoodPiece(p) && !LeadPiece(p) && !TrailPiece(p)
    ensures Unescape(PieceText(p) + t) == Prepend(Encode(UnitOf(p)), Unescape(t))
  {
    hide Unescape, UnescapeStep, Hex4, Hex4Value, Encode, StoreUnit;
    var s := PieceText(p) + t;
    UnitText(p.h, t);
    Utf16EscapeAt(s);
    UnescapeBySteps(s);
    StoresEncoding(UnitOf(p));
  }

  lemma PairUnitStep(p: Piece, q: Piece, t: bytes)
    requires LeadPiece(p) && TrailPiece(q)
    ensures Unescape(PieceText(p) + (PieceText(q) + t)) == Prepend(Encode(Combine(UnitOf(p), UnitOf(q))), Unescape(t))
  {
    hide Unescape, UnescapeStep, Encode, StorePair, Combine;
    var s := PieceText(p) + (PieceText(q) + t);
    UnitText(p.h, PieceText(q) + t);
    UnitText(q.h, t);
    SecondUnit(s, PieceText(q) + t);
    Utf16EscapeAt(s);
    UnescapeBySteps(s);
    StoresEncoding(Combine(UnitOf(p), UnitOf(q)));
    assert s[12..] == t;
  }

  lemma SecondUnit(s: bytes, u: bytes)
    requires |s| == 6 + |u| && (forall i | 0 <= i < |u| :: s[6 + i] == u[i]) && UnitShape(u)
    ensures s[6] == BACKSLASH && s[7] == LOWER_U && Hex4(s, 8) && Hex4Value(s, 8) == Hex4Value(u, 2)
  {
    assert s[8] == s[6 + 2] == u[2] && s[9] == s[6 + 3] == u[3] && s[10] == s[6 + 4] == u[4]
           && s[11] == s[6 + 5] == u[5];
    assert s[6] == s[6 + 0] == u[0] && s[7] == s[6 + 1] == u[1];
  }

  /** What follows is no second half of a pair. */
  predicate NoTrail(t: bytes) { !(UnitShape(t) && IsTrail(Hex4Value(t, 2))) }

  lemma LoneUnitStep(p: Piece, t: bytes)
    requires TrailPiece(p) || (LeadPiece(p) && NoTrail(t))
    ensures Unescape(PieceText(p) + t) == None
  {
    hide Unescape, UnescapeStep;
    var s := PieceText(p) + t;
    UnitText(p.h, t);
    Utf16EscapeAt(s);
    UnescapeBySteps(s);
    if |s| >= 8 && s[6] == BACKSLASH && s[7] == LOWER_U && Hex4(s, 8) {
      assert t[0] == s[6] && t[1] == s[7] && t[2] == s[8] && t[3] == s[9] && t[4] == s[10] && t[5] == s[11];
    }
  }

  lemma PiecesNoTrail(ps: seq<Piece>)
    requires GoodPieces(ps) && (ps == [] || !TrailPiece(ps[0]))
    ensures NoTrail(PiecesText(ps))
  {
    if ps != [] {
      var t, rest := PiecesText(ps), PiecesText(ps[1..]);
      assert GoodPiece(ps[0]);
      match ps[0]
      case Raw(c) => assert t[0] == c;
      case Short(c) => assert t[1] == c;
      case Unit(h) => UnitText(h, rest);
    }
  }

  lemma {:induction false} UnescapePieces(ps: seq<Piece>)
    requires GoodPieces(ps)
    ensures Unescape(PiecesText(ps)) == Meaning(ps)
    decreases |ps|
  {
    if ps != [] {
      hide Unescape, Encode, Combine;
      assert GoodPiece(ps[0]);
      var p, t := ps[0], PiecesText(ps[1..]);
      UnescapePieces(ps[1..]);
      if p.Raw? {
        RawStep(p.c, t);
      } else if p.Short? {
        ShortStep(p.c, t);
      } else if LeadPiece(p) && |ps| > 1 && TrailPiece(ps[1]) {
        assert ps[1..][1..] == ps[2..];
        UnescapePieces(ps[2..]);
        PairUnitStep(p, ps[1], PiecesText(ps[2..]));
      } else if LeadPiece(p) || TrailPiece(p) {
        PiecesNoTrailIf(ps[1..], LeadPiece(p));
        LoneUnitStep(p, t);
      } else {
        PlainUnitStep(p, t);
      }
    } else {
      assert Unescape([]) == Some([]);
    }
  }

  lemma PiecesNoTrailIf(ps: seq<Piece>, lead: bool)
    requires GoodPieces(ps) && (lead ==> ps == [] || !TrailPiece(ps[0]))
    ensures lead ==> NoTrail(PiecesText(ps))
  {
    if lead {
      PiecesNoTrail(ps);
    }
  }

  lemma {:induction false} QuoteEndPieces(ps: seq<Piece>, rest: bytes)
    requires GoodPieces(ps)
    ensures QuoteEnd(PiecesText(ps) + [QUOTE] + rest) == Some(|PiecesText(ps)|)
    decreases |ps|
  {
    if ps == [] {
      assert PiecesText(ps) + [QUOTE] + rest == [QUOTE] + rest;
    } else {
      hide QuoteEnd;
      assert GoodPiece(ps[0]);
      var e, t := PieceText(ps[0]), PiecesText(ps[1..]) + [QUOTE] + rest;
      QuoteEndPieces(ps[1..], rest);
      assert PiecesText(ps) + [QUOTE] + rest == e + t;
      match ps[0]
      case Raw(c) => RawStep(c, t);
      case Short(c) => ShortStep(c, t);
      case Unit(h) => UnitQuoteEnd(h, t);
    }
  }

  function QuotedText(ps: seq<Piece>): bytes { [QUOTE] + PiecesText(ps) + [QUOTE] }

  /** A string literal is read as the C string of what it stands for, or refused for a lone surrogate. */
  lemma StringMeans(ps: seq<Piece>, rest: bytes)
    requires GoodPieces(ps)
    ensures QuotedString(QuotedText(ps) + rest) ==
            if Meaning(ps).Some? then Quoted(CStr(Meaning(ps).value), rest) else NotQuoted
  {
    hide PiecesText, Meaning, QuoteEnd, Unescape;
    var t, k := QuotedText(ps) + rest, |PiecesText(ps)|;
    assert t[1..] == PiecesText(ps) + [QUOTE] + rest;
    QuoteEndPieces(ps, rest);
    assert t[1..][..k] == PiecesText(ps);
    UnescapePieces(ps);
    assert t[k + 2..] == rest;
  }

  // ------------------------------------------------------------------ numbers (section 6)

  datatype Exponent = Exponent(upper: bool, sign: Option<byte>, digits: bytes)

  datatype Numeral = Numeral(negative: bool, whole: bytes, frac: Option<bytes>, exp: Option<Exponent>)

  /**
   The numerals of the grammar, and those that strtod reads besides: with no digit behind the
   point, or with none in front of it behind a minus.
   */
  predicate GoodNumeral(n: Numeral)
  {
    && AllDigits(n.whole) && (n.whole != [] && n.whole[0] == ZERO ==> |n.whole| == 1)
    && (n.whole == [] ==> n.negative && n.frac.Some? && n.frac.value != [])
    && (n.frac.Some? ==> AllDigits(n.frac.value))
    && (n.exp.Some? ==> && n.exp.value.digits != [] && AllDigits(n.exp.value.digits)
                        && (n.exp.value.sign.Some? ==> IsSign(n.exp.value.sign.value)))
  }

  function MantissaText(n: Numeral): bytes { n.whole + (if n.frac.Some? then [DOT] + n.frac.value else []) }

  function ExponentText(e: Exponent): bytes
  {
    [if e.upper then UPPER_E else LOWER_E] + (if e.sign.Some? then [e.sign.value] else []) + e.digits
  }

  function MagnitudeText(n: Numeral): bytes { MantissaText(n) + if n.exp.Some? then ExponentText(n.exp.value) else [] }

  function NumeralText(n: Numeral): bytes { (if n.negative then [MINUS] else []) + MagnitudeText(n) }

  function MantissaValue(n: Numeral): real
    requires GoodNumeral(n)
  {
    NatValue(n.whole) as real + if n.frac.Some? then FracValue(n.frac.value) else 0.0
  }

  function MagnitudeValue(n: Numeral): real
    requires GoodNumeral(n)
  {
    if n.exp.None? then MantissaValue(n)
    else Scaled(MantissaValue(n), NatValue(n.exp.value.digits), n.exp.value.sign == Some(MINUS))
  }

  function NumeralValue(n: Numeral): real
    requires GoodNumeral(n)
  {
    if n.negative then -MagnitudeValue(n) else MagnitudeValue(n)
  }

  /** A lone zero with an exponent, which the grammar has and the parser refuses. */
  predicate ZeroWithExponent(n: Numeral) { n.whole == [ZERO] && n.frac.None? && n.exp.Some? }

  lemma MantissaMeans(n: Numeral, rest: bytes)
    requires GoodNumeral(n) && (rest == [] || (!IsDigit(rest[0]) && rest[0] != DOT))
    ensures ScanMantissa(MantissaText(n) + rest) == Scanned(MantissaValue(n), |MantissaText(n)|)
  {
    hide NatValue, FracValue, ScanMantissa;
    if n.frac.Some? {
      ScanPointed(n.whole, n.frac.value, rest);
      assert MantissaText(n) + rest == n.whole + [DOT] + n.frac.value + rest;
    } else {
      ScanDigits(n.whole, rest);
      assert MantissaText(n) == n.whole;
    }
  }

  lemma ExponentMeans(m: Scanned, p: bytes, e: Exponent, rest: bytes)
    requires m.length == |p| && e.digits != [] && AllDigits(e.digits) && (e.sign.Some? ==> IsSign(e.sign.value))
    requires EndsNumber(rest)
    ensures ScanExponent(m, p + (ExponentText(e) + rest))
         == Scanned(Scaled(m.value, NatValue(e.digits), e.sign == Some(MINUS)), |p| + |ExponentText(e)|)
  {
    hide Scaled, NatValue, ScanExponent, DigitRun;
    var s, t := p + (ExponentText(e) + rest), ExponentText(e) + rest;
    assert s[|p|..] == t;
    var k := if e.sign.Some? then 2 else 1;
    assert t[k..] == e.digits + rest;
    assert e.sign.None? ==> t[1] == e.digits[0];
    DigitRunOver(e.digits, rest);
    assert (e.digits + rest)[..|e.digits|] == e.digits;
    ExponentAt(m, s, t, k, |e.digits|);
  }

  lemma ExponentAt(m: Scanned, s: bytes, t: bytes, k: nat, n: nat)
    requires m.length <= |s| && s[m.length..] == t && |t| > 1 && (t[0] == LOWER_E || t[0] == UPPER_E)
    requires k == (if IsSign(t[1]) then 2 else 1) && k <= |t| && DigitRun(t[k..]) == n > 0
    ensures ScanExponent(m, s) == Scanned(Scaled(m.value, NatValue(t[k..][..n]), k == 2 && t[1] == MINUS),
            m.length + k + n)
  {
  }

  lemma MagnitudeMeans(n: Numeral, rest: bytes)
    requires GoodNumeral(n) && EndsNumber(rest)
    ensures ScanMagnitude(MagnitudeText(n) + rest) == Scanned(MagnitudeValue(n), |MagnitudeText(n)|)
  {
    hide ScanMantissa, ScanExponent, MantissaValue, Scaled;
    var tail := (if n.exp.Some? then ExponentText(n.exp.value) else []) + rest;
    var s := MagnitudeText(n) + rest;
    assert s == MantissaText(n) + tail;
    MantissaMeans(n, tail);
    NotHex(n, tail);
    if n.exp.Some? {
      ExponentMeans(ScanMantissa(s), MantissaText(n), n.exp.value, rest);
    } else {
      NoExponent(ScanMantissa(s), s, rest);
    }
  }

  lemma NoExponent(m: Scanned, s: bytes, rest: bytes)
    requires m.length <= |s| && s[m.length..] == rest && EndsNumber(rest)
    ensures ScanExponent(m, s) == m
  {
  }

  lemma NotHex(n: Numeral, tail: bytes)
    requires GoodNumeral(n) && (tail == [] || (tail[0] != LOWER_X && tail[0] != UPPER_X))
    ensures !StartsHex(MantissaText(n) + tail)
  {
    var s := MantissaText(n) + tail;
    assert s[0] == if n.whole == [] then DOT else n.whole[0];
    if n.whole == [ZERO] && |s| > 1 {
      assert n.frac.Some? ==> s[1] == DOT;
      assert n.frac.None? ==> s[1] == tail[0];
    }
  }

  /** The scanner reads a numeral to its end, with its value. */
  lemma NumeralMeans(n: Numeral, rest: bytes)
    requires GoodNumeral(n) && EndsNumber(rest)
    ensures Scan(NumeralText(n) + rest) == Scanned(NumeralValue(n), |NumeralText(n)|)
  {
    hide MagnitudeText, MagnitudeValue, ScanMagnitude;
    MagnitudeMeans(n, rest);
    MagnitudeHead(n);
    ScanSigned(MagnitudeText(n), MagnitudeValue(n), rest);
    if !n.negative {
      assert NumeralText(n) == MagnitudeText(n);
    }
  }

  lemma MagnitudeHead(n: Numeral)
    requires GoodNumeral(n)
    ensures var m := MagnitudeText(n); m != [] && if n.whole == [] then m[0] == DOT else m[0] == n.whole[0]
  {
  }

  /** It is refused exactly when it is a lone zero with an exponent. */
  lemma NumeralIsDecimal(n: Numeral)
    requires GoodNumeral(n)
    ensures IsDecimal(NumeralText(n)) <==> !ZeroWithExponent(n)
  {
    var t, m := NumeralText(n), MagnitudeText(n);
    PlainBytes(n);
    assert t == if n.negative then [MINUS] + m else m;
    MagnitudeHead(n);
    if n.whole == [ZERO] {
      SecondByte(n);
    }
    assert n.negative ==> t[1] == m[0] && (|m| > 1 ==> t[2] == m[1]);
  }

  lemma PlainBytes(n: Numeral)
    requires GoodNumeral(n)
    ensures forall i | 0 <= i < |NumeralText(n)| :: NumeralText(n)[i] != LOWER_X && NumeralText(n)[i] != UPPER_X
  {
    hide GoodNumeral;
    assert LOWER_X !in n.whole && UPPER_X !in n.whole by { DigitsArePlain(n); }
    assert n.frac.Some? ==> LOWER_X !in n.frac.value && UPPER_X !in n.frac.value by { DigitsArePlain(n); }
    assert n.exp.Some? ==>
             LOWER_X !in ExponentText(n.exp.value)
             && UPPER_X !in ExponentText(n.exp.value) by { DigitsArePlain(n); }
  }

  lemma DigitsArePlain(n: Numeral)
    requires GoodNumeral(n)
    ensures LOWER_X !in n.whole && UPPER_X !in n.whole
    ensures n.frac.Some? ==> LOWER_X !in n.frac.value && UPPER_X !in n.frac.value
    ensures n.exp.Some? ==> LOWER_X !in ExponentText(n.exp.value) && UPPER_X !in ExponentText(n.exp.value)
  {
  }

  lemma SecondByte(n: Numeral)
    requires GoodNumeral(n) && n.whole == [ZERO]
    ensures var m := MagnitudeText(n);
            && (n.frac.Some? ==> |m| > 1 && m[1] == DOT)
            && (n.frac.None? && n.exp.Some? ==> |m| > 1 && m[1] != DOT)
            && (n.frac.None? && n.exp.None? ==> |m| == 1)
  {
  }

  // ------------------------------------------------------------------ values (sections 3 to 5)

  /** A value as it is written; white space is kept. */
  datatype Syntax =
    | JNull
    | JBool(b: bool)
    | JNumber(n: Numeral)
    | JString(ps: seq<Piece>)
    | JArray(inner: bytes, items: seq<Element>)
    | JObject(inner: bytes, pairs: seq<Pair>)

  datatype Element = Element(before: bytes, v: Syntax, after: bytes)

  datatype Pair = Pair(before: bytes, key: seq<Piece>, colon: bytes, gap: bytes, v: Syntax, after: bytes)

  function SyntaxText(x: Syntax): bytes
    decreases x, 1
  {
    match x
    case JNull => NULL_TOKEN
    case JBool(b) => if b then TRUE_TOKEN else FALSE_TOKEN
    case JNumber(n) => NumeralText(n)
    case JString(ps) => QuotedText(ps)
    case JArray(inner, items) => [LBRACKET] + (if items == [] then inner else ElementsText(items)) + [RBRACKET]
    case JObject(inner, pairs) => [LBRACE] + (if pairs == [] then inner else PairsText(pairs)) + [RBRACE]
  }

  function ElementsText(es: seq<Element>): bytes
    decreases es, 0
  {
    if es == [] then []
    else
      es[0].before + SyntaxText(es[0].v) + es[0].after + (if |es| == 1 then [] else [COMMA] + ElementsText(es[1..]))
  }

  function PairsText(ps: seq<Pair>): bytes
    decreases ps, 0
  {
    if ps == [] then []
    else
      var p := ps[0];
      p.before + (QuotedText(p.key) + p.colon + [COLON] + (p.gap + SyntaxText(p.v) + p.after))
      + (if |ps| == 1 then [] else [COMMA] + PairsText(ps[1..]))
  }

  /** The pieces are those of the grammar. */
  predicate WellFormed(x: Syntax)
  {
    match x
    case JNumber(n) => GoodNumeral(n)
    case JString(ps) => GoodPieces(ps)
    case JArray(inner, items) =>
      AllSpaces(inner) && forall i | 0 <= i < |items| ::
        AllSpaces(items[i].before) && AllSpaces(items[i].after) && WellFormed(items[i].v)
    case JObject(inner, pairs) =>
      AllSpaces(inner) && forall i | 0 <= i < |pairs| ::
        AllSpaces(pairs[i].before) && AllSpaces(pairs[i].colon) && AllSpaces(pairs[i].gap) && AllSpaces(pairs[i].after)
        && GoodPieces(pairs[i].key) && WellFormed(pairs[i].v)
    case _ => true
  }

  /** The C string of what a literal stands for. */
  function TextOf(ps: seq<Piece>): bytes
    requires GoodPieces(ps)
  {
    if Meaning(ps).Some? then CStr(Meaning(ps).value) else []
  }

  function Denoted(x: Syntax): Value
    requires WellFormed(x)
    decreases x, 1
  {
    match x
    case JNull => Null
    case JBool(b) => Bool(b)
    case JNumber(n) => Number(NumeralValue(n))
    case JString(ps) => String(TextOf(ps))
    case JArray(_, items) => Array(Items(DenotedItems(items), |items|))
    case JObject(_, pairs) => Object(Members(DenotedMembers(pairs), |pairs|))
  }

  function DenotedItems(es: seq<Element>): (r: seq<Value>)
    requires forall i | 0 <= i < |es| :: WellFormed(es[i].v)
    ensures |r| == |es|
    decreases es, 0
  {
    if es == [] then [] else [Denoted(es[0].v)] + DenotedItems(es[1..])
  }

  function DenotedMembers(ps: seq<Pair>): (r: seq<Member>)
    requires forall i | 0 <= i < |ps| :: GoodPieces(ps[i].key) && WellFormed(ps[i].v)
    ensures |r| == |ps|
    decreases ps, 0
  {
    if ps == [] then [] else [Member(TextOf(ps[0].key), Denoted(ps[0].v))] + DenotedMembers(ps[1..])
  }

  /**
   What the parser asks beyond the grammar: no lone surrogate, no lone zero with an exponent,
   containers within their caps, distinct names, and no value nested deeper than 19.
   */
  ghost predicate Allowed(x: Syntax, nesting: nat)
    requires WellFormed(x)
    decreases x
  {
    && nesting <= MAX_NESTING
    && match x
       case JNumber(n) => !ZeroWithExponent(n)
       case JString(ps) => Meaning(ps).Some?
       case JArray(_, items) =>
         |items| <= ARRAY_MAX_CAPACITY && forall i | 0 <= i < |items| :: Allowed(items[i].v, nesting + 1)
       case JObject(_, pairs) =>
         && |pairs| <= OBJECT_MAX_CAPACITY && DistinctNames(DenotedMembers(pairs))
         && forall i | 0 <= i < |pairs| :: Meaning(pairs[i].key).Some? && Allowed(pairs[i].v, nesting + 1)
       case _ => true
  }

  lemma SyntaxHead(x: Syntax)
    requires WellFormed(x)
    ensures SyntaxText(x) != [] && !IsSpace(SyntaxText(x)[0])
  {
    match x
    case JNumber(n) =>
      MagnitudeHead(n);
      assert NumeralText(n)[0] == if n.negative then MINUS else MagnitudeText(n)[0];
    case _ =>
  }

  // ------------------------------------------------------------------ scalars

  lemma ScalarMeans(x: Syntax, nesting: nat, rest: bytes)
    requires WellFormed(x) && !x.JArray? && !x.JObject? && EndsNumber(rest) && nesting <= MAX_NESTING
    ensures ParsedValue(SyntaxText(x) + rest, nesting) == if Allowed(x, nesting) then Parsed(Denoted(x), rest)
            else Failed
  {
    hide Scan, IsDecimal, NumeralText, Meaning, QuotedString, QuotedText, GoodNumeral, NumeralValue, ZeroWithExponent;
    var u := SyntaxText(x) + rest;
    SyntaxHead(x);
    assert u[0] == SyntaxText(x)[0];
    match x
    case JNumber(n) =>
      NumeralMeans(n, rest);
      NumeralIsDecimal(n);
      NumeralHead(n);
      assert u[..|NumeralText(n)|] == NumeralText(n) && u[|NumeralText(n)|..] == rest;
    case JString(ps) =>
      StringMeans(ps, rest);
      QuotedHead(ps);
    case JBool(b) =>
      assert b ==> u[4..] == rest;
      assert !b ==> u[5..] == rest;
    case JNull =>
      assert u[4..] == rest;
  }

  lemma NumeralHead(n: Numeral)
    requires GoodNumeral(n)
    ensures NumeralText(n) != [] && (NumeralText(n)[0] == MINUS || IsDigit(NumeralText(n)[0]))
  {
    MagnitudeHead(n);
    assert NumeralText(n)[0] == if n.negative then MINUS else MagnitudeText(n)[0];
  }

  lemma QuotedHead(ps: seq<Piece>)
    ensures QuotedText(ps) != [] && QuotedText(ps)[0] == QUOTE
  {
  }

  // ------------------------------------------------------------------ arrays

  /** White space and then a comma or a bracket end a number and are skipped. */
  lemma Behind(after: bytes, c: byte, more: bytes)
    requires AllSpaces(after) && !IsSpace(c) && c in [COMMA, RBRACKET, RBRACE]
    ensures var r := after + ([c] + more); EndsNumber(r) && SkipSpaces(r) == [c] + more
  {
    SkipSpacesPast(after, [c] + more);
    assert ([c] + more)[0] == c;
  }

  /** The next element, and what is left behind it. */
  lemma NextElement(es: seq<Element>, tail: bytes) returns (r: bytes)
    requires es != [] && WellFormed(es[0].v) && AllSpaces(es[0].before) && AllSpaces(es[0].after)
    ensures SkipSpaces(ElementsText(es) + ([RBRACKET] + tail)) == SyntaxText(es[0].v) + r && EndsNumber(r)
    ensures SkipSpaces(r) == if |es| == 1 then [RBRACKET] + tail
            else [COMMA] + (ElementsText(es[1..]) + ([RBRACKET] + tail))
  {
    hide SyntaxText, EndsNumber, SkipSpaces, WellFormed, AllSpaces;
    var b, t, a := es[0].before, SyntaxText(es[0].v), es[0].after;
    var end := [RBRACKET] + tail;
    if |es| == 1 {
      r := a + end;
      Behind(a, RBRACKET, tail);
      assert ElementsText(es) + end == b + (t + r);
    } else {
      var more := ElementsText(es[1..]) + end;
      r := a + ([COMMA] + more);
      Behind(a, COMMA, more);
      assert ElementsText(es) + end == b + (t + r);
    }
    SkipSpacesPast(b, t + r);
    SkipNothing(es[0].v, r);
  }

  lemma SkipNothing(x: Syntax, r: bytes)
    requires WellFormed(x)
    ensures SkipSpaces(SyntaxText(x) + r) == SyntaxText(x) + r != []
  {
    SyntaxHead(x);
    assert (SyntaxText(x) + r)[0] == SyntaxText(x)[0];
  }

  ghost predicate GoodElements(es: seq<Element>)
  {
    forall i | 0 <= i < |es| :: AllSpaces(es[i].before) && AllSpaces(es[i].after) && WellFormed(es[i].v)
  }

  ghost predicate AllowedElements(es: seq<Element>, nesting: nat)
    requires GoodElements(es)
  {
    forall i | 0 <= i < |es| :: Allowed(es[i].v, nesting)
  }

  lemma GoodElementsParts(es: seq<Element>)
    requires es != [] && GoodElements(es)
    ensures GoodElements(es[1..]) && AllSpaces(es[0].before) && AllSpaces(es[0].after) && WellFormed(es[0].v)
    ensures forall n: nat :: AllowedElements(es, n) <==> Allowed(es[0].v, n) && AllowedElements(es[1..], n)
  {
    assert forall i | 0 <= i < |es| - 1 :: es[1..][i] == es[i + 1];
    forall n: nat ensures AllowedElements(es, n) <==> Allowed(es[0].v, n) && AllowedElements(es[1..], n) {
      assert forall i | 1 <= i < |es| :: es[i] == es[1..][i - 1];
    }
  }

  /** What the loop makes of the elements left, behind those it has. */
  ghost function ElementsResult(es: seq<Element>, a: Items, nesting: nat, tail: bytes): Parsed
    requires GoodElements(es)
  {
    if AllowedElements(es, nesting) && |a.items| + |es| <= ARRAY_MAX_CAPACITY
    then Parsed(Array(Items(a.items + DenotedItems(es), |a.items| + |es|)), tail)
    else Failed
  }

  lemma ElementsResultStep(es: seq<Element>, a: Items, b: Items, nesting: nat, tail: bytes)
    requires es != [] && GoodElements(es) && GoodElements(es[1..]) && WellFormed(es[0].v)
    requires Allowed(es[0].v, nesting) && b.items == a.items + [Denoted(es[0].v)]
    ensures ElementsResult(es, a, nesting, tail) == ElementsResult(es[1..], b, nesting, tail)
  {
    hide Allowed, Denoted, WellFormed, AllowedElements, GoodElements;
    GoodElementsParts(es);
    assert a.items + DenotedItems(es) == b.items + DenotedItems(es[1..]) by { DenotedItemsStep(es, a.items); }
  }

  lemma DenotedItemsStep(es: seq<Element>, xs: seq<Value>)
    requires es != [] && GoodElements(es) && GoodElements(es[1..])
    ensures xs + DenotedItems(es) == xs + [Denoted(es[0].v)] + DenotedItems(es[1..])
  {
  }

  lemma NoElements(b: Items, es: seq<Element>, nesting: nat, tail: bytes)
    requires es == [] && |b.items| <= ARRAY_MAX_CAPACITY
    ensures GoodElements(es) && ElementsResult(es, b, nesting, tail) == Parsed(Array(Items(b.items, |b.items|)), tail)
  {
    assert b.items + [] == b.items;
  }

  lemma FirstNotAllowed(es: seq<Element>, a: Items, nesting: nat, tail: bytes)
    requires es != [] && GoodElements(es) && WellFormed(es[0].v)
    requires !Allowed(es[0].v, nesting) || |a.items| >= ARRAY_MAX_CAPACITY
    ensures ElementsResult(es, a, nesting, tail) == Failed
  {
  }

  lemma ItemsStop(s: bytes, nesting: nat, a: Items, v: Value, r: bytes)
    requires s != [] && (ParsedValue(s, nesting) == Failed
             || (ParsedValue(s, nesting) == Parsed(v, r) && Append(a, v).None?))
    ensures ParsedItems(s, nesting, a) == Failed
  {
  }

  lemma {:induction false} ElementsMean(es: seq<Element>, a: Items, nesting: nat, tail: bytes)
    requires es != [] && GoodElements(es) && |a.items| <= a.capacity && Untrimmed(a.capacity, ARRAY_MAX_CAPACITY)
    requires |a.items| <= ARRAY_MAX_CAPACITY
    ensures ParsedItems(SkipSpaces(ElementsText(es) + ([RBRACKET] + tail)), nesting, a)
            == ElementsResult(es, a, nesting, tail)
    decreases es, 0
  {
    hide *;
    GoodElementsParts(es);
    var x := es[0].v;
    var r := NextElement(es, tail);
    var s := SyntaxText(x) + r;
    SkipNothing(x, r);
    SyntaxMeans(x, nesting, r);
    var v := Denoted(x);
    AppendUntilFull(a, v);
    if !Allowed(x, nesting) || |a.items| >= ARRAY_MAX_CAPACITY {
      ItemsStop(s, nesting, a, v, r);
      FirstNotAllowed(es, a, nesting, tail);
    } else {
      var b := Append(a, v).value;
      ItemsTurn(s, nesting, a, v, r);
      ElementsResultStep(es, a, b, nesting, tail);
      if |es| == 1 {
        NoElements(b, es[1..], nesting, tail);
      } else {
        ElementsMean(es[1..], b, nesting, tail);
      }
    }
  }

  lemma ArrayMeans(inner: bytes, items: seq<Element>, nesting: nat, rest: bytes)
    requires WellFormed(JArray(inner, items)) && nesting <= MAX_NESTING
    ensures ParsedValue(SyntaxText(JArray(inner, items)) + rest, nesting) ==
            if Allowed(JArray(inner, items), nesting) then Parsed(Denoted(JArray(inner, items)), rest) else Failed
    decreases items, 1
  {
    hide *;
    ArrayOpens(inner, items, nesting, rest);
    if items == [] {
      NoItemsMean(inner, items, nesting);
    } else {
      ArrayParts(inner, items, nesting, rest);
      EmptyArrayFits();
      ElementsMean(items, EMPTY_ARRAY, nesting + 1, rest);
    }
  }

  /** The opening bracket and what the parser looks at behind it. */
  lemma ArrayOpens(inner: bytes, items: seq<Element>, nesting: nat, rest: bytes)
    requires WellFormed(JArray(inner, items)) && nesting <= MAX_NESTING
    ensures ParsedValue(SyntaxText(JArray(inner, items)) + rest, nesting) ==
            if items == [] then Parsed(Array(EMPTY_ARRAY), rest)
            else ParsedItems(SkipSpaces(ElementsText(items) + ([RBRACKET] + rest)), nesting + 1, EMPTY_ARRAY)
  {
    hide ParsedItems, ParsedScalar, ParsedObject, ElementsText;
    var body := if items == [] then inner else ElementsText(items);
    var u, end := SyntaxText(JArray(inner, items)) + rest, [RBRACKET] + rest;
    assert u[0] == LBRACKET && u[1..] == body + end;
    if items == [] {
      SkipSpacesPast(inner, end);
      assert end[0] == RBRACKET && end[1..] == rest;
    } else {
      assert GoodElements(items);
      GoodElementsParts(items);
      var r := NextElement(items, rest);
      NotABracket(items[0].v, r);
    }
  }

  lemma NotABracket(x: Syntax, r: bytes)
    requires WellFormed(x)
    ensures SyntaxText(x) + r != [] && (SyntaxText(x) + r)[0] != RBRACKET
  {
    hide NumeralText;
    match x
    case JNumber(n) => NumeralHead(n);
    case _ =>
  }

  lemma EmptyArrayFits()
    ensures |EMPTY_ARRAY.items| <= EMPTY_ARRAY.capacity && |EMPTY_ARRAY.items| <= ARRAY_MAX_CAPACITY
    ensures Untrimmed(EMPTY_ARRAY.capacity, ARRAY_MAX_CAPACITY)
  {
    EmptyUntrimmed();
  }

  lemma NoItemsMean(inner: bytes, items: seq<Element>, nesting: nat)
    requires WellFormed(JArray(inner, items)) && items == [] && nesting <= MAX_NESTING
    ensures Allowed(JArray(inner, items), nesting) && Denoted(JArray(inner, items)) == Array(EMPTY_ARRAY)
  {
  }

  lemma ArrayParts(inner: bytes, items: seq<Element>, nesting: nat, tail: bytes)
    requires WellFormed(JArray(inner, items)) && nesting <= MAX_NESTING
    ensures GoodElements(items)
    ensures ElementsResult(items, EMPTY_ARRAY, nesting + 1, tail) ==
            if Allowed(JArray(inner, items), nesting) then Parsed(Denoted(JArray(inner, items)), tail) else Failed
  {
    assert GoodElements(items);
    assert Allowed(JArray(inner, items), nesting) <==>
             AllowedElements(items, nesting + 1)
             && |items| <= ARRAY_MAX_CAPACITY;
    assert [] + DenotedItems(items) == DenotedItems(items);
  }

  // ------------------------------------------------------------------ objects

  /** A key as it is written, up to the value. */
  function KeyPart(p: Pair): bytes { QuotedText(p.key) + p.colon + [COLON] }

  predicate GoodPair(p: Pair)
  {
    && AllSpaces(p.before) && AllSpaces(p.colon) && AllSpaces(p.gap) && AllSpaces(p.after)
    && GoodPieces(p.key) && WellFormed(p.v)
  }

  ghost predicate GoodPairs(ps: seq<Pair>) { forall i | 0 <= i < |ps| :: GoodPair(ps[i]) }

  lemma KeyMeans(p: Pair, t: bytes)
    requires GoodPair(p)
    ensures ParsedKey(KeyPart(p) + t) == if Meaning(p.key).Some? then Quoted(TextOf(p.key), t) else NotQuoted
  {
    hide QuotedText, QuotedString, Meaning, WellFormed;
    var colon := p.colon + ([COLON] + t);
    assert KeyPart(p) + t == QuotedText(p.key) + colon;
    StringMeans(p.key, colon);
    SkipSpacesPast(p.colon, [COLON] + t);
    assert ([COLON] + t)[0] == COLON && ([COLON] + t)[1..] == t;
  }

  /** The next member: its key, its value, and what is left behind it. */
  lemma NextPair(ps: seq<Pair>, tail: bytes) returns (s1: bytes, r: bytes)
    requires ps != [] && GoodPair(ps[0])
    ensures SkipSpaces(PairsText(ps) + ([RBRACE] + tail)) == KeyPart(ps[0]) + s1
    ensures s1 == ps[0].gap + (SyntaxText(ps[0].v) + r) && EndsNumber(r)
    ensures SkipSpaces(r) == if |ps| == 1 then [RBRACE] + tail else [COMMA] + (PairsText(ps[1..]) + ([RBRACE] + tail))
  {
    hide SyntaxText, EndsNumber, SkipSpaces, WellFormed, AllSpaces, QuotedText, GoodPieces;
    var p, end := ps[0], [RBRACE] + tail;
    var t := SyntaxText(p.v);
    if |ps| == 1 {
      r := p.after + end;
      Behind(p.after, RBRACE, tail);
    } else {
      var more := PairsText(ps[1..]) + end;
      r := p.after + ([COMMA] + more);
      Behind(p.after, COMMA, more);
    }
    s1 := p.gap + (t + r);
    PairCut(ps, tail, r);
    SkipSpacesPast(p.before, KeyPart(p) + s1);
    KeyStarts(p, s1);
  }

  /** What follows the first member in the text of all. */
  function MoreText(ps: seq<Pair>): bytes
    requires ps != []
  {
    if |ps| == 1 then [] else [COMMA] + PairsText(ps[1..])
  }

  lemma PairsTextIs(ps: seq<Pair>)
    requires ps != []
    ensures PairsText(ps) == ps[0].before + (KeyPart(ps[0]) + (ps[0].gap + SyntaxText(ps[0].v) + ps[0].after))
            + MoreText(ps)
  {
  }

  lemma PairCut(ps: seq<Pair>, tail: bytes, r: bytes)
    requires ps != []
    requires var end := [RBRACE] + tail;
             r == ps[0].after + if |ps| == 1 then end else [COMMA] + (PairsText(ps[1..]) + end)
    ensures PairsText(ps) + ([RBRACE] + tail)
            == ps[0].before + (KeyPart(ps[0]) + (ps[0].gap + (SyntaxText(ps[0].v) + r)))
  {
    hide *;
    var p, end := ps[0], [RBRACE] + tail;
    PairsTextIs(ps);
    MoreThenEnd(ps, end);
    SevenParts(PairsText(ps), p.before, KeyPart(p), p.gap, SyntaxText(p.v), p.after, MoreText(ps), end, r);
  }

  lemma MoreThenEnd(ps: seq<Pair>, end: bytes)
    requires ps != []
    ensures MoreText(ps) + end == if |ps| == 1 then end else [COMMA] + (PairsText(ps[1..]) + end)
  {
    hide PairsText;
    if |ps| > 1 {
      var t := PairsText(ps[1..]);
      assert [COMMA] + t + end == [COMMA] + (t + end);
    } else {
      assert [] + end == end;
    }
  }

  lemma SevenParts(all: bytes, a: bytes, b: bytes, c: bytes, d: bytes, e: bytes, f: bytes, g: bytes, r: bytes)
    requires all == a + (b + (c + d + e)) + f && r == e + (f + g)
    ensures all + g == a + (b + (c + (d + r)))
  {
    var x := c + d + e;
    assert x + (f + g) == c + (d + r);
    assert a + (b + x) + f + g == a + (b + (x + (f + g)));
  }

  lemma KeyStarts(p: Pair, t: bytes)
    ensures SkipSpaces(KeyPart(p) + t) == KeyPart(p) + t
  {
    assert (KeyPart(p) + t)[0] == QUOTE;
  }

  lemma ValueBehindGap(p: Pair, r: bytes, nesting: nat)
    requires GoodPair(p)
    ensures ParsedValue(p.gap + (SyntaxText(p.v) + r), nesting) == ParsedValue(SyntaxText(p.v) + r, nesting)
  {
    hide SyntaxText, WellFormed;
    SkipSpacesPast(p.gap, SyntaxText(p.v) + r);
  }

  ghost predicate AllowedPairs(ps: seq<Pair>, nesting: nat)
    requires GoodPairs(ps)
  {
    forall i | 0 <= i < |ps| :: Meaning(ps[i].key).Some? && Allowed(ps[i].v, nesting)
  }

  lemma GoodPairsParts(ps: seq<Pair>, nesting: nat)
    requires ps != [] && GoodPairs(ps)
    ensures GoodPairs(ps[1..]) && GoodPair(ps[0])
    ensures AllowedPairs(ps, nesting) <==>
            Meaning(ps[0].key).Some? && Allowed(ps[0].v, nesting) && AllowedPairs(ps[1..], nesting)
  {
    assert forall i | 0 <= i < |ps| - 1 :: ps[1..][i] == ps[i + 1];
    assert forall i | 1 <= i < |ps| :: ps[i] == ps[1..][i - 1];
  }

  /** What the loop makes of the members left, behind those it has. */
  ghost function PairsResult(ps: seq<Pair>, o: Members, nesting: nat, tail: bytes): Parsed
    requires GoodPairs(ps)
  {
    var ms := o.members + DenotedMembers(ps);
    if AllowedPairs(ps, nesting) && DistinctNames(ms) && |ms| <= OBJECT_MAX_CAPACITY
    then Parsed(Object(Members(ms, |ms|)), tail)
    else Failed
  }

  lemma PairsResultStep(ps: seq<Pair>, o: Members, q: Members, nesting: nat, tail: bytes)
    requires ps != [] && GoodPairs(ps) && GoodPairs(ps[1..]) && GoodPair(ps[0])
    requires Meaning(ps[0].key).Some? && Allowed(ps[0].v, nesting)
    requires q.members == o.members + [Member(TextOf(ps[0].key), Denoted(ps[0].v))]
    ensures PairsResult(ps, o, nesting, tail) == PairsResult(ps[1..], q, nesting, tail)
  {
    hide Allowed, Denoted, AllowedPairs, DistinctNames, Meaning, TextOf;
    GoodPairsParts(ps, nesting);
    assert o.members + DenotedMembers(ps) == q.members
           + DenotedMembers(ps[1..]) by { DenotedMembersStep(ps, o.members); }
  }

  lemma DenotedMembersStep(ps: seq<Pair>, ms: seq<Member>)
    requires ps != [] && GoodPairs(ps) && GoodPairs(ps[1..]) && GoodPair(ps[0])
    ensures ms + DenotedMembers(ps) == ms + [Member(TextOf(ps[0].key), Denoted(ps[0].v))] + DenotedMembers(ps[1..])
  {
  }

  lemma NoPairs(q: Members, ps: seq<Pair>, nesting: nat, tail: bytes)
    requires ps == [] && |q.members| <= OBJECT_MAX_CAPACITY && DistinctNames(q.members)
    ensures GoodPairs(ps) && PairsResult(ps, q, nesting, tail) == Parsed(Object(Members(q.members, |q.members|)), tail)
  {
    assert q.members + [] == q.members;
  }

  /** The first member is refused: its literal, its value, its name or for lack of room. */
  lemma FirstRefused(ps: seq<Pair>, o: Members, nesting: nat, tail: bytes)
    requires ps != [] && GoodPairs(ps) && GoodPair(ps[0])
    requires || Meaning(ps[0].key).None? || !Allowed(ps[0].v, nesting) || |o.members| >= OBJECT_MAX_CAPACITY
             || Get(o.members, TextOf(ps[0].key)).Some?
    ensures PairsResult(ps, o, nesting, tail) == Failed
  {
    hide Meaning, Allowed, Denoted, WellFormed;
    var ms, n := o.members + DenotedMembers(ps), |o.members|;
    var name := TextOf(ps[0].key);
    assert ms[n].name == name by { DenotedMembersStep(ps, o.members); }
    if Get(o.members, name).Some? {
      FindFirst(o.members, name);
      var i := Find(o.members, name).value;
      assert ms[i].name == ms[n].name;
    }
  }

  lemma MembersStop(s: bytes, nesting: nat, o: Members, key: bytes, s1: bytes, v: Value, r: bytes)
    requires || ParsedKey(s) == NotQuoted
             || (ParsedKey(s) == Quoted(key, s1) && ParsedValue(s1, nesting) == Failed)
             || (ParsedKey(s) == Quoted(key, s1) && ParsedValue(s1, nesting) == Parsed(v, r) && Add(o, key, v).None?)
    ensures ParsedMembers(s, nesting, o) == Failed
  {
  }

  /** An object under construction. */
  ghost predicate Building(o: Members)
  {
    && |o.members| <= o.capacity && Untrimmed(o.capacity, OBJECT_MAX_CAPACITY)
    && |o.members| <= OBJECT_MAX_CAPACITY && DistinctNames(o.members)
  }

  lemma AddBuilds(o: Members, name: bytes, v: Value)
    requires Building(o)
    ensures Add(o, name, v).Some? <==> Get(o.members, name).None? && |o.members| < OBJECT_MAX_CAPACITY
    ensures Add(o, name, v).Some? ==>
              Building(Add(o, name, v).value) && Add(o, name, v).value.members == o.members + [Member(name, v)]
  {
    if Get(o.members, name).None? {
      AddUntilFull(o, name, v);
      FindFirst(o.members, name);
    }
  }

  lemma {:induction false} PairsMean(ps: seq<Pair>, o: Members, nesting: nat, tail: bytes)
    requires ps != [] && GoodPairs(ps) && Building(o)
    ensures ParsedMembers(SkipSpaces(PairsText(ps) + ([RBRACE] + tail)), nesting, o)
            == PairsResult(ps, o, nesting, tail)
    decreases ps, 0
  {
    hide *;
    GoodPairsParts(ps, nesting);
    var p := ps[0];
    assert WellFormed(p.v) && GoodPieces(p.key) by { PairParts(p); }
    var s1, r := NextPair(ps, tail);
    var s := KeyPart(p) + s1;
    KeyMeans(p, s1);
    ValueBehindGap(p, r, nesting);
    SyntaxMeans(p.v, nesting, r);
    var v, name := Denoted(p.v), TextOf(p.key);
    AddBuilds(o, name, v);
    if Meaning(p.key).None? || !Allowed(p.v, nesting) || Add(o, name, v).None? {
      MembersStop(s, nesting, o, name, s1, v, r);
      FirstRefused(ps, o, nesting, tail);
    } else {
      var q := Add(o, name, v).value;
      MembersTurn(s, nesting, o, name, s1, v, r);
      PairsResultStep(ps, o, q, nesting, tail);
      if |ps| == 1 {
        BuildingParts(q);
        NoPairs(q, ps[1..], nesting, tail);
      } else {
        PairsMean(ps[1..], q, nesting, tail);
      }
    }
  }

  lemma PairParts(p: Pair)
    requires GoodPair(p)
    ensures WellFormed(p.v) && GoodPieces(p.key)
  {
  }

  lemma BuildingParts(o: Members)
    requires Building(o)
    ensures |o.members| <= OBJECT_MAX_CAPACITY && DistinctNames(o.members)
  {
  }

  lemma ObjectMeans(inner: bytes, pairs: seq<Pair>, nesting: nat, rest: bytes)
    requires WellFormed(JObject(inner, pairs)) && nesting <= MAX_NESTING
    ensures ParsedValue(SyntaxText(JObject(inner, pairs)) + rest, nesting) ==
            if Allowed(JObject(inner, pairs), nesting) then Parsed(Denoted(JObject(inner, pairs)), rest) else Failed
    decreases pairs, 1
  {
    hide *;
    ObjectOpens(inner, pairs, nesting, rest);
    if pairs == [] {
      NoPairsMean(inner, pairs, nesting);
    } else {
      ObjectParts(inner, pairs, nesting, rest);
      EmptyBuilding();
      PairsMean(pairs, EMPTY_OBJECT, nesting + 1, rest);
    }
  }

  lemma EmptyBuilding()
    ensures Building(EMPTY_OBJECT)
  {
    EmptyUntrimmed();
  }

  /** The opening brace and what the parser looks at behind it. */
  lemma ObjectOpens(inner: bytes, pairs: seq<Pair>, nesting: nat, rest: bytes)
    requires WellFormed(JObject(inner, pairs)) && nesting <= MAX_NESTING
    ensures ParsedValue(SyntaxText(JObject(inner, pairs)) + rest, nesting) ==
            if pairs == [] then Parsed(Object(EMPTY_OBJECT), rest)
            else ParsedMembers(SkipSpaces(PairsText(pairs) + ([RBRACE] + rest)), nesting + 1, EMPTY_OBJECT)
  {
    hide ParsedMembers, ParsedScalar, ParsedArray, PairsText;
    var body := if pairs == [] then inner else PairsText(pairs);
    var u, end := SyntaxText(JObject(inner, pairs)) + rest, [RBRACE] + rest;
    assert u[0] == LBRACE && u[1..] == body + end;
    if pairs == [] {
      SkipSpacesPast(inner, end);
      assert end[0] == RBRACE && end[1..] == rest;
    } else {
      assert GoodPair(pairs[0]);
      var s1, r := NextPair(pairs, rest);
      assert (KeyPart(pairs[0]) + s1)[0] == QUOTE;
    }
  }

  lemma NoPairsMean(inner: bytes, pairs: seq<Pair>, nesting: nat)
    requires WellFormed(JObject(inner, pairs)) && pairs == [] && nesting <= MAX_NESTING
    ensures Allowed(JObject(inner, pairs), nesting) && Denoted(JObject(inner, pairs)) == Object(EMPTY_OBJECT)
  {
  }

  lemma ObjectParts(inner: bytes, pairs: seq<Pair>, nesting: nat, tail: bytes)
    requires WellFormed(JObject(inner, pairs)) && nesting <= MAX_NESTING
    ensures GoodPairs(pairs)
    ensures PairsResult(pairs, EMPTY_OBJECT, nesting + 1, tail) ==
            if Allowed(JObject(inner, pairs), nesting) then Parsed(Denoted(JObject(inner, pairs)), tail) else Failed
  {
    hide Meaning, DistinctNames;
    assert GoodPairs(pairs);
    assert [] + DenotedMembers(pairs) == DenotedMembers(pairs);
    assert Allowed(JObject(inner, pairs), nesting) <==>
           && |pairs| <= OBJECT_MAX_CAPACITY && DistinctNames(DenotedMembers(pairs))
               && AllowedPairs(pairs, nesting + 1);
  }

  // ------------------------------------------------------------------ texts

  /**
   Every value of the grammar, anywhere in a text: the parser finds exactly the value it denotes
   and stops behind it, or refuses it exactly when it is not allowed.
   */
  lemma {:induction false} SyntaxMeans(x: Syntax, nesting: nat, rest: bytes)
    requires WellFormed(x) && EndsNumber(rest)
    ensures ParsedValue(SyntaxText(x) + rest, nesting) == if Allowed(x, nesting) then Parsed(Denoted(x), rest)
            else Failed
    decreases x, 2
  {
    hide *;
    if nesting > MAX_NESTING {
      TooDeep(SyntaxText(x) + rest, nesting);
      TooDeepIsRefused(x, nesting);
    } else {
      match x
      case JArray(inner, items) => ArrayMeans(inner, items, nesting, rest);
      case JObject(inner, pairs) => ObjectMeans(inner, pairs, nesting, rest);
      case _ => ScalarMeans(x, nesting, rest);
    }
  }

  lemma TooDeepIsRefused(x: Syntax, nesting: nat)
    requires WellFormed(x) && nesting > MAX_NESTING
    ensures !Allowed(x, nesting)
  {
  }

  /** Every JSON text, with white space around its value (section 2). */
  lemma EveryTextMeans(before: bytes, x: Syntax, after: bytes)
    requires AllSpaces(before) && WellFormed(x) && AllSpaces(after)
    ensures ParsedString(before + (SyntaxText(x) + after)) == if Allowed(x, 0) then Some(Denoted(x)) else None
  {
    hide SyntaxText, Allowed, Denoted, WellFormed;
    SyntaxMeans(x, 0, after);
    SkipSpacesPast(before, SyntaxText(x) + after);
    assert ParsedValue(before + (SyntaxText(x) + after), 0) == ParsedValue(SyntaxText(x) + after, 0);
  }
}
