/**
 The converse of the grammar: whatever the parser accepts is a text of it, denotes the value that
 was returned, and ends where the parser stopped. The one exception is a minus that starts no number.
 */
module JsonAccepted {
  import opened Bytes
  import opened JsonNumber
  import opened JsonString
  import opened JsonValue
  import opened JsonSerializer
  import opened JsonParser
  import opened JsonRoundTrip
  import opened JsonGrammar

  lemma {:induction false} SpacesSkipped(s: bytes) returns (gap: bytes)
    ensures AllSpaces(gap) && s == gap + SkipSpaces(s)
  {
    if s != [] && IsSpace(s[0]) {
      gap := SpacesSkipped(s[1..]);
      gap := [s[0]] + gap;
    } else {
      gap := [];
    }
  }

  // ------------------------------------------------------------------ strings

  lemma {:induction false} PiecesConcat(a: seq<Piece>, b: seq<Piece>)
    ensures PiecesText(a + b) == PiecesText(a) + PiecesText(b)
  {
    if a == [] {
      assert a + b == b;
    } else {
      assert (a + b)[1..] == a[1..] + b;
      PiecesConcat(a[1..], b);
    }
  }

  lemma OnePiece(p: Piece)
    ensures PiecesText([p]) == PieceText(p)
  {
    assert [p][1..] == [];
  }

  lemma UnitPiece(s: bytes)
    requires UnitShape(s)
    ensures var p := Unit(s[2..6]); GoodPiece(p) && PieceText(p) == s[..6]
  {
    var h := s[2..6];
    assert h[0] == s[2] && h[1] == s[3] && h[2] == s[4] && h[3] == s[5];
  }

  /** The pieces that one turn of the unescaper takes. */
  lemma StepPieces(s: bytes, end: nat, r: Escape) returns (ps: seq<Piece>)
    requires 0 < end && QuoteEnd(s) == Some(end) && UnescapeStep(s[..end]) == Some(r)
    ensures r.length <= end && GoodPieces(ps) && PiecesText(ps) == s[..r.length]
  {
    hide Hex4Value, StoreUnit, StorePair;
    InStep(s, end, r);
    if s[0] != BACKSLASH {
      ps := [Raw(s[0])];
      OnePiece(ps[0]);
    } else if s[1] != LOWER_U {
      ps := [Short(s[1])];
      OnePiece(ps[0]);
    } else {
      assert s[..end][1..] == s[1..end];
      Utf16EscapeShape(s, end);
      UnitPiece(s);
      OnePiece(Unit(s[2..6]));
      ps := [Unit(s[2..6])];
      if r.length == 12 {
        UnitPiece(s[6..]);
        OnePiece(Unit(s[6..][2..6]));
        PiecesConcat(ps, [Unit(s[6..][2..6])]);
        ps := ps + [Unit(s[6..][2..6])];
        assert s[..6] + s[6..][..6] == s[..12];
      }
    }
  }

  lemma {:induction false} LiteralShape(s: bytes, end: nat) returns (ps: seq<Piece>)
    requires QuoteEnd(s) == Some(end) && Unescape(s[..end]).Some?
    ensures GoodPieces(ps) && PiecesText(ps) == s[..end]
    decreases end
  {
    hide *;
    if end == 0 {
      ps := [];
      NoPiecesText();
    } else {
      var lit := s[..end];
      UnescapeBySteps(lit);
      SomeStep(lit);
      var r := UnescapeStep(lit).value;
      InStep(s, end, r);
      var first := StepPieces(s, end, r);
      var t := s[r.length..];
      assert lit[r.length..] == t[..end - r.length];
      var more := LiteralShape(t, end - r.length);
      ps := first + more;
      PiecesConcat(first, more);
      GoodConcat(first, more);
      assert s[..r.length] + t[..end - r.length] == s[..end];
    }
  }

  lemma NoPiecesText()
    ensures GoodPieces([]) && PiecesText([]) == []
  {
  }

  lemma GoodConcat(a: seq<Piece>, b: seq<Piece>)
    requires GoodPieces(a) && GoodPieces(b)
    ensures GoodPieces(a + b)
  {
  }

  lemma SomeStep(s: bytes)
    requires s != [] && Unescape(s).Some?
    ensures UnescapeStep(s).Some? && 1 <= UnescapeStep(s).value.length
    ensures Unescape(s[UnescapeStep(s).value.length..]).Some?
  {
    hide Unescape, UnescapeStep;
    UnescapeBySteps(s);
  }

  /** A string that is accepted is a literal of the grammar without a lone surrogate. */
  lemma StringAccepted(s: bytes) returns (ps: seq<Piece>)
    requires QuotedString(s).Quoted?
    ensures GoodPieces(ps) && Meaning(ps).Some? && s == QuotedText(ps) + QuotedString(s).rest
    ensures TextOf(ps) == QuotedString(s).text
  {
    hide QuoteEnd, Unescape, Meaning, PiecesText, GoodPieces;
    var k := QuoteEnd(s[1..]).value;
    ps := LiteralShape(s[1..], k);
    UnescapePieces(ps);
    assert s == [QUOTE] + s[1..][..k] + [QUOTE] + s[k + 2..] by { ClosingQuote(s[1..]); }
  }

  lemma {:induction false} ClosingQuote(s: bytes)
    ensures var e := QuoteEnd(s); e.Some? ==> s[e.value] == QUOTE
  {
    if s != [] {
      if s[0] != BACKSLASH {
        ClosingQuote(s[1..]);
      } else if |s| > 1 {
        ClosingQuote(s[2..]);
      }
    }
  }

  // ------------------------------------------------------------------ numbers

  lemma MantissaShape(s: bytes) returns (whole: bytes, frac: Option<bytes>)
    requires ScanMantissa(s).length > 0
    ensures AllDigits(whole) && (frac.Some? ==> AllDigits(frac.value))
    ensures whole == [] ==> s != [] && !IsDigit(s[0]) && frac.Some? && frac.value != []
    ensures var text := whole + (if frac.Some? then [DOT] + frac.value else []); s[..ScanMantissa(s).length] == text
    ensures ScanMantissa(s).value == NatValue(whole) as real + if frac.Some? then FracValue(frac.value) else 0.0
  {
    hide NatValue, FracValue;
    var n := DigitRun(s);
    whole := s[..n];
    if n < |s| && s[n] == DOT {
      var m := DigitRun(s[n + 1..]);
      frac := Some(s[n + 1..][..m]);
      assert s[..n + 1 + m] == whole + ([DOT] + frac.value);
    } else {
      frac := None;
      assert whole + [] == whole;
    }
  }

  lemma ExponentShape(m: Scanned, s: bytes) returns (e: Exponent)
    requires m.length <= |s| && ScanExponent(m, s).length > m.length
    ensures e.digits != [] && AllDigits(e.digits) && (e.sign.Some? ==> IsSign(e.sign.value))
    ensures s[..ScanExponent(m, s).length] == s[..m.length] + ExponentText(e)
    ensures ScanExponent(m, s).value == Scaled(m.value, NatValue(e.digits), e.sign == Some(MINUS))
  {
    hide NatValue, Scaled;
    var t := s[m.length..];
    var k := if |t| > 1 && IsSign(t[1]) then 2 else 1;
    var n := DigitRun(t[k..]);
    e := Exponent(t[0] == UPPER_E, if k == 2 then Some(t[1]) else None, t[k..][..n]);
    assert t[..k + n] == ExponentText(e);
    assert s[..m.length + k + n] == s[..m.length] + t[..k + n];
  }

  lemma MagnitudeShape(s: bytes, negative: bool) returns (n: Numeral)
    requires !StartsHex(s) && ScanMagnitude(s).length > 0 && (negative || (s != [] && IsDigit(s[0])))
    requires ScanMagnitude(s).length > 1 && s[0] == ZERO ==> s[1] == DOT
    ensures GoodNumeral(n) && !ZeroWithExponent(n) && n.negative == negative
    ensures MagnitudeText(n) == s[..ScanMagnitude(s).length] && MagnitudeValue(n) == ScanMagnitude(s).value
  {
    hide NatValue, FracValue, Scaled, ScanExponent, ScanMantissa;
    var m := ScanMantissa(s);
    var whole, frac := MantissaShape(s);
    assert whole != [] ==> whole[0] == s[0] && (|whole| > 1 ==> whole[1] == s[1]);
    var r := ScanExponent(m, s);
    if r.length > m.length {
      var e := ExponentShape(m, s);
      n := Numeral(negative, whole, frac, Some(e));
      assert s[m.length] == ExponentText(e)[0];
    } else {
      n := Numeral(negative, whole, frac, None);
      assert r == m by { SameExponent(m, s); }
      assert MantissaText(n) + [] == MantissaText(n);
    }
  }

  lemma SameExponent(m: Scanned, s: bytes)
    requires m.length <= |s| && ScanExponent(m, s).length == m.length
    ensures ScanExponent(m, s) == m
  {
  }

  /** A number that consumed something is a numeral, and not a lone zero with an exponent. */
  lemma NumberAccepted(u: bytes) returns (n: Numeral)
    requires u != [] && (u[0] == MINUS || IsDigit(u[0])) && Scan(u).length > 0 && IsDecimal(u[..Scan(u).length])
    ensures GoodNumeral(n) && !ZeroWithExponent(n)
    ensures NumeralText(n) == u[..Scan(u).length] && NumeralValue(n) == Scan(u).value
  {
    hide ScanMagnitude, MagnitudeText, MagnitudeValue, GoodNumeral, ZeroWithExponent;
    var s := if u[0] == MINUS then u[1..] else u;
    var t := u[..Scan(u).length];
    assert !StartsHex(s) by { HexRefused(u, s); }
    assert u[0] == MINUS ==> |t| > 2 ==> t[1] == s[0] && t[2] == s[1];
    n := MagnitudeShape(s, u[0] == MINUS);
    assert u[0] == MINUS ==> t == [MINUS] + s[..ScanMagnitude(s).length];
    assert u[0] != MINUS ==> [] + MagnitudeText(n) == MagnitudeText(n);
  }

  /** What is taken of hexadecimal notation has the x in it. */
  lemma HexRefused(u: bytes, s: bytes)
    requires u != [] && s == if u[0] == MINUS then u[1..] else u
    ensures StartsHex(s) ==> !IsDecimal(u[..Scan(u).length])
  {
    hide HexRun;
    if StartsHex(s) {
      var t, i := u[..Scan(u).length], if u[0] == MINUS then 2 else 1;
      assert t[i] == s[1];
    }
  }

  // ------------------------------------------------------------------ values

  /** A minus that starts no number is taken for a zero and left where it is; everything else moves on. */
  lemma LoneMinus(s: bytes, nesting: nat)
    requires ParsedValue(s, nesting).Parsed? && |ParsedValue(s, nesting).rest| >= |SkipSpaces(s)|
    ensures var u := SkipSpaces(s); u != [] && u[0] == MINUS && ParsedValue(s, nesting) == Parsed(Number(0.0), u)
  {
    hide ScanMagnitude, IsDecimal, ParsedItems, ParsedMembers;
    var u := SkipSpaces(s);
    assert u[0..] == u;
    if IsDigit(u[0]) {
      DigitIsTaken(u);
    }
  }

  lemma DigitIsTaken(u: bytes)
    requires u != [] && IsDigit(u[0])
    ensures ScanMagnitude(u).length > 0
  {
    assert DigitRun(u) > 0;
  }

  ghost predicate IsScalar(x: Syntax) { !x.JArray? && !x.JObject? }

  lemma ScalarAccepted(u: bytes) returns (x: Syntax)
    requires u != [] && ParsedScalar(u).Parsed? && |ParsedScalar(u).rest| < |u|
    ensures IsScalar(x) && WellFormed(x) && forall n: nat | n <= MAX_NESTING :: Allowed(x, n)
    ensures u == SyntaxText(x) + ParsedScalar(u).rest && Denoted(x) == ParsedScalar(u).v
  {
    hide Scan, IsDecimal, NumeralText, NumeralValue, GoodNumeral, ZeroWithExponent, QuotedString, QuotedText, Meaning,
         GoodPieces;
    if u[0] == QUOTE {
      var ps := StringAccepted(u);
      x := JString(ps);
    } else if u[0] == MINUS || IsDigit(u[0]) {
      var n := NumberAccepted(u);
      x := JNumber(n);
      assert u == u[..Scan(u).length] + u[Scan(u).length..];
    } else if u[0] == 110 {
      x := JNull;
      assert u == NULL_TOKEN + u[4..];
    } else if TRUE_TOKEN <= u {
      x := JBool(true);
      assert u == TRUE_TOKEN + u[4..];
    } else {
      x := JBool(false);
      assert u == FALSE_TOKEN + u[5..];
    }
  }

  /** The same elements with more white space in front. */
  function Indented(w: bytes, es: seq<Element>): (r: seq<Element>)
    requires es != []
  {
    [es[0].(before := w + es[0].before)] + es[1..]
  }

  lemma IndentedText(w: bytes, es: seq<Element>)
    requires es != [] && AllSpaces(w) && GoodElements(es)
    ensures GoodElements(Indented(w, es)) && ElementsText(Indented(w, es)) == w + ElementsText(es)
  {
    hide SyntaxText, WellFormed;
    var r := Indented(w, es);
    assert forall i | 1 <= i < |es| :: r[i] == es[i];
    assert r[1..] == es[1..];
    var rest := if |es| == 1 then [] else [COMMA] + ElementsText(es[1..]);
    assert (w + es[0].before) + SyntaxText(es[0].v) + es[0].after + rest
        == w + (es[0].before + SyntaxText(es[0].v) + es[0].after + rest);
  }

  lemma LastElement(e: Element, end: bytes)
    ensures ElementsText([e]) + end == e.before + (SyntaxText(e.v) + (e.after + end))
  {
    hide SyntaxText;
    assert ElementsText([e]) == e.before + SyntaxText(e.v) + e.after + [];
  }

  lemma MoreElements(e: Element, es: seq<Element>, end: bytes)
    requires es != []
    ensures ElementsText([e] + es) + end
         == e.before + (SyntaxText(e.v) + (e.after + ([COMMA] + (ElementsText(es) + end))))
  {
    hide SyntaxText;
    assert ([e] + es)[1..] == es;
    assert ElementsText([e] + es) == e.before + SyntaxText(e.v) + e.after + ([COMMA] + ElementsText(es));
  }

  lemma GoodElementsJoin(e: Element, es: seq<Element>)
    requires AllSpaces(e.before) && AllSpaces(e.after) && WellFormed(e.v) && GoodElements(es)
    ensures GoodElements([e] + es)
  {
    hide WellFormed;
    assert forall i | 1 <= i < 1 + |es| :: ([e] + es)[i] == es[i - 1];
  }

  /** One turn of the loop over elements. */
  lemma ItemsTurn(s: bytes, nesting: nat, a: Items) returns (s1: bytes, b: Items)
    requires ParsedItems(s, nesting, a).Parsed?
    ensures ParsedValue(s, nesting).Parsed? && s1 == ParsedValue(s, nesting).rest && |s1| < |SkipSpaces(s)|
    ensures var s2, r := SkipSpaces(s1), ParsedItems(s, nesting, a);
            && s2 != [] && (s2[0] == COMMA || s2[0] == RBRACKET)
            && (s2[0] == COMMA ==> r == ParsedItems(SkipSpaces(s2[1..]), nesting, b))
            && (s2[0] == RBRACKET ==> r.rest == s2[1..])
  {
    hide ParsedValue;
    s1 := ParsedValue(s, nesting).rest;
    b := Append(a, ParsedValue(s, nesting).v).value;
    if |s1| >= |SkipSpaces(s)| {
      LoneMinus(s, nesting);
      assert false;
    }
  }

  lemma {:induction false} ItemsShape(s: bytes, nesting: nat, a: Items) returns (es: seq<Element>)
    requires ParsedItems(s, nesting, a).Parsed?
    ensures es != [] && GoodElements(es)
    ensures s == ElementsText(es) + ([RBRACKET] + ParsedItems(s, nesting, a).rest)
    decreases |s|, 3
  {
    hide *;
    var s1, b := ItemsTurn(s, nesting, a);
    var s2, end := SkipSpaces(s1), [RBRACKET] + ParsedItems(s, nesting, a).rest;
    var gap, x := ValueShape(s, nesting);
    var after := SpacesSkipped(s1);
    var e := Element(gap, x, after);
    if s2[0] == RBRACKET {
      es := [e];
      assert s2 == end;
      LastElement(e, end);
      NoElementsGood();
      GoodElementsJoin(e, []);
      assert [e] + [] == [e];
    } else {
      var w := SpacesSkipped(s2[1..]);
      Shorter(s, s1, s2);
      var more := ItemsShape(SkipSpaces(s2[1..]), nesting, b);
      IndentedText(w, more);
      es := [e] + Indented(w, more);
      assert Indented(w, more) != [] by { IndentedSome(w, more); }
      assert s2[1..] == w + ElementsText(more) + end;
      assert s2 == [COMMA] + s2[1..];
      MoreElements(e, Indented(w, more), end);
      GoodElementsJoin(e, Indented(w, more));
    }
  }

  lemma NoElementsGood()
    ensures GoodElements([])
  {
  }

  lemma IndentedSome(w: bytes, es: seq<Element>)
    requires es != []
    ensures Indented(w, es) != []
  {
  }

  lemma Shorter(s: bytes, s1: bytes, s2: bytes)
    requires |s1| < |SkipSpaces(s)| && s2 == SkipSpaces(s1) && s2 != []
    ensures |SkipSpaces(s2[1..])| < |s|
  {
  }

  /** Behind the opening bracket: nothing but white space and the closing one, or elements. */
  lemma ArrayShape(u: bytes, nesting: nat) returns (x: Syntax)
    requires u != [] && u[0] == LBRACKET && ParsedArray(u, nesting).Parsed?
    ensures x.JArray? && WellFormed(x) && u == SyntaxText(x) + ParsedArray(u, nesting).rest
    decreases |u|, 1
  {
    hide ParsedItems, ElementsText, GoodElements;
    var t, rest := SkipSpaces(u[1..]), ParsedArray(u, nesting).rest;
    var w := SpacesSkipped(u[1..]);
    if t != [] && t[0] == RBRACKET {
      x := JArray(w, []);
      assert u == [LBRACKET] + w + [RBRACKET] + rest;
    } else {
      var es := ItemsShape(t, nesting, EMPTY_ARRAY);
      IndentedText(w, es);
      var all := Indented(w, es);
      x := JArray([], all);
      ArrayIsGood(all);
      assert u == [LBRACKET] + ElementsText(all) + [RBRACKET] + rest;
    }
  }

  lemma ArrayIsGood(es: seq<Element>)
    requires GoodElements(es)
    ensures WellFormed(JArray([], es))
  {
  }

  function IndentedPairs(w: bytes, ps: seq<Pair>): (r: seq<Pair>)
    requires ps != []
  {
    [ps[0].(before := w + ps[0].before)] + ps[1..]
  }

  lemma IndentedPairsText(w: bytes, ps: seq<Pair>)
    requires ps != [] && AllSpaces(w) && GoodPairs(ps)
    ensures IndentedPairs(w, ps) != [] && GoodPairs(IndentedPairs(w, ps))
    ensures PairsText(IndentedPairs(w, ps)) == w + PairsText(ps)
  {
    hide SyntaxText, WellFormed, QuotedText, GoodPieces;
    var r, p := IndentedPairs(w, ps), ps[0];
    assert forall i | 1 <= i < |ps| :: r[i] == ps[i];
    assert GoodPair(p);
    assert r[1..] == ps[1..];
    var body := QuotedText(p.key) + p.colon + [COLON] + (p.gap + SyntaxText(p.v) + p.after);
    var rest := if |ps| == 1 then [] else [COMMA] + PairsText(ps[1..]);
    assert PairsText(ps) == p.before + body + rest;
    assert PairsText(r) == (w + p.before) + body + rest;
    assert (w + p.before) + body + rest == w + (p.before + body + rest);
  }

  /** A member up to what stands behind it. */
  function PairText(p: Pair, tail: bytes): bytes
  {
    p.before + (QuotedText(p.key) + (p.colon + ([COLON] + (p.gap + (SyntaxText(p.v) + (p.after + tail))))))
  }

  lemma LastPair(p: Pair, end: bytes)
    ensures PairsText([p]) + end == PairText(p, end)
  {
    hide SyntaxText, QuotedText;
    assert PairsText([p]) == p.before + (QuotedText(p.key) + p.colon + [COLON] + (p.gap + SyntaxText(p.v) + p.after))
                             + [];
  }

  lemma MorePairs(p: Pair, ps: seq<Pair>, end: bytes)
    requires ps != []
    ensures PairsText([p] + ps) + end == PairText(p, [COMMA] + (PairsText(ps) + end))
  {
    hide SyntaxText, QuotedText;
    assert ([p] + ps)[1..] == ps;
    assert PairsText([p] + ps)
        == p.before + (QuotedText(p.key) + p.colon + [COLON] + (p.gap + SyntaxText(p.v) + p.after))
           + ([COMMA] + PairsText(ps));
  }

  lemma GoodPairsJoin(p: Pair, ps: seq<Pair>)
    requires GoodPair(p) && GoodPairs(ps)
    ensures GoodPairs([p] + ps)
  {
    hide GoodPair;
    assert forall i | 1 <= i < 1 + |ps| :: ([p] + ps)[i] == ps[i - 1];
  }

  /** A key that is accepted: a literal, white space and the colon. */
  lemma KeyShape(s: bytes) returns (key: seq<Piece>, colon: bytes)
    requires ParsedKey(s).Quoted?
    ensures GoodPieces(key) && AllSpaces(colon)
    ensures s == QuotedText(key) + (colon + ([COLON] + ParsedKey(s).rest))
  {
    hide QuotedString, QuotedText, GoodPieces, Meaning;
    key := StringAccepted(s);
    var t := QuotedString(s).rest;
    colon := SpacesSkipped(t);
    assert SkipSpaces(t) == [COLON] + ParsedKey(s).rest;
  }

  /** One turn of the loop over members. */
  lemma MembersTurn(s: bytes, nesting: nat, o: Members) returns (s1: bytes, s2: bytes, p: Members)
    requires ParsedMembers(s, nesting, o).Parsed?
    ensures ParsedKey(s).Quoted? && s1 == ParsedKey(s).rest && |s1| < |s|
    ensures ParsedValue(s1, nesting).Parsed? && s2 == ParsedValue(s1, nesting).rest && |s2| < |SkipSpaces(s1)|
    ensures var s3, r := SkipSpaces(s2), ParsedMembers(s, nesting, o);
            && s3 != [] && (s3[0] == COMMA || s3[0] == RBRACE)
            && (s3[0] == COMMA ==> r == ParsedMembers(SkipSpaces(s3[1..]), nesting, p))
            && (s3[0] == RBRACE ==> r.rest == s3[1..])
  {
    hide ParsedValue, ParsedKey, Add;
    s1 := ParsedKey(s).rest;
    s2 := ParsedValue(s1, nesting).rest;
    p := Add(o, ParsedKey(s).text, ParsedValue(s1, nesting).v).value;
    if |s2| >= |SkipSpaces(s1)| {
      LoneMinus(s1, nesting);
      assert false;
    }
  }

  lemma {:induction false} MembersShape(s: bytes, nesting: nat, o: Members) returns (ps: seq<Pair>)
    requires ParsedMembers(s, nesting, o).Parsed?
    ensures ps != [] && GoodPairs(ps)
    ensures s == PairsText(ps) + ([RBRACE] + ParsedMembers(s, nesting, o).rest)
    decreases |s|, 3
  {
    hide *;
    var s1, s2, q := MembersTurn(s, nesting, o);
    var s3, end := SkipSpaces(s2), [RBRACE] + ParsedMembers(s, nesting, o).rest;
    var key, colon := KeyShape(s);
    var gap, x := ValueShape(s1, nesting);
    var after := SpacesSkipped(s2);
    var p := Pair([], key, colon, gap, x, after);
    assert s == PairText(p, s3) by { PairTextIs(p, s, s1, s2, s3); }
    assert GoodPair(p) by { PairIsGood(p); }
    if s3[0] == RBRACE {
      ps := [p];
      assert s3 == end;
      LastPair(p, end);
      NoPairsGood();
      GoodPairsJoin(p, []);
      assert [p] + [] == [p];
    } else {
      var w := SpacesSkipped(s3[1..]);
      Shorter(s1, s2, s3);
      var more := MembersShape(SkipSpaces(s3[1..]), nesting, q);
      IndentedPairsText(w, more);
      ps := [p] + IndentedPairs(w, more);
      assert s3[1..] == w + PairsText(more) + end;
      assert s3 == [COMMA] + s3[1..];
      MorePairs(p, IndentedPairs(w, more), end);
      GoodPairsJoin(p, IndentedPairs(w, more));
    }
  }

  lemma PairTextIs(p: Pair, s: bytes, s1: bytes, s2: bytes, s3: bytes)
    requires p.before == [] && s == QuotedText(p.key) + (p.colon + ([COLON] + s1))
    requires s1 == p.gap + (SyntaxText(p.v) + s2) && s2 == p.after + s3
    ensures s == PairText(p, s3)
  {
    hide QuotedText, SyntaxText;
  }

  lemma PairIsGood(p: Pair)
    requires p.before == [] && AllSpaces(p.colon) && AllSpaces(p.gap) && AllSpaces(p.after)
    requires GoodPieces(p.key) && WellFormed(p.v)
    ensures GoodPair(p)
  {
  }

  lemma NoPairsGood()
    ensures GoodPairs([])
  {
  }

  lemma ObjectShape(u: bytes, nesting: nat) returns (x: Syntax)
    requires u != [] && u[0] == LBRACE && ParsedObject(u, nesting).Parsed?
    ensures x.JObject? && WellFormed(x) && u == SyntaxText(x) + ParsedObject(u, nesting).rest
    decreases |u|, 1
  {
    hide ParsedMembers, PairsText, GoodPairs;
    var t, rest := SkipSpaces(u[1..]), ParsedObject(u, nesting).rest;
    var w := SpacesSkipped(u[1..]);
    if t != [] && t[0] == RBRACE {
      x := JObject(w, []);
      assert u == [LBRACE] + w + [RBRACE] + rest;
    } else {
      var ps := MembersShape(t, nesting, EMPTY_OBJECT);
      IndentedPairsText(w, ps);
      var all := IndentedPairs(w, ps);
      x := JObject([], all);
      ObjectIsGood(all);
      assert u == [LBRACE] + PairsText(all) + [RBRACE] + rest;
    }
  }

  lemma ObjectIsGood(ps: seq<Pair>)
    requires GoodPairs(ps)
    ensures WellFormed(JObject([], ps))
  {
    assert forall i | 0 <= i < |ps| :: GoodPair(ps[i]);
  }

  /** Which branch of the parser a value takes. */
  lemma Branches(s: bytes, nesting: nat)
    requires ParsedValue(s, nesting).Parsed?
    ensures var u, r := SkipSpaces(s), ParsedValue(s, nesting);
            && u != [] && nesting <= MAX_NESTING
            && r == if u[0] == LBRACE then ParsedObject(u, nesting + 1)
                    else if u[0] == LBRACKET then ParsedArray(u, nesting + 1)
                    else ParsedScalar(u)
  {
  }

  lemma ValueShape(s: bytes, nesting: nat) returns (gap: bytes, x: Syntax)
    requires ParsedValue(s, nesting).Parsed? && |ParsedValue(s, nesting).rest| < |SkipSpaces(s)|
    ensures AllSpaces(gap) && WellFormed(x) && s == gap + (SyntaxText(x) + ParsedValue(s, nesting).rest)
    ensures IsScalar(x) ==> Allowed(x, nesting) && Denoted(x) == ParsedValue(s, nesting).v
    decreases |s|, 2
  {
    hide ParsedValue, ParsedArray, ParsedObject, ParsedScalar, SyntaxText, WellFormed, Allowed, Denoted;
    var u := SkipSpaces(s);
    gap := SpacesSkipped(s);
    Branches(s, nesting);
    if u[0] == LBRACE {
      x := ObjectShape(u, nesting + 1);
    } else if u[0] == LBRACKET {
      x := ArrayShape(u, nesting + 1);
    } else {
      x := ScalarAccepted(u);
    }
  }

  /**
   Whatever is accepted at any depth, unless it is a lone minus: a value of the grammar behind white
   space, allowed there and denoting what was returned, in front of what was left unread.
   */
  lemma ValueAccepted(s: bytes, nesting: nat) returns (gap: bytes, x: Syntax)
    requires ParsedValue(s, nesting).Parsed? && |ParsedValue(s, nesting).rest| < |SkipSpaces(s)|
    ensures AllSpaces(gap) && WellFormed(x) && Allowed(x, nesting)
    ensures s == gap + (SyntaxText(x) + ParsedValue(s, nesting).rest) && ParsedValue(s, nesting).v == Denoted(x)
  {
    hide *;
    gap, x := ValueShape(s, nesting);
    if x.JArray? || x.JObject? {
      Branches(s, nesting);
      var rest := ParsedValue(s, nesting).rest;
      assert ParsedValue(s, nesting) == ParsedValue(SyntaxText(x) + rest, nesting) by {
        BehindSpaces(gap, SyntaxText(x) + rest, nesting);
      }
      if x.JArray? {
        ArrayMeans(x.inner, x.items, nesting, rest);
      } else {
        ObjectMeans(x.inner, x.pairs, nesting, rest);
      }
    } else {
      ScalarIs(x);
    }
  }

  lemma ScalarIs(x: Syntax)
    requires !x.JArray? && !x.JObject?
    ensures IsScalar(x)
  {
  }

  lemma BehindSpaces(gap: bytes, t: bytes, nesting: nat)
    requires AllSpaces(gap)
    ensures ParsedValue(gap + t, nesting) == ParsedValue(t, nesting)
  {
    hide ParsedArray, ParsedObject, ParsedScalar;
    SkipSpacesPast(gap, t);
  }

  /** A text that spells a value, perhaps with something behind it. */
  ghost predicate Spells(s: bytes, before: bytes, x: Syntax, rest: bytes)
  {
    AllSpaces(before) && WellFormed(x) && Allowed(x, 0) && s == before + (SyntaxText(x) + rest)
  }

  /** A text is accepted with a value only if it spells that value, or is a minus that starts no number. */
  lemma TextAccepted(s: bytes)
    requires ParsedString(s).Some?
    ensures (exists before, x, rest :: Spells(s, before, x, rest) && ParsedString(s).value == Denoted(x))
            || (ParsedString(s).value == Number(0.0) && SkipSpaces(s) != [] && SkipSpaces(s)[0] == MINUS)
  {
    hide ParsedValue, SyntaxText, Allowed, Denoted, WellFormed;
    var rest := ParsedValue(s, 0).rest;
    if |rest| < |SkipSpaces(s)| {
      var before, x := ValueAccepted(s, 0);
      assert Spells(s, before, x, rest);
    } else {
      LoneMinus(s, 0);
    }
  }

  // ------------------------------------------------------------------ what is printed

  /** Every printed value that is not nested too deeply is a text of the grammar, with nothing around it. */
  lemma PrintedIsJson(v: Value, pretty: bool)
    requires Valid(v) && Depth(v) <= MAX_NESTING
    ensures exists x :: Spells(Text(v, 0, pretty), [], x, []) && Denoted(x) == Reparsed(v)
  {
    hide Text, ParsedValue, SyntaxText, Allowed, Denoted, WellFormed, Reparsed, Valid, Depth;
    var t := Text(v, 0, pretty);
    assert t + [] == t;
    ValueBack(v, 0, pretty, 0, []);
    TextStarts(v, pretty);
    var gap, x := ValueAccepted(t, 0);
    assert SyntaxText(x) + [] == SyntaxText(x);
    NoGap(gap, SyntaxText(x) + []);
    assert [] + (SyntaxText(x) + []) == t;
    assert Spells(t, [], x, []);
  }

  lemma NoGap(gap: bytes, t: bytes)
    requires AllSpaces(gap) && gap + t != [] && !IsSpace((gap + t)[0])
    ensures gap == []
  {
  }

  lemma TextStarts(v: Value, pretty: bool)
    ensures var t := Text(v, 0, pretty); t != [] && !IsSpace(t[0]) && SkipSpaces(t) == t
  {
    hide ItemsText, MembersText;
    match v
    case Number(x) => NumberStarts(x);
    case _ =>
  }

  lemma NumberStarts(x: real)
    ensures NumberText(x) != [] && !IsSpace(NumberText(x)[0])
  {
    hide Micros;
  }

  /** A byte is printed in the shortest way the grammar has for it, except that a slash is escaped. */
  lemma ShortestEscape(c: byte, p: Piece)
    requires GoodPiece(p) && !LeadPiece(p) && !TrailPiece(p) && Single(p) == [c]
    ensures c != SLASH ==> |EscapeByte(c)| <= |PieceText(p)|
    ensures EscapeByte(SLASH) == [BACKSLASH, SLASH]
  {
    hide Hex4Value;
  }
}
