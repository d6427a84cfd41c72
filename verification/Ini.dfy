/**
 The INI scanner: what it makes of a stream, as a function of the stream. A stream is read in
 chunks as fgets cuts them; of each chunk the scanner sees the C string it starts with.
 */
module Ini {
  import opened Bytes

  const INI_MAX_LINE: nat := 200
  const MAX_SECTION: nat := 50
  const MAX_NAME: nat := 50
  const HASH: byte := 35

  // ------------------------------------------------------------------ string helpers

  /** rstrip */
  function RStripped(s: bytes): (r: bytes)
    ensures |r| <= |s|
  {
    if s != [] && IsSpace(s[|s| - 1]) then RStripped(s[..|s| - 1]) else s
  }

  /** find_chars_or_comment: the length of what precedes one of the characters or an inline comment. */
  function Find(s: bytes, chars: bytes, wasSpace: bool): (n: nat)
    ensures n <= |s|
  {
    if s == [] || s[0] in chars || (wasSpace && s[0] == SEMICOLON) then 0 else 1 + Find(s[1..], chars, IsSpace(s[0]))
  }

  /** strncpy0 into a buffer of the given size. */
  function Truncated(s: bytes, size: nat): bytes
    requires size > 0
  {
    if |s| < size then s else s[..size - 1]
  }

  predicate Trimmed(s: bytes) { s != [] ==> !IsSpace(s[0]) && !IsSpace(s[|s| - 1]) }

  /** A semicolon after a space starts an inline comment. */
  predicate CommentAt(s: bytes, i: nat)
    requires i < |s|
  {
    i > 0 && IsSpace(s[i - 1]) && s[i] == SEMICOLON
  }

  predicate CommentFree(s: bytes) { forall i | 0 <= i < |s| :: !CommentAt(s, i) }

  lemma {:induction false} RStrippedIs(s: bytes)
    ensures RStripped(s) <= s && AllSpaces(s[|RStripped(s)|..])
    ensures RStripped(s) != [] ==> !IsSpace(RStripped(s)[|RStripped(s)| - 1])
  {
    if s != [] && IsSpace(s[|s| - 1]) {
      var init := s[..|s| - 1];
      RStrippedIs(init);
      assert s[|RStripped(s)|..] == init[|RStripped(s)|..] + [s[|s| - 1]];
    }
  }

  /** The first position, and no earlier one, at which the search has to stop. */
  lemma {:induction false} FindIsFirst(s: bytes, chars: bytes, wasSpace: bool)
    ensures var n := Find(s, chars, wasSpace);
            && (forall i | 0 <= i < n :: s[i] !in chars && !CommentAt(s, i))
            && (n > 0 && wasSpace ==> s[0] != SEMICOLON)
            && (n < |s| ==> s[n] in chars || CommentAt(s, n) || (n == 0 && wasSpace && s[0] == SEMICOLON))
  {
    var n := Find(s, chars, wasSpace);
    if n > 0 {
      FindIsFirst(s[1..], chars, IsSpace(s[0]));
      forall i | 0 <= i < n ensures s[i] !in chars && !CommentAt(s, i) {
        if i > 0 {
          assert s[i] == s[1..][i - 1];
          assert !CommentAt(s[1..], i - 1);
        }
      }
      if n < |s| {
        assert s[n] == s[1..][n - 1];
        assert n > 1 ==> s[n - 1] == s[1..][n - 2];
      }
    }
  }

  // ------------------------------------------------------------------ lines

  datatype Scanner = Scanner(section: bytes, prevName: bytes)

  /** A call of the handler, or a line that is no valid one. */
  datatype Call = Pair(section: bytes, name: bytes, value: bytes) | BadLine

  datatype Outcome = Outcome(scanner: Scanner, call: Option<Call>)

  const BOM: bytes := [0xEF, 0xBB, 0xBF]

  /** The value of a pair: cut at an inline comment and stripped on both sides. */
  function ValueOf(s: bytes): bytes { RStripped(SkipSpaces(s[..Find(s, [], false)])) }

  function SectionLine(text: bytes, st: Scanner): Outcome
    requires text != []
  {
    var n := Find(text[1..], [RBRACKET], false);
    if n < |text| - 1 && text[1 + n] == RBRACKET then Outcome(Scanner(Truncated(text[1..1 + n], MAX_SECTION), []), None)
    else Outcome(st, Some(BadLine))
  }

  function PairLine(text: bytes, st: Scanner): Outcome
  {
    var n := Find(text, [EQUALS, COLON], false);
    if n < |text| && (text[n] == EQUALS || text[n] == COLON) then
      var name := RStripped(text[..n]);
      Outcome(st.(prevName := Truncated(name, MAX_NAME)), Some(Pair(st.section, name, ValueOf(text[n + 1..]))))
    else Outcome(st, Some(BadLine))
  }

  /** What a line is once it is stripped; indented tells that something was skipped in front of it. */
  function TextLine(text: bytes, indented: bool, st: Scanner): Outcome
  {
    if text == [] || text[0] == SEMICOLON || text[0] == HASH then Outcome(st, None)
    else if st.prevName != [] && indented then Outcome(st, Some(Pair(st.section, st.prevName, text)))
    else if text[0] == LBRACKET then SectionLine(text, st)
    else PairLine(text, st)
  }

  /** The body of the loop over lines. */
  function Line(lineno: nat, line: bytes, st: Scanner): Outcome
  {
    var start := if lineno == 1 && BOM <= line then 3 else 0;
    var stripped := RStripped(line[start..]);
    var text := SkipSpaces(stripped);
    TextLine(text, start > 0 || |text| < |stripped|, st)
  }

  // ------------------------------------------------------------------ streams

  /** How many bytes fgets takes when it has room for so many. */
  function ChunkLength(s: bytes, room: nat): (n: nat)
    ensures n <= |s| && n <= room
    ensures s != [] && room > 0 ==> n > 0
  {
    if s == [] || room == 0 then 0 else if s[0] == NEWLINE then 1 else 1 + ChunkLength(s[1..], room - 1)
  }

  function Chunk(s: bytes): (n: nat)
    ensures n <= |s| && n < INI_MAX_LINE
    ensures s != [] ==> n > 0
  {
    ChunkLength(s, INI_MAX_LINE - 1)
  }

  datatype Numbered = Numbered(lineno: nat, call: Call)

  function CallAt(lineno: nat, o: Outcome): seq<Numbered>
  {
    if o.call.Some? then [Numbered(lineno, o.call.value)] else []
  }

  /** The calls made over a stream when so many lines were read before. */
  function Calls(lines: nat, s: bytes, st: Scanner): seq<Numbered>
    decreases |s|
  {
    if s == [] then []
    else
      var o := Line(lines + 1, CStr(s[..Chunk(s)]), st);
      CallAt(lines + 1, o) + Calls(lines + 1, s[Chunk(s)..], o.scanner)
  }

  /** The number of lines read and the scanner's state behind them. */
  function LinesOf(s: bytes): nat
    decreases |s|
  {
    if s == [] then 0 else 1 + LinesOf(s[Chunk(s)..])
  }

  function ScannerAfter(lines: nat, s: bytes, st: Scanner): Scanner
    decreases |s|
  {
    if s == [] then st
    else ScannerAfter(lines + 1, s[Chunk(s)..], Line(lines + 1, CStr(s[..Chunk(s)]), st).scanner)
  }

  predicate EndsLine(s: bytes) { s == [] || s[|s| - 1] == NEWLINE }

  lemma {:induction false} ChunkWithin(a: bytes, b: bytes, room: nat)
    requires a != [] && EndsLine(a)
    ensures ChunkLength(a + b, room) == ChunkLength(a, room)
  {
    if room > 0 && a[0] != NEWLINE {
      assert (a + b)[1..] == a[1..] + b;
      ChunkWithin(a[1..], b, room - 1);
    }
  }

  lemma ChunkOfWhole(a: bytes, b: bytes)
    requires a != [] && EndsLine(a)
    ensures Chunk(a + b) == Chunk(a)
  {
    ChunkWithin(a, b, INI_MAX_LINE - 1);
  }

  /** Lines are read one after the other: what follows a whole line does not matter to it. */
  lemma {:induction false} CallsSplit(lines: nat, a: bytes, b: bytes, st: Scanner)
    requires EndsLine(a)
    ensures Calls(lines, a + b, st) == Calls(lines, a, st) + Calls(lines + LinesOf(a), b, ScannerAfter(lines, a, st))
    decreases |a|
  {
    hide Line, CStr, Chunk;
    if a == [] {
      assert a + b == b;
    } else {
      var n := Chunk(a);
      assert Chunk(a + b) == n by { ChunkOfWhole(a, b); }
      assert (a + b)[..n] == a[..n] && (a + b)[n..] == a[n..] + b;
      CallsSplit(lines + 1, a[n..], b, Line(lines + 1, CStr(a[..n]), st).scanner);
    }
  }

  // ------------------------------------------------------------------ one line of the form name=value

  /** A name that neither the search for a delimiter nor stripping touches. */
  predicate PlainName(name: bytes)
  {
    && name != [] && name[0] != SEMICOLON && name[0] != HASH && name[0] != LBRACKET && name[0] != BOM[0]
    && forall i | 0 <= i < |name| :: !IsSpace(name[i]) && name[i] != EQUALS && name[i] != COLON && name[i] != NUL
  }

  function PairText(name: bytes, value: bytes): bytes { name + [EQUALS] + value + [NEWLINE] }

  /** The values that a line of the form name=value carries through. */
  predicate Fits(name: bytes, value: bytes)
  {
    Trimmed(value) && CommentFree(value) && NEWLINE !in value && |name| + 1 + |value| < INI_MAX_LINE
  }

  lemma {:induction false} FindPlain(name: bytes, rest: bytes, wasSpace: bool)
    requires forall i | 0 <= i < |name| :: !IsSpace(name[i]) && name[i] != EQUALS && name[i] != COLON
    requires wasSpace ==> name == []
    ensures Find(name + [EQUALS] + rest, [EQUALS, COLON], wasSpace) == |name|
  {
    if name != [] {
      assert (name + [EQUALS] + rest)[1..] == name[1..] + [EQUALS] + rest;
      FindPlain(name[1..], rest, false);
    }
  }

  lemma {:induction false} RStrippedBehind(p: bytes, s: bytes)
    requires p != [] && !IsSpace(p[|p| - 1])
    ensures RStripped(p + s) == p + RStripped(s)
  {
    if s == [] {
      assert p + s == p;
    } else if IsSpace(s[|s| - 1]) {
      assert (p + s)[..|p + s| - 1] == p + s[..|s| - 1];
      RStrippedBehind(p, s[..|s| - 1]);
    }
  }

  /** What a chunk that starts with name= is read as. */
  lemma PairChunk(lineno: nat, name: bytes, v: bytes, st: Scanner)
    requires PlainName(name)
    ensures Line(lineno, name + [EQUALS] + v, st)
         == Outcome(st.(prevName := Truncated(name, MAX_NAME)), Some(Pair(st.section, name, ValueOf(RStripped(v)))))
  {
    var head := name + [EQUALS];
    var line := head + v;
    assert line[0] == name[0];
    assert line[0..] == line;
    RStrippedBehind(head, v);
    var text := head + RStripped(v);
    assert text[0] == name[0];
    FindPlain(name, RStripped(v), false);
    assert text[..|name|] == name && text[|name| + 1..] == RStripped(v);
  }

  lemma {:induction false} SkipSpacesIs(s: bytes)
    ensures |SkipSpaces(s)| <= |s| && SkipSpaces(s) == s[|s| - |SkipSpaces(s)|..]
  {
    if s != [] && IsSpace(s[0]) {
      SkipSpacesIs(s[1..]);
    }
  }

  /** Stripping on both sides leaves a piece of the text. */
  lemma StrippedPiece(s: bytes) returns (k: nat)
    ensures var v := RStripped(SkipSpaces(s)); k + |v| <= |s| && v == s[k..k + |v|] && Trimmed(v)
  {
    SkipSpacesIs(s);
    k := |s| - |SkipSpaces(s)|;
    RStrippedIs(SkipSpaces(s));
  }

  lemma PieceIsCommentFree(s: bytes, k: nat, n: nat)
    requires k + n <= |s| && CommentFree(s)
    ensures CommentFree(s[k..k + n])
  {
    var v := s[k..k + n];
    forall i | 0 <= i < |v| ensures !CommentAt(v, i) {
      assert !CommentAt(s, k + i);
    }
  }

  lemma CutIsCommentFree(s: bytes)
    ensures CommentFree(s[..Find(s, [], false)])
  {
    var n := Find(s, [], false);
    FindIsFirst(s, [], false);
    forall i | 0 <= i < n ensures !CommentAt(s[..n], i) {
      assert !CommentAt(s, i);
    }
  }

  /** A value is a piece of the line, trimmed and free of comments. */
  lemma ValueShape(s: bytes)
    ensures Trimmed(ValueOf(s)) && CommentFree(ValueOf(s)) && |ValueOf(s)| <= |s|
    ensures |ValueOf(s)| == |s| ==> ValueOf(s) == s
  {
    hide CommentFree, Trimmed, SkipSpaces, RStripped, Find;
    var cut := s[..Find(s, [], false)];
    var k := StrippedPiece(cut);
    CutIsCommentFree(s);
    PieceIsCommentFree(cut, k, |ValueOf(s)|);
  }

  lemma ValueKept(v: bytes)
    requires Trimmed(v) && CommentFree(v)
    ensures RStripped(v) == v && ValueOf(v) == v
  {
    FindIsFirst(v, [], false);
    assert v[..|v|] == v;
  }

  lemma {:induction false} ChunkBehind(p: bytes, s: bytes, room: nat)
    requires NEWLINE !in p && |p| <= room
    ensures ChunkLength(p + s, room) == |p| + ChunkLength(s, room - |p|)
  {
    if p == [] {
      assert p + s == s;
    } else {
      assert (p + s)[1..] == p[1..] + s;
      ChunkBehind(p[1..], s, room - 1);
    }
  }

  lemma {:induction false} ChunkHasNoNewline(s: bytes, room: nat, i: nat)
    requires i + 1 < ChunkLength(s, room)
    ensures s[i] != NEWLINE
  {
    if i > 0 {
      ChunkHasNoNewline(s[1..], room - 1, i - 1);
    }
  }

  /** What of a value ends up in the chunk that its name starts. */
  function FirstPart(value: bytes, room: nat): bytes { (value + [NEWLINE])[..ChunkLength(value + [NEWLINE], room)] }

  function FirstValue(value: bytes, room: nat): bytes { ValueOf(RStripped(FirstPart(value, room))) }

  /** The line carries the value through exactly when it fits. */
  lemma FirstValueExactly(value: bytes, room: nat)
    ensures FirstValue(value, room) == value <==>
              Trimmed(value) && CommentFree(value) && NEWLINE !in value
              && |value| <= room
  {
    if FirstValue(value, room) == value {
      KeptValueFits(value, room);
    } else if Trimmed(value) && CommentFree(value) && NEWLINE !in value && |value| <= room {
      FittingValueKept(value, room);
      assert false;
    }
  }

  lemma FittingValueKept(value: bytes, room: nat)
    requires Trimmed(value) && CommentFree(value) && NEWLINE !in value && |value| <= room
    ensures FirstValue(value, room) == value
    ensures FirstPart(value, room) == if |value| < room then value + [NEWLINE] else value
  {
    hide ValueOf, CommentFree;
    ChunkBehind(value, [NEWLINE], room);
    ValueKept(value);
    var line := value + [NEWLINE];
    assert line[..|value|] == value && line[..|value| + 1] == line;
    assert RStripped(line) == RStripped(value);
  }

  lemma KeptValueFits(value: bytes, room: nat)
    requires FirstValue(value, room) == value
    ensures Trimmed(value) && CommentFree(value) && NEWLINE !in value && |value| <= room
  {
    hide CommentFree, ValueOf, RStripped;
    var line := value + [NEWLINE];
    var n := ChunkLength(line, room);
    ValueShape(RStripped(FirstPart(value, room)));
    forall i | 0 <= i < |value| ensures value[i] != NEWLINE {
      if i + 1 < |value| {
        ChunkHasNoNewline(line, room, i);
        assert line[i] == value[i];
      }
    }
  }

  lemma BlankLine(lines: nat, st: Scanner)
    ensures Calls(lines, [NEWLINE], st) == [] && LinesOf([NEWLINE]) == 1 && ScannerAfter(lines, [NEWLINE], st) == st
  {
    var s: bytes := [NEWLINE];
    assert Chunk(s) == 1;
    assert s[..1] == s && s[1..] == [];
    assert CStr(s) == s;
    assert RStripped(s) == [];
    assert s[0..] == s;
    assert Line(lines + 1, s, st) == Outcome(st, None);
  }

  /** The first chunk of a pair's line. */
  lemma PairChunks(lines: nat, name: bytes, value: bytes, st: Scanner)
    requires PlainName(name) && NulFree(value) && |name| + 1 < INI_MAX_LINE
    ensures var text, part := PairText(name, value), FirstPart(value, INI_MAX_LINE - 2 - |name|);
            && Chunk(text) == |name| + 1 + |part| && text[..Chunk(text)] == name + [EQUALS] + part
            && CStr(text[..Chunk(text)]) == text[..Chunk(text)]
            && text[Chunk(text)..] == (value + [NEWLINE])[|part|..]
  {
    var head, tail := name + [EQUALS], value + [NEWLINE];
    assert PairText(name, value) == head + tail;
    ChunkBehind(head, tail, INI_MAX_LINE - 1);
    CStrOfNulFree(head + FirstPart(value, INI_MAX_LINE - 2 - |name|));
  }

  /** A line of the form name=value always makes a call for its name. */
  lemma PairFirstCall(lines: nat, name: bytes, value: bytes, st: Scanner)
    requires PlainName(name) && NulFree(value) && |name| + 1 < INI_MAX_LINE
    ensures var text := PairText(name, value);
            && Calls(lines, text, st) != []
            && Calls(lines, text, st)[0] == Numbered(lines + 1,
                Pair(st.section, name, FirstValue(value, INI_MAX_LINE - 2 - |name|)))
            && Calls(lines, text, st)[1..]
            == Calls(lines + 1, text[Chunk(text)..], Scanner(st.section, Truncated(name, MAX_NAME)))
  {
    hide Line, FirstPart, PlainName, CStr, Trimmed, CommentFree, RStripped, ValueOf, Chunk;
    var text, part := PairText(name, value), FirstPart(value, INI_MAX_LINE - 2 - |name|);
    PairChunks(lines, name, value, st);
    PairChunk(lines + 1, name, part, st);
    var o := Line(lines + 1, text[..Chunk(text)], st);
    assert Calls(lines, text, st) == CallAt(lines + 1, o) + Calls(lines + 1, text[Chunk(text)..], o.scanner);
  }

  /** It makes exactly the call with its value if and only if the value fits. */
  lemma PairCalls(lines: nat, name: bytes, value: bytes, st: Scanner)
    requires PlainName(name) && NulFree(value) && |name| + 1 < INI_MAX_LINE
    ensures Calls(lines, PairText(name, value), st) == [Numbered(lines + 1, Pair(st.section, name, value))]
            <==> Fits(name, value)
  {
    hide PlainName, FirstPart, CStr, Trimmed, CommentFree, FirstValue, Chunk, Calls;
    var room := INI_MAX_LINE - 2 - |name|;
    PairFirstCall(lines, name, value, st);
    FirstValueExactly(value, room);
    if Fits(name, value) {
      PairChunks(lines, name, value, st);
      FittingValueKept(value, room);
      BlankLine(lines + 1, Scanner(st.section, Truncated(name, MAX_NAME)));
      NoLine(lines + 1, Scanner(st.section, Truncated(name, MAX_NAME)));
    }
  }

  lemma NoLine(lines: nat, st: Scanner)
    ensures Calls(lines, [], st) == []
  {
  }

  // ------------------------------------------------------------------ what calls can carry

  /** A line break only at the very end, as in every chunk. */
  predicate OneLine(s: bytes) { forall i | 0 <= i < |s| - 1 :: s[i] != NEWLINE }

  /** The text of a line is a piece of it that ends in no white space. */
  lemma TextPiece(s: bytes) returns (k: nat)
    ensures var t := SkipSpaces(RStripped(s));
            k + |t| <= |s| && t == s[k..k + |t|] && (t != [] ==> !IsSpace(t[|t| - 1]))
  {
    RStrippedIs(s);
    SkipSpacesIs(RStripped(s));
    k := |RStripped(s)| - |SkipSpaces(RStripped(s))|;
  }

  lemma TextHasNoNewline(s: bytes)
    requires OneLine(s)
    ensures NEWLINE !in SkipSpaces(RStripped(s)) && |SkipSpaces(RStripped(s))| <= |RStripped(s)| <= |s|
  {
    var t := SkipSpaces(RStripped(s));
    var k := TextPiece(s);
    forall i | 0 <= i < |t| ensures t[i] != NEWLINE {
      assert t[i] == s[k + i];
    }
  }

  lemma PieceHasNoNewline(s: bytes)
    requires NEWLINE !in s
    ensures NEWLINE !in ValueOf(s)
  {
    hide Find, RStripped, SkipSpaces;
    var cut, v := s[..Find(s, [], false)], ValueOf(s);
    var k := StrippedPiece(cut);
    forall i | 0 <= i < |v| ensures v[i] != NEWLINE {
      assert v[i] == cut[k..k + |v|][i] == cut[k + i] == s[k + i];
    }
  }

  /** What a pair carries fits one line with its name. */
  lemma PairLineFits(text: bytes, st: Scanner)
    requires NEWLINE !in text && |text| < INI_MAX_LINE
    ensures var c := PairLine(text, st).call;
            c.Some? && c.value.Pair? ==> Fits(c.value.name, c.value.value) && |c.value.value| < |text|
  {
    hide Find, ValueOf, RStripped;
    var n := Find(text, [EQUALS, COLON], false);
    if n < |text| {
      var rest := text[n + 1..];
      ValueShape(rest);
      PieceHasNoNewline(rest);
    }
  }

  /** What any call carries: no line break, less than its line; and it fits, unless it continues a value. */
  ghost predicate Carries(c: Call, st: Scanner, n: nat)
  {
    c.Pair? ==> NEWLINE !in c.value && |c.value| < n && (Fits(c.name, c.value) || c.name == st.prevName)
  }

  lemma TextCarries(text: bytes, indented: bool, st: Scanner, n: nat)
    requires NEWLINE !in text && |text| <= n < INI_MAX_LINE && (indented ==> |text| < n)
    ensures var c := TextLine(text, indented, st).call; c.Some? ==> Carries(c.value, st, n)
  {
    hide PairLine, Trimmed, CommentFree;
    PairLineFits(text, st);
  }

  lemma LineCarries(lineno: nat, line: bytes, st: Scanner)
    requires OneLine(line) && |line| < INI_MAX_LINE
    ensures var c := Line(lineno, line, st).call; c.Some? ==> Carries(c.value, st, |line|)
  {
    hide TextLine, Carries;
    var start := if lineno == 1 && BOM <= line then 3 else 0;
    var rest := line[start..];
    assert forall i | 0 <= i < |rest| :: rest[i] == line[start + i];
    TextHasNoNewline(rest);
    var text := SkipSpaces(RStripped(rest));
    TextCarries(text, start > 0 || |text| < |RStripped(rest)|, st, |line|);
  }

  lemma ChunkIsOneLine(s: bytes)
    ensures OneLine(CStr(s[..Chunk(s)])) && |CStr(s[..Chunk(s)])| < INI_MAX_LINE
  {
    var chunk := s[..Chunk(s)];
    CStrIsPrefix(chunk);
    var line := CStr(chunk);
    forall i | 0 <= i < |line| - 1 ensures line[i] != NEWLINE {
      ChunkHasNoNewline(s, INI_MAX_LINE - 1, i);
      assert line[i] == chunk[i] == s[i];
    }
  }

  /** No call ever carries a line break or more than 198 bytes. */
  lemma {:induction false} CallsAreShort(lines: nat, s: bytes, st: Scanner)
    ensures forall i | 0 <= i < |Calls(lines, s, st)| ::
              var c := Calls(lines, s, st)[i].call; c.Pair? ==> NEWLINE !in c.value && |c.value| < INI_MAX_LINE - 1
    decreases |s|
  {
    if s != [] {
      hide Line, CStr, Chunk, Fits;
      var line := CStr(s[..Chunk(s)]);
      ChunkIsOneLine(s);
      LineCarries(lines + 1, line, st);
      var o := Line(lines + 1, line, st);
      CallsAreShort(lines + 1, s[Chunk(s)..], o.scanner);
    }
  }

  lemma {:induction false} ChunkLengthIs(value: bytes, room: nat)
    requires NEWLINE !in value
    ensures ChunkLength(value + [NEWLINE], room) == if |value| < room then |value| + 1 else room
  {
    if value != [] && room > 0 {
      assert (value + [NEWLINE])[1..] == value[1..] + [NEWLINE];
      ChunkLengthIs(value[1..], room - 1);
    }
  }

  lemma FirstValueFits(name: bytes, value: bytes)
    requires NEWLINE !in value && |name| + 1 < INI_MAX_LINE
    ensures Fits(name, FirstValue(value, INI_MAX_LINE - 2 - |name|))
  {
    hide ValueOf, RStripped, CommentFree;
    var room := INI_MAX_LINE - 2 - |name|;
    var part := FirstPart(value, room);
    ChunkLengthIs(value, room);
    ValueShape(RStripped(part));
    RStrippedIs(part);
    forall i | 0 <= i < |part| - 1 ensures part[i] != NEWLINE {
      assert part[i] == (value + [NEWLINE])[i] == value[i];
    }
    StrippedHasNoNewline(part);
    PieceHasNoNewline(RStripped(part));
  }

  lemma StrippedHasNoNewline(s: bytes)
    requires OneLine(s)
    ensures NEWLINE !in RStripped(s)
  {
    RStrippedIs(s);
    var t := RStripped(s);
    forall i | 0 <= i < |t| ensures t[i] != NEWLINE {
      assert t[i] == s[i];
    }
  }

  /** A setting on at most two chunks: every call fits, or sets the name itself to something shorter. */
  ghost predicate Bounded(c: Call, name: bytes, value: bytes)
  {
    c.Pair? ==> Fits(c.name, c.value) || (c.name == name && |c.value| < |value|)
  }

  lemma PairCallsBounded(lines: nat, name: bytes, value: bytes, st: Scanner)
    requires PlainName(name) && |name| < MAX_NAME && NulFree(value) && NEWLINE !in value && |value| < INI_MAX_LINE - 1
    ensures forall i | 0 <= i < |Calls(lines, PairText(name, value), st)| ::
              Bounded(Calls(lines, PairText(name, value), st)[i].call, name, value)
  {
    hide PlainName, Fits, Calls, FirstPart, FirstValue, CStr, Line;
    var room := INI_MAX_LINE - 2 - |name|;
    var text, part, st2 := PairText(name, value), FirstPart(value, room), Scanner(st.section, name);
    var all := Calls(lines, text, st);
    PairFirstCall(lines, name, value, st);
    FirstValueFits(name, value);
    PairChunks(lines, name, value, st);
    var rest := text[Chunk(text)..];
    RestCalls(lines + 1, name, value, st2);
    assert Truncated(name, MAX_NAME) == name;
    assert rest == (value + [NEWLINE])[|part|..];
    assert all[1..] == Calls(lines + 1, rest, st2);
    forall i | 0 <= i < |all| ensures Bounded(all[i].call, name, value) {
      if i > 0 {
        assert all[i] == all[1..][i - 1];
      }
    }
  }

  /** The second chunk of a setting, if there is one, is short. */
  lemma RestCalls(lines: nat, name: bytes, value: bytes, st: Scanner)
    requires |name| < MAX_NAME && NulFree(value) && NEWLINE !in value && |value| < INI_MAX_LINE - 1
             && st.prevName == name
    ensures var part := FirstPart(value, INI_MAX_LINE - 2 - |name|);
            var calls := Calls(lines, (value + [NEWLINE])[|part|..], st);
            forall i | 0 <= i < |calls| :: Bounded(calls[i].call, name, value)
  {
    hide Fits, Line;
    var room := INI_MAX_LINE - 2 - |name|;
    ChunkLengthIs(value, room);
    var rest := (value + [NEWLINE])[|FirstPart(value, room)|..];
    if rest != [] {
      assert rest == value[room..] + [NEWLINE] && |rest| < |value|;
      ChunkLengthIs(value[room..], INI_MAX_LINE - 1);
      assert Chunk(rest) == |rest|;
      assert rest[..|rest|] == rest && rest[|rest|..] == [];
      CStrOfNulFree(rest);
      assert OneLine(rest);
      LineCarries(lines + 1, rest, st);
      assert Calls(lines, rest, st) == CallAt(lines + 1, Line(lines + 1, rest, st))
             + Calls(lines + 1, [], Line(lines + 1, rest, st).scanner);
      NoLine(lines + 1, Line(lines + 1, rest, st).scanner);
    }
  }

  function HeadingText(name: bytes): bytes { [LBRACKET] + name + [RBRACKET, NEWLINE] }

  lemma HeadingLine(lineno: nat, name: bytes, st: Scanner)
    requires RBRACKET !in name && CommentFree(name)
    ensures Line(lineno, HeadingText(name), st) == Outcome(Scanner(Truncated(name, MAX_SECTION), []), None)
  {
    var line, text := HeadingText(name), [LBRACKET] + name + [RBRACKET];
    assert line == text + [NEWLINE] && line[..|line| - 1] == text && line[0..] == line;
    assert RStripped(line) == RStripped(text) == text;
    assert line[0] == LBRACKET && text[0] == LBRACKET && SkipSpaces(text) == text;
    assert text[1..] == name + [RBRACKET];
    HeadingEnd(name);
    assert text[1..1 + |name|] == name;
  }

  lemma HeadingEnd(name: bytes)
    requires RBRACKET !in name && CommentFree(name)
    ensures Find(name + [RBRACKET], [RBRACKET], false) == |name|
  {
    var s := name + [RBRACKET];
    FindIsFirst(s, [RBRACKET], false);
    assert s[|name|] == RBRACKET;
    assert forall i | 0 <= i < |name| :: s[i] == name[i] && !CommentAt(name, i);
  }

  /** A section heading makes no call and starts the section. */
  lemma HeadingCalls(lines: nat, name: bytes, st: Scanner)
    requires RBRACKET !in name && NEWLINE !in name && NulFree(name) && CommentFree(name) && |name| + 3 < INI_MAX_LINE
    ensures Calls(lines, HeadingText(name), st) == [] && LinesOf(HeadingText(name)) == 1
    ensures ScannerAfter(lines, HeadingText(name), st) == Scanner(Truncated(name, MAX_SECTION), [])
  {
    hide Line, CommentFree;
    var text := HeadingText(name);
    ChunkBehind([LBRACKET] + name + [RBRACKET], [NEWLINE], INI_MAX_LINE - 1);
    assert text == [LBRACKET] + name + [RBRACKET] + [NEWLINE];
    assert Chunk(text) == |text|;
    assert text[..|text|] == text && text[|text|..] == [];
    CStrOfNulFree(text);
    HeadingLine(lines + 1, name, st);
  }
}
