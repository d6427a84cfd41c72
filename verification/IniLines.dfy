/**
 What every kind of line is to the INI scanner, said of the text between its white space.
 */
module IniLines {
  import opened Bytes
  import opened Ini

  // ------------------------------------------------------------------ white space around a text

  lemma {:induction false} StripBehind(s: bytes, w: bytes)
    requires AllSpaces(w) && (s == [] || !IsSpace(s[|s| - 1]))
    ensures RStripped(s + w) == s
  {
    if w == [] {
      assert s + w == s;
    } else {
      assert (s + w)[..|s + w| - 1] == s + w[..|w| - 1];
      StripBehind(s, w[..|w| - 1]);
    }
  }

  lemma {:induction false} SkipFront(w: bytes, s: bytes)
    requires AllSpaces(w) && (s == [] || !IsSpace(s[0]))
    ensures SkipSpaces(w + s) == s
  {
    if w == [] {
      assert w + s == s;
    } else {
      assert (w + s)[1..] == w[1..] + s;
      SkipFront(w[1..], s);
    }
  }

  /** A text with white space around it. */
  function Around(w0: bytes, text: bytes, w1: bytes): bytes { w0 + text + w1 }

  predicate Spaced(w0: bytes, text: bytes, w1: bytes)
  {
    AllSpaces(w0) && AllSpaces(w1) && text != [] && Trimmed(text) && text[0] != BOM[0]
  }

  /** The line is what its text is; it is indented exactly when there is white space in front. */
  lemma LineOf(lineno: nat, w0: bytes, text: bytes, w1: bytes, st: Scanner)
    requires Spaced(w0, text, w1)
    ensures Line(lineno, Around(w0, text, w1), st) == TextLine(text, w0 != [], st)
  {
    hide TextLine;
    var line := Around(w0, text, w1);
    assert line[0] == (w0 + text)[0];
    assert !(BOM <= line);
    assert line[0..] == line;
    StripBehind(w0 + text, w1);
    SkipFront(w0, text);
  }

  // ------------------------------------------------------------------ the kinds of line

  predicate StartsComment(c: byte) { c == SEMICOLON || c == HASH }

  /** A line whose first byte behind white space is a semicolon or a hash makes no call and changes nothing. */
  lemma CommentLine(lineno: nat, w0: bytes, c: byte, rest: bytes, st: Scanner)
    requires AllSpaces(w0) && StartsComment(c)
    ensures Line(lineno, w0 + [c] + rest, st) == Outcome(st, None)
  {
    var head, line := w0 + [c], w0 + [c] + rest;
    assert line[0] == head[0];
    assert !(BOM <= line);
    assert line[0..] == line;
    RStrippedBehind(head, rest);
    var text := [c] + RStripped(rest);
    assert head + RStripped(rest) == w0 + text;
    SkipFront(w0, text);
  }

  /** An indented line behind a pair goes to the handler as one more value of that name. */
  lemma ContinuationLine(lineno: nat, w0: bytes, text: bytes, w1: bytes, st: Scanner)
    requires Spaced(w0, text, w1) && w0 != [] && !StartsComment(text[0]) && st.prevName != []
    ensures Line(lineno, Around(w0, text, w1), st) == Outcome(st, Some(Pair(st.section, st.prevName, text)))
  {
    LineOf(lineno, w0, text, w1, st);
  }

  /** No inline comment starts at or before the position. */
  predicate NoCommentTo(text: bytes, i: nat)
    requires i < |text|
  {
    forall j | 0 <= j <= i :: !CommentAt(text, j)
  }

  /** The first delimiter of a pair: nothing before it is one, or starts an inline comment. */
  predicate DelimiterAt(text: bytes, i: nat)
  {
    && i < |text| && (text[i] == EQUALS || text[i] == COLON) && NoCommentTo(text, i)
    && forall j | 0 <= j < i :: text[j] != EQUALS && text[j] != COLON
  }

  /** The bracket that closes a heading. */
  predicate BracketAt(text: bytes, i: nat)
  {
    && 0 < i < |text| && text[i] == RBRACKET && NoCommentTo(text, i)
    && forall j | 0 < j < i :: text[j] != RBRACKET
  }

  lemma FindDelimiter(text: bytes)
    ensures var n := Find(text, [EQUALS, COLON], false);
            && (n < |text| && (text[n] == EQUALS || text[n] == COLON) ==> DelimiterAt(text, n))
            && forall i: nat :: DelimiterAt(text, i) ==> i == n
  {
    var n := Find(text, [EQUALS, COLON], false);
    FindIsFirst(text, [EQUALS, COLON], false);
    assert n < |text| ==> CommentAt(text, n) || text[n] == EQUALS || text[n] == COLON;
  }

  lemma FindBracket(text: bytes)
    requires text != [] && text[0] == LBRACKET
    ensures var n := 1 + Find(text[1..], [RBRACKET], false);
            && (n < |text| && text[n] == RBRACKET ==> BracketAt(text, n))
            && forall i: nat :: BracketAt(text, i) ==> i == n
  {
    var t := text[1..];
    var n := 1 + Find(t, [RBRACKET], false);
    FindIsFirst(t, [RBRACKET], false);
    forall j | 0 < j < |text| ensures CommentAt(text, j) <==> CommentAt(t, j - 1) {
      assert text[j] == t[j - 1];
      assert j > 1 ==> text[j - 1] == t[j - 2];
    }
    assert forall j | 0 < j < n :: text[j] == t[j - 1] && !CommentAt(t, j - 1);
    assert n < |text| ==> text[n] == t[n - 1] && (CommentAt(text, n) || text[n] == RBRACKET);
  }

  /** Not a comment and not a continuation. */
  predicate Fresh(w0: bytes, text: bytes, st: Scanner)
    requires text != []
  {
    !StartsComment(text[0]) && (w0 == [] || st.prevName == [])
  }

  /** A pair, with either delimiter: the stripped name in front of it and the value behind it. */
  lemma PairSplits(lineno: nat, w0: bytes, text: bytes, w1: bytes, st: Scanner, i: nat)
    requires Spaced(w0, text, w1) && Fresh(w0, text, st) && text[0] != LBRACKET && DelimiterAt(text, i)
    ensures var name := RStripped(text[..i]);
            Line(lineno, Around(w0, text, w1), st)
            == Outcome(st.(prevName := Truncated(name, MAX_NAME)), Some(Pair(st.section, name, ValueOf(text[i + 1..]))))
  {
    LineOf(lineno, w0, text, w1, st);
    FindDelimiter(text);
  }

  /** A heading starts its section, cut to 49 bytes, and makes no call. */
  lemma HeadingSplits(lineno: nat, w0: bytes, text: bytes, w1: bytes, st: Scanner, i: nat)
    requires Spaced(w0, text, w1) && Fresh(w0, text, st) && text[0] == LBRACKET && BracketAt(text, i)
    ensures Line(lineno, Around(w0, text, w1), st) == Outcome(Scanner(Truncated(text[1..i], MAX_SECTION), []), None)
  {
    LineOf(lineno, w0, text, w1, st);
    FindBracket(text);
  }

  /** A text without a delimiter, or without a closing bracket behind an opening one. */
  ghost predicate Malformed(text: bytes)
    requires text != []
  {
    if text[0] == LBRACKET then forall i: nat :: !BracketAt(text, i) else forall i: nat :: !DelimiterAt(text, i)
  }

  /** A line is bad exactly when it has no delimiter, or no closing bracket if it is a heading, before a comment. */
  lemma BadLineExactly(lineno: nat, w0: bytes, text: bytes, w1: bytes, st: Scanner)
    requires Spaced(w0, text, w1) && Fresh(w0, text, st)
    ensures Line(lineno, Around(w0, text, w1), st) == Outcome(st, Some(BadLine)) <==> Malformed(text)
  {
    LineOf(lineno, w0, text, w1, st);
    if text[0] == LBRACKET {
      FindBracket(text);
    } else {
      FindDelimiter(text);
    }
  }

  /** A value ends in front of an inline comment and is stripped on both sides. */
  lemma InlineComment(w0: bytes, v: bytes, w1: bytes, c: bytes)
    requires AllSpaces(w0) && AllSpaces(w1) && w1 != [] && v != [] && Trimmed(v) && CommentFree(v) && v[0] != SEMICOLON
    ensures ValueOf(w0 + v + w1 + [SEMICOLON] + c) == v
  {
    var head, s := w0 + v + w1, w0 + v + w1 + [SEMICOLON] + c;
    HeadIsCommentFree(w0, v, w1);
    FindIsFirst(s, [], false);
    assert forall i | 0 <= i < |head| :: s[i] == head[i] && (CommentAt(s, i) <==> CommentAt(head, i));
    assert CommentAt(s, |head|);
    assert Find(s, [], false) == |head|;
    assert s[..|head|] == head;
    SkipFront(w0, v + w1);
    assert head == w0 + (v + w1);
    StripBehind(v, w1);
  }

  lemma HeadIsCommentFree(w0: bytes, v: bytes, w1: bytes)
    requires AllSpaces(w0) && AllSpaces(w1) && v != [] && CommentFree(v) && v[0] != SEMICOLON
    ensures CommentFree(w0 + v + w1)
  {
    var s := w0 + v + w1;
    forall i | 0 <= i < |s| ensures !CommentAt(s, i) {
      if |w0| <= i < |w0| + |v| {
        assert s[i] == v[i - |w0|] && !CommentAt(v, i - |w0|);
        assert i > |w0| ==> s[i - 1] == v[i - |w0| - 1];
      }
    }
  }

  /** A byte order mark is skipped, in the first line only. */
  lemma BomLine(w0: bytes, text: bytes, w1: bytes, section: bytes)
    requires Spaced(w0, text, w1)
    ensures var st := Scanner(section, []); Line(1, BOM + Around(w0, text, w1), st) == TextLine(text, true, st)
    ensures var st := Scanner(section, []); TextLine(text, true, st) == TextLine(text, false, st)
  {
    var line := BOM + Around(w0, text, w1);
    assert BOM <= line && line[3..] == Around(w0, text, w1);
    StripBehind(w0 + text, w1);
    SkipFront(w0, text);
  }

  // ------------------------------------------------------------------ lines in a file

  lemma WholeLine(s: bytes, room: nat)
    requires NEWLINE !in s && |s| < room
    ensures ChunkLength(s + [NEWLINE], room) == |s| + 1
  {
    ChunkBehind(s, [NEWLINE], room);
  }

  /** A line of the file, with its end: it is read in one piece and stands for itself. */
  lemma OneLineCalls(lines: nat, s: bytes, st: Scanner)
    requires NEWLINE !in s && NulFree(s) && |s| + 1 < INI_MAX_LINE
    ensures var o := Line(lines + 1, s + [NEWLINE], st);
            && Calls(lines, s + [NEWLINE], st) == CallAt(lines + 1, o) && LinesOf(s + [NEWLINE]) == 1
            && ScannerAfter(lines, s + [NEWLINE], st) == o.scanner
  {
    hide Line;
    var t := s + [NEWLINE];
    WholeLine(s, INI_MAX_LINE - 1);
    assert t[..|t|] == t && t[|t|..] == [];
    CStrOfNulFree(t);
    NoLine(lines + 1, Line(lines + 1, t, st).scanner);
  }

  function CommentText(w0: bytes, c: byte, rest: bytes): bytes { w0 + [c] + rest + [NEWLINE] }

  predicate IsCommentText(w0: bytes, c: byte, rest: bytes)
  {
    AllSpaces(w0) && NEWLINE !in w0 && StartsComment(c) && NEWLINE !in rest
  }

  /** What is left of a comment behind a NUL is still a comment. */
  lemma CutComment(w0: bytes, c: byte, rest: bytes)
    requires AllSpaces(w0) && StartsComment(c)
    ensures CStr(w0 + [c] + rest) == w0 + [c] + CStr(rest)
    decreases |w0|
  {
    var s := w0 + [c] + rest;
    if w0 == [] {
      assert s[1..] == rest;
      assert s == [c] + rest && [] + [c] + CStr(rest) == [c] + CStr(rest);
    } else {
      assert s[1..] == w0[1..] + [c] + rest;
      CutComment(w0[1..], c, rest);
      assert [w0[0]] + (w0[1..] + [c] + CStr(rest)) == w0 + [c] + CStr(rest);
    }
  }

  /** A comment of up to 199 bytes makes no call and changes nothing, whatever it says. */
  lemma CommentCalls(lines: nat, w0: bytes, c: byte, rest: bytes, st: Scanner)
    requires IsCommentText(w0, c, rest) && |w0| + 1 + |rest| < INI_MAX_LINE
    ensures Calls(lines, CommentText(w0, c, rest), st) == []
    ensures ScannerAfter(lines, CommentText(w0, c, rest), st) == st
    ensures LinesOf(CommentText(w0, c, rest)) == if |w0| + 1 + |rest| < INI_MAX_LINE - 1 then 1 else 2
  {
    hide Line;
    var s := w0 + [c] + rest;
    var t := CommentText(w0, c, rest);
    ChunkBehind(s, [NEWLINE], INI_MAX_LINE - 1);
    assert t == s + [NEWLINE];
    if |s| < INI_MAX_LINE - 1 {
      assert t[..|t|] == t && t[|t|..] == [] && t == w0 + [c] + (rest + [NEWLINE]);
      CutComment(w0, c, rest + [NEWLINE]);
      CommentLine(lines + 1, w0, c, CStr(rest + [NEWLINE]), st);
      NoLine(lines + 1, st);
    } else {
      assert Chunk(t) == |s| && t[..|s|] == s && t[|s|..] == [NEWLINE];
      CutComment(w0, c, rest);
      CommentLine(lines + 1, w0, c, CStr(rest), st);
      BlankLine(lines + 1, st);
    }
  }

  /** A comment does not reach further: what follows its 199th byte is read as a line of its own. */
  lemma LongComment(lines: nat, w0: bytes, c: byte, rest: bytes, more: bytes, st: Scanner)
    requires IsCommentText(w0, c, rest) && |w0| + 1 + |rest| == INI_MAX_LINE - 1
    ensures Calls(lines, w0 + [c] + rest + more, st) == Calls(lines + 1, more, st)
  {
    hide Line;
    var s := w0 + [c] + rest;
    ChunkBehind(s, more, INI_MAX_LINE - 1);
    assert Chunk(s + more) == |s| && (s + more)[..|s|] == s && (s + more)[|s|..] == more;
    CutComment(w0, c, rest);
    CommentLine(lines + 1, w0, c, CStr(rest), st);
  }

  /** A pair and an indented line behind it: two calls for the name, the second one with the stripped line. */
  lemma ContinuedPair(lines: nat, name: bytes, value: bytes, w0: bytes, text: bytes, st: Scanner)
    requires PlainName(name) && |name| < MAX_NAME && NulFree(value) && Fits(name, value)
    requires Spaced(w0, text, []) && w0 != [] && !StartsComment(text[0])
    requires NEWLINE !in w0 + text && NulFree(w0 + text) && |w0 + text| + 1 < INI_MAX_LINE
    requires |name| + 1 + |value| + 1 < INI_MAX_LINE
    ensures Calls(lines, PairText(name, value) + (w0 + text + [NEWLINE]), st)
         == [Numbered(lines + 1, Pair(st.section, name, value)), Numbered(lines + 2, Pair(st.section, name, text))]
  {
    hide Line, Fits, PlainName, Calls, Spaced;
    var first, second := PairText(name, value), w0 + text + [NEWLINE];
    assert EndsLine(first);
    PlainBytes(name);
    CallsSplit(lines, first, second, st);
    PairCalls(lines, name, value, st);
    PairScanner(lines, name, value, st);
    OneLineCalls(lines + 1, w0 + text, Scanner(st.section, name));
    assert second == Around(w0, text, [NEWLINE]);
    assert Spaced(w0, text, [NEWLINE]) by { SpacedMore(w0, text); }
    ContinuationLine(lines + 2, w0, text, [NEWLINE], Scanner(st.section, name));
  }

  lemma SpacedMore(w0: bytes, text: bytes)
    requires Spaced(w0, text, [])
    ensures Spaced(w0, text, [NEWLINE])
  {
  }

  lemma PairScanner(lines: nat, name: bytes, value: bytes, st: Scanner)
    requires PlainName(name) && |name| < MAX_NAME && NulFree(value) && Fits(name, value)
    requires |name| + 1 + |value| + 1 < INI_MAX_LINE
    ensures LinesOf(PairText(name, value)) == 1
    ensures ScannerAfter(lines, PairText(name, value), st) == Scanner(st.section, name)
  {
    hide Line, Trimmed, CommentFree;
    var s := name + [EQUALS] + value;
    assert NEWLINE !in name && NulFree(name) by { PlainBytes(name); }
    OneLineCalls(lines, s, st);
    assert PairText(name, value) == s + [NEWLINE] == name + [EQUALS] + (value + [NEWLINE]);
    PairChunk(lines + 1, name, value + [NEWLINE], st);
  }

  lemma PlainBytes(name: bytes)
    requires PlainName(name)
    ensures name != [] && NEWLINE !in name && NulFree(name)
  {
  }

  // ------------------------------------------------------------------ line numbers

  /** The same calls so many lines further down. */
  function Renumbered(calls: seq<Numbered>, d: nat): (r: seq<Numbered>)
    ensures |r| == |calls|
  {
    seq(|calls|, i requires 0 <= i < |calls| => Numbered(calls[i].lineno + d, calls[i].call))
  }

  predicate StartsWithBom(s: bytes) { BOM <= CStr(s[..Chunk(s)]) }

  lemma LineFurtherDown(lineno: nat, d: nat, line: bytes, st: Scanner)
    requires lineno > 1 || !(BOM <= line)
    ensures Line(lineno + d, line, st) == Line(lineno, line, st)
  {
  }

  /** Only the first line of a file knows where it is. */
  lemma {:induction false} CallsFurtherDown(lines: nat, d: nat, s: bytes, st: Scanner)
    requires lines > 0 || !StartsWithBom(s)
    ensures Calls(lines + d, s, st) == Renumbered(Calls(lines, s, st), d)
    decreases |s|
  {
    hide CStr, Chunk, Line, Renumbered;
    if s == [] {
      RenumberedNone(d);
    } else {
      var line := CStr(s[..Chunk(s)]);
      var o := Line(lines + 1, line, st);
      assert lines + 1 + d == lines + d + 1;
      LineFurtherDown(lines + 1, d, line, st);
      RenumberedOne(lines + 1, o, d);
      CallsFurtherDown(lines + 1, d, s[Chunk(s)..], o.scanner);
      RenumberedSplit(CallAt(lines + 1, o), Calls(lines + 1, s[Chunk(s)..], o.scanner), d);
    }
  }

  lemma RenumberedNone(d: nat)
    ensures Renumbered([], d) == []
  {
  }

  lemma RenumberedOne(lineno: nat, o: Outcome, d: nat)
    ensures Renumbered(CallAt(lineno, o), d) == CallAt(lineno + d, o)
  {
  }

  lemma RenumberedSplit(a: seq<Numbered>, b: seq<Numbered>, d: nat)
    ensures Renumbered(a + b, d) == Renumbered(a, d) + Renumbered(b, d)
  {
  }
}
