/**
 The INI scanner as it works: on one line buffer that is cut in place with NULs.
 */
module IniReader {
  import opened Bytes
  import opened CString
  import opened Ini

  method RStrip(line: array<byte>, s: nat, ghost t: bytes)
    requires Holds(line[..], s, t)
    modifies line
    ensures Holds(line[..], s, RStripped(t))
    ensures forall i | 0 <= i < line.Length && !(s <= i < s + |t|) :: line[i] == old(line[i])
  {
    var n := StrLen(line, s, t);
    var p := s + n;
    assert t[..n] == t;
    while p > s
      invariant s <= p <= s + |t|
      invariant line[s..p] == t[..p - s] && line[p] == NUL
      invariant RStripped(t[..p - s]) == RStripped(t)
      invariant forall i | 0 <= i < line.Length && !(s <= i < s + |t|) :: line[i] == old(line[i])
    {
      p := p - 1;
      assert line[p] == t[p - s];
      assert t[..p + 1 - s][..p - s] == t[..p - s];
      if !IsSpace(line[p]) {
        assert line[..][s..p + 1] == t[..p + 1 - s];
        return;
      }
      line[p] := NUL;
    }
  }

  method LSkip(line: array<byte>, s: nat, ghost t: bytes) returns (p: nat)
    requires Holds(line[..], s, t)
    ensures p == s + |t| - |SkipSpaces(t)|
    ensures Holds(line[..], p, SkipSpaces(t))
  {
    p := s;
    while line[p] != NUL && IsSpace(line[p])
      invariant s <= p <= s + |t|
      invariant SkipSpaces(t[p - s..]) == SkipSpaces(t)
      decreases s + |t| - p
    {
      assert line[..][s..s + |t|][p - s] == t[p - s];
      assert t[p - s..][1..] == t[p + 1 - s..];
      p := p + 1;
    }
    HoldsBehind(line[..], s, t, p - s);
    assert p < s + |t| ==> line[..][s..s + |t|][p - s] == t[p - s];
  }

  method FindCharsOrComment(line: array<byte>, s: nat, chars: bytes, ghost t: bytes) returns (p: nat)
    requires Holds(line[..], s, t)
    ensures p == s + Find(t, chars, false)
    ensures line[p] == At(t, p - s)
  {
    var wasSpace := false;
    p := s;
    while line[p] != NUL && line[p] !in chars && !(wasSpace && line[p] == SEMICOLON)
      invariant s <= p <= s + |t|
      invariant p - s + Find(t[p - s..], chars, wasSpace) == Find(t, chars, false)
      decreases s + |t| - p
    {
      assert line[..][s..s + |t|][p - s] == t[p - s];
      assert t[p - s..][1..] == t[p + 1 - s..];
      wasSpace := IsSpace(line[p]);
      p := p + 1;
    }
    assert p < s + |t| ==> line[..][s..s + |t|][p - s] == t[p - s];
  }

  /** fgets into the line buffer. */
  method GetLine(line: array<byte>, stream: bytes, pos: nat) returns (next: nat)
    requires line.Length == INI_MAX_LINE && pos < |stream|
    modifies line
    ensures next == pos + Chunk(stream[pos..])
    ensures Holds(line[..], 0, CStr(stream[pos..next]))
  {
    next := pos;
    var done := false;
    while !done && next - pos < INI_MAX_LINE - 1 && next < |stream|
      invariant pos <= next <= |stream| && next - pos < INI_MAX_LINE
      invariant line[..next - pos] == stream[pos..next]
      invariant next - pos + (if done then 0 else ChunkLength(stream[next..], INI_MAX_LINE - 1 - (next - pos)))
                == Chunk(stream[pos..])
    {
      assert stream[next..][1..] == stream[next + 1..];
      line[next - pos] := stream[next];
      done := stream[next] == NEWLINE;
      next := next + 1;
    }
    line[next - pos] := NUL;
    ghost var chunk := stream[pos..next];
    assert line[..next - pos] == chunk;
    CStrIsPrefix(chunk);
    assert line[..][0..|CStr(chunk)|] == chunk[..|CStr(chunk)|];
  }

  method ReadHeading(line: array<byte>, start: nat, st: Scanner, ghost text: bytes) returns (o: Outcome)
    requires text != [] && Holds(line[..], start, text)
    modifies line
    ensures o == SectionLine(text, st)
  {
    HoldsBehind(line[..], start, text, 1);
    var end := FindCharsOrComment(line, start + 1, [RBRACKET], text[1..]);
    if line[end] == RBRACKET {
      ghost var n := end - start - 1;
      HoldsCut(line[..], start + 1, text[1..], n);
      line[end] := NUL;
      assert text[1..][..n] == text[1..1 + n];
      var section := StrDup(line, start + 1, text[1..1 + n]);
      return Outcome(Scanner(Truncated(section, MAX_SECTION), []), None);
    }
    return Outcome(st, Some(BadLine));
  }

  /** The part behind the delimiter. */
  method ReadValue(line: array<byte>, start: nat, ghost rest: bytes) returns (value: bytes)
    requires Holds(line[..], start, rest)
    modifies line
    ensures value == ValueOf(rest)
  {
    hide Find, RStripped;
    var end := FindCharsOrComment(line, start, [], rest);
    ghost var cut := rest[..end - start];
    if line[end] != NUL {
      HoldsCut(line[..], start, rest, end - start);
      line[end] := NUL;
    } else {
      assert cut == rest;
    }
    var first := LSkip(line, start, cut);
    RStrip(line, first, SkipSpaces(cut));
    value := StrDup(line, first, ValueOf(rest));
  }

  /** The part in front of the delimiter, which is cut off. */
  method ReadName(line: array<byte>, start: nat, n: nat, ghost text: bytes) returns (name: bytes)
    requires Holds(line[..], start, text) && n < |text|
    modifies line
    ensures name == RStripped(text[..n])
    ensures Holds(line[..], start + n + 1, text[n + 1..])
  {
    HoldsCut(line[..], start, text, n);
    line[start + n] := NUL;
    ghost var cut := line[..];
    RStrip(line, start, text[..n]);
    HoldsStays(cut, line[..], start + n + 1, text[n + 1..]);
    name := StrDup(line, start, RStripped(text[..n]));
  }

  method ReadPair(line: array<byte>, start: nat, st: Scanner, ghost text: bytes) returns (o: Outcome)
    requires Holds(line[..], start, text)
    modifies line
    ensures o == PairLine(text, st)
  {
    hide Find, RStripped, ValueOf, Truncated;
    var end := FindCharsOrComment(line, start, [EQUALS, COLON], text);
    if line[end] == EQUALS || line[end] == COLON {
      ghost var n := end - start;
      var name := ReadName(line, start, end - start, text);
      var value := ReadValue(line, end + 1, text[n + 1..]);
      return Outcome(st.(prevName := Truncated(name, MAX_NAME)), Some(Pair(st.section, name, value)));
    }
    return Outcome(st, Some(BadLine));
  }

  /** The body of the loop of ini_parse_stream, up to the call of the handler. */
  method ReadLine(line: array<byte>, lineno: nat, st: Scanner, ghost t: bytes) returns (o: Outcome)
    requires line.Length == INI_MAX_LINE && Holds(line[..], 0, t)
    modifies line
    ensures o == Line(lineno, t, st)
  {
    hide RStripped, SkipSpaces, SectionLine, PairLine;
    var start := 0;
    assert forall i | 0 <= i < |t| :: line[i] == line[..][0..|t|][i] == t[i];
    if lineno == 1 && line[0] == 0xEF && line[1] == 0xBB && line[2] == 0xBF {
      assert BOM <= t;
      start := 3;
    }
    HoldsBehind(line[..], 0, t, start);
    ghost var stripped := RStripped(t[start..]);
    RStrip(line, start, t[start..]);
    start := LSkip(line, start, stripped);
    ghost var text := SkipSpaces(stripped);
    assert line[start] == At(text, 0);
    if line[start] == SEMICOLON || line[start] == HASH {
      return Outcome(st, None);
    }
    if st.prevName != [] && line[start] != NUL && start > 0 {
      var value := StrDup(line, start, text);
      return Outcome(st, Some(Pair(st.section, st.prevName, value)));
    }
    if line[start] == LBRACKET {
      o := ReadHeading(line, start, st, text);
    } else if line[start] != NUL {
      o := ReadPair(line, start, st, text);
    } else {
      o := Outcome(st, None);
    }
  }
}
