/**
 The request line said without the tokenizer: which lines are refused, and with which code.
 */
module HttpLine {
  import opened Bytes
  import opened Http

  predicate AllIn(s: bytes, d: bytes) { forall i | 0 <= i < |s| :: s[i] in d }

  /** Delimiters, a text without any, and either the end or one more delimiter with the rest behind it. */
  ghost predicate Splits(s: bytes, d: bytes, gap: bytes, text: bytes, rest: bytes)
  {
    && AllIn(gap, d) && text != [] && FreeOf(text, d)
    && ((s == gap + text && rest == []) || exists c: byte | c in d :: s == gap + text + [c] + rest)
  }

  ghost predicate Next(s: bytes, d: bytes, text: bytes, rest: bytes) { exists gap :: Splits(s, d, gap, text, rest) }

  lemma {:induction false} SkipOver(gap: bytes, s: bytes, d: bytes)
    requires AllIn(gap, d)
    ensures StrTok(gap + s, d) == StrTok(s, d)
  {
    if gap == [] {
      assert gap + s == s;
    } else {
      assert gap + s == [gap[0]] + (gap[1..] + s);
      DelimiterSkipped(gap[0], gap[1..] + s, d);
      SkipOver(gap[1..], s, d);
    }
  }

  lemma {:induction false} SkipAnyIs(s: bytes, d: bytes) returns (gap: bytes)
    ensures AllIn(gap, d) && s == gap + SkipAny(s, d)
  {
    if s != [] && s[0] in d {
      gap := SkipAnyIs(s[1..], d);
      gap := [s[0]] + gap;
    } else {
      gap := [];
    }
  }

  /** strtok_r finds a token exactly where there is one, and none exactly where there are only delimiters. */
  lemma StrTokExactly(s: bytes, d: bytes, text: bytes, rest: bytes)
    ensures StrTok(s, d) == Token(text, rest) <==> Next(s, d, text, rest)
    ensures StrTok(s, d) == NoToken <==> AllIn(s, d)
  {
    hide SkipAny, TokenLength;
    var gap := SkipAnyIs(s, d);
    var r := SkipAny(s, d);
    var n := TokenLength(r, d);
    TokenIsFree(r, d);
    if r != [] {
      assert s[|gap|] == r[0];
      var rest1 := if n < |r| then r[n + 1..] else [];
      assert Splits(s, d, gap, r[..n], rest1) by {
        if n < |r| {
          assert r == r[..n] + [r[n]] + r[n + 1..];
          assert s == gap + r[..n] + [r[n]] + r[n + 1..];
        } else {
          assert r[..n] == r;
        }
      }
    }
    if Next(s, d, text, rest) {
      var g :| Splits(s, d, g, text, rest);
      SplitsBack(s, d, g, text, rest);
    }
  }

  lemma SplitsBack(s: bytes, d: bytes, gap: bytes, text: bytes, rest: bytes)
    requires Splits(s, d, gap, text, rest)
    ensures StrTok(s, d) == Token(text, rest)
  {
    hide StrTok;
    if s == gap + text && rest == [] {
      SkipOver(gap, text, d);
      LastToken(text, d);
    } else {
      var c: byte :| c in d && s == gap + text + [c] + rest;
      assert s == gap + (text + [c] + rest);
      SkipOver(gap, text + [c] + rest, d);
      TokenBefore(text, c, rest, d);
    }
  }

  // ------------------------------------------------------------------ the first line

  /** The line stands in front of the first CR LF of the request. */
  predicate StartsWithLine(request: bytes, line: bytes)
  {
    && line + [CR, NEWLINE] <= request
    && forall i | 0 <= i < |line| :: !(request[i] == CR && request[i + 1] == NEWLINE)
  }

  lemma {:induction false} LineEndIs(s: bytes)
    ensures var n := LineEnd(s);
            && (n < |s| ==> StartsWithLine(s, s[..n]))
            && forall line :: StartsWithLine(s, line) ==> n < |s| && line == s[..n]
  {
    if |s| >= 2 && !(s[0] == CR && s[1] == NEWLINE) {
      LineEndIs(s[1..]);
      var n, rest := LineEnd(s), s[1..];
      assert forall i | 1 <= i < |s| :: s[i] == rest[i - 1];
      if n < |s| {
        assert rest[..n - 1] + [CR, NEWLINE] <= rest;
        assert s[..n] + [CR, NEWLINE] <= s;
        forall i | 0 <= i < n ensures !(s[i] == CR && s[i + 1] == NEWLINE) {
          if i > 0 {
            assert !(rest[i - 1] == CR && rest[i] == NEWLINE);
          }
        }
      }
      forall line | StartsWithLine(s, line) ensures n < |s| && line == s[..n] {
        LineInside(s, line);
        assert line[1..] == rest[..n - 1];
        assert line == [s[0]] + line[1..];
      }
    }
  }

  lemma LineInside(s: bytes, line: bytes)
    requires |s| >= 2 && !(s[0] == CR && s[1] == NEWLINE) && StartsWithLine(s, line)
    ensures line != [] && line[0] == s[0] && StartsWithLine(s[1..], line[1..])
  {
    var rest, whole := s[1..], line + [CR, NEWLINE];
    assert whole[0] == s[0] && whole[1] == s[1];
    assert line[1..] + [CR, NEWLINE] == whole[1..];
    assert whole[1..] <= rest;
    assert forall i | 0 <= i < |rest| :: rest[i] == s[i + 1];
  }

  lemma FirstLineExactly(request: bytes, line: bytes)
    ensures FirstLine(request) == Some(line) <==> line != [] && StartsWithLine(request, line)
    ensures FirstLine(request) == None <==> forall l | StartsWithLine(request, l) :: l == []
  {
    hide LineEnd, StartsWithLine;
    LineEndIs(request);
  }

  /** Only the first line counts; without one nothing is said about the failure. */
  lemma ParsedExactly(request: bytes)
    ensures forall line | line != [] && StartsWithLine(request, line) :: Parsed(request) == ParsedLine(line)
    ensures Parsed(request) == Silent <==> forall line | StartsWithLine(request, line) :: line == []
  {
    hide FirstLine, StartsWithLine, BreakRequest, Checked;
    forall line ensures FirstLine(request) == Some(line) <==> line != [] && StartsWithLine(request, line) {
      FirstLineExactly(request, line);
    }
    FirstLineExactly(request, []);
    if FirstLine(request).Some? {
      NeverSilent(FirstLine(request).value);
    }
  }

  lemma NeverSilent(line: bytes)
    ensures ParsedLine(line) != Silent
  {
    hide Params, Repeated, BreakRequest;
  }

  // ------------------------------------------------------------------ the parts of the line

  /** HTTP/1.0 or HTTP/1.1. */
  predicate Version(t: bytes) { t == [72, 84, 84, 80, 47, 49, 46, 48] || t == [72, 84, 84, 80, 47, 49, 46, 49] }

  /** A verb, a command behind spaces, slashes and question marks, and the words behind these. */
  ghost predicate Reads(line: bytes, verb: bytes, command: bytes, words: seq<bytes>)
  {
    exists behind, tail ::
      && Next(line, [SPACE], verb, behind)
      && Next(behind, [SPACE, SLASH, QUESTION], command, tail) && words == Tokens(tail, [SPACE])
  }

  /** Nothing where the version should be. */
  predicate Unversioned(words: seq<bytes>) { words == [] || (|words| == 1 && !Version(words[0])) }

  /** Something else where the version should be. */
  predicate Misversioned(words: seq<bytes>) { |words| > 1 && !Version(words[0]) && !Version(words[1]) }

  lemma WordsOf(s: bytes)
    ensures var w := Tokens(s, [SPACE]);
            && (StrTok(s, [SPACE]) == NoToken <==> w == [])
            && (w != [] ==>
                 var t := StrTok(s, [SPACE]); t.text == w[0] && Tokens(t.rest, [SPACE]) == w[1..])
  {
  }

  lemma TailExactly(command: bytes, tail: bytes)
    ensures var b, w := BrokenTail(command, tail), Tokens(tail, [SPACE]);
            && (b == BadFormat <==> Unversioned(w))
            && (b.Broken? ==> b.command == command)
            && (b.Broken? && Version(w[0]) ==> b.args == [] && b.proto == w[0])
            && (b.Broken? && !Version(w[0]) ==> b.args == w[0] && |w| > 1 && b.proto == w[1])
  {
    hide StrTok, Tokens;
    WordsOf(tail);
    var t := StrTok(tail, [SPACE]);
    if t.Token? {
      WordsOf(t.rest);
    }
  }

  /** What becomes of a line with its parts. */
  lemma LineWithParts(line: bytes, verb: bytes, command: bytes, words: seq<bytes>)
    requires Reads(line, verb, command, words)
    ensures ParsedLine(line) == if Unversioned(words) then Failed(BAD_REQUEST_FORMAT)
                                else if Misversioned(words) then Failed(WRONG_PROTOCOL)
                                else Checked(command, if Version(words[0]) then [] else words[0])
  {
    hide StrTok, Tokens, Next, BrokenTail, Checked;
    var behind, tail :|
      && Next(line, [SPACE], verb, behind)
      && Next(behind, [SPACE, SLASH, QUESTION], command, tail) && words == Tokens(tail, [SPACE]);
    StrTokExactly(line, [SPACE], verb, behind);
    StrTokExactly(behind, [SPACE, SLASH, QUESTION], command, tail);
    TailExactly(command, tail);
  }

  /** And a line without a verb or a command is refused as malformed. */
  lemma LineWithoutParts(line: bytes)
    requires forall verb, command, words :: !Reads(line, verb, command, words)
    ensures ParsedLine(line) == Failed(BAD_REQUEST_FORMAT)
  {
    hide StrTok, Tokens, Next, BrokenTail, Checked;
    var d := [SPACE, SLASH, QUESTION];
    var v := StrTok(line, [SPACE]);
    if v.Token? {
      StrTokExactly(line, [SPACE], v.text, v.rest);
      var c := StrTok(v.rest, d);
      if c.Token? {
        StrTokExactly(v.rest, d, c.text, c.rest);
        assert Reads(line, v.text, c.text, Tokens(c.rest, [SPACE]));
      }
    }
  }

  lemma ReadsOneWay(line: bytes, v1: bytes, c1: bytes, w1: seq<bytes>, v2: bytes, c2: bytes, w2: seq<bytes>)
    requires Reads(line, v1, c1, w1) && Reads(line, v2, c2, w2)
    ensures v1 == v2 && c1 == c2 && w1 == w2
  {
    hide StrTok, Tokens, Next;
    var d := [SPACE, SLASH, QUESTION];
    var b1, t1 :| Next(line, [SPACE], v1, b1) && Next(b1, d, c1, t1) && w1 == Tokens(t1, [SPACE]);
    var b2, t2 :| Next(line, [SPACE], v2, b2) && Next(b2, d, c2, t2) && w2 == Tokens(t2, [SPACE]);
    StrTokExactly(line, [SPACE], v1, b1);
    StrTokExactly(line, [SPACE], v2, b2);
    StrTokExactly(b1, d, c1, t1);
    StrTokExactly(b2, d, c2, t2);
  }

  lemma CodesDiffer(command: bytes, args: bytes)
    ensures Checked(command, args) !in {Failed(BAD_REQUEST_FORMAT), Failed(WRONG_PROTOCOL), Silent}
    ensures BAD_REQUEST_FORMAT != WRONG_PROTOCOL
  {
  }

  /** The two failures of a line with its parts. */
  lemma PartsRefused(line: bytes, verb: bytes, command: bytes, words: seq<bytes>)
    requires Reads(line, verb, command, words)
    ensures ParsedLine(line) == Failed(BAD_REQUEST_FORMAT) <==> Unversioned(words)
    ensures ParsedLine(line) == Failed(WRONG_PROTOCOL) <==> Misversioned(words)
  {
    hide ParsedLine, Reads, Version, Checked;
    LineWithParts(line, verb, command, words);
    CodesDiffer(command, []);
    if words != [] {
      CodesDiffer(command, words[0]);
    }
  }

  /** A line is refused as malformed exactly when a part is missing. */
  lemma MalformedExactly(line: bytes)
    ensures ParsedLine(line) == Failed(BAD_REQUEST_FORMAT) <==>
              forall verb, command, words :: Reads(line, verb, command, words) ==> Unversioned(words)
  {
    hide *;
    if verb, command, words :| Reads(line, verb, command, words) {
      PartsRefused(line, verb, command, words);
      forall v, c, w | Reads(line, v, c, w) ensures w == words {
        ReadsOneWay(line, verb, command, words, v, c, w);
      }
    } else {
      LineWithoutParts(line);
    }
  }

  /** And for its protocol exactly when it has its parts and the last is neither version. */
  lemma WrongProtocolExactly(line: bytes)
    ensures ParsedLine(line) == Failed(WRONG_PROTOCOL) <==>
              exists verb, command, words :: Reads(line, verb, command, words) && Misversioned(words)
  {
    hide *;
    CodesDiffer([], []);
    if verb, command, words :| Reads(line, verb, command, words) {
      PartsRefused(line, verb, command, words);
      forall v, c, w | Reads(line, v, c, w) ensures w == words {
        ReadsOneWay(line, verb, command, words, v, c, w);
      }
    } else {
      LineWithoutParts(line);
    }
  }

  // ------------------------------------------------------------------ one parameter

  /**
   The name is what stands in front of the first equals sign behind any leading ones, the value what
   follows up to the next; each is missing exactly when there is nothing but equals signs left.
   */
  lemma ParamExactly(s: bytes, name: bytes, rest: bytes, value: bytes, more: bytes)
    ensures ParseParam(s).name == None <==> AllIn(s, [EQUALS])
    ensures AllIn(s, [EQUALS]) ==> ParseParam(s).value == None
    ensures Next(s, [EQUALS], name, rest) ==>
              ParseParam(s).name == Some(name) && (ParseParam(s).value == None <==> AllIn(rest, [EQUALS]))
    ensures Next(s, [EQUALS], name, rest) && Next(rest, [EQUALS], value, more) ==>
              ParseParam(s) == Param(Some(name), Some(value))
  {
    hide StrTok, Next, AllIn;
    StrTokExactly(s, [EQUALS], name, rest);
    StrTokExactly(rest, [EQUALS], value, more);
  }
}
