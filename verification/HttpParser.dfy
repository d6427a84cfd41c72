/**
 The request parser as it works: buffers of fixed size that strtok_r splits in place, and an
 array of parameters that is sized by counting ampersands.
 */
module HttpParser {
  import opened Bytes
  import opened CString
  import opened Http

  method StrCpy(a: array<byte>, s: bytes)
    requires |s| < a.Length && NulFree(s)
    modifies a
    ensures Holds(a[..], 0, s)
  {
    var i := 0;
    while i < |s|
      invariant 0 <= i <= |s|
      invariant a[..i] == s[..i]
    {
      a[i] := s[i];
      i := i + 1;
    }
    a[i] := NUL;
    assert a[..][0..|s|] == a[..|s|] == s[..i] == s;
  }

  method SkipDelimiters(a: array<byte>, p: nat, d: bytes, ghost t: bytes) returns (q: nat)
    requires Holds(a[..], p, t)
    ensures q == p + |t| - |SkipAny(t, d)| && Holds(a[..], q, SkipAny(t, d))
  {
    q := p;
    while a[q] != NUL && a[q] in d
      invariant p <= q <= p + |t|
      invariant SkipAny(t[q - p..], d) == SkipAny(t, d)
      decreases p + |t| - q
    {
      assert a[..][p..p + |t|][q - p] == t[q - p];
      assert t[q - p..][1..] == t[q + 1 - p..];
      q := q + 1;
    }
    HoldsBehind(a[..], p, t, q - p);
    assert q < p + |t| ==> a[..][p..p + |t|][q - p] == t[q - p];
  }

  method TokenEnd(a: array<byte>, p: nat, d: bytes, ghost t: bytes) returns (q: nat)
    requires Holds(a[..], p, t)
    ensures q == p + TokenLength(t, d) && (a[q] == NUL <==> q == p + |t|)
  {
    q := p;
    while a[q] != NUL && a[q] !in d
      invariant p <= q <= p + |t|
      invariant q - p + TokenLength(t[q - p..], d) == TokenLength(t, d)
      decreases p + |t| - q
    {
      assert a[..][p..p + |t|][q - p] == t[q - p];
      assert t[q - p..][1..] == t[q + 1 - p..];
      q := q + 1;
    }
    assert q < p + |t| ==> a[..][p..p + |t|][q - p] == t[q - p];
  }

  lemma HoldsFirst(a: seq<byte>, p: nat, t: bytes)
    requires Holds(a, p, t)
    ensures p < |a| && (a[p] == NUL <==> t == [])
  {
    assert t != [] ==> a[p] == a[p..p + |t|][0];
  }

  /** strtok_r: puts a NUL behind the token and moves on; without a token it stays at the end. */
  method StrTokR(a: array<byte>, p: nat, d: bytes, ghost t: bytes) returns (found: bool, start: nat, next: nat)
    requires Holds(a[..], p, t)
    modifies a
    ensures found <==> StrTok(t, d).Token?
    ensures found ==> Holds(a[..], start, StrTok(t, d).text) && Holds(a[..], next, StrTok(t, d).rest)
    ensures !found ==> Holds(a[..], next, [])
  {
    hide SkipAny, TokenLength;
    start := SkipDelimiters(a, p, d, t);
    ghost var r := SkipAny(t, d);
    if a[start] == NUL {
      assert r == [] by { HoldsFirst(a[..], start, r); }
      return false, start, start;
    }
    assert r != [];
    var end := TokenEnd(a, start, d, r);
    ghost var n := end - start;
    if a[end] == NUL {
      assert r[..n] == r;
      return true, start, end;
    }
    HoldsCut(a[..], start, r, n);
    a[end] := NUL;
    return true, start, end + 1;
  }

  /** rpiwd_getline: strstr for the line end, then a copy of what precedes it. */
  method GetLine(s: bytes) returns (line: Option<bytes>)
    ensures line == FirstLine(s)
  {
    var n := 0;
    while n < |s| && !(n + 1 < |s| && s[n] == CR && s[n + 1] == NEWLINE)
      invariant 0 <= n <= |s|
      invariant n + LineEnd(s[n..]) == LineEnd(s)
    {
      assert s[n..][1..] == s[n + 1..];
      n := n + 1;
    }
    if n == |s| || n == 0 {
      return None;
    }
    return Some(s[..n]);
  }

  // ------------------------------------------------------------------ the line

  /** The parts fit the buffers that they are copied to. */
  predicate TailFits(s: bytes)
  {
    match StrTok(s, [SPACE])
    case NoToken => true
    case Token(part, rest) =>
      KnownProto(part) || (|part| < HTTP_ARGS_MAX_SIZE
          && (StrTok(rest, [SPACE]).Token? ==> |StrTok(rest, [SPACE]).text| < HTTP_PROTO_MAX_SIZE))
  }

  predicate LineFits(line: bytes)
  {
    && |line| < HTTP_COMMAND_MAX_SIZE
    && (StrTok(line, [SPACE]).Token? ==>
          var t := StrTok(StrTok(line, [SPACE]).rest, [SPACE, SLASH, QUESTION]);
          t.Token? ==> TailFits(t.rest))
  }

  method SplitTail(a: array<byte>, p: nat, command: bytes, ghost s: bytes) returns (b: Broken)
    requires Holds(a[..], p, s) && TailFits(s)
    modifies a
    ensures b == BrokenTail(command, s)
    ensures b.Broken? ==> |b.args| < HTTP_ARGS_MAX_SIZE && NulFree(b.args)
  {
    var found, start, next := StrTokR(a, p, [SPACE], s);
    if !found {
      return BadFormat;
    }
    ghost var t := StrTok(s, [SPACE]);
    var part := StrDup(a, start, t.text);
    if part == HTTP_1_0 || part == HTTP_1_1 {
      return Broken(command, [], part);
    }
    found, start, next := StrTokR(a, next, [SPACE], t.rest);
    if !found {
      return BadFormat;
    }
    var proto := StrDup(a, start, StrTok(t.rest, [SPACE]).text);
    return Broken(command, part, proto);
  }

  /** break_request on its own copy of the line. */
  method SplitLine(line: bytes) returns (b: Broken)
    requires NulFree(line) && LineFits(line)
    ensures b == BreakRequest(line)
    ensures b.Broken? ==> |b.args| < HTTP_ARGS_MAX_SIZE && NulFree(b.args)
  {
    var a := new byte[HTTP_COMMAND_MAX_SIZE](i => NUL);
    StrCpy(a, line);
    var found, start, next := StrTokR(a, 0, [SPACE], line);
    if !found {
      return BadFormat;
    }
    ghost var behind := StrTok(line, [SPACE]).rest;
    found, start, next := StrTokR(a, next, [SPACE, SLASH, QUESTION], behind);
    if !found {
      return BadFormat;
    }
    ghost var t := StrTok(behind, [SPACE, SLASH, QUESTION]);
    var command := StrDup(a, start, t.text);
    b := SplitTail(a, next, command, t.rest);
  }

  // ------------------------------------------------------------------ the query

  method ParseHttpParam(s: bytes) returns (p: Param)
    requires NulFree(s)
    ensures p == ParseParam(s)
  {
    var a := new byte[|s| + 1](i => NUL);
    StrCpy(a, s);
    var found, start, next := StrTokR(a, 0, [EQUALS], s);
    ghost var t := StrTok(s, [EQUALS]);
    if !found {
      return Param(None, None);
    }
    var name := StrDup(a, start, t.text);
    found, start, next := StrTokR(a, next, [EQUALS], t.rest);
    if !found {
      return Param(Some(name), None);
    }
    var value := StrDup(a, start, StrTok(t.rest, [EQUALS]).text);
    return Param(Some(name), Some(value));
  }

  method CountAmpersands(a: array<byte>, ghost t: bytes) returns (count: nat)
    requires Holds(a[..], 0, t)
    ensures count == Ampersands(t)
  {
    var i := 0;
    count := 0;
    assert t[0..] == t;
    while a[i] != NUL
      invariant 0 <= i <= |t|
      invariant count + Ampersands(t[i..]) == Ampersands(t)
      decreases |t| - i
    {
      assert a[..][0..|t|][i] == t[i];
      assert t[i..][1..] == t[i + 1..];
      if a[i] == AMPERSAND {
        count := count + 1;
      }
      i := i + 1;
    }
  }

  lemma TokensStep(s: bytes, d: bytes)
    ensures var t := StrTok(s, d);
            Tokens(s, d) == if t.Token? then [t.text] + Tokens(t.rest, d) else []
  {
  }

  /** The loop over the pieces; the array has room for one more than there are ampersands. */
  method FillParams(args: array<byte>, params: array<Param>, ghost t: bytes) returns (n: nat)
    requires Holds(args[..], 0, t) && params.Length == Ampersands(t) + 1
    modifies args, params
    ensures n == |AllParams(t)| <= params.Length && params[..n] == AllParams(t)
  {
    hide StrTok, ParseParam, Tokens, Ampersands;
    ghost var all := Tokens(t, [AMPERSAND]);
    PiecesAndAmpersands(t);
    n := 0;
    ghost var rest := t;
    var found, start, next := StrTokR(args, 0, [AMPERSAND], rest);
    while found
      invariant n <= |all|
      invariant found <==> StrTok(rest, [AMPERSAND]).Token?
      invariant found ==>
                  Holds(args[..], start, StrTok(rest, [AMPERSAND]).text)
                  && Holds(args[..], next, StrTok(rest, [AMPERSAND]).rest)
      invariant all[n..] == Tokens(rest, [AMPERSAND])
      invariant forall i | 0 <= i < n :: params[i] == ParseParam(all[i])
      decreases |all| - n
    {
      ghost var tok := StrTok(rest, [AMPERSAND]);
      TokensStep(rest, [AMPERSAND]);
      assert all[n] == tok.text && all[n + 1..] == all[n..][1..] == Tokens(tok.rest, [AMPERSAND]);
      var part := StrDup(args, start, tok.text);
      var p := ParseHttpParam(part);
      params[n] := p;
      n := n + 1;
      rest := tok.rest;
      found, start, next := StrTokR(args, next, [AMPERSAND], rest);
    }
    TokensStep(rest, [AMPERSAND]);
    assert all[n..] == [];
    assert params[..n] == AllParams(t);
  }

  method HttpCmdParamCount(ps: seq<Param>, name: Option<bytes>) returns (count: nat)
    ensures count == CountName(ps, name)
  {
    count := 0;
    assert ps[0..] == ps;
    for i := 0 to |ps|
      invariant count + CountName(ps[i..], name) == CountName(ps, name)
    {
      assert ps[i..][1..] == ps[i + 1..];
      if ps[i].name == name {
        count := count + 1;
      }
    }
  }

  method HasRepeated(ps: seq<Param>) returns (r: bool)
    ensures r == Repeated(ps)
  {
    for i := 0 to |ps|
      invariant forall j | 0 <= j < i :: CountName(ps, ps[j].name) <= 1
    {
      var count := HttpCmdParamCount(ps, ps[i].name);
      if count > 1 {
        return true;
      }
    }
    return false;
  }

  /** Several pieces are asked for only when there is one, and every parameter kept has a name. */
  predicate Usable(args: bytes)
  {
    && (Ampersands(args) > 0 ==> Tokens(args, [AMPERSAND]) != [])
    && (Params(args).Some? ==> forall i | 0 <= i < |Params(args).value| :: Params(args).value[i].name.Some?)
  }

  /** realloc to a size of zero gives no array back. */
  method CollectParams(args: bytes) returns (ps: Option<seq<Param>>)
    requires |args| < HTTP_ARGS_MAX_SIZE && NulFree(args) && Usable(args)
    ensures ps == Params(args)
  {
    hide ParseParam, StrTok, Tokens;
    var a := new byte[HTTP_ARGS_MAX_SIZE](i => NUL);
    StrCpy(a, args);
    var actualCount := CountAmpersands(a, args);
    if actualCount == 0 {
      var p := ParseHttpParam(args);
      return Some(if p.name.Some? then [p] else []);
    }
    var params := new Param[actualCount + 1](i => Param(None, None));
    var n := FillParams(a, params, args);
    if n - 1 != actualCount {
      n := n - 1;
      if n == 0 {
        return None;
      }
    }
    assert params[..n] == AllParams(args)[..n];
    return Some(params[..n]);
  }

  method ParseHttpRequest(request: bytes) returns (r: Result)
    requires NulFree(request)
    requires FirstLine(request).Some? ==> LineFits(FirstLine(request).value)
    requires FirstLine(request).Some? && BreakRequest(FirstLine(request).value).Broken?
             ==> Usable(BreakRequest(FirstLine(request).value).args)
    ensures r == Parsed(request)
  {
    hide BreakRequest, LineFits, Params, Repeated, Usable;
    var line := GetLine(request);
    if line.None? {
      return Silent;
    }
    var b := SplitLine(line.value);
    if b.BadFormat? {
      return Failed(BAD_REQUEST_FORMAT);
    }
    if b.proto != HTTP_1_1 && b.proto != HTTP_1_0 {
      return Failed(WRONG_PROTOCOL);
    }
    var params := CollectParams(b.args);
    if params.None? {
      return Failed(NO_MEMORY);
    }
    var repeated := HasRepeated(params.value);
    if repeated {
      return Failed(DUPLICATE_PARAMS);
    }
    return Ok(Command(b.command, params.value));
  }

  /** A request built from plain parts within the buffer sizes meets what the parser relies on. */
  lemma BuiltLineFits(verb: bytes, command: bytes, ps: seq<Pair>, proto: bytes)
    requires verb != [] && FreeOf(verb, [NUL, CR, SPACE]) && PlainCommand(command) && PlainPairs(ps)
             && KnownProto(proto)
    requires |RequestLine(verb, command, ps, proto)| < HTTP_COMMAND_MAX_SIZE
             && |Join(PairTexts(ps))| < HTTP_ARGS_MAX_SIZE
    ensures LineFits(RequestLine(verb, command, ps, proto)) && Usable(Join(PairTexts(ps)))
  {
    hide StrTok, Join, PlainPairs, KnownProto, TailFits;
    var c := if ps == [] then SPACE else QUESTION;
    var d := [SPACE, SLASH, QUESTION];
    var tail := Tail(ps, proto);
    var behind := [SLASH] + (command + [c] + tail);
    assert RequestLine(verb, command, ps, proto) == verb + [SPACE] + behind;
    TokenBefore(verb, SPACE, behind, [SPACE]);
    DelimiterSkipped(SLASH, command + [c] + tail, d);
    TokenBefore(command, c, tail, d);
    BuiltTailFits(ps, proto);
    PairTextsArePieces(ps);
    TokensOfJoin(PairTexts(ps));
    ParamsBack(ps);
    if ps == [] {
      JoinNone(PairTexts(ps));
    }
  }

  lemma BuiltTailFits(ps: seq<Pair>, proto: bytes)
    requires PlainPairs(ps) && KnownProto(proto) && |Join(PairTexts(ps))| < HTTP_ARGS_MAX_SIZE
    ensures TailFits(Tail(ps, proto))
  {
    hide StrTok, Join, PlainPairs;
    assert FreeOf(proto, [SPACE]);
    LastToken(proto, [SPACE]);
    if ps != [] {
      QueryIsPlain(ps);
      TokenBefore(Join(PairTexts(ps)), SPACE, proto, [SPACE]);
    }
  }
}
