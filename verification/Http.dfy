/**
 The request line and its query: what the parser makes of them, as functions of the text.
 */
module Http {
  import opened Bytes

  const CR: byte := 13
  const HTTP_1_0: bytes := [72, 84, 84, 80, 47, 49, 46, 48] // HTTP/1.0
  const HTTP_1_1: bytes := [72, 84, 84, 80, 47, 49, 46, 49] // HTTP/1.1

  const HTTP_COMMAND_MAX_SIZE: nat := 1024
  const HTTP_PROTO_MAX_SIZE: nat := 16
  const HTTP_ARGS_MAX_SIZE: nat := 512

  const BAD_REQUEST_FORMAT: int := -4
  const WRONG_PROTOCOL: int := -5
  const NO_MEMORY: int := -6
  const DUPLICATE_PARAMS: int := -7

  // ------------------------------------------------------------------ strtok_r

  predicate FreeOf(s: bytes, d: bytes) { forall i | 0 <= i < |s| :: s[i] !in d }

  function SkipAny(s: bytes, d: bytes): (r: bytes)
    ensures |r| <= |s| && (r != [] ==> r[0] !in d)
  {
    if s != [] && s[0] in d then SkipAny(s[1..], d) else s
  }

  function TokenLength(s: bytes, d: bytes): (n: nat)
    ensures n <= |s| && (n < |s| ==> s[n] in d)
    ensures s != [] && s[0] !in d ==> n > 0
  {
    if s == [] || s[0] in d then 0 else 1 + TokenLength(s[1..], d)
  }

  /** A token and what is left behind its delimiter. */
  datatype Token = NoToken | Token(text: bytes, rest: bytes)

  function StrTok(s: bytes, d: bytes): (t: Token)
    ensures t.Token? ==> t.text != [] && |t.rest| < |s|
  {
    var r := SkipAny(s, d);
    var n := TokenLength(r, d);
    if r == [] then NoToken else Token(r[..n], if n < |r| then r[n + 1..] else [])
  }

  function Tokens(s: bytes, d: bytes): seq<bytes>
    decreases |s|
  {
    match StrTok(s, d)
    case NoToken => []
    case Token(t, rest) => [t] + Tokens(rest, d)
  }

  // ------------------------------------------------------------------ the request line

  /** Where the first line ends: the position of the first CR LF, the whole length if there is none. */
  function LineEnd(s: bytes): (n: nat)
    ensures n <= |s| && (n < |s| ==> n + 1 < |s| && s[n] == CR && s[n + 1] == NEWLINE)
  {
    if |s| < 2 then |s|
    else if s[0] == CR && s[1] == NEWLINE then 0
    else 1 + LineEnd(s[1..])
  }

  /** rpiwd_getline: NULL when there is no line end or nothing in front of it. */
  function FirstLine(s: bytes): Option<bytes>
  {
    var n := LineEnd(s);
    if n == |s| || n == 0 then None else Some(s[..n])
  }

  datatype Broken = BadFormat | Broken(command: bytes, args: bytes, proto: bytes)

  predicate KnownProto(t: bytes) { t == HTTP_1_0 || t == HTTP_1_1 }

  /** break_request behind the command. */
  function BrokenTail(command: bytes, s: bytes): Broken
  {
    match StrTok(s, [SPACE])
    case NoToken => BadFormat
    case Token(part, rest) =>
      if KnownProto(part) then Broken(command, [], part)
      else
        match StrTok(rest, [SPACE])
        case NoToken => BadFormat
        case Token(proto, _) => Broken(command, part, proto)
  }

  function BreakRequest(line: bytes): Broken
  {
    match StrTok(line, [SPACE])
    case NoToken => BadFormat
    case Token(_, behind) =>
      match StrTok(behind, [SPACE, SLASH, QUESTION])
      case NoToken => BadFormat
      case Token(command, tail) => BrokenTail(command, tail)
  }

  // ------------------------------------------------------------------ the query

  datatype Param = Param(name: Option<bytes>, value: Option<bytes>)

  function TextOf(t: Token): Option<bytes> { if t.Token? then Some(t.text) else None }

  function ParseParam(s: bytes): Param
  {
    var t := StrTok(s, [EQUALS]);
    Param(TextOf(t), if t.Token? then TextOf(StrTok(t.rest, [EQUALS])) else None)
  }

  function Ampersands(s: bytes): nat
  {
    if s == [] then 0 else (if s[0] == AMPERSAND then 1 else 0) + Ampersands(s[1..])
  }

  /** One parameter for each non-empty piece between ampersands. */
  function AllParams(args: bytes): (r: seq<Param>)
    ensures |r| == |Tokens(args, [AMPERSAND])|
  {
    var ts := Tokens(args, [AMPERSAND]);
    seq(|ts|, i requires 0 <= i < |ts| => ParseParam(ts[i]))
  }

  /**
   The parameters that the command ends up with. When there are fewer pieces than ampersands
   allow for, the array is cut to one less; cut to none, realloc frees it and returns NULL, which
   is taken for a lack of memory.
   */
  function Params(args: bytes): Option<seq<Param>>
  {
    if Ampersands(args) == 0 then
      var p := ParseParam(args);
      Some(if p.name.Some? then [p] else [])
    else
      var ps := AllParams(args);
      if |ps| == 0 || |ps| - 1 == Ampersands(args) then Some(ps)
      else if |ps| == 1 then None
      else Some(ps[..|ps| - 1])
  }

  function CountName(ps: seq<Param>, name: Option<bytes>): nat
  {
    if ps == [] then 0 else (if ps[0].name == name then 1 else 0) + CountName(ps[1..], name)
  }

  predicate Repeated(ps: seq<Param>) { exists i | 0 <= i < |ps| :: CountName(ps, ps[i].name) > 1 }

  datatype Command = Command(name: bytes, params: seq<Param>)

  /** Silent is the one failure that leaves the response code as it was. */
  datatype Result = Ok(cmd: Command) | Failed(code: int) | Silent

  function Checked(command: bytes, args: bytes): Result
  {
    match Params(args)
    case None => Failed(NO_MEMORY)
    case Some(ps) => if Repeated(ps) then Failed(DUPLICATE_PARAMS) else Ok(Command(command, ps))
  }

  function ParsedLine(line: bytes): Result
  {
    match BreakRequest(line)
    case BadFormat => Failed(BAD_REQUEST_FORMAT)
    case Broken(command, args, proto) => if KnownProto(proto) then Checked(command, args) else Failed(WRONG_PROTOCOL)
  }

  function Parsed(request: bytes): Result
  {
    match FirstLine(request)
    case None => Silent
    case Some(line) => ParsedLine(line)
  }

  // ------------------------------------------------------------------ tokens and pieces

  lemma {:induction false} TokenLengthOver(p: bytes, tail: bytes, d: bytes)
    requires FreeOf(p, d) && (tail != [] ==> tail[0] in d)
    ensures TokenLength(p + tail, d) == |p|
  {
    if p == [] {
      assert p + tail == tail;
    } else {
      assert (p + tail)[1..] == p[1..] + tail;
      TokenLengthOver(p[1..], tail, d);
    }
  }

  /** A piece in front of a delimiter is the next token. */
  lemma TokenBefore(p: bytes, c: byte, tail: bytes, d: bytes)
    requires p != [] && FreeOf(p, d) && c in d
    ensures StrTok(p + [c] + tail, d) == Token(p, tail)
  {
    var s := p + [c] + tail;
    assert s == p + ([c] + tail);
    TokenLengthOver(p, [c] + tail, d);
    assert s[0] == p[0];
    assert s[..|p|] == p && s[|p| + 1..] == tail;
  }

  lemma LastToken(p: bytes, d: bytes)
    requires p != [] && FreeOf(p, d)
    ensures StrTok(p, d) == Token(p, [])
  {
    TokenLengthOver(p, [], d);
    assert p + [] == p && p[..|p|] == p;
  }

  lemma DelimiterSkipped(c: byte, s: bytes, d: bytes)
    requires c in d
    ensures StrTok([c] + s, d) == StrTok(s, d)
  {
    assert ([c] + s)[1..] == s;
  }

  /** Pieces between ampersands are never empty exactly when there is none at either end or next to another. */
  predicate Clean(s: bytes)
  {
    && s != [] && s[0] != AMPERSAND && s[|s| - 1] != AMPERSAND
    && forall i | 0 < i < |s| :: !(s[i - 1] == AMPERSAND && s[i] == AMPERSAND)
  }

  lemma {:induction false} AmpersandsConcat(a: bytes, b: bytes)
    ensures Ampersands(a + b) == Ampersands(a) + Ampersands(b)
  {
    if a == [] {
      assert a + b == b;
    } else {
      assert (a + b)[1..] == a[1..] + b;
      AmpersandsConcat(a[1..], b);
    }
  }

  lemma {:induction false} NoAmpersands(s: bytes)
    ensures Ampersands(s) == 0 <==> FreeOf(s, [AMPERSAND])
  {
    if s != [] {
      NoAmpersands(s[1..]);
      assert forall i | 1 <= i < |s| :: s[i] == s[1..][i - 1];
    }
  }

  lemma {:induction false} TokenIsFree(s: bytes, d: bytes)
    ensures FreeOf(s[..TokenLength(s, d)], d)
  {
    if s != [] && s[0] !in d {
      TokenIsFree(s[1..], d);
      assert forall i | 1 <= i < TokenLength(s, d) :: s[i] == s[1..][i - 1];
    }
  }

  /** What one piece adds. */
  lemma PieceStep(t: bytes, rest: bytes)
    requires t != [] && FreeOf(t, [AMPERSAND])
    ensures Tokens(t + [AMPERSAND] + rest, [AMPERSAND]) == [t] + Tokens(rest, [AMPERSAND])
    ensures Ampersands(t + [AMPERSAND] + rest) == 1 + Ampersands(rest)
  {
    hide StrTok;
    TokenBefore(t, AMPERSAND, rest, [AMPERSAND]);
    NoAmpersands(t);
    AmpersandsConcat(t, [AMPERSAND] + rest);
    assert t + [AMPERSAND] + rest == t + ([AMPERSAND] + rest);
    assert ([AMPERSAND] + rest)[1..] == rest;
  }

  lemma LastPiece(t: bytes)
    requires t != [] && FreeOf(t, [AMPERSAND])
    ensures Tokens(t, [AMPERSAND]) == [t] && Ampersands(t) == 0
  {
    LastToken(t, [AMPERSAND]);
    NoAmpersands(t);
    assert Tokens([], [AMPERSAND]) == [];
  }

  lemma EmptyPiece(rest: bytes)
    ensures Tokens([AMPERSAND] + rest, [AMPERSAND]) == Tokens(rest, [AMPERSAND])
    ensures Ampersands([AMPERSAND] + rest) == 1 + Ampersands(rest)
  {
    DelimiterSkipped(AMPERSAND, rest, [AMPERSAND]);
    assert ([AMPERSAND] + rest)[1..] == rest;
  }

  /** There are never more pieces than the array has room for; and as many exactly for a clean query. */
  lemma {:induction false} PiecesAndAmpersands(s: bytes)
    ensures |Tokens(s, [AMPERSAND])| <= Ampersands(s) + 1
    ensures |Tokens(s, [AMPERSAND])| == Ampersands(s) + 1 <==> Clean(s)
    decreases |s|
  {
    hide Tokens, Ampersands, StrTok;
    var d := [AMPERSAND];
    if s == [] {
      NoPieces();
    } else if s[0] == AMPERSAND {
      assert s == d + s[1..];
      EmptyPiece(s[1..]);
      PiecesAndAmpersands(s[1..]);
    } else {
      var n := TokenLength(s, d);
      TokenIsFree(s, d);
      if n < |s| {
        assert s == s[..n] + d + s[n + 1..];
        PieceStep(s[..n], s[n + 1..]);
        PiecesAndAmpersands(s[n + 1..]);
        CleanBehind(s, n);
      } else {
        assert s[..n] == s;
        LastPiece(s);
      }
    }
  }

  lemma NoPieces()
    ensures Tokens([], [AMPERSAND]) == [] && Ampersands([]) == 0
  {
  }

  lemma CleanBehind(s: bytes, n: nat)
    requires 0 < n < |s| && s[n] == AMPERSAND && FreeOf(s[..n], [AMPERSAND])
    ensures Clean(s) <==> Clean(s[n + 1..])
  {
    var rest := s[n + 1..];
    assert forall i | 0 <= i < |rest| :: rest[i] == s[n + 1 + i];
    assert forall i | 0 <= i < n :: s[i] == s[..n][i];
    if Clean(s) {
      assert n + 1 < |s|;
      assert s[n + 1] != AMPERSAND;
      forall i | 0 < i < |rest| ensures !(rest[i - 1] == AMPERSAND && rest[i] == AMPERSAND) {
        assert !(s[n + i] == AMPERSAND && s[n + 1 + i] == AMPERSAND);
      }
    }
    if Clean(rest) {
      forall i | 0 < i < |s| ensures !(s[i - 1] == AMPERSAND && s[i] == AMPERSAND) {
        if i > n + 1 {
          assert !(rest[i - n - 2] == AMPERSAND && rest[i - n - 1] == AMPERSAND);
        }
      }
    }
  }

  /**
   A query with ampersands has three outcomes. It keeps all its parameters exactly when it is
   clean. Otherwise it loses exactly the last one, and is refused exactly when that was the only one.
   */
  lemma ParamsKept(args: bytes)
    requires Ampersands(args) > 0 && Tokens(args, [AMPERSAND]) != []
    ensures Params(args) == Some(AllParams(args)) <==> Clean(args)
    ensures Params(args) == None <==> !Clean(args) && |AllParams(args)| == 1
    ensures !Clean(args) && |AllParams(args)| > 1 <==>
              |AllParams(args)| > 1 && Params(args) == Some(AllParams(args)[..|AllParams(args)| - 1])
  {
    hide Tokens, AllParams, Ampersands, Clean;
    PiecesAndAmpersands(args);
    if |AllParams(args)| > 1 {
      assert |AllParams(args)[..|AllParams(args)| - 1]| != |AllParams(args)|;
    }
  }

  /** One parameter and one ampersand too many: the request is refused. */
  lemma TrailingAmpersand(name: byte, value: byte)
    requires name != AMPERSAND && name != EQUALS && value != AMPERSAND && value != EQUALS
    ensures Params([name, EQUALS, value, AMPERSAND]) == None
  {
    var t: bytes := [name, EQUALS, value];
    PieceStep(t, []);
    NoPieces();
    assert t + [AMPERSAND] + [] == [name, EQUALS, value, AMPERSAND];
  }

  // ------------------------------------------------------------------ repeated names

  lemma {:induction false} CountNameUp(ps: seq<Param>, i: nat)
    requires i < |ps|
    ensures CountName(ps, ps[i].name) >= 1
  {
    if i > 0 {
      assert ps[i] == ps[1..][i - 1];
      CountNameUp(ps[1..], i - 1);
    }
  }

  lemma {:induction false} CountTwo(ps: seq<Param>, i: nat, j: nat)
    requires i < j < |ps| && ps[i].name == ps[j].name
    ensures CountName(ps, ps[i].name) > 1
  {
    if i == 0 {
      assert ps[j] == ps[1..][j - 1];
      CountNameUp(ps[1..], j - 1);
    } else {
      assert ps[i] == ps[1..][i - 1] && ps[j] == ps[1..][j - 1];
      CountTwo(ps[1..], i - 1, j - 1);
    }
  }

  lemma {:induction false} CountFinds(ps: seq<Param>, name: Option<bytes>) returns (i: nat)
    requires CountName(ps, name) >= 1
    ensures i < |ps| && ps[i].name == name
  {
    if ps[0].name == name {
      i := 0;
    } else {
      i := CountFinds(ps[1..], name);
      i := i + 1;
    }
  }

  lemma {:induction false} CountFindsTwo(ps: seq<Param>, name: Option<bytes>) returns (i: nat, j: nat)
    requires CountName(ps, name) > 1
    ensures i < j < |ps| && ps[i].name == ps[j].name == name
  {
    if ps[0].name == name {
      i := 0;
      j := CountFinds(ps[1..], name);
      j := j + 1;
    } else {
      i, j := CountFindsTwo(ps[1..], name);
      i, j := i + 1, j + 1;
    }
  }

  ghost predicate DistinctParams(ps: seq<Param>) { forall i, j | 0 <= i < j < |ps| :: ps[i].name != ps[j].name }

  /** The nested counting finds a repetition exactly when there is one. */
  lemma RepeatedExactly(ps: seq<Param>)
    ensures Repeated(ps) <==> !DistinctParams(ps)
  {
    if Repeated(ps) {
      var k :| 0 <= k < |ps| && CountName(ps, ps[k].name) > 1;
      var i, j := CountFindsTwo(ps, ps[k].name);
    }
    if !DistinctParams(ps) {
      var i, j :| 0 <= i < j < |ps| && ps[i].name == ps[j].name;
      CountTwo(ps, i, j);
    }
  }

  /** No command comes out of any request with a name in it twice. */
  lemma ParsedNamesDiffer(request: bytes)
    requires Parsed(request).Ok?
    ensures DistinctParams(Parsed(request).cmd.params)
  {
    hide Repeated, Params;
    var b := BreakRequest(FirstLine(request).value);
    RepeatedExactly(Params(b.args).value);
  }

  // ------------------------------------------------------------------ there and back

  datatype Pair = Pair(name: bytes, value: bytes)

  /** Neither empty nor with a byte that has a meaning in the query or the line. */
  predicate PlainPart(s: bytes) { s != [] && FreeOf(s, [NUL, CR, SPACE, AMPERSAND, EQUALS]) }

  predicate PlainCommand(s: bytes) { s != [] && FreeOf(s, [NUL, CR, SPACE, SLASH, QUESTION]) }

  predicate PlainPairs(ps: seq<Pair>) { forall i | 0 <= i < |ps| :: PlainPart(ps[i].name) && PlainPart(ps[i].value) }

  function PairText(p: Pair): bytes { p.name + [EQUALS] + p.value }

  function PairTexts(ps: seq<Pair>): (r: seq<bytes>)
    ensures |r| == |ps|
  {
    seq(|ps|, i requires 0 <= i < |ps| => PairText(ps[i]))
  }

  function Join(ts: seq<bytes>): bytes
  {
    if ts == [] then [] else if |ts| == 1 then ts[0] else ts[0] + [AMPERSAND] + Join(ts[1..])
  }

  function AsParams(ps: seq<Pair>): (r: seq<Param>)
    ensures |r| == |ps|
  {
    seq(|ps|, i requires 0 <= i < |ps| => Param(Some(ps[i].name), Some(ps[i].value)))
  }

  /** The request line in the form of section 3.1.1 of RFC 7230. */
  function RequestLine(verb: bytes, command: bytes, ps: seq<Pair>, proto: bytes): bytes
  {
    var query := if ps == [] then [] else [QUESTION] + Join(PairTexts(ps));
    verb + [SPACE, SLASH] + command + query + [SPACE] + proto
  }

  lemma PairBack(p: Pair)
    requires PlainPart(p.name) && PlainPart(p.value)
    ensures ParseParam(PairText(p)) == Param(Some(p.name), Some(p.value))
  {
    var d := [EQUALS];
    assert FreeOf(p.name, d) && FreeOf(p.value, d);
    TokenBefore(p.name, EQUALS, p.value, d);
    LastToken(p.value, d);
  }

  predicate Pieces(ts: seq<bytes>) { forall i | 0 <= i < |ts| :: ts[i] != [] && FreeOf(ts[i], [AMPERSAND]) }

  lemma {:induction false} TokensOfJoin(ts: seq<bytes>)
    requires Pieces(ts)
    ensures Tokens(Join(ts), [AMPERSAND]) == ts
    ensures ts != [] ==> Ampersands(Join(ts)) == |ts| - 1
  {
    hide Tokens, Ampersands, FreeOf;
    if ts == [] {
      NoPieces();
    } else if |ts| == 1 {
      LastPiece(ts[0]);
    } else {
      TokensOfJoin(ts[1..]);
      PieceStep(ts[0], Join(ts[1..]));
      assert ts == [ts[0]] + ts[1..];
    }
  }

  lemma PairTextsArePieces(ps: seq<Pair>)
    requires PlainPairs(ps)
    ensures Pieces(PairTexts(ps))
  {
    forall i | 0 <= i < |ps| ensures PairText(ps[i]) != [] && FreeOf(PairText(ps[i]), [AMPERSAND]) {
      assert PlainPart(ps[i].name) && PlainPart(ps[i].value);
    }
  }

  /** A query made of plain pairs gives exactly these parameters, in order. */
  lemma ParamsBack(ps: seq<Pair>)
    requires PlainPairs(ps)
    ensures Params(Join(PairTexts(ps))) == Some(AsParams(ps))
  {
    hide ParseParam, Tokens, Ampersands, Join, PlainPairs;
    var ts := PairTexts(ps);
    PairTextsArePieces(ps);
    TokensOfJoin(ts);
    forall i | 0 <= i < |ps| ensures ParseParam(ts[i]) == AsParams(ps)[i] {
      PairTextBack(ps, i);
    }
    assert AllParams(Join(ts)) == AsParams(ps);
    if ps == [] {
      NoParam(ts);
    } else if |ps| == 1 {
      JoinOne(ts);
      assert [AsParams(ps)[0]] == AsParams(ps);
    }
  }

  lemma PairTextBack(ps: seq<Pair>, i: nat)
    requires PlainPairs(ps) && i < |ps|
    ensures ParseParam(PairTexts(ps)[i]) == AsParams(ps)[i]
  {
    PairBack(ps[i]);
  }

  lemma NoParam(ts: seq<bytes>)
    requires ts == []
    ensures Ampersands(Join(ts)) == 0 && ParseParam(Join(ts)) == Param(None, None)
  {
  }

  lemma JoinOne(ts: seq<bytes>)
    requires |ts| == 1
    ensures Join(ts) == ts[0]
  {
  }

  lemma QueryIsPlain(ps: seq<Pair>)
    requires PlainPairs(ps) && ps != []
    ensures var q := Join(PairTexts(ps)); q != [] && FreeOf(q, [NUL, CR, SPACE]) && EQUALS in q
  {
    var ts := PairTexts(ps);
    forall i | 0 <= i < |ts| ensures ts[i] != [] && FreeOf(ts[i], [NUL, CR, SPACE]) && EQUALS in ts[i] {
      assert PlainPart(ps[i].name) && PlainPart(ps[i].value);
      assert ts[i][|ps[i].name|] == EQUALS;
    }
    JoinIsPlain(ts);
  }

  lemma {:induction false} JoinIsPlain(ts: seq<bytes>)
    requires ts != [] && forall i | 0 <= i < |ts| :: ts[i] != [] && FreeOf(ts[i], [NUL, CR, SPACE]) && EQUALS in ts[i]
    ensures Join(ts) != [] && FreeOf(Join(ts), [NUL, CR, SPACE]) && EQUALS in Join(ts)
  {
    if |ts| > 1 {
      JoinIsPlain(ts[1..]);
      assert EQUALS in ts[0];
    }
  }

  /** What follows the command in the line. */
  function Tail(ps: seq<Pair>, proto: bytes): bytes { if ps == [] then proto
      else Join(PairTexts(ps)) + [SPACE] + proto }

  lemma TailBack(command: bytes, ps: seq<Pair>, proto: bytes)
    requires PlainPairs(ps) && KnownProto(proto)
    ensures BrokenTail(command, Tail(ps, proto)) == Broken(command, Join(PairTexts(ps)), proto)
  {
    hide StrTok, Join, PlainPairs;
    var d := [SPACE];
    assert FreeOf(proto, d) && EQUALS !in proto;
    LastToken(proto, d);
    if ps == [] {
      assert Join(PairTexts(ps)) == [] by { JoinNone(PairTexts(ps)); }
    } else {
      QueryIsPlain(ps);
      TokenBefore(Join(PairTexts(ps)), SPACE, proto, d);
    }
  }

  lemma JoinNone(ts: seq<bytes>)
    requires ts == []
    ensures Join(ts) == []
  {
  }

  lemma LineBack(verb: bytes, command: bytes, ps: seq<Pair>, proto: bytes)
    requires verb != [] && FreeOf(verb, [SPACE]) && PlainCommand(command) && PlainPairs(ps) && KnownProto(proto)
    ensures BreakRequest(RequestLine(verb, command, ps, proto)) == Broken(command, Join(PairTexts(ps)), proto)
  {
    hide StrTok, Join, PlainPairs, KnownProto, BrokenTail;
    var c := if ps == [] then SPACE else QUESTION;
    var d := [SPACE, SLASH, QUESTION];
    var tail := Tail(ps, proto);
    var behind := [SLASH] + (command + [c] + tail);
    assert RequestLine(verb, command, ps, proto) == verb + [SPACE] + behind;
    TokenBefore(verb, SPACE, behind, [SPACE]);
    DelimiterSkipped(SLASH, command + [c] + tail, d);
    assert FreeOf(command, d);
    TokenBefore(command, c, tail, d);
    TailBack(command, ps, proto);
  }

  lemma {:induction false} LineEndOver(line: bytes, more: bytes)
    requires FreeOf(line, [CR])
    ensures LineEnd(line + [CR, NEWLINE] + more) == |line|
  {
    var s := line + [CR, NEWLINE] + more;
    if line == [] {
      assert s[0] == CR && s[1] == NEWLINE;
    } else {
      assert s[1..] == line[1..] + [CR, NEWLINE] + more;
      LineEndOver(line[1..], more);
      assert s[0] == line[0];
    }
  }

  lemma LineIsPlain(verb: bytes, command: bytes, ps: seq<Pair>, proto: bytes)
    requires FreeOf(verb, [CR]) && PlainCommand(command) && PlainPairs(ps) && KnownProto(proto)
    ensures FreeOf(RequestLine(verb, command, ps, proto), [CR])
  {
    hide Join, PlainPairs;
    if ps != [] {
      QueryIsPlain(ps);
    }
  }

  ghost predicate DistinctPairs(ps: seq<Pair>) { forall i, j | 0 <= i < j < |ps| :: ps[i].name != ps[j].name }

  /**
   A request built from a command and plain pairs parses back to exactly that command and
   those pairs in order, unless a name is repeated: then, and only then, it is rejected.
   */
  lemma RequestRoundTrip(verb: bytes, command: bytes, ps: seq<Pair>, proto: bytes, more: bytes)
    requires verb != [] && FreeOf(verb, [NUL, CR, SPACE]) && PlainCommand(command) && PlainPairs(ps)
             && KnownProto(proto)
    ensures Parsed(RequestLine(verb, command, ps, proto) + [CR, NEWLINE] + more)
         == if DistinctPairs(ps) then Ok(Command(command, AsParams(ps))) else Failed(DUPLICATE_PARAMS)
  {
    hide RequestLine, BreakRequest, Params, Repeated, PlainPairs, LineEnd;
    var line := RequestLine(verb, command, ps, proto);
    assert FreeOf(verb, [CR]) && FreeOf(verb, [SPACE]);
    LineIsPlain(verb, command, ps, proto);
    LineEndOver(line, more);
    LineIsNotEmpty(verb, command, ps, proto);
    assert (line + [CR, NEWLINE] + more)[..|line|] == line;
    LineBack(verb, command, ps, proto);
    ParamsBack(ps);
    RepeatedExactly(AsParams(ps));
    NamesOfParams(ps);
  }

  lemma NamesOfParams(ps: seq<Pair>)
    ensures DistinctParams(AsParams(ps)) <==> DistinctPairs(ps)
  {
    assert forall i | 0 <= i < |ps| :: AsParams(ps)[i].name == Some(ps[i].name);
  }

  lemma LineIsNotEmpty(verb: bytes, command: bytes, ps: seq<Pair>, proto: bytes)
    ensures RequestLine(verb, command, ps, proto) != []
  {
  }
}
