/**
 The recursive-descent parser: what it makes of a text, as functions on what is left to
 read, and the source's loops over a moving cursor, proved to compute just that.
 */
module JsonParser {
  import opened Bytes
  import opened JsonNumber
  import opened JsonString
  import opened JsonValue
  import opened JsonSerializer

  datatype Parsed = Failed | Parsed(v: Value, rest: bytes)

  /** parse_value */
  function ParsedValue(s: bytes, nesting: nat): (r: Parsed)
    ensures r.Parsed? ==> |r.rest| <= |s|
    decreases |s|, 2
  {
    if nesting > MAX_NESTING then Failed
    else
      var u := SkipSpaces(s);
      if u == [] then Failed
      else if u[0] == LBRACE then ParsedObject(u, nesting + 1)
      else if u[0] == LBRACKET then ParsedArray(u, nesting + 1)
      else ParsedScalar(u)
  }

  /** The cases of parse_value that do not recurse. */
  function ParsedScalar(u: bytes): (r: Parsed)
    requires u != []
    ensures r.Parsed? ==> |r.rest| <= |u|
  {
    if u[0] == QUOTE then
      match QuotedString(u)
      case NotQuoted => Failed
      case Quoted(text, rest) => Parsed(String(text), rest)
    else if u[0] == 102 || u[0] == 116 then
      if TRUE_TOKEN <= u then Parsed(Bool(true), u[4..])
      else if FALSE_TOKEN <= u then Parsed(Bool(false), u[5..])
      else Failed
    else if u[0] == MINUS || IsDigit(u[0]) then
      var n := Scan(u);
      if IsDecimal(u[..n.length]) then Parsed(Number(n.value), u[n.length..]) else Failed
    else if u[0] == 110 then
      if NULL_TOKEN <= u then Parsed(Null, u[4..]) else Failed
    else Failed
  }

  /** parse_array_value */
  function ParsedArray(u: bytes, nesting: nat): (r: Parsed)
    requires u != []
    ensures r.Parsed? ==> |r.rest| <= |u|
    decreases |u|, 1
  {
    var t := SkipSpaces(u[1..]);
    if t != [] && t[0] == RBRACKET then Parsed(Array(EMPTY_ARRAY), t[1..])
    else ParsedItems(t, nesting, EMPTY_ARRAY)
  }

  /** Its loop, with the elements read so far; storage is trimmed at the closing bracket. */
  function ParsedItems(s: bytes, nesting: nat, a: Items): (r: Parsed)
    ensures r.Parsed? ==> |r.rest| <= |s|
    decreases |s|, 3
  {
    if s == [] then Failed
    else
      match ParsedValue(s, nesting)
      case Failed => Failed
      case Parsed(v, s1) =>
        match Append(a, v)
        case None => Failed
        case Some(b) =>
          var s2 := SkipSpaces(s1);
          if s2 == [] then Failed
          else if s2[0] == COMMA then ParsedItems(SkipSpaces(s2[1..]), nesting, b)
          else if s2[0] == RBRACKET then Parsed(Array(Items(b.items, |b.items|)), s2[1..])
          else Failed
  }

  /** parse_object_value */
  function ParsedObject(u: bytes, nesting: nat): (r: Parsed)
    requires u != []
    ensures r.Parsed? ==> |r.rest| <= |u|
    decreases |u|, 1
  {
    var t := SkipSpaces(u[1..]);
    if t != [] && t[0] == RBRACE then Parsed(Object(EMPTY_OBJECT), t[1..])
    else ParsedMembers(t, nesting, EMPTY_OBJECT)
  }

  function ParsedMembers(s: bytes, nesting: nat, o: Members): (r: Parsed)
    ensures r.Parsed? ==> |r.rest| <= |s|
    decreases |s|, 3
  {
    match ParsedKey(s)
    case NotQuoted => Failed
    case Quoted(key, s1) =>
      match ParsedValue(s1, nesting)
      case Failed => Failed
      case Parsed(v, s2) =>
        match Add(o, key, v)
        case None => Failed
        case Some(p) =>
          var s3 := SkipSpaces(s2);
          if s3 == [] then Failed
          else if s3[0] == COMMA then ParsedMembers(SkipSpaces(s3[1..]), nesting, p)
          else if s3[0] == RBRACE then Parsed(Object(Members(p.members, |p.members|)), s3[1..])
          else Failed
  }

  /** A key and the colon behind it. */
  function ParsedKey(s: bytes): (r: Quoted)
    ensures r.Quoted? ==> |r.rest| < |s|
  {
    match QuotedString(s)
    case NotQuoted => NotQuoted
    case Quoted(key, t) =>
      var u := SkipSpaces(t);
      if u != [] && u[0] == COLON then Quoted(key, u[1..]) else NotQuoted
  }

  // ------------------------------------------------------------------ the cursor

  /** The outcome of a routine that started at a cursor, as a value and the new cursor. */
  ghost predicate Agrees(s: bytes, pos: nat, v: Option<Value>, spec: Parsed)
  {
    && pos <= |s|
    && (v.None? <==> spec.Failed?)
    && (v.Some? ==> spec == Parsed(v.value, s[pos..]))
  }

  /** SKIP_WHITESPACES: the cursor stops at the terminator at the latest. */
  method SkipWhitespaces(s: bytes, start: nat) returns (pos: nat)
    requires start <= |s|
    ensures start <= pos <= |s| && s[pos..] == SkipSpaces(s[start..])
  {
    pos := start;
    while IsSpace(At(s, pos))
      invariant start <= pos <= |s|
      invariant SkipSpaces(s[start..]) == SkipSpaces(s[pos..])
      decreases |s| - pos
    {
      assert s[pos..][1..] == s[pos + 1..];
      pos := pos + 1;
    }
  }

  method ParseScalar(s: bytes, start: nat) returns (v: Option<Value>, pos: nat)
    requires start < |s| && NulFree(s)
    ensures start <= pos && Agrees(s, pos, v, ParsedScalar(s[start..]))
  {
    var u := s[start..];
    pos := start;
    if s[start] == QUOTE {
      var text;
      text, pos := GetQuotedString(s, start);
      v := if text.Some? then Some(String(text.value)) else None;
    } else if s[start] == 102 || s[start] == 116 {
      if TRUE_TOKEN <= u {
        assert u[4..] == s[start + 4..];
        return Some(Bool(true)), start + 4;
      } else if FALSE_TOKEN <= u {
        assert u[5..] == s[start + 5..];
        return Some(Bool(false)), start + 5;
      }
      v := None;
    } else if s[start] == MINUS || IsDigit(s[start]) {
      var n := Scan(u);
      var ok := CheckDecimal(u[..n.length]);
      if ok {
        assert u[n.length..] == s[start + n.length..];
        return Some(Number(n.value)), start + n.length;
      }
      v := None;
    } else if s[start] == 110 && NULL_TOKEN <= u {
      assert u[4..] == s[start + 4..];
      return Some(Null), start + 4;
    } else {
      v := None;
    }
  }

  /**
   parse_value on any C string: it terminates, the cursor moves neither back nor past the
   terminator, and nesting stays bounded, although a lone minus is read without moving.
   */
  method ParseValue(s: bytes, start: nat, nesting: nat) returns (v: Option<Value>, pos: nat)
    requires start <= |s| && NulFree(s)
    ensures start <= pos && Agrees(s, pos, v, ParsedValue(s[start..], nesting))
    decreases |s| - start, 2
  {
    pos := start;
    if nesting > MAX_NESTING {
      return None, pos;
    }
    pos := SkipWhitespaces(s, pos);
    if pos == |s| {
      return None, pos;
    }
    if s[pos] == LBRACE {
      v, pos := ParseObject(s, pos, nesting + 1);
    } else if s[pos] == LBRACKET {
      v, pos := ParseArray(s, pos, nesting + 1);
    } else {
      v, pos := ParseScalar(s, pos);
    }
  }

  /** One turn of the loop of parse_array_value; each turn that is not the last consumes a comma. */
  method ParseItem(s: bytes, start: nat, nesting: nat, a: Items) returns (b: Option<Items>, more: bool, pos: nat)
    requires start <= |s| && NulFree(s)
    ensures start <= pos <= |s|
    ensures b.None? ==> ParsedItems(s[start..], nesting, a).Failed?
    ensures b.Some? && more ==>
              start < pos
              && ParsedItems(s[start..], nesting, a) == ParsedItems(s[pos..], nesting, b.value)
    ensures b.Some? && !more ==>
              ParsedItems(s[start..], nesting, a) == Parsed(Array(Items(b.value.items, |b.value.items|)), s[pos..])
    decreases |s| - start, 3
  {
    hide ParsedValue, SkipSpaces, Append;
    more, pos := false, start;
    if At(s, pos) == NUL {
      return None, more, pos;
    }
    var v;
    v, pos := ParseValue(s, pos, nesting);
    if v.None? {
      return None, more, pos;
    }
    b := Append(a, v.value);
    pos := SkipWhitespaces(s, pos);
    if b.None? || (At(s, pos) != COMMA && At(s, pos) != RBRACKET) {
      return None, more, pos;
    }
    assert s[pos..][1..] == s[pos + 1..];
    if At(s, pos) == COMMA {
      more := true;
      pos := SkipWhitespaces(s, pos + 1);
    } else {
      pos := pos + 1;
    }
  }

  method ParseArray(s: bytes, start: nat, nesting: nat) returns (v: Option<Value>, pos: nat)
    requires start < |s| && NulFree(s) && s[start] == LBRACKET
    ensures start <= pos && Agrees(s, pos, v, ParsedArray(s[start..], nesting))
    decreases |s| - start, 1
  {
    assert s[start..][1..] == s[start + 1..];
    ghost var spec := ParsedArray(s[start..], nesting);
    pos := SkipWhitespaces(s, start + 1);
    if At(s, pos) == RBRACKET {
      assert s[pos..][1..] == s[pos + 1..];
      return Some(Array(EMPTY_ARRAY)), pos + 1;
    }
    var a, more := EMPTY_ARRAY, true;
    while more
      invariant start < pos <= |s|
      invariant more ==> spec == ParsedItems(s[pos..], nesting, a)
      invariant !more ==> spec == Parsed(Array(Items(a.items, |a.items|)), s[pos..])
      decreases more, |s| - pos
    {
      var b;
      b, more, pos := ParseItem(s, pos, nesting, a);
      if b.None? {
        return None, pos;
      }
      a := b.value;
    }
    return Some(Array(Items(a.items, |a.items|))), pos;
  }

  /** One turn of the loop of parse_object_value. */
  method ParseMember(s: bytes, start: nat, nesting: nat, o: Members) returns (p: Option<Members>, more: bool, pos: nat)
    requires start <= |s| && NulFree(s)
    ensures start <= pos <= |s|
    ensures p.None? ==> ParsedMembers(s[start..], nesting, o).Failed?
    ensures p.Some? && more ==>
              start < pos
              && ParsedMembers(s[start..], nesting, o) == ParsedMembers(s[pos..], nesting, p.value)
    ensures p.Some? && !more ==>
              ParsedMembers(s[start..], nesting, o)
                  == Parsed(Object(Members(p.value.members, |p.value.members|)), s[pos..])
    decreases |s| - start, 3
  {
    hide ParsedValue, ParsedKey, SkipSpaces, Add;
    more := false;
    var key, v;
    key, pos := ParseKey(s, start);
    if key.None? {
      return None, more, pos;
    }
    v, pos := ParseValue(s, pos, nesting);
    if v.None? {
      return None, more, pos;
    }
    p := Add(o, key.value, v.value);
    pos := SkipWhitespaces(s, pos);
    if p.None? || (At(s, pos) != COMMA && At(s, pos) != RBRACE) {
      return None, more, pos;
    }
    assert s[pos..][1..] == s[pos + 1..];
    if At(s, pos) == COMMA {
      more := true;
      pos := SkipWhitespaces(s, pos + 1);
    } else {
      pos := pos + 1;
    }
  }

  method ParseObject(s: bytes, start: nat, nesting: nat) returns (v: Option<Value>, pos: nat)
    requires start < |s| && NulFree(s) && s[start] == LBRACE
    ensures start <= pos && Agrees(s, pos, v, ParsedObject(s[start..], nesting))
    decreases |s| - start, 1
  {
    assert s[start..][1..] == s[start + 1..];
    ghost var spec := ParsedObject(s[start..], nesting);
    pos := SkipWhitespaces(s, start + 1);
    if At(s, pos) == RBRACE {
      assert s[pos..][1..] == s[pos + 1..];
      return Some(Object(EMPTY_OBJECT)), pos + 1;
    }
    var o, more := EMPTY_OBJECT, true;
    while more
      invariant start < pos <= |s|
      invariant more ==> spec == ParsedMembers(s[pos..], nesting, o)
      invariant !more ==> spec == Parsed(Object(Members(o.members, |o.members|)), s[pos..])
      decreases more, |s| - pos
    {
      var p;
      p, more, pos := ParseMember(s, pos, nesting, o);
      if p.None? {
        return None, pos;
      }
      o := p.value;
    }
    return Some(Object(Members(o.members, |o.members|))), pos;
  }

  method ParseKey(s: bytes, start: nat) returns (key: Option<bytes>, pos: nat)
    requires start <= |s| && NulFree(s)
    ensures start <= pos <= |s|
    ensures key.None? <==> ParsedKey(s[start..]).NotQuoted?
    ensures key.Some? ==> start < pos && ParsedKey(s[start..]) == Quoted(key.value, s[pos..])
  {
    key, pos := GetQuotedString(s, start);
    if key.None? {
      return;
    }
    pos := SkipWhitespaces(s, pos);
    if At(s, pos) != COLON {
      return None, pos;
    }
    assert s[pos..][1..] == s[pos + 1..];
    pos := pos + 1;
  }
}
