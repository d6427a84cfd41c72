/**
 What every value that comes out of the parser satisfies, whatever the input.
 */
module JsonParsed {
  import opened Bytes
  import opened JsonNumber
  import opened JsonString
  import opened JsonValue
  import opened JsonSerializer
  import opened JsonParser
  import opened JsonRoundTrip

  /** A value the parser may return at this nesting: valid, trimmed, and not too deep. */
  ghost predicate Admissible(v: Value, nesting: nat)
  {
    Valid(v) && Trimmed(v) && nesting + Depth(v) <= MAX_NESTING
  }

  /** Every container has exactly the capacity it needs. */
  ghost predicate Trimmed(v: Value)
  {
    match v
    case Array(a) => a.capacity == |a.items| && forall i | 0 <= i < |a.items| :: Trimmed(a.items[i])
    case Object(o) => o.capacity == |o.members| && forall i | 0 <= i < |o.members| :: Trimmed(o.members[i].value)
    case _ => true
  }

  lemma {:induction false} ItemsDepthIs(items: seq<Value>, k: nat)
    ensures ItemsDepth(items) <= k <==> forall i | 0 <= i < |items| :: 1 + Depth(items[i]) <= k
  {
    if items != [] {
      ItemsDepthIs(items[1..], k);
      assert forall i | 1 <= i < |items| :: items[i] == items[1..][i - 1];
    }
  }

  lemma {:induction false} MembersDepthIs(ms: seq<Member>, k: nat)
    ensures MembersDepth(ms) <= k <==> forall i | 0 <= i < |ms| :: 1 + Depth(ms[i].value) <= k
  {
    if ms != [] {
      MembersDepthIs(ms[1..], k);
      assert forall i | 1 <= i < |ms| :: ms[i] == ms[1..][i - 1];
    }
  }

  ghost predicate AdmissibleItems(a: Items, nesting: nat)
  {
    ValidArray(a) && forall i | 0 <= i < |a.items| :: Admissible(a.items[i], nesting)
  }

  ghost predicate AdmissibleMembers(o: Members, nesting: nat)
  {
    && ValidObject(o)
    && forall i | 0 <= i < |o.members| :: NulFree(o.members[i].name) && Admissible(o.members[i].value, nesting)
  }

  /** Trimming finished storage makes an admissible value one level up. */
  lemma ArrayAdmissible(a: Items, nesting: nat)
    requires nesting <= MAX_NESTING && AdmissibleItems(a, nesting + 1)
    ensures Admissible(Array(Items(a.items, |a.items|)), nesting)
  {
    ItemsDepthIs(a.items, MAX_NESTING - nesting);
  }

  lemma ObjectAdmissible(o: Members, nesting: nat)
    requires nesting <= MAX_NESTING && AdmissibleMembers(o, nesting + 1)
    ensures Admissible(Object(Members(o.members, |o.members|)), nesting)
  {
    MembersDepthIs(o.members, MAX_NESTING - nesting);
  }

  lemma AddAdmissible(o: Members, name: bytes, v: Value, nesting: nat)
    requires AdmissibleMembers(o, nesting) && NulFree(name) && Admissible(v, nesting) && Add(o, name, v).Some?
    ensures AdmissibleMembers(Add(o, name, v).value, nesting)
  {
    AddKeepsValid(o, name, v);
  }

  lemma QuotedIsNulFree(s: bytes)
    ensures QuotedString(s).Quoted? ==> NulFree(QuotedString(s).text)
  {
    if s != [] && s[0] == QUOTE && QuoteEnd(s[1..]).Some? {
      var t := Unescape(s[1..][..QuoteEnd(s[1..]).value]);
      if t.Some? {
        CStrIsPrefix(t.value);
      }
    }
  }

  /**
   On every input: what the parser returns has distinct names and storage within the caps at
   every level, holds C strings, is trimmed, and is nested no deeper than the limit allows.
   */
  lemma {:induction false} ParsedIsAdmissible(s: bytes, nesting: nat)
    ensures ParsedValue(s, nesting).Parsed? ==> Admissible(ParsedValue(s, nesting).v, nesting)
    decreases |s|, 2
  {
    var u := SkipSpaces(s);
    if nesting <= MAX_NESTING && u != [] {
      if u[0] == LBRACE {
        var t := SkipSpaces(u[1..]);
        ObjectAdmissible(EMPTY_OBJECT, nesting);
        MembersAreAdmissible(t, nesting, EMPTY_OBJECT);
      } else if u[0] == LBRACKET {
        var t := SkipSpaces(u[1..]);
        ArrayAdmissible(EMPTY_ARRAY, nesting);
        ItemsAreAdmissible(t, nesting, EMPTY_ARRAY);
      } else {
        QuotedIsNulFree(u);
      }
    }
  }

  lemma {:induction false} ItemsAreAdmissible(s: bytes, nesting: nat, a: Items)
    requires nesting <= MAX_NESTING && AdmissibleItems(a, nesting + 1)
    ensures var r := ParsedItems(s, nesting + 1, a); r.Parsed? ==> Admissible(r.v, nesting)
    decreases |s|, 3
  {
    ParsedIsAdmissible(s, nesting + 1);
    var r := ParsedValue(s, nesting + 1);
    if r.Parsed? && Append(a, r.v).Some? {
      var b, u := Append(a, r.v).value, SkipSpaces(r.rest);
      ArrayAdmissible(b, nesting);
      if u != [] && u[0] == COMMA {
        ItemsAreAdmissible(SkipSpaces(u[1..]), nesting, b);
      }
    }
  }

  lemma {:induction false} MembersAreAdmissible(s: bytes, nesting: nat, o: Members)
    requires nesting <= MAX_NESTING && AdmissibleMembers(o, nesting + 1)
    ensures var r := ParsedMembers(s, nesting + 1, o); r.Parsed? ==> Admissible(r.v, nesting)
    decreases |s|, 3
  {
    QuotedIsNulFree(s);
    var k := ParsedKey(s);
    if k.Quoted? {
      ParsedIsAdmissible(k.rest, nesting + 1);
      var r := ParsedValue(k.rest, nesting + 1);
      if r.Parsed? && Add(o, k.text, r.v).Some? {
        var p, u := Add(o, k.text, r.v).value, SkipSpaces(r.rest);
        AddAdmissible(o, k.text, r.v, nesting + 1);
        ObjectAdmissible(p, nesting);
        if u != [] && u[0] == COMMA {
          MembersAreAdmissible(SkipSpaces(u[1..]), nesting, p);
        }
      }
    }
  }

  /** On trimmed values with exact numbers, reading back changes nothing at all. */
  lemma {:induction false} ReparsedTrimmed(v: Value)
    requires Trimmed(v) && ExactNumbers(v)
    ensures Reparsed(v) == v
  {
    match v
    case Number(x) => PrintedExactly(x);
    case Array(a) =>
      forall i | 0 <= i < |a.items| ensures ReparsedItems(a.items)[i] == a.items[i] {
        ReparsedItemAt(a.items, i);
        ReparsedTrimmed(a.items[i]);
      }
      assert ReparsedItems(a.items) == a.items;
    case Object(o) =>
      forall i | 0 <= i < |o.members| ensures ReparsedMembers(o.members)[i] == o.members[i] {
        ReparsedMemberAt(o.members, i);
        ReparsedTrimmed(o.members[i].value);
      }
      assert ReparsedMembers(o.members) == o.members;
    case _ =>
  }

  /** Whatever text a value was parsed from, printing it and parsing again returns the very same value. */
  lemma ParsePrintParse(s: bytes, pretty: bool)
    requires ParsedString(s).Some? && ExactNumbers(ParsedString(s).value)
    ensures ParsedString(Text(ParsedString(s).value, 0, pretty)) == ParsedString(s)
  {
    ParsedIsAdmissible(s, 0);
    RoundTrip(ParsedString(s).value, pretty);
    ReparsedTrimmed(ParsedString(s).value);
  }
}
