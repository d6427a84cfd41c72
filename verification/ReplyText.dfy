/**
 What a client finds when it parses the text of a fetch reply.
 */
module ReplyText {
  import opened Bytes
  import opened Utf8
  import opened JsonNumber
  import opened JsonValue
  import opened JsonPath
  import opened JsonSerializer
  import opened JsonRoundTrip
  import opened JsonParsed
  import opened Replies

  // ------------------------------------------------------------------ how deep writes go

  /** The number of objects that a path passes below the root. */
  function Levels(name: bytes): nat
    decreases |name|
  {
    if HasDot(name) then 1 + Levels(Rest(name)) else 0
  }

  ghost predicate Within(ms: seq<Member>, k: nat) { forall i | 0 <= i < |ms| :: 1 + Depth(ms[i].value) <= k }

  lemma PutWithin(o: Members, name: bytes, v: Value, k: nat)
    requires Within(o.members, k) && 1 + Depth(v) <= k
    ensures Within(Put(o, name, v).members, k)
    ensures Set(o, name, v).Some? ==> Within(Set(o, name, v).value.members, k)
    ensures Add(o, name, v).Some? ==> Within(Add(o, name, v).value.members, k)
  {
  }

  lemma ChildWithin(ms: seq<Member>, name: bytes, k: nat)
    requires Within(ms, k) && Child(ms, name).Some?
    ensures k >= 1 && Within(Child(ms, name).value.members, k - 1)
  {
    var i := Find(ms, name).value;
    var c := Child(ms, name).value;
    assert ms[i].value == Object(c) && 1 + Depth(ms[i].value) <= k;
    MembersDepthIs(c.members, k - 1);
  }

  lemma WithinDepth(o: Members, k: nat)
    requires Within(o.members, k)
    ensures Depth(Object(o)) <= k
  {
    MembersDepthIs(o.members, k);
  }

  /** A write makes a tree no deeper than its path is long. */
  lemma {:induction false} DotSetWithin(o: Members, name: bytes, v: Value, k: nat)
    requires Within(o.members, k) && 1 + Levels(name) + Depth(v) <= k
    ensures Within(DotSet(o, name, v).obj.members, k)
    decreases |name|
  {
    hide Depth, Within, Put, Set, Add, Find;
    if !HasDot(name) {
      PutWithin(o, name, v, k);
    } else {
      var c := Child(o.members, Head(name));
      if c.Some? {
        ChildWithin(o.members, Head(name), k);
        DotSetWithin(c.value, Rest(name), v, k - 1);
        var sub := DotSet(c.value, Rest(name), v).obj;
        WithinDepth(sub, k - 1);
        PutWithin(o, Head(name), Object(sub), k);
      } else {
        EmptyWithin(k - 1);
        WithinDepth(EMPTY_OBJECT, k - 1);
        PutWithin(o, Head(name), Object(EMPTY_OBJECT), k);
        DotSetWithin(EMPTY_OBJECT, Rest(name), v, k - 1);
        var p, sub := Add(o, Head(name), Object(EMPTY_OBJECT)), DotSet(EMPTY_OBJECT, Rest(name), v).obj;
        WithinDepth(sub, k - 1);
        if p.Some? {
          PutWithin(p.value, Head(name), Object(sub), k);
        }
      }
    }
  }

  lemma EmptyWithin(k: nat)
    ensures Within(EMPTY_OBJECT.members, k)
  {
  }

  // ------------------------------------------------------------------ the reply is a valid tree

  /** A write of a plain value below at most l objects. */
  ghost predicate GoodField(f: Field, l: nat)
  {
    NulFree(f.path) && Levels(f.path) <= l && (f.value.Some? ==> Valid(f.value.value) && Depth(f.value.value) == 0)
  }

  ghost predicate GoodFields(fs: seq<Field>, l: nat) { forall i | 0 <= i < |fs| :: GoodField(fs[i], l) }

  ghost predicate GoodTree(o: Members) { Valid(Object(o)) && Within(o.members, 3) }

  lemma {:induction false} WritesAreGood(o: Members, fs: seq<Field>)
    requires GoodTree(o) && GoodFields(fs, 2)
    ensures GoodTree(WriteAll(o, fs))
    decreases |fs|
  {
    hide Valid, Within, DotSet, Levels;
    if fs != [] {
      assert GoodField(fs[0], 2);
      if fs[0].value.Some? {
        DotSetKeepsValid(o, fs[0].path, fs[0].value.value);
        DotSetWithin(o, fs[0].path, fs[0].value.value, 3);
      }
      WritesAreGood(Write(o, fs[0]), fs[1..]);
    }
  }

  lemma LevelsBelow(h: bytes, p: bytes)
    requires DotFree(h)
    ensures Levels(h + [DOT] + p) == 1 + Levels(p)
  {
    DotFreeHead(h, p);
  }

  lemma {:induction false} BelowIsGood(h: bytes, fs: seq<Field>, l: nat)
    requires DotFree(h) && NulFree(h) && GoodFields(fs, l)
    ensures GoodFields(Below(h, fs), l + 1)
    decreases |fs|
  {
    hide Valid, Levels, DotFree;
    if fs != [] {
      assert GoodField(fs[0], l);
      LevelsBelow(h, fs[0].path);
      assert forall i | 0 <= i < |fs| - 1 :: fs[1..][i] == fs[i + 1];
      BelowIsGood(h, fs[1..], l);
    }
  }

  /** The strings of a row are C strings. */
  predicate CRow(e: Entry)
  {
    (e.recordDate.Some? ==> NulFree(e.recordDate.value)) && NulFree(e.location) && NulFree(e.deviceName)
  }

  predicate PlainKey(k: bytes) { forall i | 0 <= i < |k| :: k[i] != DOT && k[i] != NUL }

  lemma KeyIsGood(k: bytes, v: Option<Value>)
    requires PlainKey(k) && (v.Some? ==> Valid(v.value) && Depth(v.value) == 0)
    ensures GoodField(Field(k, v), 0)
  {
    DotAtEnd(k);
  }

  lemma TextIsGood(k: bytes, t: Option<bytes>)
    requires PlainKey(k) && (t.Some? ==> NulFree(t.value))
    ensures GoodField(Field(k, StringValue(t)), 0)
  {
    KeyIsGood(k, StringValue(t));
  }

  lemma RowFieldsAreGood(e: Entry)
    requires CRow(e)
    ensures GoodFields(RowFields(e), 0)
  {
    hide GoodField, StringValue;
    KeyIsGood(ID_KEY, Some(Number(e.id as real)));
    TextIsGood(RECORD_DATE_KEY, e.recordDate);
    KeyIsGood(TEMPERATURE_KEY, Some(Number(e.temperature)));
    KeyIsGood(HUMIDITY_KEY, Some(Number(e.humidity)));
    TextIsGood(LOCATION_KEY, Some(e.location));
    TextIsGood(DEVICE_NAME_KEY, Some(e.deviceName));
  }

  lemma RowWritesAreGood(e: Entry)
    requires CRow(e)
    ensures GoodFields(RowWrites(e), 2)
  {
    hide GoodFields, CRow, RowFields, Below, Decimal;
    RowFieldsAreGood(e);
    DecimalIsDotFree(e.id);
    DecimalIsNulFree(e.id);
    BelowIsGood(Decimal(e.id), RowFields(e), 0);
    BelowIsGood(RESULTS_KEY, Below(Decimal(e.id), RowFields(e)), 1);
  }

  lemma DecimalIsNulFree(n: int)
    ensures NulFree(Decimal(n))
  {
    var t := Decimal(n);
    assert forall i | 0 <= i < |t| :: IsDigit(t[i]) || t[i] == MINUS;
  }

  lemma HeaderIsGood(n: nat, unit: byte)
    requires unit > 0
    ensures GoodTree(Header(n, unit))
  {
    hide GoodField, StringValue, CStr, WriteAll;
    var fs := HeaderFields(n, unit);
    KeyIsGood(LENGTH_KEY, Some(Number(n as real)));
    assert NulFree(CStr([unit])) by { CStrIsPrefix([unit]); }
    UnitIsGood(TEMPUNIT_KEY, CStr([unit]));
    UnitIsGood(HUMIDUNIT_KEY, [PERCENT]);
    KeyIsGood(ERRCODE_KEY, Some(Number(0.0)));
    TextIsGood(ERRMSG_KEY, Some([]));
    Shallower(fs[0]);
    Shallower(fs[3]);
    Shallower(fs[4]);
    EmptyIsGood();
    WritesAreGood(EMPTY_OBJECT, fs);
  }

  lemma UnitIsGood(k: bytes, t: bytes)
    requires PlainKey(k) && NulFree(t)
    ensures GoodField(Field(UNITS_KEY + [DOT] + k, StringValue(Some(t))), 2)
  {
    hide Levels, StringValue, Valid;
    TextIsGood(k, Some(t));
    LevelsBelow(UNITS_KEY, k);
  }

  lemma Shallower(f: Field)
    requires GoodField(f, 0)
    ensures GoodField(f, 2)
  {
  }

  lemma EmptyIsGood()
    ensures GoodTree(EMPTY_OBJECT)
  {
  }

  lemma {:induction false} RowsAreGood(o: Members, es: seq<Entry>)
    requires GoodTree(o) && forall i | 0 <= i < |es| :: CRow(es[i])
    ensures GoodTree(AddRows(o, es))
    decreases |es|
  {
    hide GoodTree, CRow, WriteAll, RowWrites, GoodFields;
    if es != [] {
      RowsAreGood(o, es[..|es| - 1]);
      RowWritesAreGood(es[|es| - 1]);
      WritesAreGood(AddRows(o, es[..|es| - 1]), RowWrites(es[|es| - 1]));
    }
  }

  /** Every fetch reply is a tree that the printer and the parser can handle. */
  lemma ReplyIsGood(es: seq<Entry>, unit: byte)
    requires unit > 0 && forall i | 0 <= i < |es| :: CRow(es[i])
    ensures Valid(Object(FetchReply(es, unit))) && Depth(Object(FetchReply(es, unit))) <= 3
  {
    hide Header, AddRows, CRow, Valid, Within;
    HeaderIsGood(|es|, unit);
    RowsAreGood(Header(|es|, unit), es);
    WithinDepth(FetchReply(es, unit), 3);
  }

  // ------------------------------------------------------------------ reading a path behind print and parse

  function Again(v: Option<Value>): Option<Value> { if v.Some? then Some(Reparsed(v.value)) else None }

  lemma {:induction false} FindAgain(ms: seq<Member>, name: bytes)
    ensures Find(ReparsedMembers(ms), name) == Find(ms, name)
  {
    if ms != [] {
      FindAgain(ms[1..], name);
      assert ReparsedMembers(ms)[1..] == ReparsedMembers(ms[1..]);
    }
  }

  lemma GetAgain(ms: seq<Member>, name: bytes)
    ensures Get(ReparsedMembers(ms), name) == Again(Get(ms, name))
  {
    FindAgain(ms, name);
    if Find(ms, name).Some? {
      ReparsedMemberAt(ms, Find(ms, name).value);
    }
  }

  /** Paths lead to the same values, as printed. */
  lemma {:induction false} DotGetAgain(ms: seq<Member>, name: bytes)
    ensures DotGet(ReparsedMembers(ms), name) == Again(DotGet(ms, name))
    decreases |name|
  {
    hide Get, ReparsedMembers;
    if !HasDot(name) {
      GetAgain(ms, name);
    } else {
      GetAgain(ms, Head(name));
      var c := Child(ms, Head(name));
      if c.Some? {
        DotGetAgain(c.value.members, Rest(name));
      }
    }
  }

  /** A number is read as the nearest whole number of millionths. */
  predicate ReadsNumber(v: Option<Value>, x: real) { v.Some? && v.value.Number? && Nearest(v.value.x, x) }

  /** A row as it reads under results.<id>.<field>. */
  ghost predicate ReadsRow(ms: seq<Member>, e: Entry)
  {
    && DotGet(ms, RowPath(e.id, ID_KEY)) == Some(Number(e.id as real))
    && ReadsNumber(DotGet(ms, RowPath(e.id, TEMPERATURE_KEY)), e.temperature)
    && ReadsNumber(DotGet(ms, RowPath(e.id, HUMIDITY_KEY)), e.humidity)
    && DotGet(ms, RowPath(e.id, RECORD_DATE_KEY)) == StringValue(e.recordDate)
    && DotGet(ms, RowPath(e.id, LOCATION_KEY)) == StringValue(Some(e.location))
    && DotGet(ms, RowPath(e.id, DEVICE_NAME_KEY)) == StringValue(Some(e.deviceName))
  }

  /** What precedes the rows: how many there were, and the units. */
  ghost predicate ReadsHeader(ms: seq<Member>, n: nat, unit: byte)
  {
    && DotGet(ms, LENGTH_KEY) == Some(Number(n as real))
    && DotGet(ms, UNITS_KEY + [DOT] + TEMPUNIT_KEY) == Some(String([unit]))
    && DotGet(ms, UNITS_KEY + [DOT] + HUMIDUNIT_KEY) == Some(String([PERCENT]))
  }

  lemma RowAgain(es: seq<Entry>, unit: byte, i: nat)
    requires DistinctIds(es) && 0 < unit < 0x80 && i < |es| && i < OBJECT_MAX_CAPACITY
    ensures ReadsRow(ReparsedMembers(FetchReply(es, unit).members), es[i])
  {
    hide FetchReply, DotGet, RowPath, Row, Get, Printed;
    RowReads(es[i]);
    WholeIsExact(es[i].id);
    PrintedIsNearest(es[i].temperature);
    PrintedIsNearest(es[i].humidity);
    hide Nearest;
    FieldAgain(es, unit, i, ID_KEY);
    FieldAgain(es, unit, i, TEMPERATURE_KEY);
    FieldAgain(es, unit, i, HUMIDITY_KEY);
    FieldAgain(es, unit, i, RECORD_DATE_KEY);
    FieldAgain(es, unit, i, LOCATION_KEY);
    FieldAgain(es, unit, i, DEVICE_NAME_KEY);
  }

  lemma WholeIsExact(n: int)
    ensures Printed(n as real) == n as real
  {
    IntegerScaled(n as real);
    PrintedExactly(n as real);
  }

  lemma FieldAgain(es: seq<Entry>, unit: byte, i: nat, field: bytes)
    requires DistinctIds(es) && 0 < unit < 0x80 && i < |es| && i < OBJECT_MAX_CAPACITY && DotFree(field)
    ensures DotGet(ReparsedMembers(FetchReply(es, unit).members), RowPath(es[i].id, field))
            == Again(Get(Row(es[i]).members, field))
  {
    hide FetchReply, DotGet, RowPath, Row, Get, DotFree;
    ResultReads(es, unit, i, field);
    DotGetAgain(FetchReply(es, unit).members, RowPath(es[i].id, field));
  }

  lemma UnitAgain(ms: seq<Member>, unit: byte, key: bytes)
    requires Get(ms, UNITS_KEY) == Some(Object(Units(unit))) && DotFree(key)
    ensures DotGet(ReparsedMembers(ms), UNITS_KEY + [DOT] + key) == Again(Get(Units(unit).members, key))
  {
    hide Get, Units, DotFree;
    var path := UNITS_KEY + [DOT] + key;
    RootKeys();
    DotFreeHead(UNITS_KEY, key);
    DotFreeHead(key, []);
    DotAtEnd(key);
    assert DotGet(ms, path) == Get(Units(unit).members, key);
    DotGetAgain(ms, path);
  }

  lemma HeaderAgain(ms: seq<Member>, n: nat, unit: byte)
    requires HasHeader(ms, n, unit) && 0 < unit < 0x80
    ensures ReadsHeader(ReparsedMembers(ms), n, unit)
  {
    hide Get, Units, DotFree, DotGet, Printed;
    UnitsRead(unit);
    WholeIsExact(n);
    assert DotFree(TEMPUNIT_KEY) && DotFree(HUMIDUNIT_KEY) by { UnitKeys(); }
    UnitAgain(ms, unit, TEMPUNIT_KEY);
    UnitAgain(ms, unit, HUMIDUNIT_KEY);
    DotGetAgain(ms, LENGTH_KEY);
    LengthPath(ms);
  }

  lemma UnitKeys()
    ensures DotFree(TEMPUNIT_KEY) && DotFree(HUMIDUNIT_KEY)
  {
  }

  lemma LengthPath(ms: seq<Member>)
    ensures DotGet(ms, LENGTH_KEY) == Get(ms, LENGTH_KEY)
  {
    DotAtEnd(LENGTH_KEY);
  }

  lemma ResultsAgain(ms: seq<Member>)
    ensures |Results(ReparsedMembers(ms))| == |Results(ms)|
  {
    hide Get;
    GetAgain(ms, RESULTS_KEY);
  }

  /** What a client finds in the members of a parsed reply. */
  ghost predicate ReadsReply(ms: seq<Member>, es: seq<Entry>, unit: byte)
  {
    && ReadsHeader(ms, |es|, unit) && |Results(ms)| == |FirstRows(es)|
    && forall i | 0 <= i < |FirstRows(es)| :: ReadsRow(ms, es[i])
  }

  /**
   The text of every fetch reply, compact or pretty, parses; and in the parsed tree the length,
   the units, and under results.<id>.<field> the values of each of the first 960 rows are
   there, and no other row is.
   */
  lemma ClientReads(es: seq<Entry>, unit: byte, pretty: bool)
    requires DistinctIds(es) && 0 < unit < 0x80 && forall j | 0 <= j < |es| :: CRow(es[j])
    ensures var back := ParsedString(Text(Object(FetchReply(es, unit)), 0, pretty));
            back.Some? && back.value.Object? && ReadsReply(back.value.obj.members, es, unit)
  {
    hide FetchReply, Valid, CRow, Text, ParsedString, Depth, ReadsHeader, ReadsRow, HasHeader, Results, RowMembers;
    var reply := FetchReply(es, unit);
    ReplyIsGood(es, unit);
    RoundTrip(Object(reply), pretty);
    FetchReplyIs(es, unit);
    HeaderAgain(reply.members, |es|, unit);
    ResultsAgain(reply.members);
    forall i | 0 <= i < |FirstRows(es)| ensures ReadsRow(ReparsedMembers(reply.members), es[i]) {
      RowAgain(es, unit, i);
    }
  }
}
