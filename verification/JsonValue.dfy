/**
 JSON values and the storage of objects and arrays: association lists and growable
 sequences with a capacity that doubles up to a cap.
 */
module JsonValue {
  import opened Bytes
  import opened JsonNumber

  const STARTING_CAPACITY: nat := 15
  const ARRAY_MAX_CAPACITY: nat := 122880
  const OBJECT_MAX_CAPACITY: nat := 960
  const MAX_NESTING: nat := 19

  datatype Value =
    | Null
    | Bool(b: bool)
    | Number(x: real)
    | String(text: bytes)
    | Array(arr: Items)
    | Object(obj: Members)

  datatype Member = Member(name: bytes, value: Value)

  /** struct json_array_t; the count is the length of items. */
  datatype Items = Items(items: seq<Value>, capacity: nat)

  /** struct json_object_t; the count is the length of members. */
  datatype Members = Members(members: seq<Member>, capacity: nat)

  const EMPTY_ARRAY := Items([], 0)
  const EMPTY_OBJECT := Members([], 0)

  // ------------------------------------------------------------------ storage

  function Grown(capacity: nat): nat
  {
    if capacity * 2 > STARTING_CAPACITY then capacity * 2 else STARTING_CAPACITY
  }

  /** json_object_nget_value: the index of the first member with that name. */
  function Find(ms: seq<Member>, name: bytes): (r: Option<nat>)
    ensures r.Some? ==> r.value < |ms|
  {
    if ms == [] then None
    else if ms[0].name == name then Some(0)
    else match Find(ms[1..], name)
         case None => None
         case Some(i) => Some(i + 1)
  }

  function Get(ms: seq<Member>, name: bytes): Option<Value>
  {
    var i := Find(ms, name);
    if i.Some? then Some(ms[i.value].value) else None
  }

  /** json_object_add */
  function Add(o: Members, name: bytes, v: Value): Option<Members>
  {
    if Get(o.members, name).Some? then None
    else if |o.members| < o.capacity then Some(Members(o.members + [Member(name, v)], o.capacity))
    else if Grown(o.capacity) > OBJECT_MAX_CAPACITY then None
    else Some(Members(o.members + [Member(name, v)], Grown(o.capacity)))
  }

  /** json_object_set_value */
  function Set(o: Members, name: bytes, v: Value): Option<Members>
  {
    var i := Find(o.members, name);
    if i.Some? then Some(Members(o.members[i.value := Member(name, v)], o.capacity)) else Add(o, name, v)
  }

  /** json_object_remove: the last member takes the place of the removed one. */
  function Remove(o: Members, name: bytes): Option<Members>
  {
    var i := Find(o.members, name);
    if i.None? then None
    else
      var last := |o.members| - 1;
      Some(Members(o.members[i.value := o.members[last]][..last], o.capacity))
  }

  /** json_array_add */
  function Append(a: Items, v: Value): Option<Items>
  {
    if |a.items| < a.capacity then Some(Items(a.items + [v], a.capacity))
    else if Grown(a.capacity) > ARRAY_MAX_CAPACITY then None
    else Some(Items(a.items + [v], Grown(a.capacity)))
  }

  ghost predicate DistinctNames(ms: seq<Member>)
  {
    forall i, j | 0 <= i < j < |ms| :: ms[i].name != ms[j].name
  }

  /** What every operation keeps true of one object. */
  ghost predicate ValidObject(o: Members)
  {
    |o.members| <= o.capacity <= OBJECT_MAX_CAPACITY && DistinctNames(o.members)
  }

  ghost predicate ValidArray(a: Items)
  {
    |a.items| <= a.capacity <= ARRAY_MAX_CAPACITY
  }

  /** A value as the library builds it: valid objects and arrays, and C strings, at every level. */
  ghost predicate Valid(v: Value)
  {
    match v
    case String(text) => NulFree(text)
    case Array(a) => ValidArray(a) && forall i | 0 <= i < |a.items| :: Valid(a.items[i])
    case Object(o) =>
      && ValidObject(o)
      && forall i | 0 <= i < |o.members| :: NulFree(o.members[i].name) && Valid(o.members[i].value)
    case _ => true
  }

  // ------------------------------------------------------------------ lookup

  lemma {:induction false} FindFirst(ms: seq<Member>, name: bytes)
    ensures match Find(ms, name)
            case None => forall j | 0 <= j < |ms| :: ms[j].name != name
            case Some(i) => ms[i].name == name && forall j | 0 <= j < i :: ms[j].name != name
  {
    if ms != [] && ms[0].name != name {
      FindFirst(ms[1..], name);
      assert forall j | 1 <= j < |ms| :: ms[j] == ms[1..][j - 1];
    }
  }

  /** With distinct names, lookup by name agrees with the value at that index. */
  lemma FindDistinct(ms: seq<Member>, i: nat)
    requires DistinctNames(ms) && i < |ms|
    ensures Find(ms, ms[i].name) == Some(i)
  {
    FindFirst(ms, ms[i].name);
  }

  /** Lookup depends only on where a name first occurs. */
  lemma FindIs(ms: seq<Member>, name: bytes, i: nat)
    requires i < |ms| && ms[i].name == name && forall j | 0 <= j < i :: ms[j].name != name
    ensures Find(ms, name) == Some(i)
  {
    FindFirst(ms, name);
  }

  lemma FindNone(ms: seq<Member>, name: bytes)
    requires forall j | 0 <= j < |ms| :: ms[j].name != name
    ensures Find(ms, name) == None
  {
    FindFirst(ms, name);
  }

  // ------------------------------------------------------------------ what the operations keep and change

  /** After a successful add the new name reads as the new value, every other name as before. */
  lemma AddLookup(o: Members, name: bytes, v: Value, other: bytes)
    requires Add(o, name, v).Some?
    ensures var r := Add(o, name, v).value;
            Get(r.members, other) == if other == name then Some(v) else Get(o.members, other)
  {
    var ms := o.members;
    var r := Add(o, name, v).value.members;
    FindFirst(ms, name);
    FindFirst(ms, other);
    var i := Find(ms, other);
    if other == name {
      FindIs(r, other, |ms|);
    } else if i.Some? {
      FindIs(r, other, i.value);
    } else {
      FindNone(r, other);
    }
  }

  lemma AddKeepsValid(o: Members, name: bytes, v: Value)
    requires ValidObject(o) && Add(o, name, v).Some?
    ensures ValidObject(Add(o, name, v).value)
  {
    FindFirst(o.members, name);
  }

  lemma SetLookup(o: Members, name: bytes, v: Value, other: bytes)
    requires Set(o, name, v).Some?
    ensures var r := Set(o, name, v).value;
            Get(r.members, other) == if other == name then Some(v) else Get(o.members, other)
  {
    var ms := o.members;
    var i := Find(ms, name);
    if i.None? {
      AddLookup(o, name, v, other);
    } else {
      var r := Set(o, name, v).value.members;
      FindFirst(ms, name);
      FindFirst(ms, other);
      assert forall j | 0 <= j < |ms| :: r[j].name == ms[j].name;
      if Find(ms, other).Some? {
        FindIs(r, other, Find(ms, other).value);
      } else {
        FindNone(r, other);
      }
    }
  }

  lemma SetKeepsValid(o: Members, name: bytes, v: Value)
    requires ValidObject(o) && Set(o, name, v).Some?
    ensures ValidObject(Set(o, name, v).value)
  {
    FindFirst(o.members, name);
    if Find(o.members, name).None? {
      AddKeepsValid(o, name, v);
    }
  }

  /** Removing a name leaves every other name as it was, although the last member has moved. */
  lemma RemoveLookup(o: Members, name: bytes, other: bytes)
    requires DistinctNames(o.members) && Remove(o, name).Some?
    ensures var r := Remove(o, name).value;
            Get(r.members, other) == if other == name then None else Get(o.members, other)
  {
    var ms := o.members;
    var r := Remove(o, name).value.members;
    var i, last := Find(ms, name).value, |ms| - 1;
    FindFirst(ms, name);
    FindFirst(ms, other);
    RemoveKeepsDistinct(o, name);
    assert forall j | 0 <= j < last :: r[j] == if j == i then ms[last] else ms[j];
    if other == name || Find(ms, other).None? {
      FindNone(r, other);
    } else {
      var k := Find(ms, other).value;
      var at := if k == last then i else k;
      assert r[at] == ms[k];
      FindDistinct(r, at);
    }
  }

  lemma RemoveKeepsDistinct(o: Members, name: bytes)
    requires DistinctNames(o.members) && Remove(o, name).Some?
    ensures DistinctNames(Remove(o, name).value.members)
  {
    var ms := o.members;
    var r := Remove(o, name).value.members;
    var i, last := Find(ms, name).value, |ms| - 1;
    assert forall j | 0 <= j < last :: r[j] == if j == i then ms[last] else ms[j];
  }

  // ------------------------------------------------------------------ storage that starts empty

  /** Doubling from this capacity ends exactly at the maximum. */
  predicate Untrimmed(capacity: nat, max: nat)
    decreases max - capacity
  {
    capacity == max || (capacity < max && Grown(capacity) > capacity && Untrimmed(Grown(capacity), max))
  }

  lemma EmptyUntrimmed()
    ensures Untrimmed(0, OBJECT_MAX_CAPACITY)
    ensures Untrimmed(0, ARRAY_MAX_CAPACITY)
  {
    var m := OBJECT_MAX_CAPACITY;
    assert Untrimmed(240, m) && Untrimmed(60, m) && Untrimmed(15, m);
    var n := ARRAY_MAX_CAPACITY;
    assert Untrimmed(30720, n) && Untrimmed(7680, n) && Untrimmed(1920, n) && Untrimmed(480, n)
           && Untrimmed(120, n) && Untrimmed(30, n);
  }

  /** An array that has only ever grown takes elements up to its maximum, and no more. */
  lemma AppendUntilFull(a: Items, v: Value)
    requires |a.items| <= a.capacity && Untrimmed(a.capacity, ARRAY_MAX_CAPACITY)
    ensures Append(a, v).Some? <==> |a.items| < ARRAY_MAX_CAPACITY
    ensures Append(a, v).Some? ==>
              var b := Append(a, v).value;
              b.items == a.items + [v] && |b.items| <= b.capacity && Untrimmed(b.capacity, ARRAY_MAX_CAPACITY)
  {
  }

  /** Likewise an object, for names it does not hold yet. */
  lemma AddUntilFull(o: Members, name: bytes, v: Value)
    requires |o.members| <= o.capacity && Untrimmed(o.capacity, OBJECT_MAX_CAPACITY)
    requires Get(o.members, name).None?
    ensures Add(o, name, v).Some? <==> |o.members| < OBJECT_MAX_CAPACITY
    ensures Add(o, name, v).Some? ==>
              var p := Add(o, name, v).value;
              p.members == o.members + [Member(name, v)] && |p.members| <= p.capacity
                  && Untrimmed(p.capacity, OBJECT_MAX_CAPACITY)
  {
  }

  // ------------------------------------------------------------------ nesting and reading back

  function Max(a: nat, b: nat): nat { if a > b then a else b }

  /** How far below v the deepest value is. */
  function Depth(v: Value): nat
    decreases v, 1
  {
    match v
    case Array(a) => ItemsDepth(a.items)
    case Object(o) => MembersDepth(o.members)
    case _ => 0
  }

  function ItemsDepth(items: seq<Value>): nat
    decreases items, 0
  {
    if items == [] then 0 else Max(1 + Depth(items[0]), ItemsDepth(items[1..]))
  }

  function MembersDepth(ms: seq<Member>): nat
    decreases ms, 0
  {
    if ms == [] then 0 else Max(1 + Depth(ms[0].value), MembersDepth(ms[1..]))
  }

  /** What a value reads back as: the printed numbers, and storage trimmed to what it holds. */
  function Reparsed(v: Value): Value
    decreases v, 1
  {
    match v
    case Number(x) => Number(Printed(x))
    case Array(a) => Array(Items(ReparsedItems(a.items), |a.items|))
    case Object(o) => Object(Members(ReparsedMembers(o.members), |o.members|))
    case _ => v
  }

  function ReparsedItems(items: seq<Value>): (r: seq<Value>)
    ensures |r| == |items|
    decreases items, 0
  {
    if items == [] then [] else [Reparsed(items[0])] + ReparsedItems(items[1..])
  }

  function ReparsedMembers(ms: seq<Member>): (r: seq<Member>)
    ensures |r| == |ms|
    decreases ms, 0
  {
    if ms == [] then [] else [Member(ms[0].name, Reparsed(ms[0].value))] + ReparsedMembers(ms[1..])
  }
}
