/**
 What any sequence of operations makes of an object: finite maps, nested as the objects are.
 */
module JsonMap {
  import opened Bytes
  import opened JsonValue
  import opened JsonPath

  // ------------------------------------------------------------------ nested maps

  /** A value with a map in place of every association list; capacities stay, since they limit growth. */
  datatype Node =
    | Plain(v: Value)
    | Sequence(items: seq<Node>, capacity: nat)
    | Table(m: map<bytes, Node>, capacity: nat)

  ghost function Abstract(v: Value): Node
    decreases v, 1
  {
    match v
    case Array(a) => Sequence(AbstractItems(a.items), a.capacity)
    case Object(o) => Table(AsMap(o.members), o.capacity)
    case _ => Plain(v)
  }

  ghost function AbstractItems(items: seq<Value>): (r: seq<Node>)
    ensures |r| == |items|
    decreases items, 0
  {
    if items == [] then [] else [Abstract(items[0])] + AbstractItems(items[1..])
  }

  ghost function AsMap(ms: seq<Member>): map<bytes, Node>
    decreases ms, 0
  {
    if ms == [] then map[] else AsMap(ms[1..])[ms[0].name := Abstract(ms[0].value)]
  }

  lemma {:induction false} InMap(ms: seq<Member>, n: bytes)
    ensures n in AsMap(ms) <==> Get(ms, n).Some?
    ensures n in AsMap(ms) ==> AsMap(ms)[n] == Abstract(Get(ms, n).value)
  {
    if ms != [] {
      InMap(ms[1..], n);
    }
  }

  ghost function Looked(v: Option<Value>): Option<Node> { if v.Some? then Some(Abstract(v.value)) else None }

  ghost function LookedUp(m: map<bytes, Node>, n: bytes): Option<Node> { if n in m then Some(m[n]) else None }

  /** Maps are equal when every name reads the same. */
  lemma MapFromLookups(ms: seq<Member>, m: map<bytes, Node>)
    requires forall n :: Looked(Get(ms, n)) == LookedUp(m, n)
    ensures AsMap(ms) == m
  {
    hide AsMap, Abstract;
    forall n ensures LookedUp(AsMap(ms), n) == LookedUp(m, n) {
      InMap(ms, n);
    }
    SameLookups(AsMap(ms), m);
  }

  lemma SameLookups(a: map<bytes, Node>, b: map<bytes, Node>)
    requires forall n :: LookedUp(a, n) == LookedUp(b, n)
    ensures a == b
  {
    forall n ensures n in a <==> n in b {
      assert LookedUp(a, n) == LookedUp(b, n);
    }
    forall n | n in a ensures a[n] == b[n] {
      assert LookedUp(a, n) == LookedUp(b, n);
    }
  }

  /** With distinct names the count is the size of the map. */
  lemma {:induction false} CountIsSize(ms: seq<Member>)
    requires DistinctNames(ms)
    ensures |AsMap(ms)| == |ms|
  {
    if ms != [] {
      assert forall i | 0 <= i < |ms| - 1 :: ms[1..][i] == ms[i + 1];
      CountIsSize(ms[1..]);
      FindNone(ms[1..], ms[0].name);
      InMap(ms[1..], ms[0].name);
    }
  }

  // ------------------------------------------------------------------ operations

  datatype Op =
    | OpAdd(name: bytes, v: Value)
    | OpSet(name: bytes, v: Value)
    | OpDotSet(name: bytes, v: Value)
    | OpRemove(name: bytes)
    | OpClear
    | OpTrim

  function OrElse(r: Option<Members>, o: Members): Members { if r.Some? then r.value else o }

  /** An operation on the stored object; one that fails changes nothing. */
  function Apply(o: Members, op: Op): Members
  {
    match op
    case OpAdd(name, v) => OrElse(Add(o, name, v), o)
    case OpSet(name, v) => OrElse(Set(o, name, v), o)
    case OpDotSet(name, v) => DotSet(o, name, v).obj
    case OpRemove(name) => OrElse(Remove(o, name), o)
    case OpClear => Members([], o.capacity)
    case OpTrim => if o.members == [] then o else Members(o.members, |o.members|)
  }

  /** A sequence of them, on any object. */
  function Run(o: Members, ops: seq<Op>): Members
  {
    if ops == [] then o else Apply(Run(o, ops[..|ops| - 1]), ops[|ops| - 1])
  }

  /** Binding a name that is not bound yet, if there is room. */
  function Bind(t: Node, name: bytes, x: Node): (r: Node)
    requires t.Table?
    ensures r.Table?
  {
    if |t.m| < t.capacity then Table(t.m[name := x], t.capacity)
    else if Grown(t.capacity) > OBJECT_MAX_CAPACITY then t
    else Table(t.m[name := x], Grown(t.capacity))
  }

  function Update(t: Node, name: bytes, x: Node): (r: Node)
    requires t.Table?
    ensures r.Table?
  {
    if name in t.m then Table(t.m[name := x], t.capacity) else Bind(t, name, x)
  }

  /** Writing along a path of names, through maps only; a new map is made where there is none. */
  function UpdatePath(t: Node, name: bytes, x: Node): (r: Node)
    requires t.Table?
    ensures r.Table?
    decreases |name|
  {
    if !HasDot(name) then Update(t, name, x)
    else
      var h := Head(name);
      if h !in t.m then Bind(t, h, UpdatePath(Table(map[], 0), Rest(name), x))
      else if t.m[h].Table? then Table(t.m[h := UpdatePath(t.m[h], Rest(name), x)], t.capacity)
      else t
  }

  /** The operation on the map. */
  ghost function ApplyTable(t: Node, op: Op): (r: Node)
    requires t.Table?
    ensures r.Table?
  {
    match op
    case OpAdd(name, v) => if name in t.m then t else Bind(t, name, Abstract(v))
    case OpSet(name, v) => Update(t, name, Abstract(v))
    case OpDotSet(name, v) => UpdatePath(t, name, Abstract(v))
    case OpRemove(name) => Table(t.m - {name}, t.capacity)
    case OpClear => Table(map[], t.capacity)
    case OpTrim => if |t.m| == 0 then t else Table(t.m, |t.m|)
  }

  ghost function RunTable(t: Node, ops: seq<Op>): (r: Node)
    requires t.Table?
    ensures r.Table?
  {
    if ops == [] then t else ApplyTable(RunTable(t, ops[..|ops| - 1]), ops[|ops| - 1])
  }

  // ------------------------------------------------------------------ each operation does to the map what it should

  lemma AddSimulates(o: Members, name: bytes, v: Value)
    requires ValidObject(o)
    ensures var t := Abstract(Object(o));
            Abstract(Object(OrElse(Add(o, name, v), o))) == if name in t.m then t else Bind(t, name, Abstract(v))
  {
    hide AsMap, Find;
    InMap(o.members, name);
    CountIsSize(o.members);
    if Add(o, name, v).Some? {
      var r := Add(o, name, v).value;
      forall n ensures Looked(Get(r.members, n)) == LookedUp(AsMap(o.members)[name := Abstract(v)], n) {
        AddLookup(o, name, v, n);
        InMap(o.members, n);
      }
      MapFromLookups(r.members, AsMap(o.members)[name := Abstract(v)]);
    }
  }

  lemma PutSimulates(o: Members, name: bytes, v: Value)
    requires Get(o.members, name).Some?
    ensures Abstract(Object(Put(o, name, v))) == Table(AsMap(o.members)[name := Abstract(v)], o.capacity)
  {
    hide AsMap, Find;
    var r := Put(o, name, v);
    forall n ensures Looked(Get(r.members, n)) == LookedUp(AsMap(o.members)[name := Abstract(v)], n) {
      PutLookup(o, name, v, n);
      InMap(o.members, n);
    }
    MapFromLookups(r.members, AsMap(o.members)[name := Abstract(v)]);
  }

  lemma SetSimulates(o: Members, name: bytes, v: Value)
    requires ValidObject(o)
    ensures Abstract(Object(OrElse(Set(o, name, v), o))) == Update(Abstract(Object(o)), name, Abstract(v))
  {
    InMap(o.members, name);
    if Find(o.members, name).Some? {
      PutSimulates(o, name, v);
    } else {
      AddSimulates(o, name, v);
    }
  }

  lemma RemoveSimulates(o: Members, name: bytes)
    requires ValidObject(o)
    ensures Abstract(Object(OrElse(Remove(o, name), o))) == Table(AsMap(o.members) - {name}, o.capacity)
  {
    hide AsMap;
    InMap(o.members, name);
    if Remove(o, name).Some? {
      var r := Remove(o, name).value;
      forall n ensures Looked(Get(r.members, n)) == LookedUp(AsMap(o.members) - {name}, n) {
        RemoveLookup(o, name, n);
        InMap(o.members, n);
      }
      MapFromLookups(r.members, AsMap(o.members) - {name});
    } else {
      assert AsMap(o.members) - {name} == AsMap(o.members);
    }
  }

  /** At every level of a path, down to the value. */
  lemma {:induction false} DotSetSimulates(o: Members, name: bytes, v: Value)
    requires Valid(Object(o))
    ensures Abstract(Object(DotSet(o, name, v).obj)) == UpdatePath(Abstract(Object(o)), name, Abstract(v))
    decreases |name|
  {
    hide Find, AsMap, Put, Valid, Add, Set;
    assert ValidObject(o) by { ObjectIsValid(o); }
    var h := Head(name);
    if !HasDot(name) {
      SetSimulates(o, name, v);
    } else if Child(o.members, h).Some? {
      var c := Child(o.members, h).value;
      ChildIsValid(o, h);
      DotSetSimulates(c, Rest(name), v);
      InMap(o.members, h);
      PutSimulates(o, h, Object(DotSet(c, Rest(name), v).obj));
    } else {
      EmptyIsTable();
      DotSetSimulates(EMPTY_OBJECT, Rest(name), v);
      NewChildSimulates(o, name, v);
    }
  }

  /** Where there is no object yet: one is made, or the write fails and nothing changes. */
  lemma NewChildSimulates(o: Members, name: bytes, v: Value)
    requires ValidObject(o) && HasDot(name) && Child(o.members, Head(name)).None?
    requires Abstract(Object(DotSet(EMPTY_OBJECT, Rest(name), v).obj))
             == UpdatePath(Table(map[], 0), Rest(name), Abstract(v))
    ensures Abstract(Object(DotSet(o, name, v).obj)) == UpdatePath(Abstract(Object(o)), name, Abstract(v))
  {
    hide Find, AsMap, Put;
    var h, w := Head(name), Object(DotSet(EMPTY_OBJECT, Rest(name), v).obj);
    InMap(o.members, h);
    AddSimulates(o, h, w);
    if Add(o, h, Object(EMPTY_OBJECT)).Some? {
      AddThenPut(o, h, Object(EMPTY_OBJECT), w);
    }
  }

  lemma ObjectIsValid(o: Members)
    requires Valid(Object(o))
    ensures ValidObject(o)
  {
  }

  lemma ChildIsValid(o: Members, name: bytes)
    requires Valid(Object(o)) && Child(o.members, name).Some?
    ensures Valid(Object(Child(o.members, name).value))
  {
    assert Valid(o.members[Find(o.members, name).value].value);
  }

  lemma EmptyIsTable()
    ensures Valid(Object(EMPTY_OBJECT)) && Abstract(Object(EMPTY_OBJECT)) == Table(map[], 0)
  {
  }

  /** Names and values that the operation brings along are C strings and valid values. */
  ghost predicate ValidOp(op: Op)
  {
    match op
    case OpAdd(name, v) => NulFree(name) && Valid(v)
    case OpSet(name, v) => NulFree(name) && Valid(v)
    case OpDotSet(name, v) => NulFree(name) && Valid(v)
    case _ => true
  }

  /** Every operation does to the nested maps what it is meant to do. */
  lemma ApplySimulates(o: Members, op: Op)
    requires Valid(Object(o))
    ensures Abstract(Object(Apply(o, op))) == ApplyTable(Abstract(Object(o)), op)
  {
    match op
    case OpAdd(name, v) => AddSimulates(o, name, v);
    case OpSet(name, v) => SetSimulates(o, name, v);
    case OpDotSet(name, v) => DotSetSimulates(o, name, v);
    case OpRemove(name) => RemoveSimulates(o, name);
    case OpClear => assert AsMap([]) == map[];
    case OpTrim => CountIsSize(o.members);
  }

  lemma ApplyKeepsValid(o: Members, op: Op)
    requires Valid(Object(o)) && ValidOp(op)
    ensures Valid(Object(Apply(o, op)))
  {
    match op
    case OpAdd(name, v) =>
      if Add(o, name, v).Some? {
        AddKeepsValidTree(o, name, v);
      }
    case OpSet(name, v) =>
      PutKeepsValid(o, name, v);
      if Find(o.members, name).None? && Add(o, name, v).Some? {
        AddKeepsValidTree(o, name, v);
      }
    case OpDotSet(name, v) => DotSetKeepsValid(o, name, v);
    case OpRemove(name) =>
      if Remove(o, name).Some? {
        RemoveKeepsDistinct(o, name);
      }
    case _ =>
  }

  // ------------------------------------------------------------------ runs

  ghost predicate ValidOps(ops: seq<Op>) { forall i | 0 <= i < |ops| :: ValidOp(ops[i]) }

  /**
   After any sequence of operations on any valid object, such as a parsed one: at every level
   names are pairwise distinct, the count is at most the capacity and the capacity at most 960,
   and the object is the nested map that the same operations make of the map it was.
   */
  lemma {:induction false} RunRefinesMap(o: Members, ops: seq<Op>)
    requires Valid(Object(o)) && ValidOps(ops)
    ensures Valid(Object(Run(o, ops)))
    ensures Abstract(Object(Run(o, ops))) == RunTable(Abstract(Object(o)), ops)
    ensures |Run(o, ops).members| == |RunTable(Abstract(Object(o)), ops).m|
  {
    hide Apply, ApplyTable, ValidOp, AsMap;
    if ops != [] {
      var init, op := ops[..|ops| - 1], ops[|ops| - 1];
      RunRefinesMap(o, init);
      ApplyKeepsValid(Run(o, init), op);
      ApplySimulates(Run(o, init), op);
    }
    CountIsSize(Run(o, ops).members);
  }

  /** Adding a new name fails exactly when the object is full and its capacity exceeds 480. */
  lemma AddFailsExactly(o: Members, name: bytes, v: Value)
    requires ValidObject(o) && Get(o.members, name).None?
    ensures Add(o, name, v).None? <==> |o.members| == o.capacity && o.capacity > 480
  {
  }

  /** An object whose storage was never trimmed takes new names until it holds 960 of them. */
  lemma UntrimmedReachesCap(o: Members, ops: seq<Op>, name: bytes, v: Value)
    requires Valid(Object(o)) && Untrimmed(o.capacity, OBJECT_MAX_CAPACITY) && ValidOps(ops)
    requires OpTrim !in ops && Get(Run(o, ops).members, name).None?
    ensures Add(Run(o, ops), name, v).Some? <==> |Run(o, ops).members| < OBJECT_MAX_CAPACITY
  {
    hide Add, Get, Run, ValidOp, RunTable, Abstract;
    RunRefinesMap(o, ops);
    UntrimmedRun(o, ops);
    AddUntilFull(Run(o, ops), name, v);
  }

  lemma {:induction false} UntrimmedRun(o: Members, ops: seq<Op>)
    requires Valid(Object(o)) && Untrimmed(o.capacity, OBJECT_MAX_CAPACITY) && ValidOps(ops) && OpTrim !in ops
    ensures Untrimmed(Run(o, ops).capacity, OBJECT_MAX_CAPACITY)
  {
    hide Apply, ValidOp, RunTable, Abstract;
    if ops != [] {
      var init, op := ops[..|ops| - 1], ops[|ops| - 1];
      UntrimmedRun(o, init);
      RunRefinesMap(o, init);
      assert op in ops;
      CapacityStep(Run(o, init), op);
    }
  }

  /** Operations other than trimming leave the capacity alone or let it grow by one step. */
  lemma CapacityStep(o: Members, op: Op)
    requires ValidObject(o) && op != OpTrim
    ensures Apply(o, op).capacity == o.capacity
            || (|o.members| == o.capacity && Apply(o, op).capacity == Grown(o.capacity) <= OBJECT_MAX_CAPACITY)
  {
    if op.OpDotSet? && HasDot(op.name) {
      var h := Head(op.name);
      if Child(o.members, h).None? && Add(o, h, Object(EMPTY_OBJECT)).Some? {
        AddThenPut(o, h, Object(EMPTY_OBJECT), Object(DotSet(EMPTY_OBJECT, Rest(op.name), op.v).obj));
      }
    }
  }
}
