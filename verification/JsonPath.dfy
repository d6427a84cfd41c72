/**
 Dotted paths: reading and writing a value several objects deep by a name such as
 "results.17.location". Writing is modelled with the tree it leaves behind even when it
 fails, since intermediate objects are created on the way.
 */
module JsonPath {
  import opened Bytes
  import opened JsonValue

  /** strchr for the first dot; the length of the name when there is none. */
  function DotAt(name: bytes): (k: nat)
    ensures k <= |name|
  {
    if name == [] || name[0] == DOT then 0 else 1 + DotAt(name[1..])
  }

  predicate HasDot(name: bytes) { DotAt(name) < |name| }

  function Head(name: bytes): bytes { name[..DotAt(name)] }

  /** The path behind the first dot. */
  function Rest(name: bytes): (r: bytes)
    requires HasDot(name)
    ensures |r| < |name|
  {
    name[DotAt(name) + 1..]
  }

  /** The members of the object that a name leads to, if it leads to an object. */
  function Child(ms: seq<Member>, name: bytes): Option<Members>
  {
    match Get(ms, name)
    case Some(Object(o)) => Some(o)
    case _ => None
  }

  /** json_object_dotget_value */
  function DotGet(ms: seq<Member>, name: bytes): Option<Value>
    decreases |name|
  {
    if !HasDot(name) then Get(ms, name)
    else
      match Child(ms, Head(name))
      case None => None
      case Some(o) => DotGet(o.members, Rest(name))
  }

  /** The status of a write and the object as the write leaves it. */
  datatype Outcome = Outcome(ok: bool, obj: Members)

  /** Storing through the pointer to the value of a name that is present. */
  function Put(o: Members, name: bytes, v: Value): Members
  {
    match Find(o.members, name)
    case None => o
    case Some(i) => Members(o.members[i := Member(name, v)], o.capacity)
  }

  /** json_object_dotset_value */
  function DotSet(o: Members, name: bytes, v: Value): Outcome
    decreases |name|
  {
    if !HasDot(name) then
      match Set(o, name, v)
      case None => Outcome(false, o)
      case Some(p) => Outcome(true, p)
    else
      match Child(o.members, Head(name))
      case Some(c) =>
        var sub := DotSet(c, Rest(name), v);
        Outcome(sub.ok, Put(o, Head(name), Object(sub.obj)))
      case None =>
        match Add(o, Head(name), Object(EMPTY_OBJECT))
        case None => Outcome(false, o)
        case Some(p) =>
          var sub := DotSet(EMPTY_OBJECT, Rest(name), v);
          Outcome(sub.ok, Put(p, Head(name), Object(sub.obj)))
  }

  // ------------------------------------------------------------------ one level

  lemma PutLookup(o: Members, name: bytes, v: Value, other: bytes)
    requires Get(o.members, name).Some?
    ensures Get(Put(o, name, v).members, other) == if other == name then Some(v) else Get(o.members, other)
  {
    SetLookup(o, name, v, other);
  }

  /** Storing the value that is there already changes nothing. */
  lemma PutSame(o: Members, name: bytes, v: Value)
    requires Get(o.members, name) == Some(v)
    ensures Put(o, name, v) == o
  {
    FindFirst(o.members, name);
  }

  lemma PutTwice(o: Members, name: bytes, v: Value, w: Value)
    requires Get(o.members, name).Some?
    ensures Put(Put(o, name, v), name, w) == Put(o, name, w)
  {
    var i := Find(o.members, name).value;
    var ms := o.members[i := Member(name, v)];
    FindFirst(o.members, name);
    FindIs(ms, name, i);
    assert ms[i := Member(name, w)] == o.members[i := Member(name, w)];
  }

  /** Creating an object and storing through it binds the name once, to the finished object. */
  lemma AddThenPut(o: Members, name: bytes, v: Value, w: Value)
    requires Add(o, name, v).Some?
    ensures Put(Add(o, name, v).value, name, w) == Add(o, name, w).value
  {
    FindFirst(o.members, name);
    var p := Add(o, name, v).value;
    FindIs(p.members, name, |o.members|);
    assert p.members[|o.members| := Member(name, w)] == o.members + [Member(name, w)];
  }

  lemma AddThere(o: Members, name: bytes, v: Value)
    requires Add(o, name, v).Some?
    ensures Get(Add(o, name, v).value.members, name) == Some(v)
  {
    AddLookup(o, name, v, name);
  }

  // ------------------------------------------------------------------ failure

  /** A write into an empty object never fails: there is room and nothing in the way. */
  lemma {:induction false} EmptyAccepts(name: bytes, v: Value)
    ensures DotSet(EMPTY_OBJECT, name, v).ok
    decreases |name|
  {
    if HasDot(name) {
      EmptyAccepts(Rest(name), v);
    }
  }

  /** A failed write leaves the whole tree as it was, although it creates objects on its way. */
  lemma {:induction false} FailedSetChangesNothing(o: Members, name: bytes, v: Value)
    ensures !DotSet(o, name, v).ok ==> DotSet(o, name, v).obj == o
    decreases |name|
  {
    if HasDot(name) {
      match Child(o.members, Head(name))
      case Some(c) =>
        FailedSetChangesNothing(c, Rest(name), v);
        PutSame(o, Head(name), Object(c));
      case None => EmptyAccepts(Rest(name), v);
    }
  }

  /** There is a free slot, or the storage may still grow. */
  predicate HasRoom(o: Members) { |o.members| < o.capacity || Grown(o.capacity) <= OBJECT_MAX_CAPACITY }

  /** The first component that does not lead to an object is a free name in an object with room. */
  predicate Writable(o: Members, name: bytes)
    decreases |name|
  {
    if HasDot(name) && Child(o.members, Head(name)).Some? then Writable(Child(o.members, Head(name)).value, Rest(name))
    else (HasRoom(o) && Get(o.members, Head(name)).None?) || (!HasDot(name) && Get(o.members, name).Some?)
  }

  /** Exactly when a write succeeds, in terms of the tree before it; the value does not matter. */
  lemma {:induction false} SetSucceedsExactly(o: Members, name: bytes, v: Value)
    ensures DotSet(o, name, v).ok <==> Writable(o, name)
    decreases |name|
  {
    if HasDot(name) {
      match Child(o.members, Head(name))
      case Some(c) => SetSucceedsExactly(c, Rest(name), v);
      case None => EmptyAccepts(Rest(name), v);
    } else {
      assert Head(name) == name;
    }
  }

  // ------------------------------------------------------------------ the lens laws

  /** What a successful write leads to can be read back under the same path. */
  lemma {:induction false} SetThenGet(o: Members, name: bytes, v: Value)
    requires DotSet(o, name, v).ok
    ensures DotGet(DotSet(o, name, v).obj.members, name) == Some(v)
    decreases |name|
  {
    if HasDot(name) {
      var h := Head(name);
      match Child(o.members, h)
      case Some(c) =>
        SetThenGet(c, Rest(name), v);
        PutLookup(o, h, Object(DotSet(c, Rest(name), v).obj), h);
      case None =>
        var p, sub := Add(o, h, Object(EMPTY_OBJECT)).value, DotSet(EMPTY_OBJECT, Rest(name), v);
        SetThenGet(EMPTY_OBJECT, Rest(name), v);
        AddThere(o, h, Object(EMPTY_OBJECT));
        PutLookup(p, h, Object(sub.obj), h);
    } else {
      SetLookup(o, name, v, name);
    }
  }

  /** The paths part ways: at some component they name different members. */
  predicate Diverge(p: bytes, q: bytes)
    decreases |p|
  {
    Head(p) != Head(q) || (HasDot(p) && HasDot(q) && Diverge(Rest(p), Rest(q)))
  }

  lemma NothingInEmpty(q: bytes)
    ensures DotGet(EMPTY_OBJECT.members, q) == None
  {
  }

  lemma FirstStep(ms: seq<Member>, ns: seq<Member>, q: bytes)
    requires Get(ms, Head(q)) == Get(ns, Head(q))
    ensures DotGet(ms, q) == DotGet(ns, q)
  {
    assert !HasDot(q) ==> Head(q) == q;
  }

  /** Every path that diverges from the one written reads as before, whether or not the write succeeded. */
  lemma {:induction false} SetElsewhere(o: Members, name: bytes, v: Value, q: bytes)
    requires Diverge(name, q)
    ensures DotGet(DotSet(o, name, v).obj.members, q) == DotGet(o.members, q)
    decreases |name|
  {
    var h, g := Head(name), Head(q);
    if !HasDot(name) {
      assert h == name;
      if Set(o, name, v).Some? {
        SetLookup(o, name, v, g);
        FirstStep(o.members, Set(o, name, v).value.members, q);
      }
    } else {
      match Child(o.members, h)
      case Some(c) =>
        var sub := DotSet(c, Rest(name), v);
        PutLookup(o, h, Object(sub.obj), g);
        if g != h {
          FirstStep(o.members, Put(o, h, Object(sub.obj)).members, q);
        } else {
          SetElsewhere(c, Rest(name), v, Rest(q));
        }
      case None =>
        if Add(o, h, Object(EMPTY_OBJECT)).Some? {
          SetElsewhereFresh(o, name, v, q);
        }
    }
  }

  lemma SetElsewhereFresh(o: Members, name: bytes, v: Value, q: bytes)
    requires Diverge(name, q) && HasDot(name)
    requires Child(o.members, Head(name)).None? && Add(o, Head(name), Object(EMPTY_OBJECT)).Some?
    ensures DotGet(DotSet(o, name, v).obj.members, q) == DotGet(o.members, q)
    decreases |name|, 0
  {
    var h, g := Head(name), Head(q);
    var p, sub := Add(o, h, Object(EMPTY_OBJECT)).value, DotSet(EMPTY_OBJECT, Rest(name), v);
    var r := Put(p, h, Object(sub.obj));
    AddThere(o, h, Object(EMPTY_OBJECT));
    AddLookup(o, h, Object(EMPTY_OBJECT), g);
    PutLookup(p, h, Object(sub.obj), g);
    if g != h {
      FirstStep(o.members, r.members, q);
    } else {
      SetElsewhere(EMPTY_OBJECT, Rest(name), v, Rest(q));
      NothingInEmpty(Rest(q));
    }
  }

  /** Writing a copy of what is already there changes nothing. */
  lemma {:induction false} GetThenSet(o: Members, name: bytes, v: Value)
    requires DotGet(o.members, name) == Some(v)
    ensures DotSet(o, name, v) == Outcome(true, o)
    decreases |name|
  {
    if HasDot(name) {
      var c := Child(o.members, Head(name)).value;
      GetThenSet(c, Rest(name), v);
      PutSame(o, Head(name), Object(c));
    } else {
      PutSame(o, name, v);
    }
  }

  /** Of two successful writes to the same path only the second one shows. */
  lemma {:induction false} SetTwice(o: Members, name: bytes, v: Value, w: Value)
    requires DotSet(o, name, v).ok
    ensures DotSet(DotSet(o, name, v).obj, name, w) == DotSet(o, name, w)
    decreases |name|
  {
    var h := Head(name);
    if !HasDot(name) {
      SetTwiceLast(o, name, v, w);
    } else {
      match Child(o.members, h)
      case Some(c) =>
        var s1 := DotSet(c, Rest(name), v);
        SetTwice(c, Rest(name), v, w);
        PutLookup(o, h, Object(s1.obj), h);
        PutTwice(o, h, Object(s1.obj), Object(DotSet(c, Rest(name), w).obj));
      case None =>
        var p, s1 := Add(o, h, Object(EMPTY_OBJECT)).value, DotSet(EMPTY_OBJECT, Rest(name), v);
        SetTwice(EMPTY_OBJECT, Rest(name), v, w);
        AddThere(o, h, Object(EMPTY_OBJECT));
        PutLookup(p, h, Object(s1.obj), h);
        PutTwice(p, h, Object(s1.obj), Object(DotSet(EMPTY_OBJECT, Rest(name), w).obj));
    }
  }

  lemma SetTwiceLast(o: Members, name: bytes, v: Value, w: Value)
    requires Set(o, name, v).Some?
    ensures Set(Set(o, name, v).value, name, w) == Set(o, name, w)
  {
    SetLookup(o, name, v, name);
    if Find(o.members, name).Some? {
      PutTwice(o, name, v, w);
    } else {
      var p := Set(o, name, v).value;
      FindFirst(o.members, name);
      FindIs(p.members, name, |o.members|);
      assert p.members[|o.members| := Member(name, w)] == o.members + [Member(name, w)];
    }
  }

  // ------------------------------------------------------------------ longer and shorter paths

  lemma {:induction false} DotAtJoined(p: bytes, q: bytes)
    ensures DotAt(p + [DOT] + q) == DotAt(p)
  {
    if p != [] && p[0] != DOT {
      assert (p + [DOT] + q)[1..] == p[1..] + [DOT] + q;
      DotAtJoined(p[1..], q);
    }
  }

  /** Reading p.q is reading q in the object that p leads to. */
  lemma {:induction false} GetJoined(ms: seq<Member>, p: bytes, q: bytes)
    ensures DotGet(ms, p + [DOT] + q) ==
            match DotGet(ms, p) { case Some(Object(o)) => DotGet(o.members, q) case _ => None }
    decreases |p|
  {
    var pq := p + [DOT] + q;
    DotAtJoined(p, q);
    assert Head(pq) == Head(p);
    if HasDot(p) {
      assert Rest(pq) == Rest(p) + [DOT] + q;
      if Child(ms, Head(p)).Some? {
        GetJoined(Child(ms, Head(p)).value.members, Rest(p), q);
      }
    } else {
      assert Head(p) == p && Rest(pq) == q;
    }
  }

  /** Below the path written, reads go into the new value; above it, they find objects that lead there. */
  lemma SetThenGetBelow(o: Members, p: bytes, v: Value, q: bytes)
    requires DotSet(o, p, v).ok
    ensures DotGet(DotSet(o, p, v).obj.members, p + [DOT] + q) == if v.Object? then DotGet(v.obj.members, q) else None
  {
    SetThenGet(o, p, v);
    GetJoined(DotSet(o, p, v).obj.members, p, q);
  }

  lemma SetThenGetAbove(o: Members, p: bytes, v: Value, q: bytes)
    requires DotSet(o, p + [DOT] + q, v).ok
    ensures var above := DotGet(DotSet(o, p + [DOT] + q, v).obj.members, p);
            above.Some? && above.value.Object? && DotGet(above.value.obj.members, q) == Some(v)
  {
    SetThenGet(o, p + [DOT] + q, v);
    GetJoined(DotSet(o, p + [DOT] + q, v).obj.members, p, q);
  }

  // ------------------------------------------------------------------ validity

  lemma NulFreeParts(name: bytes)
    requires NulFree(name)
    ensures NulFree(Head(name)) && (HasDot(name) ==> NulFree(Rest(name)))
  {
  }

  lemma PutKeepsValid(o: Members, name: bytes, v: Value)
    requires Valid(Object(o)) && Valid(v)
    ensures Valid(Object(Put(o, name, v)))
  {
    FindFirst(o.members, name);
    if Find(o.members, name).Some? {
      SetKeepsValid(o, name, v);
    }
  }

  lemma AddKeepsValidTree(o: Members, name: bytes, v: Value)
    requires Valid(Object(o)) && Valid(v) && NulFree(name) && Add(o, name, v).Some?
    ensures Valid(Object(Add(o, name, v).value))
  {
    AddKeepsValid(o, name, v);
  }

  /** Every write keeps names distinct and storage within its cap, at every level of the tree. */
  lemma {:induction false} DotSetKeepsValid(o: Members, name: bytes, v: Value)
    requires Valid(Object(o)) && Valid(v) && NulFree(name)
    ensures Valid(Object(DotSet(o, name, v).obj))
    decreases |name|
  {
    NulFreeParts(name);
    if HasDot(name) {
      match Child(o.members, Head(name))
      case Some(c) =>
        DotSetKeepsValid(c, Rest(name), v);
        PutKeepsValid(o, Head(name), Object(DotSet(c, Rest(name), v).obj));
      case None =>
        if Add(o, Head(name), Object(EMPTY_OBJECT)).Some? {
          AddKeepsValidTree(o, Head(name), Object(EMPTY_OBJECT));
          DotSetKeepsValid(EMPTY_OBJECT, Rest(name), v);
          PutKeepsValid(Add(o, Head(name), Object(EMPTY_OBJECT)).value, Head(name),
              Object(DotSet(EMPTY_OBJECT, Rest(name), v).obj));
        }
    } else {
      PutKeepsValid(o, name, v);
      if Find(o.members, name).None? && Add(o, name, v).Some? {
        AddKeepsValidTree(o, name, v);
      }
    }
  }
}
