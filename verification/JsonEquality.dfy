/**
 Structural equality, which ignores the order of members, and deep copy.
 */
module JsonEquality {
  import opened Bytes
  import opened JsonNumber
  import opened JsonValue
  import opened JsonRoundTrip

  predicate Close(x: real, y: real) { -0.000001 < x - y < 0.000001 }

  /** json_value_equals: only the keys of the left operand are walked. */
  predicate Equals(a: Value, b: Value)
    decreases a
  {
    match a
    case Null => b.Null?
    case Bool(x) => b.Bool? && x == b.b
    case Number(x) => b.Number? && Close(x, b.x)
    case String(s) => b.String? && s == b.text
    case Array(xs) =>
      && b.Array? && |xs.items| == |b.arr.items|
      && forall i | 0 <= i < |xs.items| :: Equals(xs.items[i], b.arr.items[i])
    case Object(o) =>
      && b.Object? && |o.members| == |b.obj.members|
      && forall i | 0 <= i < |o.members| ::
           Get(b.obj.members, o.members[i].name).Some?
           && Equals(o.members[i].value, Get(b.obj.members, o.members[i].name).value)
  }

  // ------------------------------------------------------------------ what a value denotes

  /** Values without storage: an object is a map from names. */
  datatype Tree =
    | NullTree
    | BoolTree(b: bool)
    | NumberTree(x: real)
    | StringTree(text: bytes)
    | ArrayTree(items: seq<Tree>)
    | ObjectTree(m: map<bytes, Tree>)

  ghost function Denote(v: Value): Tree
    decreases v, 1
  {
    match v
    case Null => NullTree
    case Bool(b) => BoolTree(b)
    case Number(x) => NumberTree(x)
    case String(s) => StringTree(s)
    case Array(a) => ArrayTree(DenoteItems(a.items))
    case Object(o) => ObjectTree(DenoteMembers(o.members))
  }

  ghost function DenoteItems(items: seq<Value>): (r: seq<Tree>)
    ensures |r| == |items|
    decreases items, 0
  {
    if items == [] then [] else [Denote(items[0])] + DenoteItems(items[1..])
  }

  ghost function DenoteMembers(ms: seq<Member>): map<bytes, Tree>
    decreases ms, 0
  {
    if ms == [] then map[] else DenoteMembers(ms[1..])[ms[0].name := Denote(ms[0].value)]
  }

  lemma {:induction false} DenoteItemAt(items: seq<Value>, i: nat)
    requires i < |items|
    ensures DenoteItems(items)[i] == Denote(items[i])
  {
    if i > 0 {
      DenoteItemAt(items[1..], i - 1);
    }
  }

  lemma {:induction false} DenoteLookup(ms: seq<Member>, n: bytes)
    ensures n in DenoteMembers(ms) <==> Get(ms, n).Some?
    ensures n in DenoteMembers(ms) ==> DenoteMembers(ms)[n] == Denote(Get(ms, n).value)
  {
    if ms != [] {
      DenoteLookup(ms[1..], n);
    }
  }

  lemma {:induction false} DenoteSize(ms: seq<Member>)
    requires DistinctNames(ms)
    ensures |DenoteMembers(ms)| == |ms|
  {
    if ms != [] {
      assert forall i | 0 <= i < |ms| - 1 :: ms[1..][i] == ms[i + 1];
      DenoteSize(ms[1..]);
      FindNone(ms[1..], ms[0].name);
      DenoteLookup(ms[1..], ms[0].name);
    }
  }

  // ------------------------------------------------------------------ the pigeonhole

  lemma SubsetOfSameSize<T>(a: set<T>, b: set<T>)
    requires a <= b && |a| == |b|
    ensures a == b
  {
    if x :| x in b && x !in a {
      assert a <= b - {x};
      CardinalityOfSubset(a, b - {x});
    }
  }

  lemma {:induction false} CardinalityOfSubset<T>(a: set<T>, b: set<T>)
    requires a <= b
    ensures |a| <= |b|
    decreases a
  {
    if x :| x in a {
      CardinalityOfSubset(a - {x}, b - {x});
    }
  }

  /** Distinct names, as many on the right as on the left, each left one on the right: the same names. */
  lemma SameNames(a: seq<Member>, b: seq<Member>)
    requires DistinctNames(a) && DistinctNames(b) && |a| == |b|
    requires forall i | 0 <= i < |a| :: Get(b, a[i].name).Some?
    ensures forall n :: Get(a, n).Some? <==> Get(b, n).Some?
  {
    var ka, kb := DenoteMembers(a).Keys, DenoteMembers(b).Keys;
    DenoteSize(a);
    DenoteSize(b);
    forall n | n in ka ensures n in kb {
      DenoteLookup(a, n);
      FindFirst(a, n);
      assert a[Find(a, n).value].name == n;
      DenoteLookup(b, n);
    }
    SubsetOfSameSize(ka, kb);
    forall n ensures Get(a, n).Some? <==> Get(b, n).Some? {
      DenoteLookup(a, n);
      DenoteLookup(b, n);
      assert n in ka <==> n in kb;
    }
  }

  // ------------------------------------------------------------------ laws

  lemma {:induction false} Reflexive(v: Value)
    requires Valid(v)
    ensures Equals(v, v)
  {
    match v
    case Array(a) =>
      forall i | 0 <= i < |a.items| ensures Equals(a.items[i], a.items[i]) {
        Reflexive(a.items[i]);
      }
    case Object(o) =>
      forall i | 0 <= i < |o.members|
        ensures Get(o.members, o.members[i].name) == Some(o.members[i].value)
                && Equals(o.members[i].value, o.members[i].value)
      {
        FindDistinct(o.members, i);
        Reflexive(o.members[i].value);
      }
    case _ =>
  }

  /** Symmetric, although only the left operand's keys are walked. */
  lemma {:induction false} Symmetric(a: Value, b: Value)
    requires Valid(a) && Valid(b) && Equals(a, b)
    ensures Equals(b, a)
    decreases a
  {
    match a
    case Array(xs) =>
      forall i | 0 <= i < |xs.items| ensures Equals(b.arr.items[i], xs.items[i]) {
        Symmetric(xs.items[i], b.arr.items[i]);
      }
    case Object(o) =>
      var ms, ns := o.members, b.obj.members;
      SameNames(ms, ns);
      forall j | 0 <= j < |ns| ensures Get(ms, ns[j].name).Some? && Equals(ns[j].value, Get(ms, ns[j].name).value) {
        FindDistinct(ns, j);
        assert Get(ns, ns[j].name).Some?;
        var i := Find(ms, ns[j].name).value;
        FindFirst(ms, ns[j].name);
        assert ms[i].name == ns[j].name;
        Symmetric(ms[i].value, ns[j].value);
      }
    case _ =>
  }

  // ------------------------------------------------------------------ what equality is

  /** Maps with the same keys and sequences of the same length, numbers within the tolerance. */
  ghost predicate Near(t: Tree, u: Tree)
    decreases t
  {
    match t
    case NumberTree(x) => u.NumberTree? && Close(x, u.x)
    case ArrayTree(ts) =>
      u.ArrayTree? && |ts| == |u.items| && forall i | 0 <= i < |ts| :: Near(ts[i], u.items[i])
    case ObjectTree(m) =>
      u.ObjectTree? && m.Keys == u.m.Keys && forall n | n in m :: Near(m[n], u.m[n])
    case _ => u == t
  }

  /** On all values: equality is nearness of what they denote. */
  lemma {:induction false} EqualsIsNear(a: Value, b: Value)
    requires Valid(a) && Valid(b)
    ensures Equals(a, b) <==> Near(Denote(a), Denote(b))
    decreases a, 1
  {
    match a
    case Array(xs) =>
      if b.Array? && |xs.items| == |b.arr.items| {
        forall i | 0 <= i < |xs.items|
          ensures DenoteItems(xs.items)[i] == Denote(xs.items[i])
          ensures DenoteItems(b.arr.items)[i] == Denote(b.arr.items[i])
          ensures Equals(xs.items[i], b.arr.items[i]) <==> Near(Denote(xs.items[i]), Denote(b.arr.items[i]))
        {
          DenoteItemAt(xs.items, i);
          DenoteItemAt(b.arr.items, i);
          EqualsIsNear(xs.items[i], b.arr.items[i]);
        }
      }
    case Object(o) =>
      if b.Object? {
        ObjectsAreNear(o, b.obj);
      }
    case _ =>
  }

  /** Each left name is on the right, with a near value. */
  ghost predicate MembersNear(ms: seq<Member>, ns: seq<Member>)
  {
    forall i | 0 <= i < |ms| ::
      Get(ns, ms[i].name).Some? && Near(Denote(ms[i].value), Denote(Get(ns, ms[i].name).value))
  }

  lemma {:induction false} ObjectsAreNear(o: Members, p: Members)
    requires Valid(Object(o)) && Valid(Object(p))
    ensures Equals(Object(o), Object(p)) <==> Near(Denote(Object(o)), Denote(Object(p)))
    decreases Object(o), 0
  {
    var ms, ns := o.members, p.members;
    forall i | 0 <= i < |ms| && Get(ns, ms[i].name).Some?
      ensures Equals(ms[i].value, Get(ns, ms[i].name).value)
         <==> Near(Denote(ms[i].value), Denote(Get(ns, ms[i].name).value))
    {
      EqualsIsNear(ms[i].value, Get(ns, ms[i].name).value);
    }
    assert Equals(Object(o), Object(p)) <==> |ms| == |ns| && MembersNear(ms, ns);
    if |ms| == |ns| && MembersNear(ms, ns) {
      NearMaps(ms, ns);
    } else if Near(ObjectTree(DenoteMembers(ms)), ObjectTree(DenoteMembers(ns))) {
      NearMembers(ms, ns);
      assert false;
    }
  }

  lemma NearMaps(ms: seq<Member>, ns: seq<Member>)
    requires DistinctNames(ms) && DistinctNames(ns) && |ms| == |ns| && MembersNear(ms, ns)
    ensures Near(ObjectTree(DenoteMembers(ms)), ObjectTree(DenoteMembers(ns)))
  {
    var m, k := DenoteMembers(ms), DenoteMembers(ns);
    SameNames(ms, ns);
    forall n ensures n in m.Keys <==> n in k.Keys {
      DenoteLookup(ms, n);
      DenoteLookup(ns, n);
    }
    assert m.Keys == k.Keys;
    forall n | n in m ensures Near(m[n], k[n]) {
      DenoteLookup(ms, n);
      DenoteLookup(ns, n);
      FindFirst(ms, n);
      assert ms[Find(ms, n).value].name == n;
    }
  }

  lemma NearMembers(ms: seq<Member>, ns: seq<Member>)
    requires DistinctNames(ms) && DistinctNames(ns)
             && Near(ObjectTree(DenoteMembers(ms)), ObjectTree(DenoteMembers(ns)))
    ensures |ms| == |ns| && MembersNear(ms, ns)
  {
    var m, k := DenoteMembers(ms), DenoteMembers(ns);
    DenoteSize(ms);
    DenoteSize(ns);
    assert |m| == |m.Keys| && |k| == |k.Keys|;
    forall i | 0 <= i < |ms|
      ensures Get(ns, ms[i].name).Some? && Near(Denote(ms[i].value), Denote(Get(ns, ms[i].name).value))
    {
      FindDistinct(ms, i);
      DenoteLookup(ms, ms[i].name);
      DenoteLookup(ns, ms[i].name);
      assert ms[i].name in m.Keys;
    }
  }

  // ------------------------------------------------------------------ when equality is transitive

  /** Numbers that the same path leads to on both sides are within the tolerance; nothing else is compared. */
  ghost predicate NumbersClose(t: Tree, u: Tree)
    decreases t
  {
    match t
    case NumberTree(x) => u.NumberTree? ==> Close(x, u.x)
    case ArrayTree(ts) =>
      u.ArrayTree? ==> forall i | 0 <= i < |ts| && i < |u.items| :: NumbersClose(ts[i], u.items[i])
    case ObjectTree(m) => u.ObjectTree? ==> forall n | n in m && n in u.m :: NumbersClose(m[n], u.m[n])
    case _ => true
  }

  /** Equal but for the values of numbers. */
  ghost predicate SameShape(t: Tree, u: Tree)
    decreases t
  {
    match t
    case NumberTree(_) => u.NumberTree?
    case ArrayTree(ts) =>
      u.ArrayTree? && |ts| == |u.items| && forall i | 0 <= i < |ts| :: SameShape(ts[i], u.items[i])
    case ObjectTree(m) =>
      u.ObjectTree? && m.Keys == u.m.Keys && forall n | n in m :: SameShape(m[n], u.m[n])
    case _ => u == t
  }

  lemma {:induction false} NearIsShapeAndNumbers(t: Tree, u: Tree)
    ensures Near(t, u) <==> SameShape(t, u) && NumbersClose(t, u)
    decreases t
  {
    match t
    case ArrayTree(ts) =>
      if u.ArrayTree? && |ts| == |u.items| {
        forall i | 0 <= i < |ts|
          ensures Near(ts[i], u.items[i]) <==> SameShape(ts[i], u.items[i]) && NumbersClose(ts[i], u.items[i])
        {
          NearIsShapeAndNumbers(ts[i], u.items[i]);
        }
      }
    case ObjectTree(m) =>
      if u.ObjectTree? && m.Keys == u.m.Keys {
        forall n | n in m ensures Near(m[n], u.m[n]) <==> SameShape(m[n], u.m[n]) && NumbersClose(m[n], u.m[n]) {
          NearIsShapeAndNumbers(m[n], u.m[n]);
        }
        assert forall n | n in m :: n in u.m;
      }
    case _ =>
  }

  lemma {:induction false} ShapeIsTransitive(t: Tree, u: Tree, v: Tree)
    requires SameShape(t, u) && SameShape(u, v)
    ensures SameShape(t, v)
    decreases t
  {
    match t
    case ArrayTree(ts) =>
      forall i | 0 <= i < |ts| ensures SameShape(ts[i], v.items[i]) {
        ShapeIsTransitive(ts[i], u.items[i], v.items[i]);
      }
    case ObjectTree(m) =>
      forall n | n in m ensures SameShape(m[n], v.m[n]) {
        assert n in u.m.Keys;
        ShapeIsTransitive(m[n], u.m[n], v.m[n]);
      }
    case _ =>
  }

  /**
   Names, strings and structure always compose: two equal steps make an equal one exactly when
   the numbers at the two ends are close.
   */
  lemma TransitiveExactly(a: Value, b: Value, c: Value)
    requires Valid(a) && Valid(b) && Valid(c) && Equals(a, b) && Equals(b, c)
    ensures Equals(a, c) <==> NumbersClose(Denote(a), Denote(c))
  {
    hide Valid, Equals, Denote;
    EqualsIsNear(a, b);
    EqualsIsNear(b, c);
    EqualsIsNear(a, c);
    NearIsShapeAndNumbers(Denote(a), Denote(b));
    NearIsShapeAndNumbers(Denote(b), Denote(c));
    NearIsShapeAndNumbers(Denote(a), Denote(c));
    ShapeIsTransitive(Denote(a), Denote(b), Denote(c));
  }

  // ------------------------------------------------------------------ whole millionths

  lemma CloseMillionths(x: real, y: real)
    requires IsInteger(x * 1000000.0) && IsInteger(y * 1000000.0) && Close(x, y)
    ensures x == y
  {
    var k, n := (x * 1000000.0).Floor, (y * 1000000.0).Floor;
    assert -1.0 < k as real - n as real < 1.0;
    assert k == n;
  }

  ghost predicate WholeMillionths(t: Tree)
  {
    match t
    case NumberTree(x) => IsInteger(x * 1000000.0)
    case ArrayTree(ts) => forall i | 0 <= i < |ts| :: WholeMillionths(ts[i])
    case ObjectTree(m) => forall n | n in m :: WholeMillionths(m[n])
    case _ => true
  }

  lemma {:induction false} DenotesWhole(v: Value)
    requires ExactNumbers(v)
    ensures WholeMillionths(Denote(v))
  {
    match v
    case Array(a) =>
      forall i | 0 <= i < |a.items| ensures WholeMillionths(DenoteItems(a.items)[i]) {
        DenoteItemAt(a.items, i);
        DenotesWhole(a.items[i]);
      }
    case Object(o) =>
      var m := DenoteMembers(o.members);
      forall n | n in m ensures WholeMillionths(m[n]) {
        DenoteLookup(o.members, n);
        DenotesWhole(o.members[Find(o.members, n).value].value);
      }
    case _ =>
  }

  lemma {:induction false} NearMillionths(t: Tree, u: Tree)
    requires WholeMillionths(t) && WholeMillionths(u)
    ensures Near(t, u) <==> t == u
    decreases t
  {
    match t
    case NumberTree(x) =>
      if u.NumberTree? && Close(x, u.x) {
        CloseMillionths(x, u.x);
      }
    case ArrayTree(ts) =>
      if u.ArrayTree? && |ts| == |u.items| {
        forall i | 0 <= i < |ts| ensures Near(ts[i], u.items[i]) <==> ts[i] == u.items[i] {
          NearMillionths(ts[i], u.items[i]);
        }
        assert ts == u.items <==> forall i | 0 <= i < |ts| :: ts[i] == u.items[i];
      }
    case ObjectTree(m) =>
      if u.ObjectTree? && m.Keys == u.m.Keys {
        forall n | n in m ensures Near(m[n], u.m[n]) <==> m[n] == u.m[n] {
          assert n in u.m.Keys;
          NearMillionths(m[n], u.m[n]);
        }
        assert m == u.m <==> forall n | n in m :: m[n] == u.m[n];
      }
    case _ =>
  }

  /** With numbers that are whole millionths, equality is equality of what the values denote. */
  lemma EqualsIsSameDenotation(a: Value, b: Value)
    requires Valid(a) && Valid(b) && ExactNumbers(a) && ExactNumbers(b)
    ensures Equals(a, b) <==> Denote(a) == Denote(b)
  {
    hide Valid, Equals, Denote, ExactNumbers;
    EqualsIsNear(a, b);
    DenotesWhole(a);
    DenotesWhole(b);
    NearMillionths(Denote(a), Denote(b));
  }

  /** On arbitrary numbers equality is not transitive, since the tolerance adds up; see TransitiveExactly. */
  lemma NotTransitive()
    ensures var a, b, c := Number(0.0), Number(0.0000006), Number(0.0000012);
            Equals(a, b) && Equals(b, c) && !Equals(a, c)
  {
  }

  /** Values that read the same in the same order are equal. */
  lemma {:induction false} SameTreeEquals(v: Value, w: Value)
    requires Valid(v) && SameTree(v, w)
    ensures Equals(v, w)
    decreases v
  {
    match v
    case Array(a) =>
      forall i | 0 <= i < |a.items| ensures Equals(a.items[i], w.arr.items[i]) {
        SameTreeEquals(a.items[i], w.arr.items[i]);
      }
    case Object(o) =>
      var ms, ns := o.members, w.obj.members;
      assert forall i | 0 <= i < |ms| :: ms[i].name == ns[i].name;
      forall i | 0 <= i < |ms| ensures Get(ns, ms[i].name) == Some(ns[i].value) && Equals(ms[i].value, ns[i].value) {
        FindDistinct(ns, i);
        SameTreeEquals(ms[i].value, ns[i].value);
      }
    case _ =>
  }

  // ------------------------------------------------------------------ deep copy

  /** json_value_deep_copy never fails on a value the library can build, and copies it in order. */
  method DeepCopy(v: Value) returns (r: Option<Value>)
    requires Valid(v)
    ensures r.Some? && Valid(r.value) && SameTree(v, r.value)
    decreases v, 1
  {
    match v
    case Array(a) => r := CopyArray(a);
    case Object(o) => r := CopyObject(o);
    case _ => r := Some(v);
  }

  method CopyArray(a: Items) returns (r: Option<Value>)
    requires Valid(Array(a))
    ensures r.Some? && Valid(r.value) && SameTree(Array(a), r.value)
    decreases a, 0
  {
    var b := EMPTY_ARRAY;
    EmptyUntrimmed();
    for i := 0 to |a.items|
      invariant |b.items| == i <= b.capacity && Untrimmed(b.capacity, ARRAY_MAX_CAPACITY)
      invariant forall j | 0 <= j < i :: Valid(b.items[j]) && SameTree(a.items[j], b.items[j])
    {
      var copy := DeepCopy(a.items[i]);
      if copy.None? {
        return None;
      }
      AppendUntilFull(b, copy.value);
      var added := Append(b, copy.value);
      if added.None? {
        return None;
      }
      b := added.value;
    }
    UntrimmedBound(b.capacity, ARRAY_MAX_CAPACITY);
    return Some(Array(b));
  }

  lemma UntrimmedBound(capacity: nat, max: nat)
    requires Untrimmed(capacity, max)
    ensures capacity <= max
  {
  }

  /** The first members of an object, copied. */
  ghost predicate Copied(o: Members, p: Members)
  {
    && |p.members| <= |o.members| && |p.members| <= p.capacity && Untrimmed(p.capacity, OBJECT_MAX_CAPACITY)
    && forall j | 0 <= j < |p.members| ::
         p.members[j].name == o.members[j].name && Valid(p.members[j].value)
             && SameTree(o.members[j].value, p.members[j].value)
  }

  lemma CopyFits(o: Members, p: Members, v: Value)
    requires Valid(Object(o)) && Copied(o, p) && |p.members| < |o.members|
    requires var x := o.members[|p.members|].value; Valid(v) && SameTree(x, v)
    ensures var q := Add(p, o.members[|p.members|].name, v);
            q.Some? && Copied(o, q.value) && |q.value.members| == |p.members| + 1
  {
    hide Valid, SameTree, Untrimmed, Add, Find, Get;
    var name := o.members[|p.members|].name;
    assert ValidObject(o) by { ObjectIsValid(o); }
    FindNone(p.members, name);
    NotFound(p.members, name);
    AddUntilFull(p, name, v);
  }

  lemma ObjectIsValid(o: Members)
    requires Valid(Object(o))
    ensures ValidObject(o)
  {
  }

  lemma NotFound(ms: seq<Member>, name: bytes)
    requires Find(ms, name) == None
    ensures Get(ms, name) == None
  {
  }

  lemma CopyDone(o: Members, p: Members)
    requires Valid(Object(o)) && Copied(o, p) && |p.members| == |o.members|
    ensures Valid(Object(p)) && SameTree(Object(o), Object(p))
  {
    UntrimmedBound(p.capacity, OBJECT_MAX_CAPACITY);
  }

  method CopyObject(o: Members) returns (r: Option<Value>)
    requires Valid(Object(o))
    ensures r.Some? && Valid(r.value) && SameTree(Object(o), r.value)
    decreases o, 0
  {
    var p := EMPTY_OBJECT;
    EmptyUntrimmed();
    for i := 0 to |o.members|
      invariant |p.members| == i && Copied(o, p)
    {
      var key := o.members[i].name;
      FindDistinct(o.members, i);
      var value := Get(o.members, key);
      var copy := DeepCopy(value.value);
      if copy.None? {
        return None;
      }
      CopyFits(o, p, copy.value);
      var added := Add(p, key, copy.value);
      if added.None? {
        return None;
      }
      p := added.value;
    }
    CopyDone(o, p);
    return Some(Object(p));
  }
}
