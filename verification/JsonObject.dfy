/**
 The object as the library stores it: two arrays as long as its capacity, updated in place.
 */
module JsonObject {
  import opened Bytes
  import opened JsonValue
  import opened JsonPath

  ghost function Zip(names: seq<bytes>, values: seq<Value>): (r: seq<Member>)
    requires |names| == |values|
    ensures |r| == |names|
  {
    seq(|names|, i requires 0 <= i < |names| => Member(names[i], values[i]))
  }

  /** At every level an object has room for its members. */
  ghost predicate Sized(v: Value)
  {
    v.Object? ==>
          |v.obj.members| <= v.obj.capacity
          && forall i | 0 <= i < |v.obj.members| :: Sized(v.obj.members[i].value)
  }

  lemma AddSized(o: Members, name: bytes, v: Value)
    requires Sized(Object(o)) && Sized(v)
    ensures Add(o, name, v).Some? ==> Sized(Object(Add(o, name, v).value))
    ensures Set(o, name, v).Some? ==> Sized(Object(Set(o, name, v).value))
    ensures Sized(Object(Put(o, name, v)))
  {
  }

  lemma {:induction false} DotSetSized(o: Members, name: bytes, v: Value)
    requires Sized(Object(o)) && Sized(v)
    ensures Sized(Object(DotSet(o, name, v).obj))
    decreases |name|
  {
    hide Sized, Add, Set, Put, Find;
    if !HasDot(name) {
      AddSized(o, name, v);
    } else {
      EmptySized();
      var c := Child(o.members, Head(name));
      if c.Some? {
        ChildSized(o, Head(name));
        DotSetSized(c.value, Rest(name), v);
        AddSized(o, Head(name), Object(DotSet(c.value, Rest(name), v).obj));
      } else {
        AddSized(o, Head(name), Object(EMPTY_OBJECT));
        DotSetSized(EMPTY_OBJECT, Rest(name), v);
        var p := Add(o, Head(name), Object(EMPTY_OBJECT));
        if p.Some? {
          AddSized(p.value, Head(name), Object(DotSet(EMPTY_OBJECT, Rest(name), v).obj));
        }
      }
    }
  }

  lemma EmptySized()
    ensures Sized(Object(EMPTY_OBJECT))
  {
  }

  lemma ChildSized(o: Members, name: bytes)
    requires Sized(Object(o)) && Child(o.members, name).Some?
    ensures Sized(Object(Child(o.members, name).value))
  {
    assert Sized(o.members[Find(o.members, name).value].value);
  }

  /** struct json_object_t: the first count slots of both arrays are in use. */
  class ObjectStore {
    var names: array<bytes>
    var values: array<Value>
    var count: nat

    ghost predicate Parallel()
      reads this
    {
      names.Length == values.Length && count <= names.Length
    }

    ghost function Stored(): Members
      requires Parallel()
      reads this, names, values
    {
      Members(Zip(names[..count], values[..count]), names.Length)
    }

    /** json_object_init */
    constructor ()
      ensures Parallel() && Stored() == EMPTY_OBJECT
      ensures fresh(names) && fresh(values)
    {
      names, values, count := new bytes[0], new Value[0], 0;
    }

    /** The object behind a JSON value. */
    constructor Of(o: Members)
      requires |o.members| <= o.capacity
      ensures Parallel() && Stored() == o
      ensures fresh(names) && fresh(values)
    {
      names := new bytes[o.capacity](i => if 0 <= i < |o.members| then o.members[i].name else []);
      values := new Value[o.capacity](i => if 0 <= i < |o.members| then o.members[i].value else Null);
      count := |o.members|;
      new;
      assert Zip(names[..count], values[..count]) == o.members;
    }

    /** The loop of json_object_nget_value: lengths first, then bytes. */
    method IndexOf(name: bytes) returns (r: Option<nat>)
      requires Parallel()
      ensures r == Find(Stored().members, name)
    {
      ghost var ms := Stored().members;
      var i := 0;
      while i < count
        invariant 0 <= i <= count
        invariant forall j | 0 <= j < i :: ms[j].name != name
      {
        if |names[i]| == |name| && names[i] == name {
          FindIs(ms, name, i);
          return Some(i);
        }
        i := i + 1;
      }
      FindNone(ms, name);
      return None;
    }

    /** json_object_resize: new arrays, to which the members in use are copied. */
    method Resize(newCapacity: nat) returns (ok: bool)
      requires Parallel() && count <= newCapacity
      modifies this`names, this`values
      ensures Parallel() && count == old(count)
      ensures ok <==> newCapacity > 0
      ensures if ok then fresh(names) && fresh(values) else names == old(names) && values == old(values)
      ensures Stored() == if ok then Members(old(Stored()).members, newCapacity) else old(Stored())
    {
      if newCapacity == 0 {
        return false;
      }
      var tempNames := new bytes[newCapacity](i => []);
      var tempValues := new Value[newCapacity](i => Null);
      var i := 0;
      while i < count
        invariant 0 <= i <= count
        invariant forall j | 0 <= j < i :: tempNames[j] == names[j] && tempValues[j] == values[j]
        modifies tempNames, tempValues
      {
        tempNames[i], tempValues[i] := names[i], values[i];
        i := i + 1;
      }
      assert tempNames[..count] == names[..count] && tempValues[..count] == values[..count];
      names, values := tempNames, tempValues;
      return true;
    }

    /** json_object_add: stores behind the last member, inside the arrays. */
    method Add(name: bytes, v: Value) returns (ok: bool)
      requires Parallel()
      modifies this, names, values
      ensures Parallel() && (names == old(names) || fresh(names)) && (values == old(values) || fresh(values))
      ensures ok <==> JsonValue.Add(old(Stored()), name, v).Some?
      ensures Stored() == if ok then JsonValue.Add(old(Stored()), name, v).value else old(Stored())
    {
      ghost var before := Stored();
      var i := IndexOf(name);
      if i.Some? {
        return false;
      }
      if count >= names.Length {
        var newCapacity := Grown(names.Length);
        if newCapacity > OBJECT_MAX_CAPACITY {
          return false;
        }
        var resized := Resize(newCapacity);
      }
      assert Stored().members == before.members;
      names[count], values[count] := name, v;
      count := count + 1;
      assert Zip(names[..count], values[..count]) == before.members + [Member(name, v)];
      return true;
    }

    /** Trimming to the count, as the parser does when it is done. */
    method Trim() returns (ok: bool)
      requires Parallel()
      modifies this`names, this`values
      ensures Parallel() && (names == old(names) || fresh(names)) && (values == old(values) || fresh(values))
      ensures ok <==> old(Stored()).members != []
      ensures Stored() == if ok then Members(old(Stored()).members, |old(Stored()).members|) else old(Stored())
    {
      ok := Resize(count);
    }

    /** Storing through the pointer that a lookup returned. */
    method Replace(name: bytes, v: Value)
      requires Parallel()
      modifies values
      ensures Parallel() && Stored() == Put(old(Stored()), name, v)
    {
      var i := IndexOf(name);
      if i.Some? {
        FindFirst(Stored().members, name);
        values[i.value] := v;
        assert Zip(names[..count], values[..count]) == old(Stored()).members[i.value := Member(name, v)];
      }
    }

    /** json_object_set_value */
    method SetValue(name: bytes, v: Value) returns (ok: bool)
      requires Parallel()
      modifies this, names, values
      ensures Parallel() && (names == old(names) || fresh(names)) && (values == old(values) || fresh(values))
      ensures ok <==> Set(old(Stored()), name, v).Some?
      ensures Stored() == if ok then Set(old(Stored()), name, v).value else old(Stored())
    {
      var i := IndexOf(name);
      if i.Some? {
        FindFirst(Stored().members, name);
        values[i.value] := v;
        assert Zip(names[..count], values[..count]) == old(Stored()).members[i.value := Member(name, v)];
        return true;
      }
      ok := Add(name, v);
    }

    /** json_object_remove */
    method Remove(name: bytes) returns (ok: bool)
      requires Parallel()
      modifies this`count, names, values
      ensures Parallel()
      ensures ok <==> JsonValue.Remove(old(Stored()), name).Some?
      ensures Stored() == if ok then JsonValue.Remove(old(Stored()), name).value else old(Stored())
    {
      ghost var ms := Stored().members;
      var i := IndexOf(name);
      if i.None? {
        return false;
      }
      var last := count - 1;
      if i.value != last {
        names[i.value] := names[last];
        values[i.value] := values[last];
      }
      count := last;
      assert Zip(names[..count], values[..count]) == ms[i.value := ms[last]][..last];
      return true;
    }

    /** json_object_clear keeps the storage. */
    method Clear()
      requires Parallel()
      modifies this`count
      ensures Parallel() && Stored() == Members([], old(Stored()).capacity)
    {
      count := 0;
    }

    /** json_object_dotset_value: descends into, or creates, one object per component. */
    method DotSetValue(name: bytes, v: Value) returns (ok: bool)
      requires Parallel() && Sized(Object(Stored())) && Sized(v)
      modifies this, names, values
      ensures Parallel() && (names == old(names) || fresh(names)) && (values == old(values) || fresh(values))
      ensures Outcome(ok, Stored()) == DotSet(old(Stored()), name, v) && Sized(Object(Stored()))
      decreases |name|
    {
      hide Sized, Find, JsonValue.Add, Put, Zip;
      ghost var before := Stored();
      DotSetSized(before, name, v);
      if !HasDot(name) {
        ok := SetValue(name, v);
        return;
      }
      var head := Head(name);
      var child := ChildOf(head);
      if child == null {
        var added := Add(head, Object(EMPTY_OBJECT));
        if !added {
          return false;
        }
        child := new ObjectStore();
        EmptySized();
      }
      ok := child.DotSetValue(Rest(name), v);
      var c := child.Contents();
      Replace(head, Object(c));
    }

    /** A copy of the object that a name leads to, null if it leads to none. */
    method ChildOf(name: bytes) returns (child: ObjectStore?)
      requires Parallel() && Sized(Object(Stored()))
      ensures child == null <==> Child(Stored().members, name).None?
      ensures child != null ==> fresh(child) && child.Parallel() && fresh(child.names) && fresh(child.values)
      ensures child != null ==> Some(child.Stored()) == Child(Stored().members, name) && Sized(Object(child.Stored()))
    {
      var i := IndexOf(name);
      if i.Some? && values[i.value].Object? {
        ChildSized(Stored(), name);
        child := new ObjectStore.Of(values[i.value].obj);
      } else {
        child := null;
      }
    }

    method Contents() returns (o: Members)
      requires Parallel()
      ensures o == Stored()
    {
      var ns, vs := names[..count], values[..count];
      o := Members(seq(|ns|, i requires 0 <= i < |ns| && |ns| == |vs| => Member(ns[i], vs[i])), names.Length);
    }
  }
}
