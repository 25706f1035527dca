/** The chain of global objects: source/runtime/global_destructor_chain.c. */
module DestructorChain {

  /** An object with its destructor, which may register further objects while it runs. */
  datatype Object = Object(ptr: int, dtor: int, registers: seq<Object>)

  /** The call of a destructor on an object. */
  datatype Call = Call(dtor: int, ptr: int, flag: int)

  /** The call that destroys an object: its own destructor, on it, with the flag -1. */
  function CallOf(o: Object): Call {
    Call(o.dtor, o.ptr, -1)
  }

  class ObjectRef {
    var lastObject: ObjectRef?
    var obj: Object

    constructor ()
    {
      lastObject, obj := null, Object(0, 0, []);
    }
  }

  function Reverse(objs: seq<Object>): (r: seq<Object>)
    ensures |r| == |objs|
  {
    if objs == [] then [] else Reverse(objs[1..]) + [objs[0]]
  }

  /** The number of objects that will ever be registered. */
  function Size(o: Object): nat
    decreases o
  {
    1 + SizeAll(o.registers)
  }

  function SizeAll(objs: seq<Object>): nat
    decreases objs
  {
    if objs == [] then 0 else Size(objs[0]) + SizeAll(objs[1..])
  }

  lemma {:induction false} SizeConcat(a: seq<Object>, b: seq<Object>)
    ensures SizeAll(a + b) == SizeAll(a) + SizeAll(b)
  {
    if a == [] {
      assert a + b == b;
    } else {
      assert (a + b)[0] == a[0] && (a + b)[1..] == a[1..] + b;
      SizeConcat(a[1..], b);
    }
  }

  lemma {:induction false} SizeReverse(objs: seq<Object>)
    ensures SizeAll(Reverse(objs)) == SizeAll(objs)
  {
    if objs != [] {
      SizeReverse(objs[1..]);
      SizeConcat(Reverse(objs[1..]), [objs[0]]);
      assert [objs[0]][1..] == [];
    }
  }

  /** The chain after its first object was destroyed, which registered its objects in front. */
  function After(objs: seq<Object>): seq<Object>
    requires objs != []
  {
    Reverse(objs[0].registers) + objs[1..]
  }

  lemma AfterIsSmaller(objs: seq<Object>)
    requires objs != []
    ensures SizeAll(After(objs)) < SizeAll(objs)
  {
    SizeConcat(Reverse(objs[0].registers), objs[1..]);
    SizeReverse(objs[0].registers);
  }

  /** The destructor calls, for a chain with its newest object first. */
  function Calls(objs: seq<Object>): seq<Call>
    decreases SizeAll(objs)
  {
    if objs == [] then []
    else
      AfterIsSmaller(objs);
      [CallOf(objs[0])] + Calls(After(objs))
  }

  /** The list from `node` on consists of the distinct nodes of `spine`, which hold `objects`. */
  ghost predicate IsList(node: ObjectRef?, spine: seq<ObjectRef>, objects: seq<Object>)
    reads spine
    decreases |spine|
  {
    if spine == [] then node == null && objects == []
    else
      && objects != [] && node == spine[0] && node !in spine[1..] && spine[0].obj == objects[0]
      && IsList(spine[0].lastObject, spine[1..], objects[1..])
  }

  class Chain {
    var head: ObjectRef?
    var calls: seq<Call>
    ghost var spine: seq<ObjectRef>
    ghost var objects: seq<Object>

    ghost predicate Valid()
      reads this, spine
    {
      IsList(head, spine, objects)
    }

    constructor ()
      ensures Valid() && objects == [] && calls == []
    {
      head, calls, spine, objects := null, [], [], [];
    }

    /** `__register_global_object`: the node must not be in the chain yet. */
    method Register(obj: Object, ref: ObjectRef) returns (ptr: int)
      requires Valid() && ref !in spine
      modifies this`head, this`spine, this`objects, ref
      ensures ptr == obj.ptr
      ensures Valid() && objects == [obj] + old(objects) && spine == [ref] + old(spine)
    {
      ref.lastObject := head;
      ref.obj := obj;
      head := ref;
      spine := [ref] + spine;
      objects := [obj] + objects;
      assert spine[1..] == old(spine) && objects[1..] == old(objects);
      return obj.ptr;
    }

    /** The call of a destructor. */
    method Destruct(obj: Object)
      requires Valid()
      modifies this
      ensures Valid() && calls == old(calls) + [CallOf(obj)]
      ensures objects == Reverse(obj.registers) + old(objects)
    {
      calls := calls + [CallOf(obj)];
      var objs := obj.registers;
      assert objs[..0] == [] && [] + objects == objects;
      for i := 0 to |objs|
        invariant Valid() && calls == old(calls) + [CallOf(obj)]
        invariant objects == Reverse(objs[..i]) + old(objects)
      {
        var ref := new ObjectRef();
        ReverseNext(objs, i, old(objects));
        var _ := Register(objs[i], ref);
      }
      assert objs[..|objs|] == objs;
    }

    /** The head is unlinked. */
    method Unlink() returns (ref: ObjectRef)
      requires Valid() && head != null
      modifies this`head, this`spine, this`objects
      ensures Valid() && old(objects) == [ref.obj] + objects && old(spine) == [ref] + spine
    {
      ref := head;
      head := head.lastObject;
      spine := spine[1..];
      objects := objects[1..];
    }

    /** `__destroy_global_chain`: the head is unlinked before its destructor runs. */
    method Destroy()
      requires Valid()
      modifies this
      ensures Valid() && objects == [] && head == null
      ensures calls == old(calls) + Calls(old(objects))
    {
      while head != null
        invariant Valid()
        invariant calls + Calls(objects) == old(calls) + Calls(old(objects))
        decreases SizeAll(objects)
      {
        ghost var objs, before := objects, calls;
        var ref := Unlink();
        assert objs[1..] == objects;
        AfterIsSmaller(objs);
        Destruct(ref.obj);
        assert before + ([CallOf(objs[0])] + Calls(After(objs))) == before + [CallOf(objs[0])] + Calls(After(objs));
      }
      assert calls + [] == calls;
    }
  }

  lemma ReverseNext(objs: seq<Object>, i: nat, rest: seq<Object>)
    requires i < |objs|
    ensures [objs[i]] + (Reverse(objs[..i]) + rest) == Reverse(objs[..i + 1]) + rest
  {
    ReverseSnoc(objs[..i], objs[i]);
    assert objs[..i] + [objs[i]] == objs[..i + 1];
  }

  lemma {:induction false} ReverseSnoc(a: seq<Object>, o: Object)
    ensures Reverse(a + [o]) == [o] + Reverse(a)
  {
    if a == [] {
      assert [] + [o] == [o] && [o][1..] == [];
    } else {
      assert (a + [o])[0] == a[0] && (a + [o])[1..] == a[1..] + [o];
      ReverseSnoc(a[1..], o);
    }
  }

  /** Newer objects, and everything that their destructors register, are destroyed before older ones. */
  lemma {:induction false} NewerFirst(a: seq<Object>, b: seq<Object>)
    ensures Calls(a + b) == Calls(a) + Calls(b)
    decreases SizeAll(a)
  {
    if a == [] {
      assert a + b == b;
    } else {
      assert (a + b)[0] == a[0] && (a + b)[1..] == a[1..] + b;
      assert Reverse(a[0].registers) + (a[1..] + b) == After(a) + b;
      AfterIsSmaller(a);
      NewerFirst(After(a), b);
      assert [CallOf(a[0])] + (Calls(After(a)) + Calls(b)) == Calls(a) + Calls(b);
    }
  }

  /** The calls for all objects that are ever registered. */
  function Ever(o: Object): multiset<Call>
    decreases o
  {
    multiset{CallOf(o)} + EverAll(o.registers)
  }

  function EverAll(objs: seq<Object>): multiset<Call>
    decreases objs
  {
    if objs == [] then multiset{} else Ever(objs[0]) + EverAll(objs[1..])
  }

  lemma {:induction false} EverConcat(a: seq<Object>, b: seq<Object>)
    ensures EverAll(a + b) == EverAll(a) + EverAll(b)
  {
    if a == [] {
      assert a + b == b;
    } else {
      assert (a + b)[0] == a[0] && (a + b)[1..] == a[1..] + b;
      EverConcat(a[1..], b);
    }
  }

  lemma {:induction false} EverReverse(objs: seq<Object>)
    ensures EverAll(Reverse(objs)) == EverAll(objs)
  {
    if objs != [] {
      EverReverse(objs[1..]);
      EverConcat(Reverse(objs[1..]), [objs[0]]);
      assert [objs[0]][1..] == [];
    }
  }

  /** Every object that is ever registered is destroyed exactly once, by its own destructor. */
  lemma {:induction false} EachOnce(objs: seq<Object>)
    ensures multiset(Calls(objs)) == EverAll(objs)
    decreases SizeAll(objs)
  {
    if objs != [] {
      AfterIsSmaller(objs);
      EachOnce(After(objs));
      EverConcat(Reverse(objs[0].registers), objs[1..]);
      EverReverse(objs[0].registers);
    }
  }

  /** Destructors that register nothing run in the order of the chain, which is the reverse of registration. */
  lemma {:induction false} ReverseOrder(objs: seq<Object>, i: nat)
    requires forall k :: 0 <= k < |objs| ==> objs[k].registers == []
    requires i < |objs|
    ensures |Calls(objs)| == |objs| && Calls(objs)[i] == Call(objs[i].dtor, objs[i].ptr, -1)
    decreases |objs|
  {
    assert After(objs) == objs[1..];
    if |objs| > 1 {
      ReverseOrder(objs[1..], if i > 0 then i - 1 else 0);
    }
  }

  /** An object whose destructor registers two others, with an older object behind it: the one registered last comes
      next, and the older object comes last. */
  lemma NestedExample(a: Object, b: Object, c: Object, d: Object)
    requires a.registers == [b, c] && b.registers == [] && c.registers == [] && d.registers == []
    ensures Calls([a, d]) == [Call(a.dtor, a.ptr, -1), Call(c.dtor, c.ptr, -1), Call(b.dtor, b.ptr, -1),
                                Call(d.dtor, d.ptr, -1)]
  {
    assert [b, c][1..] == [c] && [c][1..] == [] && Reverse([c]) == [c] && Reverse([b, c]) == [c] + [b];
    assert After([a, d]) == [c, b, d];
    var three := [c, b, d];
    assert forall k :: 0 <= k < 3 ==> three[k].registers == [];
    ReverseOrder(three, 0);
    ReverseOrder(three, 1);
    ReverseOrder(three, 2);
    AfterIsSmaller([a, d]);
    assert Calls(three) == [CallOf(c), CallOf(b), CallOf(d)];
  }
}
