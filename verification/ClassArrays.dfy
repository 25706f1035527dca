/** Construction and destruction of arrays of objects: source/runtime/class_arrays.cpp and
    include/runtime/class_arrays.hpp. Addresses are 32-bit and wrap around. */
module ClassArrays {
  import Arith = Bits
  import opened Bytes
  import opened Wrappers

  /** A call of the constructor or destructor of an element, with the flag that it is given, or a block freed. */
  datatype Event = Construct(addr: U32, flag: int) | Destroy(addr: U32, flag: int) | Free(addr: U32)

  function Plus(a: U32, b: int): U32 {
    (a + b) % 0x1_0000_0000
  }

  function Minus(a: U32, b: U32): U32 {
    (a as int - b as int) % 0x1_0000_0000
  }

  /** Where element `i` is reached by stepping from the first one. */
  function Element(first: U32, size: U32, i: nat): U32 {
    if i == 0 then first else Plus(Element(first, size, i - 1), size)
  }

  /** Elements 0, 1, .., n-1 */
  function Constructed(first: U32, size: U32, n: nat): (r: seq<Event>)
    ensures |r| == n
  {
    if n == 0 then [] else Constructed(first, size, n - 1) + [Construct(Element(first, size, n - 1), 1)]
  }

  /** Elements n-1, .., 1, 0 */
  function Destroyed(first: U32, size: U32, n: nat): (r: seq<Event>)
    ensures |r| == n
  {
    if n == 0 then [] else [Destroy(Element(first, size, n - 1), -1)] + Destroyed(first, size, n - 1)
  }

  /** The calls while an array is built: where constructor call `throwsAt` does not return, exactly the elements
      before it are destroyed again. */
  function Building(first: U32, hasDtor: bool, size: U32, n: nat, throwsAt: Option<nat>): seq<Event> {
    if throwsAt.None? || throwsAt.value >= n then Constructed(first, size, n)
    else
      Constructed(first, size, throwsAt.value) + (if hasDtor then Destroyed(first, size, throwsAt.value) else [])
  }

  lemma ModAdd(x: int, y: int)
    ensures (x % 0x1_0000_0000 + y) % 0x1_0000_0000 == (x + y) % 0x1_0000_0000
  {
    var t := x % 0x1_0000_0000 + y;
    Arith.DivModUnique(x + y, 0x1_0000_0000, x / 0x1_0000_0000 + t / 0x1_0000_0000, t % 0x1_0000_0000);
  }

  lemma MulNext(size: int, i: int)
    ensures size * (i + 1) == size * i + size
  {
  }

  /** Element `i` stands at `first + size * i`, modulo 2^32. */
  lemma {:induction false} ElementAt(first: U32, size: U32, i: nat)
    ensures Element(first, size, i) == Plus(first, size * i)
  {
    if i > 0 {
      ElementAt(first, size, i - 1);
      MulNext(size, i - 1);
      PlusNext(first, size * (i - 1), size, size * i);
    }
  }

  lemma PlusNext(first: U32, before: int, size: int, after: int)
    requires after == before + size
    ensures Plus(Plus(first, before), size) == Plus(first, after)
  {
    PlusPlus(first, before, size);
  }

  lemma PlusPlus(a: U32, b: int, c: int)
    ensures Plus(a, b + c) == (Plus(a, b) + c) % 0x1_0000_0000
  {
    ModAdd(a + b, c);
  }

  /** The end computed with a wrapping 32-bit product is where stepping would end. */
  lemma EndIsElement(first: U32, size: U32, n: nat)
    ensures Plus(first, size * n % 0x1_0000_0000) == Element(first, size, n)
  {
    ElementAt(first, size, n);
    ModAdd(size * n, first);
  }

  /** `(char *)pArray + size * n`, in 32 bits */
  method EndOf(first: U32, size: U32, n: U32) returns (p: U32)
    ensures p == Element(first, size, n)
  {
    EndIsElement(first, size, n);
    p := Plus(first, size * n % 0x1_0000_0000);
  }

  lemma SecondWord(block: U32)
    ensures Plus(Minus(block, 16), 4) == Minus(block, 12)
  {
    ModAdd(block as int - 16, 4);
  }

  lemma StepBack(first: U32, size: U32, i: nat)
    requires i > 0
    ensures Minus(Element(first, size, i), size) == Element(first, size, i - 1)
  {
    var e: int, d: int := Element(first, size, i - 1), size;
    ModAdd(e + d, 0 - d);
  }

  lemma NextDestroyed(log: seq<Event>, first: U32, size: U32, n: nat, all: seq<Event>)
    requires n > 0 && log + Destroyed(first, size, n) == all
    ensures log + [Destroy(Element(first, size, n - 1), -1)] + Destroyed(first, size, n - 1) == all
  {
  }

  lemma MulMonotone(size: int, i: int, j: int)
    requires size > 0 && i < j
    ensures size * i + size <= size * j
  {
    Arith.MulAway(j - i, size);
    assert (j - i) * size == size * j - size * i;
  }

  /** Within an array that does not pass the end of the address space, elements are distinct and do not overlap. */
  lemma ElementsApart(first: U32, size: U32, n: nat, i: nat, j: nat)
    requires size > 0 && i < j < n && first + size * n <= 0x1_0000_0000
    ensures Element(first, size, i) + size <= Element(first, size, j)
    ensures first <= Element(first, size, i) && Element(first, size, j) + size <= first + size * n
  {
    var pi := ElementWithin(first, size, n, i);
    var pj := ElementWithin(first, size, n, j);
    MulMonotone(size, i, j);
  }

  lemma ElementWithin(first: U32, size: U32, n: nat, i: nat) returns (p: nat)
    requires size > 0 && i < n && first + size * n <= 0x1_0000_0000
    ensures p == size * i && p + size <= size * n && Element(first, size, i) == first + p
  {
    Arith.MulNonNegative(size, i);
    p := size * i;
    ElementAt(first, size, i);
    MulMonotone(size, i, n);
    NoWrap(first, p);
  }

  lemma NoWrap(first: U32, p: nat)
    requires first + p < 0x1_0000_0000
    ensures Plus(first, p) == first + p
  {
  }

  /** Destruction undoes construction: the same addresses, in reverse. */
  lemma {:induction false} DestroyedIsReverse(first: U32, size: U32, n: nat, i: nat, j: nat)
    requires i < n && j == n - 1 - i
    ensures Constructed(first, size, n)[i] == Construct(Element(first, size, i), 1)
    ensures Destroyed(first, size, n)[j] == Destroy(Element(first, size, i), -1)
    decreases n
  {
    if j > 0 { DestroyedIsReverse(first, size, n - 1, i, j - 1); }
  }

  /** Element by element: without a failing constructor call every element is constructed; where call `k` fails, those
      before it are constructed, and destroyed again from the last to the first. */
  lemma BuildingMeaning(first: U32, hasDtor: bool, size: U32, n: nat, throwsAt: Option<nat>, i: nat)
    ensures var k := if throwsAt.Some? && throwsAt.value < n then throwsAt.value else n;
            var events := Building(first, hasDtor, size, n, throwsAt);
            && |events| == (if k < n && hasDtor then 2 * k else k)
            && (i < k ==> events[i] == Construct((first + size * i) % 0x1_0000_0000, 1))
            && (i < k < n && hasDtor ==> events[2 * k - 1 - i] == Destroy((first + size * i) % 0x1_0000_0000, -1))
  {
    var k := if throwsAt.Some? && throwsAt.value < n then throwsAt.value else n;
    if i < k {
      ElementAt(first, size, i);
      DestroyedIsReverse(first, size, k, i, k - 1 - i);
    }
  }

  lemma BuildingThrown(log: seq<Event>, first: U32, hasDtor: bool, size: U32, n: nat, k: nat)
    requires k < n
    ensures log + Constructed(first, size, k) + (if hasDtor then Destroyed(first, size, k) else [])
         == log + Building(first, hasDtor, size, n, Some(k))
  {
  }

  lemma ConstructedNext(log: seq<Event>, first: U32, size: U32, i: nat)
    ensures log + Constructed(first, size, i + 1)
         == log + Constructed(first, size, i) + [Construct(Element(first, size, i), 1)]
  {
  }

  lemma DestroyedNext(log: seq<Event>, first: U32, size: U32, i: nat)
    ensures log + Destroyed(first, size, i + 1)
         == log + [Destroy(Element(first, size, i), -1)] + Destroyed(first, size, i)
  {
  }

  /** `__partial_array_destructor` */
  class PartialArrayDestructor {
    const array_: U32
    const size: U32
    const count: U32
    const hasDtor: bool
    var currNum: U32

    constructor (array_: U32, size: U32, count: U32, hasDtor: bool)
      ensures this.array_ == array_ && this.size == size && this.count == count && this.hasDtor == hasDtor
      ensures currNum == count
    {
      this.array_, this.size, this.count, this.hasDtor := array_, size, count, hasDtor;
      currNum := count;
    }

    /** The destructor: it destroys the elements constructed so far when the array is not complete. */
    method Destruct(rt: Runtime)
      modifies this`currNum, rt`log
      ensures rt.log == old(rt.log) +
                (if old(currNum) < count && hasDtor then Destroyed(array_, size, old(currNum)) else [])
    {
      assert rt.log + [] == rt.log;
      if currNum < count && hasDtor {
        var ptr := EndOf(array_, size, currNum);
        while currNum > 0
          invariant ptr == Element(array_, size, currNum)
          invariant rt.log + Destroyed(array_, size, currNum)
                 == old(rt.log) + Destroyed(array_, size, old(currNum))
        {
          ghost var before := rt.log;
          StepBack(array_, size, currNum);
          ptr := Minus(ptr, size);
          rt.CallDestructor(ptr);
          currNum := currNum - 1;
          DestroyedNext(before, array_, size, currNum);
        }
      }
    }
  }

  /** Memory words and the calls made so far. */
  class Runtime {
    var words: map<U32, U32>
    var log: seq<Event>

    constructor ()
      ensures words == map[] && log == []
    {
      words, log := map[], [];
    }

    method CallDestructor(p: U32)
      modifies this`log
      ensures log == old(log) + [Destroy(p, -1)]
    {
      log := log + [Destroy(p, -1)];
    }

    /** The loop of `__construct_array`; constructor call number `throwsAt`, if there is one, does not return. */
    method ConstructArray(block: U32, hasDtor: bool, size: U32, n: U32, throwsAt: Option<nat>) returns (threw: bool)
      modifies this`log
      ensures threw <==> throwsAt.Some? && throwsAt.value < n
      ensures log == old(log) + Building(block, hasDtor, size, n, throwsAt)
    {
      var pad := new PartialArrayDestructor(block, size, n, hasDtor);
      var p := block;
      pad.currNum := 0;
      while pad.currNum < n
        invariant pad.currNum <= n && p == Element(block, size, pad.currNum)
        invariant throwsAt.Some? ==> pad.currNum <= throwsAt.value
        invariant log == old(log) + Constructed(block, size, pad.currNum)
      {
        if throwsAt == Some(pad.currNum) {
          BuildingThrown(old(log), block, hasDtor, size, n, pad.currNum);
          pad.Destruct(this);
          return true;
        }
        ConstructedNext(old(log), block, size, pad.currNum);
        log := log + [Construct(p, 1)];
        pad.currNum := pad.currNum + 1;
        p := Plus(p, size);
      }
      assert log + [] == log;
      pad.Destruct(this);
      threw := false;
    }

    /** `__construct_new_array`; null is 0. */
    method ConstructNewArray(block: U32, hasCtor: bool, hasDtor: bool, size: U32, n: U32, throwsAt: Option<nat>)
      returns (ptr: U32, threw: bool)
      modifies this`words, this`log
      ensures block == 0 ==> ptr == 0 && !threw && log == old(log) && words == old(words)
      ensures block != 0 ==> ptr == Plus(block, 16) && words == old(words)[block := size][Plus(block, 4) := n]
      ensures block != 0 ==> (threw <==> hasCtor && throwsAt.Some? && throwsAt.value < n)
      ensures block != 0 ==>
                log == old(log) + (if hasCtor then Building(ptr, hasDtor, size, n, throwsAt) else [])
    {
      ptr, threw := block, false;
      if ptr != 0 {
        words := words[ptr := size];
        words := words[Plus(ptr, 4) := n];
        ptr := Plus(ptr, 16);
        if hasCtor {
          threw := ConstructArray(ptr, hasDtor, size, n, throwsAt);
        }
      }
    }

    /** `__destroy_arr` */
    method DestroyArr(block: U32, size: U32, n: U32)
      modifies this`log
      ensures log == old(log) + Destroyed(block, size, n)
    {
      var p := EndOf(block, size, n);
      var left := n;
      while left > 0
        invariant p == Element(block, size, left)
        invariant log + Destroyed(block, size, left) == old(log) + Destroyed(block, size, n)
      {
        StepBack(block, size, left);
        p := Minus(p, size);
        CallDestructor(p);
        left := left - 1;
      }
    }

    /** The loop of `__destroy_new_array`. */
    method DestroyElements(block: U32, objectSize: U32, objects: U32)
      modifies this`log
      ensures log == old(log) + Destroyed(block, objectSize, objects)
    {
      var p := EndOf(block, objectSize, objects);
      var i := 0;
      while i < objects
        invariant i <= objects && p == Element(block, objectSize, objects - i)
        invariant log + Destroyed(block, objectSize, objects - i)
               == old(log) + Destroyed(block, objectSize, objects)
      {
        ghost var all := old(log) + Destroyed(block, objectSize, objects);
        StepBack(block, objectSize, objects - i);
        NextDestroyed(log, block, objectSize, objects - i, all);
        p := Minus(p, objectSize);
        CallDestructor(p);
        i := i + 1;
      }
    }

    /** `__destroy_new_array`: size and number of the elements are read from the words in front of the array. */
    method DestroyNewArray(block: U32, hasDtor: bool)
      requires block != 0 && hasDtor ==> Minus(block, 16) in words && Minus(block, 12) in words
      modifies this`log
      ensures block == 0 ==> log == old(log)
      ensures block != 0 && !hasDtor ==> log == old(log) + [Free(Minus(block, 16))]
      ensures block != 0 && hasDtor ==>
                log == old(log) + Destroyed(block, words[Minus(block, 16)], words[Minus(block, 12)])
                       + [Free(Minus(block, 16))]
    {
      if block != 0 {
        if hasDtor {
          SecondWord(block);
          var objectSize, objects := words[Minus(block, 16)], words[Plus(Minus(block, 16), 4)];
          DestroyElements(block, objectSize, objects);
        }
        log := log + [Free(Minus(block, 16))];
      }
    }

    /** Creating an array and deleting it constructs every element once, destroys exactly those in reverse and frees
        the block that was allocated. */
    method NewThenDelete(block: U32, size: U32, n: U32)
      requires block != 0 && Plus(block, 16) != 0
      modifies this`words, this`log
      ensures var first := Plus(block, 16);
              log == old(log) + Constructed(first, size, n) + Destroyed(first, size, n) + [Free(block)]
    {
      var ptr, _ := ConstructNewArray(block, true, true, size, n, None);
      ModAdd(block + 16, -16);
      ModAdd(block + 16, -12);
      DestroyNewArray(ptr, true);
    }
  }
}
