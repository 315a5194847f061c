/** The growable array: a backing buffer whose length is the capacity, and a
    count `size` of the live prefix. Index checks go against the capacity,
    growth doubles the capacity, and two operations can leave the object in a
    broken state before they throw; all three behaviours are kept here. */
module DynamicArray {
  import opened Common

  /** `slots` is the Java buffer (its length is `capacity`); `size` is an `int`
      because a failed `remove` can drive it to -1. */
  datatype DynArray<T> = DynArray(slots: seq<Option<T>>, size: int)
  {
    function Capacity(): nat { |slots| }
  }

  /** The class invariant every successful operation keeps. */
  ghost predicate Valid<T>(a: DynArray<T>)
  {
    0 <= a.size <= |a.slots|
  }

  /** The elements the array logically holds, in insertion order. */
  function Live<T>(a: DynArray<T>): seq<Option<T>>
    requires Valid(a)
  {
    a.slots[..a.size]
  }

  /** The bounds check shared by get, set, swap and remove: against the
      capacity, not the size. */
  predicate InBounds<T>(a: DynArray<T>, index: int)
  {
    0 <= index < |a.slots|
  }

  function Create<T>(initialCapacity: int): (r: Result<DynArray<T>>)
    ensures r.Err? <==> initialCapacity < 0
    ensures r.Err? ==> r.error == IllegalArgument
    ensures r.Ok? ==> Valid(r.value) && Live(r.value) == []
    ensures r.Ok? ==> r.value.Capacity() == initialCapacity
    ensures r.Ok? ==> forall i :: 0 <= i < initialCapacity ==> r.value.slots[i] == None
  {
    if initialCapacity < 0 then Err(IllegalArgument)
    else Ok(DynArray(seq(initialCapacity, _ => None), 0))
  }

  /** `resize`: the capacity doubles (so zero stays zero) and the copy is
      padded with nulls. */
  function Grow<T>(a: DynArray<T>): (r: DynArray<T>)
    ensures r.Capacity() == 2 * a.Capacity()
    ensures r.size == a.size
    ensures r.slots[..a.Capacity()] == a.slots
    ensures forall i :: a.Capacity() <= i < r.Capacity() ==> r.slots[i] == None
  {
    DynArray(a.slots + seq(|a.slots|, _ => None), a.size)
  }

  /** `append`. With a positive capacity the element lands after the live
      prefix; with capacity 0 the doubling yields 0, `size` is incremented and
      the buffer write throws, leaving a state outside `Valid`. */
  function Append<T>(a: DynArray<T>, e: Option<T>): (r: Step<DynArray<T>>)
    requires Valid(a)
    ensures r.outcome.Pass? <==> a.Capacity() > 0
    ensures r.outcome.Pass? ==> Valid(r.state) && Live(r.state) == Live(a) + [e]
    ensures r.outcome.Pass? ==>
      r.state.Capacity() == if a.size == a.Capacity() then 2 * a.Capacity() else a.Capacity()
    ensures r.outcome.Pass? ==>
      forall i :: a.size < i < r.state.Capacity() ==>
        r.state.slots[i] == if i < a.Capacity() then a.slots[i] else None
    ensures r.outcome.Fail? ==>
      r.outcome.error == ArrayIndexOutOfBounds && r.state.size == 1 &&
      r.state.Capacity() == 0 && !Valid(r.state)
  {
    var b := if a.size == |a.slots| then Grow(a) else a;
    if b.size < |b.slots| then Step(DynArray(b.slots[b.size := e], b.size + 1), Pass)
    else Step(DynArray(b.slots, b.size + 1), Fail(ArrayIndexOutOfBounds))
  }

  function Get<T>(a: DynArray<T>, index: int): (r: Result<Option<T>>)
    ensures r.Ok? <==> 0 <= index < a.Capacity()
    ensures r.Err? ==> r.error == IndexOutOfBounds
    ensures r.Ok? ==> r.value == a.slots[index]
    ensures r.Ok? && Valid(a) && index < a.size ==> r.value == Live(a)[index]
  {
    if InBounds(a, index) then Ok(a.slots[index]) else Err(IndexOutOfBounds)
  }

  function Set<T>(a: DynArray<T>, index: int, e: Option<T>): (r: Result<DynArray<T>>)
    ensures r.Ok? <==> 0 <= index < a.Capacity()
    ensures r.Err? ==> r.error == IndexOutOfBounds
    ensures r.Ok? ==> r.value.size == a.size && r.value.Capacity() == a.Capacity()
    ensures r.Ok? ==>
      forall j :: 0 <= j < a.Capacity() ==> r.value.slots[j] == if j == index then e else a.slots[j]
  {
    if InBounds(a, index) then Ok(DynArray(a.slots[index := e], a.size)) else Err(IndexOutOfBounds)
  }

  /** Reading a slot right after writing it gives the written value back, and
      every other slot reads as before. */
  lemma GetAfterSet<T>(a: DynArray<T>, i: int, v: Option<T>, j: int)
    requires Set(a, i, v).Ok?
    ensures Get(Set(a, i, v).value, j) == if j == i then Ok(v) else Get(a, j)
  {
  }

  function Swap<T>(a: DynArray<T>, i: int, j: int): (r: Result<DynArray<T>>)
    ensures r.Ok? <==> 0 <= i < a.Capacity() && 0 <= j < a.Capacity()
    ensures r.Err? ==> r.error == IndexOutOfBounds
    ensures r.Ok? ==> r.value.size == a.size && r.value.Capacity() == a.Capacity()
    ensures r.Ok? ==> r.value.slots[i] == a.slots[j] && r.value.slots[j] == a.slots[i]
    ensures r.Ok? ==>
      forall k :: 0 <= k < a.Capacity() && k != i && k != j ==> r.value.slots[k] == a.slots[k]
  {
    if !InBounds(a, i) || !InBounds(a, j) then Err(IndexOutOfBounds)
    else
      var tmp := a.slots[i];
      Ok(DynArray(a.slots[i := a.slots[j]][j := tmp], a.size))
  }

  /** Swapping the same two slots twice restores the array. */
  lemma SwapTwice<T>(a: DynArray<T>, i: int, j: int)
    requires Swap(a, i, j).Ok?
    ensures Swap(Swap(a, i, j).value, i, j) == Ok(a)
  {
    var b := Swap(Swap(a, i, j).value, i, j).value;
    assert b.slots == a.slots;
  }

  /** `remove(index)`. After the capacity check the later live elements shift
      left and slot `size - 1` is nulled. An index in `[size, capacity)` skips
      the shift, so the last element is dropped instead; on an empty array
      `size` becomes -1 before the buffer write throws. */
  method Remove<T>(a: DynArray<T>, index: int) returns (r: Step<DynArray<T>>)
    requires Valid(a)
    ensures !(0 <= index < a.Capacity()) ==> r == Step(a, Fail(IndexOutOfBounds))
    ensures 0 <= index < a.size ==>
      r.outcome == Pass && Valid(r.state) && Live(r.state) == Live(a)[..index] + Live(a)[index + 1..]
    ensures a.size <= index < a.Capacity() && a.size > 0 ==>
      r.outcome == Pass && Valid(r.state) && Live(r.state) == Live(a)[..a.size - 1]
    ensures 0 <= index < a.Capacity() && a.size > 0 ==>
      r.state.Capacity() == a.Capacity() && r.state.slots[a.size - 1] == None &&
      r.state.slots[a.size..] == a.slots[a.size..]
    ensures 0 <= index < a.Capacity() && a.size == 0 ==>
      r == Step(DynArray(a.slots, -1), Fail(ArrayIndexOutOfBounds))
  {
    if !InBounds(a, index) {
      return Step(a, Fail(IndexOutOfBounds));
    }
    var buf := a.slots;
    var i := index;
    while i < a.size - 1
      invariant index <= i
      invariant i > index ==> i <= a.size - 1
      invariant |buf| == |a.slots|
      invariant forall k :: 0 <= k < index ==> buf[k] == a.slots[k]
      invariant forall k :: index <= k < i ==> buf[k] == a.slots[k + 1]
      invariant forall k :: i <= k < |buf| ==> buf[k] == a.slots[k]
    {
      buf := buf[i := buf[i + 1]];
      i := i + 1;
    }
    var size := a.size - 1;
    if size < 0 {
      assert buf == a.slots;
      return Step(DynArray(buf, size), Fail(ArrayIndexOutOfBounds));
    }
    r := Step(DynArray(buf[size := None], size), Pass);
    if index < a.size {
      assert Live(r.state) == Live(a)[..index] + Live(a)[index + 1..];
    } else {
      assert Live(r.state) == Live(a)[..a.size - 1];
    }
    assert r.state.slots[a.size..] == a.slots[a.size..];
  }

  /** `clear`: nulls the live slots and resets the size; slots past the old
      size and the capacity are untouched. */
  method Clear<T>(a: DynArray<T>) returns (r: DynArray<T>)
    requires Valid(a)
    ensures Valid(r) && Live(r) == []
    ensures r.Capacity() == a.Capacity()
    ensures forall k :: 0 <= k < a.size ==> r.slots[k] == None
    ensures r.slots[a.size..] == a.slots[a.size..]
  {
    var buf := a.slots;
    var i := 0;
    while i < a.size
      invariant 0 <= i <= a.size
      invariant |buf| == |a.slots|
      invariant forall k :: 0 <= k < |buf| ==> buf[k] == if k < i then None else a.slots[k]
    {
      buf := buf[i := None];
      i := i + 1;
    }
    r := DynArray(buf, 0);
  }

  /** `fill(e)`: only the live prefix is overwritten. */
  method Fill<T>(a: DynArray<T>, e: Option<T>) returns (r: DynArray<T>)
    requires Valid(a)
    ensures Valid(r) && r.size == a.size && r.Capacity() == a.Capacity()
    ensures forall k :: 0 <= k < a.size ==> Live(r)[k] == e
    ensures r.slots[a.size..] == a.slots[a.size..]
  {
    var buf := a.slots;
    var i := 0;
    while i < a.size
      invariant 0 <= i <= a.size
      invariant |buf| == |a.slots|
      invariant forall k :: 0 <= k < |buf| ==> buf[k] == if k < i then e else a.slots[k]
    {
      buf := buf[i := e];
      i := i + 1;
    }
    r := DynArray(buf, a.size);
  }

  /** `indexOf`: a scan of the live prefix; `null` matches `null`. */
  method IndexOf<T(==)>(a: DynArray<T>, x: Option<T>) returns (r: int)
    requires Valid(a)
    ensures IsFirstIndex(Live(a), x, r)
  {
    var i := 0;
    while i < a.size
      invariant 0 <= i <= a.size
      invariant x !in a.slots[..i]
    {
      if a.slots[i] == x {
        assert Live(a)[..i] == a.slots[..i];
        return i;
      }
      assert a.slots[..i + 1] == a.slots[..i] + [a.slots[i]];
      i := i + 1;
    }
    assert Live(a) == a.slots[..i];
    r := -1;
  }

  /** `contains`: whether `indexOf` found something. */
  method Contains<T(==)>(a: DynArray<T>, x: Option<T>) returns (b: bool)
    requires Valid(a)
    ensures b <==> x in Live(a)
  {
    var i := IndexOf(a, x);
    b := i != -1;
  }

  /** `copy`: a new buffer with the same size, capacity and slots. Values are
      immutable here, so later updates of either never reach the other. */
  function Copy<T>(a: DynArray<T>): (r: DynArray<T>)
    ensures r.size == a.size && r.Capacity() == a.Capacity()
    ensures forall k :: 0 <= k < a.Capacity() ==> r.slots[k] == a.slots[k]
  {
    DynArray(a.slots, a.size)
  }

  function Size<T>(a: DynArray<T>): (r: int)
    requires Valid(a)
    ensures r == |Live(a)|
  {
    a.size
  }

  function IsEmpty<T>(a: DynArray<T>): (r: bool)
    requires Valid(a)
    ensures r <==> Live(a) == []
  {
    a.size == 0
  }

  /** The array's iterator: a cursor over the live prefix. */
  datatype ArrayIter = ArrayIter(current: nat)

  function Iterator<T>(a: DynArray<T>): ArrayIter
  {
    ArrayIter(0)
  }

  function HasNext<T>(a: DynArray<T>, it: ArrayIter): bool
  {
    it.current < a.size
  }

  function Next<T>(a: DynArray<T>, it: ArrayIter): (r: Result<(Option<T>, ArrayIter)>)
    requires Valid(a)
    ensures r.Ok? <==> HasNext(a, it)
    ensures r.Err? ==> r.error == IndexOutOfBounds
    ensures r.Ok? ==> r.value.0 == Live(a)[it.current] && r.value.1.current == it.current + 1
  {
    if !HasNext(a, it) then Err(IndexOutOfBounds)
    else Ok((a.slots[it.current], ArrayIter(it.current + 1)))
  }

  /** The values `n` successive `next()` calls return, and the cursor after
      them; fails as soon as one of the calls throws. */
  function NextN<T>(a: DynArray<T>, it: ArrayIter, n: nat): Result<(seq<Option<T>>, ArrayIter)>
    requires Valid(a)
    decreases n
  {
    if n == 0 then Ok(([], it))
    else match Next(a, it)
      case Err(e) => Err(e)
      case Ok((v, it')) =>
        match NextN(a, it', n - 1)
        case Err(e) => Err(e)
        case Ok((vs, last)) => Ok(([v] + vs, last))
  }

  /** A fresh iterator yields exactly the live elements in order, after which
      `next()` throws. */
  lemma {:induction false} IteratorYieldsLive<T>(a: DynArray<T>)
    requires Valid(a)
    ensures NextN(a, Iterator(a), a.size) == Ok((Live(a), ArrayIter(a.size)))
    ensures Next(a, ArrayIter(a.size)) == Err(IndexOutOfBounds)
  {
    IterateFrom(a, 0);
  }

  lemma {:induction false} IterateFrom<T>(a: DynArray<T>, i: nat)
    requires Valid(a) && i <= a.size
    ensures NextN(a, ArrayIter(i), a.size - i) == Ok((Live(a)[i..], ArrayIter(a.size)))
    decreases a.size - i
  {
    if i < a.size {
      IterateFrom(a, i + 1);
      var n := a.size - i;
      assert Next(a, ArrayIter(i)) == Ok((Live(a)[i], ArrayIter(i + 1)));
      assert NextN(a, ArrayIter(i + 1), n - 1) == Ok((Live(a)[i + 1..], ArrayIter(a.size)));
      assert NextN(a, ArrayIter(i), n) == Ok(([Live(a)[i]] + Live(a)[i + 1..], ArrayIter(a.size)));
      assert Live(a)[i..] == [Live(a)[i]] + Live(a)[i + 1..];
    } else {
      assert Live(a)[i..] == [];
    }
  }

  /** Appending 10, 20, 30, 40 to an array of capacity 2 doubles the capacity
      once, on the third append. */
  lemma AppendScenario()
    ensures Create<int>(2).Ok?
    ensures var a0 := Create<int>(2).value;
            var a1 := Append(a0, Some(10)).state;
            var a2 := Append(a1, Some(20)).state;
            var a3 := Append(a2, Some(30)).state;
            var a4 := Append(a3, Some(40));
            a2.Capacity() == 2 && a3.Capacity() == 4 && a4.outcome == Pass &&
            Valid(a4.state) && Live(a4.state) == [Some(10), Some(20), Some(30), Some(40)]
  {
  }
}
