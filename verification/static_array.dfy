/** The fixed-capacity array: every operation covers all `capacity` slots and
    there is no separate logical length. */
module StaticArray {
  import opened Common

  /** The Java buffer; its length is the fixed capacity. */
  datatype StArray<T> = StArray(slots: seq<Option<T>>)
  {
    function Capacity(): nat { |slots| }
  }

  /** `validateIndex`: the index must name one of the capacity slots. */
  predicate InBounds<T>(a: StArray<T>, index: int)
  {
    0 <= index < |a.slots|
  }

  function Create<T>(capacity: int): (r: Result<StArray<T>>)
    ensures r.Err? <==> capacity < 0
    ensures r.Err? ==> r.error == IllegalArgument
    ensures r.Ok? ==> r.value.Capacity() == capacity
    ensures r.Ok? ==> forall i :: 0 <= i < capacity ==> r.value.slots[i] == None
  {
    if capacity < 0 then Err(IllegalArgument)
    else Ok(StArray(seq(capacity, _ => None)))
  }

  function Get<T>(a: StArray<T>, index: int): (r: Result<Option<T>>)
    ensures r.Ok? <==> 0 <= index < a.Capacity()
    ensures r.Err? ==> r.error == IndexOutOfBounds
    ensures r.Ok? ==> r.value == a.slots[index]
  {
    if InBounds(a, index) then Ok(a.slots[index]) else Err(IndexOutOfBounds)
  }

  function Set<T>(a: StArray<T>, index: int, e: Option<T>): (r: Result<StArray<T>>)
    ensures r.Ok? <==> 0 <= index < a.Capacity()
    ensures r.Err? ==> r.error == IndexOutOfBounds
    ensures r.Ok? ==> r.value.Capacity() == a.Capacity()
    ensures r.Ok? ==>
      forall j :: 0 <= j < a.Capacity() ==> r.value.slots[j] == if j == index then e else a.slots[j]
  {
    if InBounds(a, index) then Ok(StArray(a.slots[index := e])) else Err(IndexOutOfBounds)
  }

  /** Reading a slot right after writing it gives the written value back, and
      every other slot reads as before. */
  lemma GetAfterSet<T>(a: StArray<T>, i: int, v: Option<T>, j: int)
    requires Set(a, i, v).Ok?
    ensures Get(Set(a, i, v).value, j) == if j == i then Ok(v) else Get(a, j)
  {
  }

  /** `clear`: every slot becomes null. */
  method Clear<T>(a: StArray<T>) returns (r: StArray<T>)
    ensures r.Capacity() == a.Capacity()
    ensures forall k :: 0 <= k < a.Capacity() ==> r.slots[k] == None
  {
    var buf := a.slots;
    var i := 0;
    while i < |a.slots|
      invariant 0 <= i <= |a.slots|
      invariant |buf| == |a.slots|
      invariant forall k :: 0 <= k < i ==> buf[k] == None
    {
      buf := buf[i := None];
      i := i + 1;
    }
    r := StArray(buf);
  }

  /** `fill(e)`: every slot becomes `e`. */
  method Fill<T>(a: StArray<T>, e: Option<T>) returns (r: StArray<T>)
    ensures r.Capacity() == a.Capacity()
    ensures forall k :: 0 <= k < a.Capacity() ==> r.slots[k] == e
  {
    var buf := a.slots;
    var i := 0;
    while i < |a.slots|
      invariant 0 <= i <= |a.slots|
      invariant |buf| == |a.slots|
      invariant forall k :: 0 <= k < i ==> buf[k] == e
    {
      buf := buf[i := e];
      i := i + 1;
    }
    r := StArray(buf);
  }

  /** `indexOf`: a scan of all capacity slots; `null` matches `null`. */
  method IndexOf<T(==)>(a: StArray<T>, x: Option<T>) returns (r: int)
    ensures IsFirstIndex(a.slots, x, r)
  {
    var i := 0;
    while i < |a.slots|
      invariant 0 <= i <= |a.slots|
      invariant x !in a.slots[..i]
    {
      if a.slots[i] == x {
        return i;
      }
      assert a.slots[..i + 1] == a.slots[..i] + [a.slots[i]];
      i := i + 1;
    }
    assert a.slots == a.slots[..i];
    r := -1;
  }

  /** `contains`: whether `indexOf` answered a non-negative index. */
  method Contains<T(==)>(a: StArray<T>, x: Option<T>) returns (b: bool)
    ensures b <==> x in a.slots
  {
    var i := IndexOf(a, x);
    b := i >= 0;
  }

  /** `size` reports the capacity. */
  function Size<T>(a: StArray<T>): (r: int)
    ensures r == |a.slots|
  {
    a.Capacity()
  }

  function IsEmpty<T>(a: StArray<T>): (r: bool)
    ensures r <==> a.slots == []
  {
    a.Capacity() == 0
  }

  function Swap<T>(a: StArray<T>, i: int, j: int): (r: Result<StArray<T>>)
    ensures r.Ok? <==> 0 <= i < a.Capacity() && 0 <= j < a.Capacity()
    ensures r.Err? ==> r.error == IndexOutOfBounds
    ensures r.Ok? ==> r.value.Capacity() == a.Capacity()
    ensures r.Ok? ==> r.value.slots[i] == a.slots[j] && r.value.slots[j] == a.slots[i]
    ensures r.Ok? ==>
      forall k :: 0 <= k < a.Capacity() && k != i && k != j ==> r.value.slots[k] == a.slots[k]
  {
    if !InBounds(a, i) || !InBounds(a, j) then Err(IndexOutOfBounds)
    else
      var tmp := a.slots[i];
      Ok(StArray(a.slots[i := a.slots[j]][j := tmp]))
  }

  /** Swapping the same two slots twice restores the array. */
  lemma SwapTwice<T>(a: StArray<T>, i: int, j: int)
    requires Swap(a, i, j).Ok?
    ensures Swap(Swap(a, i, j).value, i, j) == Ok(a)
  {
    var b := Swap(Swap(a, i, j).value, i, j).value;
    assert b.slots == a.slots;
  }

  /** `reverse`: swaps the pairs `(i, capacity - 1 - i)` for `i` below half the
      capacity, so slot `i` ends up holding the old slot `capacity - 1 - i`. */
  method Reverse<T>(a: StArray<T>) returns (r: StArray<T>)
    ensures r.Capacity() == a.Capacity()
    ensures forall k :: 0 <= k < a.Capacity() ==> r.slots[k] == a.slots[a.Capacity() - 1 - k]
    ensures r.slots == Reversed(a.slots)
    ensures a.Capacity() % 2 == 1 ==> r.slots[a.Capacity() / 2] == a.slots[a.Capacity() / 2]
  {
    var n := a.Capacity();
    r := a;
    var i := 0;
    while i < n / 2
      invariant 0 <= i <= n / 2
      invariant r.Capacity() == n
      invariant forall k :: 0 <= k < i ==> r.slots[k] == a.slots[n - 1 - k]
      invariant forall k :: n - i <= k < n ==> r.slots[k] == a.slots[n - 1 - k]
      invariant forall k :: i <= k < n - i ==> r.slots[k] == a.slots[k]
    {
      r := Swap(r, i, n - 1 - i).value;
      i := i + 1;
    }
  }

  /** `copy`: a new buffer of the same capacity holding the same slots. Values
      are immutable here, so later updates of either never reach the other. */
  function Copy<T>(a: StArray<T>): (r: StArray<T>)
    ensures r.Capacity() == a.Capacity()
    ensures forall k :: 0 <= k < a.Capacity() ==> r.slots[k] == a.slots[k]
  {
    StArray(a.slots)
  }

  /** The array's iterator: a cursor over all capacity slots. */
  datatype ArrayIter = ArrayIter(current: nat)

  function Iterator<T>(a: StArray<T>): ArrayIter
  {
    ArrayIter(0)
  }

  function HasNext<T>(a: StArray<T>, it: ArrayIter): bool
  {
    it.current < |a.slots|
  }

  function Next<T>(a: StArray<T>, it: ArrayIter): (r: Result<(Option<T>, ArrayIter)>)
    ensures r.Ok? <==> HasNext(a, it)
    ensures r.Err? ==> r.error == IndexOutOfBounds
    ensures r.Ok? ==> r.value.0 == a.slots[it.current] && r.value.1.current == it.current + 1
  {
    if !HasNext(a, it) then Err(IndexOutOfBounds)
    else Ok((a.slots[it.current], ArrayIter(it.current + 1)))
  }

  /** The values `n` successive `next()` calls return, and the cursor after
      them; fails as soon as one of the calls throws. */
  function NextN<T>(a: StArray<T>, it: ArrayIter, n: nat): Result<(seq<Option<T>>, ArrayIter)>
    decreases n
  {
    if n == 0 then Ok(([], it))
    else match Next(a, it)
      case Err(e) => Err(e)
      case Ok((v, it')) =>
        match NextN(a, it', n - 1)
        case Err(e) => Err(e)
        case Ok((vs, last)) => Ok(([v] + vs, last))
  }

  /** A fresh iterator yields every slot in order, after which `next()`
      throws. */
  lemma {:induction false} IteratorYieldsSlots<T>(a: StArray<T>)
    ensures NextN(a, Iterator(a), a.Capacity()) == Ok((a.slots, ArrayIter(a.Capacity())))
    ensures Next(a, ArrayIter(a.Capacity())) == Err(IndexOutOfBounds)
  {
    IterateFrom(a, 0);
  }

  lemma {:induction false} IterateFrom<T>(a: StArray<T>, i: nat)
    requires i <= a.Capacity()
    ensures NextN(a, ArrayIter(i), a.Capacity() - i) == Ok((a.slots[i..], ArrayIter(a.Capacity())))
    decreases a.Capacity() - i
  {
    if i < a.Capacity() {
      IterateFrom(a, i + 1);
      var n := a.Capacity() - i;
      assert NextN(a, ArrayIter(i + 1), n - 1) == Ok((a.slots[i + 1..], ArrayIter(a.Capacity())));
      assert NextN(a, ArrayIter(i), n) == Ok(([a.slots[i]] + a.slots[i + 1..], ArrayIter(a.Capacity())));
      assert a.slots[i..] == [a.slots[i]] + a.slots[i + 1..];
    } else {
      assert a.slots[i..] == [];
    }
  }
}
