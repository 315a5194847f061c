/** The doubly linked list over `Node`. The Java heap is a map from `Ref` to
    node; allocating a node takes the next unused reference. The structural
    invariant `Valid` says the `size` nodes reached from `head` by `next`
    form a duplicate-free chain ending at `tail`, with every `prev` link the
    mirror image of a `next` link. */
module DoublyLinkedList {
  import opened Common
  import opened Nodes

  /** `heap` holds every node ever allocated (unlinked ones included);
      `free` is the reference the next `new Node` receives. */
  datatype LinkedList<T> = LinkedList(
    heap: map<Ref, Node<T>>,
    head: Option<Ref>,
    tail: Option<Ref>,
    size: nat,
    free: Ref)

  /** The references met by following `next` from `cur`, at most `n` of them,
      stopping early at a null or dangling link. */
  function Walk<T>(heap: map<Ref, Node<T>>, cur: Option<Ref>, n: nat): seq<Ref>
    decreases n
  {
    if n == 0 || cur.None? || cur.value !in heap then []
    else [cur.value] + Walk(heap, heap[cur.value].next, n - 1)
  }

  /** The references met by following `prev` from `cur`, at most `n` of them. */
  function WalkBack<T>(heap: map<Ref, Node<T>>, cur: Option<Ref>, n: nat): seq<Ref>
    decreases n
  {
    if n == 0 || cur.None? || cur.value !in heap then []
    else [cur.value] + WalkBack(heap, heap[cur.value].prev, n - 1)
  }

  /** The chain the list's `size` counts: `size` steps forward from `head`. */
  function Spine<T>(l: LinkedList<T>): seq<Ref>
  {
    Walk(l.heap, l.head, l.size)
  }

  /** `s` is a well-formed chain for `l`: `size` distinct allocated nodes,
      `head` and `tail` at its ends (both null iff it is empty), and each
      node's `next` and `prev` naming its neighbours in `s`. */
  ghost predicate Linked<T>(l: LinkedList<T>, s: seq<Ref>)
  {
    && |s| == l.size
    && (forall k :: k in l.heap ==> k < l.free)
    && (forall i :: 0 <= i < |s| ==> s[i] in l.heap)
    && (forall i, j :: 0 <= i < j < |s| ==> s[i] != s[j])
    && l.head == (if |s| == 0 then None else Some(s[0]))
    && l.tail == (if |s| == 0 then None else Some(s[|s| - 1]))
    && (forall i :: 0 <= i < |s| - 1 ==> l.heap[s[i]].next == Some(s[i + 1]))
    && (|s| > 0 ==> l.heap[s[|s| - 1]].next == None)
    && (forall i :: 0 < i < |s| ==> l.heap[s[i]].prev == Some(s[i - 1]))
    && (|s| > 0 ==> l.heap[s[0]].prev == None)
  }

  /** The class invariant: the list's own spine is a well-formed chain. */
  ghost predicate Valid<T>(l: LinkedList<T>)
  {
    Linked(l, Spine(l))
  }

  /** The elements, head to tail. */
  function Contents<T>(l: LinkedList<T>): (c: seq<Option<T>>)
    requires Valid(l)
    ensures |c| == l.size
  {
    var s := Spine(l);
    seq(|s|, i requires 0 <= i < |s| => l.heap[s[i]].data)
  }

  lemma {:induction false} WalkFrom<T>(l: LinkedList<T>, s: seq<Ref>, i: nat)
    requires Linked(l, s) && i <= |s|
    ensures Walk(l.heap, if i < |s| then Some(s[i]) else None, |s| - i) == s[i..]
    decreases |s| - i
  {
    if i < |s| {
      WalkFrom(l, s, i + 1);
      assert s[i..] == [s[i]] + s[i + 1..];
    }
  }

  /** Any well-formed chain is the one walking from `head` finds, so a list
      with one is `Valid` and that chain is its spine. */
  lemma SpineOfLinked<T>(l: LinkedList<T>, s: seq<Ref>)
    requires Linked(l, s)
    ensures Spine(l) == s && Valid(l)
  {
    WalkFrom(l, s, 0);
  }

  lemma {:induction false} WalkBackFrom<T>(l: LinkedList<T>, s: seq<Ref>, i: nat)
    requires Linked(l, s) && i <= |s|
    ensures WalkBack(l.heap, if i > 0 then Some(s[i - 1]) else None, i) == Reversed(s[..i])
    decreases i
  {
    if i > 0 {
      WalkBackFrom(l, s, i - 1);
      assert s[..i - 1] == s[..i][..i - 1];
    }
  }

  /** One step past the end of a well-formed chain meets the null link, so
      walking more than `size` steps finds no further node. */
  lemma {:induction false} WalkPastEnd<T>(l: LinkedList<T>, s: seq<Ref>, i: nat)
    requires Linked(l, s) && i <= |s|
    ensures Walk(l.heap, if i < |s| then Some(s[i]) else None, |s| - i + 1) == s[i..]
    decreases |s| - i
  {
    if i < |s| {
      WalkPastEnd(l, s, i + 1);
      assert s[i..] == [s[i]] + s[i + 1..];
    }
  }

  /** The structural invariant in the source's own words: `head`, `tail` and
      `size == 0` are null together, exactly `size` nodes are reachable from
      `head` by `next` (the walk ends at `tail`, whose `next` is null) and,
      in reverse order, from `tail` by `prev`, and every forward link is
      mirrored by a backward one. */
  lemma StructuralInvariant<T>(l: LinkedList<T>)
    requires Valid(l)
    ensures l.head.None? <==> l.size == 0
    ensures l.tail.None? <==> l.size == 0
    ensures |Spine(l)| == l.size
    ensures Walk(l.heap, l.head, l.size + 1) == Spine(l)
    ensures l.size > 0 ==> l.tail.value in l.heap && l.heap[l.tail.value].next == None
    ensures l.size > 0 ==> l.head.value in l.heap && l.heap[l.head.value].prev == None
    ensures WalkBack(l.heap, l.tail, l.size) == Reversed(Spine(l))
    ensures forall n :: n in Spine(l) && l.heap[n].next.Some? ==>
      l.heap[n].next.value in l.heap && l.heap[l.heap[n].next.value].prev == Some(n)
    ensures forall n :: n in Spine(l) && l.heap[n].prev.Some? ==>
      l.heap[n].prev.value in l.heap && l.heap[l.heap[n].prev.value].next == Some(n)
  {
    var s := Spine(l);
    WalkPastEnd(l, s, 0);
    WalkBackFrom(l, s, |s|);
    assert s[..|s|] == s;
    forall n | n in s && l.heap[n].next.Some?
      ensures l.heap[n].next.value in l.heap && l.heap[l.heap[n].next.value].prev == Some(n)
    {
      var i :| 0 <= i < |s| && s[i] == n;
      assert i + 1 < |s|;
      assert l.heap[s[i + 1]].prev == Some(s[i]);
    }
    forall n | n in s && l.heap[n].prev.Some?
      ensures l.heap[n].prev.value in l.heap && l.heap[l.heap[n].prev.value].next == Some(n)
    {
      var i :| 0 <= i < |s| && s[i] == n;
      assert 0 < i;
      assert l.heap[s[i - 1]].next == Some(s[i]);
    }
  }

  /** The constructor: an empty list. */
  function Empty<T>(): (l: LinkedList<T>)
    ensures Valid(l) && Contents(l) == []
    ensures l.size == 0 && l.head.None? && l.tail.None?
  {
    var l := LinkedList(map[], None, None, 0, 0);
    SpineOfLinked(l, []);
    l
  }

  /** `clear`: the list forgets its chain; the unlinked nodes stay in the
      heap, unreachable. */
  function Clear<T>(l: LinkedList<T>): (r: LinkedList<T>)
    requires Valid(l)
    ensures Valid(r) && Contents(r) == []
    ensures r.size == 0 && r.head.None? && r.tail.None?
  {
    var r := LinkedList(l.heap, None, None, 0, l.free);
    SpineOfLinked(r, []);
    r
  }

  function Size<T>(l: LinkedList<T>): (r: nat)
    requires Valid(l)
    ensures r == |Contents(l)|
  {
    l.size
  }

  function IsEmpty<T>(l: LinkedList<T>): (r: bool)
    requires Valid(l)
    ensures r <==> Contents(l) == []
  {
    l.size == 0
  }

  /** `validateIndex`: answers true for a position of an element, throws
      otherwise. */
  function ValidateIndex<T>(l: LinkedList<T>, index: int): (r: Result<bool>)
    requires Valid(l)
    ensures r.Ok? <==> 0 <= index < |Contents(l)|
    ensures r.Ok? ==> r.value
    ensures r.Err? ==> r.error == IndexOutOfBounds
  {
    if index < 0 || index >= l.size then Err(IndexOutOfBounds) else Ok(true)
  }

  /** `addFirst(e)`: a new node in front of the old head. */
  function AddFirst<T>(l: LinkedList<T>, e: Option<T>): (r: LinkedList<T>)
    requires Valid(l)
    ensures Valid(r)
    ensures Contents(r) == [e] + Contents(l)
    ensures r.size == l.size + 1
  {
    var s := Spine(l);
    var n := l.free;
    var heap := l.heap[n := Node(e, None, l.head)];
    var r :=
      if l.size == 0 then LinkedList(heap, Some(n), Some(n), 1, n + 1)
      else LinkedList(heap[l.head.value := SetPrev(heap[l.head.value], Some(n))],
                      Some(n), l.tail, l.size + 1, n + 1);
    assert Linked(r, [n] + s);
    SpineOfLinked(r, [n] + s);
    r
  }

  /** `addLast(e)`: a new node after the old tail. */
  function AddLast<T>(l: LinkedList<T>, e: Option<T>): (r: LinkedList<T>)
    requires Valid(l)
    ensures Valid(r)
    ensures Contents(r) == Contents(l) + [e]
    ensures r.size == l.size + 1
  {
    var s := Spine(l);
    var n := l.free;
    var heap := l.heap[n := Node(e, l.tail, None)];
    var r :=
      if l.size == 0 then LinkedList(heap, Some(n), Some(n), 1, n + 1)
      else LinkedList(heap[l.tail.value := SetNext(heap[l.tail.value], Some(n))],
                      l.head, Some(n), l.size + 1, n + 1);
    assert Linked(r, s + [n]);
    SpineOfLinked(r, s + [n]);
    r
  }

  /** `add(e)`: the same as `addLast(e)`. */
  function Add<T>(l: LinkedList<T>, e: Option<T>): (r: LinkedList<T>)
    requires Valid(l)
    ensures Valid(r)
    ensures Contents(r) == Contents(l) + [e]
    ensures r.size == l.size + 1
  {
    AddLast(l, e)
  }

  /** `peekFirst`: the head's payload; throws on an empty list. */
  function PeekFirst<T>(l: LinkedList<T>): (r: Result<Option<T>>)
    requires Valid(l)
    ensures r.Err? <==> Contents(l) == []
    ensures r.Err? ==> r.error == NoSuchElement
    ensures r.Ok? ==> r.value == Contents(l)[0]
  {
    if l.size == 0 then Err(NoSuchElement) else Ok(l.heap[l.head.value].data)
  }

  /** `peekLast`: the tail's payload; throws on an empty list. */
  function PeekLast<T>(l: LinkedList<T>): (r: Result<Option<T>>)
    requires Valid(l)
    ensures r.Err? <==> Contents(l) == []
    ensures r.Err? ==> r.error == NoSuchElement
    ensures r.Ok? ==> r.value == Contents(l)[|Contents(l)| - 1]
  {
    if l.size == 0 then Err(NoSuchElement) else Ok(l.heap[l.tail.value].data)
  }

  /** `removeFirst`: `head` moves to its successor, whose back link is cut;
      when the list empties `tail` becomes null instead. */
  function RemoveFirst<T>(l: LinkedList<T>): (r: Result<(Option<T>, LinkedList<T>)>)
    requires Valid(l)
    ensures r.Err? <==> Contents(l) == []
    ensures r.Err? ==> r.error == NoSuchElement
    ensures r.Ok? ==>
      var (v, l') := r.value;
      && Valid(l') && v == Contents(l)[0] && Contents(l') == Contents(l)[1..]
      && l'.size == l.size - 1 && (l'.size == 0 ==> l'.head.None? && l'.tail.None?)
  {
    if l.size == 0 then Err(NoSuchElement)
    else
      var s := Spine(l);
      var h := l.head.value;
      var head := l.heap[h].next;
      assert l.size > 1 ==> head == Some(s[1]);
      var r :=
        if l.size - 1 == 0 then LinkedList(l.heap, head, None, 0, l.free)
        else LinkedList(l.heap[head.value := SetPrev(l.heap[head.value], None)],
                        head, l.tail, l.size - 1, l.free);
      assert Linked(r, s[1..]);
      SpineOfLinked(r, s[1..]);
      Ok((l.heap[h].data, r))
  }

  /** `removeLast`: `tail` moves to its predecessor, whose forward link is
      cut; when the list empties `head` becomes null instead. */
  function RemoveLast<T>(l: LinkedList<T>): (r: Result<(Option<T>, LinkedList<T>)>)
    requires Valid(l)
    ensures r.Err? <==> Contents(l) == []
    ensures r.Err? ==> r.error == NoSuchElement
    ensures r.Ok? ==>
      var (v, l') := r.value;
      && Valid(l') && v == Contents(l)[|Contents(l)| - 1]
      && Contents(l') == Contents(l)[..|Contents(l)| - 1]
      && l'.size == l.size - 1 && (l'.size == 0 ==> l'.head.None? && l'.tail.None?)
  {
    if l.size == 0 then Err(NoSuchElement)
    else
      var s := Spine(l);
      var t := l.tail.value;
      var tail := l.heap[t].prev;
      assert l.size > 1 ==> tail == Some(s[|s| - 2]);
      var r :=
        if l.size - 1 == 0 then LinkedList(l.heap, None, tail, 0, l.free)
        else LinkedList(l.heap[tail.value := SetNext(l.heap[tail.value], None)],
                        l.head, tail, l.size - 1, l.free);
      assert Linked(r, s[..|s| - 1]);
      SpineOfLinked(r, s[..|s| - 1]);
      Ok((l.heap[t].data, r))
  }

  /** The interior branch of the private `remove(node)`: the predecessor's
      `next` and the successor's `prev` skip over `n`. */
  function Splice<T>(l: LinkedList<T>, n: Ref): (r: LinkedList<T>)
    requires n in l.heap && l.heap[n].prev.Some? && l.heap[n].next.Some?
    requires l.heap[n].prev.value in l.heap && l.heap[n].next.value in l.heap
    requires l.size > 0
  {
    var p := l.heap[n].prev.value;
    var x := l.heap[n].next.value;
    var heap := l.heap[p := SetNext(l.heap[p], Some(x))];
    LinkedList(heap[x := SetPrev(heap[x], Some(p))], l.head, l.tail, l.size - 1, l.free)
  }

  lemma SpliceLinked<T>(l: LinkedList<T>, s: seq<Ref>, k: nat)
    requires Linked(l, s) && 0 < k < |s| - 1
    ensures l.heap[s[k]].prev == Some(s[k - 1]) && l.heap[s[k]].next == Some(s[k + 1])
    ensures Linked(Splice(l, s[k]), s[..k] + s[k + 1..])
  {
  }

  /** Unlinking an interior node excises its element and keeps the list
      well formed. */
  lemma UnlinkInterior<T>(l: LinkedList<T>, n: Ref)
    requires Valid(l) && n in Spine(l) && l.head != Some(n) && l.tail != Some(n)
    ensures n in l.heap && l.heap[n].prev.Some? && l.heap[n].next.Some?
    ensures l.heap[n].prev.value in l.heap && l.heap[n].next.value in l.heap && l.size > 0
    ensures forall k :: 0 <= k < |Spine(l)| && Spine(l)[k] == n ==>
      && Valid(Splice(l, n)) && l.heap[n].data == Contents(l)[k]
      && Contents(Splice(l, n)) == Contents(l)[..k] + Contents(l)[k + 1..]
  {
    var s := Spine(l);
    var k :| 0 <= k < |s| && s[k] == n;
    SpliceLinked(l, s, k);
    var l' := Splice(l, n);
    var s' := s[..k] + s[k + 1..];
    SpineOfLinked(l', s');
    assert forall i :: 0 <= i < |s'| ==> s'[i] == if i < k then s[i] else s[i + 1];
    assert Contents(l') == Contents(l)[..k] + Contents(l)[k + 1..];
  }

  /** The private `remove(node)`: throws on a null handle, hands the head and
      the tail to `removeFirst`/`removeLast`, and splices any other node out. */
  function Unlink<T>(l: LinkedList<T>, node: Option<Ref>): (r: Result<(Option<T>, LinkedList<T>)>)
    requires Valid(l)
    requires node.Some? ==> node.value in Spine(l)
    ensures r.Err? <==> node.None?
    ensures r.Err? ==> r.error == NullPointer
    ensures r.Ok? ==> Valid(r.value.1) && r.value.1.size == l.size - 1
    ensures r.Ok? ==> forall k :: 0 <= k < |Spine(l)| && Spine(l)[k] == node.value ==>
      && r.value.0 == Contents(l)[k]
      && Contents(r.value.1) == Contents(l)[..k] + Contents(l)[k + 1..]
  {
    if node.None? then Err(NullPointer)
    else if node == l.head then RemoveFirst(l)
    else if node == l.tail then RemoveLast(l)
    else
      UnlinkInterior(l, node.value);
      Ok((l.heap[node.value].data, Splice(l, node.value)))
  }

  /** `removeAt(index)`: after `validateIndex`, walks `index` links from
      `head` and unlinks the node found there. */
  method RemoveAt<T>(l: LinkedList<T>, index: int) returns (r: Result<(Option<T>, LinkedList<T>)>)
    requires Valid(l)
    ensures r.Err? <==> !(0 <= index < |Contents(l)|)
    ensures r.Err? ==> r.error == IndexOutOfBounds
    ensures r.Ok? ==>
      && Valid(r.value.1) && r.value.0 == Contents(l)[index]
      && Contents(r.value.1) == Contents(l)[..index] + Contents(l)[index + 1..]
  {
    var valid := ValidateIndex(l, index);
    if valid.Err? {
      return Err(valid.error);
    }
    var cur := l.head;
    var i := 0;
    while i < index
      invariant 0 <= i <= index
      invariant cur == Some(Spine(l)[i])
    {
      cur := l.heap[cur.value].next;
      i := i + 1;
    }
    r := Unlink(l, cur);
  }

  /** `remove(x)`: walks from `head` to the first node whose payload equals
      `x` (`null` matches `null`) and unlinks it; reports whether it found one. */
  method Remove<T(==)>(l: LinkedList<T>, x: Option<T>) returns (removed: bool, r: LinkedList<T>)
    requires Valid(l)
    ensures Valid(r)
    ensures removed <==> x in Contents(l)
    ensures !removed ==> r == l
    ensures removed ==> r.size == l.size - 1
    ensures removed ==> forall k :: IsFirstIndex(Contents(l), x, k) ==>
      Contents(r) == Contents(l)[..k] + Contents(l)[k + 1..]
  {
    var cur := l.head;
    ghost var i := 0;
    while cur.Some?
      invariant 0 <= i <= l.size
      invariant cur == if i < l.size then Some(Spine(l)[i]) else None
      invariant x !in Contents(l)[..i]
      decreases l.size - i
    {
      if l.heap[cur.value].data == x {
        var unlinked := Unlink(l, cur);
        removed, r := true, unlinked.value.1;
        forall k | IsFirstIndex(Contents(l), x, k)
          ensures Contents(r) == Contents(l)[..k] + Contents(l)[k + 1..]
        {
          FirstIndexUnique(Contents(l), x, k, i);
        }
        return;
      }
      assert Contents(l)[..i + 1] == Contents(l)[..i] + [Contents(l)[i]];
      cur := l.heap[cur.value].next;
      i := i + 1;
    }
    assert Contents(l)[..i] == Contents(l);
    removed, r := false, l;
  }

  /** `indexOf(x)`: the position of the first payload equal to `x`
      (`null` matches `null`), or -1. */
  method IndexOf<T(==)>(l: LinkedList<T>, x: Option<T>) returns (r: int)
    requires Valid(l)
    ensures IsFirstIndex(Contents(l), x, r)
  {
    var cur := l.head;
    var i := 0;
    while i < l.size
      invariant 0 <= i <= l.size
      invariant cur == if i < l.size then Some(Spine(l)[i]) else None
      invariant x !in Contents(l)[..i]
    {
      if l.heap[cur.value].data == x {
        assert Contents(l)[i] == x;
        return i;
      }
      assert Contents(l)[..i + 1] == Contents(l)[..i] + [Contents(l)[i]];
      cur := l.heap[cur.value].next;
      i := i + 1;
    }
    assert Contents(l)[..i] == Contents(l);
    r := -1;
  }

  /** `contains(x)`: whether `indexOf(x)` found something. */
  method Contains<T(==)>(l: LinkedList<T>, x: Option<T>) returns (b: bool)
    requires Valid(l)
    ensures b <==> x in Contents(l)
  {
    var i := IndexOf(l, x);
    b := i != -1;
  }

  /** The list's iterator: the node the next call to `next()` reads. */
  datatype ListIter = ListIter(current: Option<Ref>)

  function Iterator<T>(l: LinkedList<T>): ListIter
  {
    ListIter(l.head)
  }

  function HasNext(it: ListIter): bool
  {
    it.current.Some?
  }

  function Next<T>(l: LinkedList<T>, it: ListIter): (r: Result<(Option<T>, ListIter)>)
    requires it.current.Some? ==> it.current.value in l.heap
    ensures r.Ok? <==> HasNext(it)
    ensures r.Err? ==> r.error == NoSuchElement
    ensures r.Ok? ==>
      r.value.0 == l.heap[it.current.value].data && r.value.1.current == l.heap[it.current.value].next
  {
    if !HasNext(it) then Err(NoSuchElement)
    else Ok((l.heap[it.current.value].data, ListIter(l.heap[it.current.value].next)))
  }

  /** The values `n` successive `next()` calls return, and the iterator after
      them; fails as soon as one of the calls throws. A dangling link, which
      a valid list never has, reads as a null dereference. */
  function NextN<T>(l: LinkedList<T>, it: ListIter, n: nat): Result<(seq<Option<T>>, ListIter)>
    decreases n
  {
    if n == 0 then Ok(([], it))
    else if it.current.Some? && it.current.value !in l.heap then Err(NullPointer)
    else match Next(l, it)
      case Err(e) => Err(e)
      case Ok((v, it')) =>
        match NextN(l, it', n - 1)
        case Err(e) => Err(e)
        case Ok((vs, last)) => Ok(([v] + vs, last))
  }

  /** A fresh iterator yields the contents head to tail, after which `next()`
      throws. */
  lemma {:induction false} IteratorYieldsContents<T>(l: LinkedList<T>)
    requires Valid(l)
    ensures NextN(l, Iterator(l), l.size) == Ok((Contents(l), ListIter(None)))
    ensures Next(l, ListIter(None)) == Err(NoSuchElement)
  {
    IterateFrom(l, 0);
    assert Contents(l)[0..] == Contents(l);
  }

  lemma {:induction false} IterateFrom<T>(l: LinkedList<T>, i: nat)
    requires Valid(l) && i <= l.size
    ensures NextN(l, ListIter(if i < l.size then Some(Spine(l)[i]) else None), l.size - i)
            == Ok((Contents(l)[i..], ListIter(None)))
    decreases l.size - i
  {
    var s := Spine(l);
    if i < l.size {
      IterateFrom(l, i + 1);
      var it := ListIter(Some(s[i]));
      var it' := ListIter(if i + 1 < l.size then Some(s[i + 1]) else None);
      assert Next(l, it) == Ok((Contents(l)[i], it'));
      assert NextN(l, it, l.size - i) == Ok(([Contents(l)[i]] + Contents(l)[i + 1..], ListIter(None)));
      assert Contents(l)[i..] == [Contents(l)[i]] + Contents(l)[i + 1..];
    } else {
      assert Contents(l)[i..] == [];
    }
  }

  /** addLast(1), addLast(2), addFirst(0) iterates as 0, 1, 2; removeLast
      then answers 2 and leaves 0, 1. */
  lemma ListScenario()
    ensures var l := AddFirst(AddLast(AddLast(Empty<int>(), Some(1)), Some(2)), Some(0));
            && Contents(l) == [Some(0), Some(1), Some(2)]
            && RemoveLast(l).Ok?
            && RemoveLast(l).value.0 == Some(2)
            && Contents(RemoveLast(l).value.1) == [Some(0), Some(1)]
  {
  }

  /** Adding at the front and removing from the front again gives the
      element back and restores the contents. */
  lemma AddFirstThenRemoveFirst<T>(l: LinkedList<T>, e: Option<T>)
    requires Valid(l)
    ensures RemoveFirst(AddFirst(l, e)).Ok?
    ensures RemoveFirst(AddFirst(l, e)).value.0 == e
    ensures Contents(RemoveFirst(AddFirst(l, e)).value.1) == Contents(l)
  {
  }

  /** Adding at the back and removing from the back again gives the element
      back and restores the contents. */
  lemma AddLastThenRemoveLast<T>(l: LinkedList<T>, e: Option<T>)
    requires Valid(l)
    ensures RemoveLast(AddLast(l, e)).Ok?
    ensures RemoveLast(AddLast(l, e)).value.0 == e
    ensures Contents(RemoveLast(AddLast(l, e)).value.1) == Contents(l)
  {
  }
}
