/** The linked list's cell. Java object identity is modelled by `Ref`, an
    address into the list's heap; a null link is `None`. */
module Nodes {
  import opened Common

  type Ref = nat

  /** The constructor `Node(data, prev, next)` and the three getters are this
      datatype's constructor and destructors. */
  datatype Node<T> = Node(data: Option<T>, prev: Option<Ref>, next: Option<Ref>)

  /** `setData`: replaces the payload and keeps both links. */
  function SetData<T>(n: Node<T>, d: Option<T>): (r: Node<T>)
    ensures r.data == d
    ensures r.prev == n.prev && r.next == n.next
  {
    n.(data := d)
  }

  /** `setPrev`: replaces the back link and keeps payload and forward link. */
  function SetPrev<T>(n: Node<T>, p: Option<Ref>): (r: Node<T>)
    ensures r.prev == p
    ensures r.data == n.data && r.next == n.next
  {
    n.(prev := p)
  }

  /** `setNext`: replaces the forward link and keeps payload and back link. */
  function SetNext<T>(n: Node<T>, x: Option<Ref>): (r: Node<T>)
    ensures r.next == x
    ensures r.data == n.data && r.prev == n.prev
  {
    n.(next := x)
  }
}
