/** Shared vocabulary of the three containers: Java's nullable references,
    its exceptions, and the "first matching index" notion behind every indexOf. */
module Common {

  /** A nullable Java reference: `None` plays the role of `null`. */
  datatype Option<+T> = None | Some(value: T)

  /** The exceptions the containers throw. `ArrayIndexOutOfBounds` is a
      subclass of `IndexOutOfBounds` in Java; it is kept apart because it is
      raised by the raw buffer access rather than by an explicit check. */
  datatype Error =
    | IllegalArgument
    | IndexOutOfBounds
    | ArrayIndexOutOfBounds
    | NoSuchElement
    | NullPointer

  /** A call that either returns a value or throws. */
  datatype Result<+V> = Ok(value: V) | Err(error: Error)

  /** A call without a return value that either completes or throws. */
  datatype Outcome = Pass | Fail(error: Error)

  /** The state an operation leaves behind together with how it ended; used
      where the source mutates the object before it throws. */
  datatype Step<+S> = Step(state: S, outcome: Outcome)

  /** True iff IndexOf-style scanning of `s` for `x` must answer `r`:
      the smallest position holding `x`, or -1 when there is none. */
  ghost predicate IsFirstIndex<T>(s: seq<T>, x: T, r: int)
  {
    if x in s then 0 <= r < |s| && s[r] == x && x !in s[..r]
    else r == -1
  }

  /** The first-match answer is unique, so any two scans agree. */
  lemma FirstIndexUnique<T>(s: seq<T>, x: T, r1: int, r2: int)
    requires IsFirstIndex(s, x, r1) && IsFirstIndex(s, x, r2)
    ensures r1 == r2
  {
  }

  /** `s` back to front. */
  function Reversed<X>(s: seq<X>): (r: seq<X>)
    ensures |r| == |s|
    ensures forall i :: 0 <= i < |s| ==> r[i] == s[|s| - 1 - i]
  {
    if s == [] then [] else Reversed(s[1..]) + [s[0]]
  }

  /** Reversing twice restores the sequence. */
  lemma ReversedTwice<X>(s: seq<X>)
    ensures Reversed(Reversed(s)) == s
  {
  }
}
