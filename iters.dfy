// The cycling adapter of display.show(..., loop=True) (iters.c): an iterator
// that walks any object with a length and a subscript, starting again at the
// first element after the last, forever.

module Iters {
  import opened Wrappers

  /** Subscripting element 0 of an empty iterable raises an IndexError. */
  datatype IterError = IndexOutOfRange

  /** The index after one call: one further, or back to 0 once it reaches the
    * length read at that call. */
  function NextIndex(index: int, len: nat): (r: int)
    ensures len > 0 && -1 <= index ==> 0 <= r < len
    ensures r == index + 1 || r == 0
  {
    if index + 1 >= len then 0 else index + 1
  }

  /** The index after k calls on an iterable of constant length, starting from -1. */
  function IndexAfter(len: nat, k: nat): (r: int)
    ensures k > 0 && len > 0 ==> 0 <= r < len
    ensures k == 0 ==> r == -1
  {
    if k == 0 then -1 else NextIndex(IndexAfter(len, k - 1), len)
  }

  lemma MulAtLeastOnce(a: int, d: int)
    requires a >= 1 && d > 0
    ensures a * d >= d
  {
    assert a * d == (a - 1) * d + d;
  }

  /** Euclidean division is unique: a quotient and remainder in range are
    * those of / and %. */
  lemma DivModUnique(n: int, d: int, q: int, r: int)
    requires d > 0 && n == q * d + r && 0 <= r < d
    ensures n % d == r
  {
    var q0, r0 := n / d, n % d;
    assert (q0 - q) * d == r - r0;
    if q0 > q {
      MulAtLeastOnce(q0 - q, d);
    } else if q0 < q {
      MulAtLeastOnce(q - q0, d);
    }
  }

  /** The k-th call (counting from 1) reads element (k - 1) mod len: the
    * elements come out as 0, 1, ..., len - 1, 0, 1, ... */
  lemma {:induction false} IndexAfterCycles(len: nat, k: nat)
    requires len > 0 && k > 0
    ensures IndexAfter(len, k) == (k - 1) % len
  {
    if k > 1 {
      IndexAfterCycles(len, k - 1);
      ModSucc(k - 2, len);
    }
  }

  /** The remainder of n + 1 is one more than that of n, or 0 past d - 1. */
  lemma ModSucc(n: int, d: int)
    requires d > 0
    ensures (n + 1) % d == if n % d + 1 == d then 0 else n % d + 1
  {
    var q, r := n / d, n % d;
    assert n == q * d + r;
    if r + 1 == d {
      assert n + 1 == (q + 1) * d + 0;
      DivModUnique(n + 1, d, q + 1, 0);
    } else {
      DivModUnique(n + 1, d, q, r + 1);
    }
  }

  /** repeat_iterator_t: the wrapped iterable and the index of the element
    * last returned. */
  class RepeatIterator {
    var index: int

    /** The index is -1 before the first call and an element index after it. */
    predicate Valid()
      reads this
    {
      -1 <= index
    }

    /** bitsflow_repeat_iterator: index -1, so that the first call reads element 0. */
    constructor ()
      ensures Valid() && index == -1
    {
      index := -1;
    }

    /** bitsflow_repeat_iter_next: the length is read again on every call
      * (items is the iterable's content at the time of the call); the call
      * never ends the iteration, and only subscripting an empty iterable raises. */
    method Next<T>(items: seq<T>) returns (r: Result<T, IterError>)
      requires Valid()
      modifies this
      ensures Valid() && index == NextIndex(old(index), |items|)
      ensures |items| == 0 ==> index == 0 && r == Err(IndexOutOfRange)
      ensures |items| > 0 ==> 0 <= index < |items| && r == Ok(items[index])
    {
      index := index + 1;
      if index >= |items| {
        index := 0;
      }
      if 0 <= index < |items| {
        r := Ok(items[index]);
      } else {
        r := Err(IndexOutOfRange);
      }
    }
  }
}
