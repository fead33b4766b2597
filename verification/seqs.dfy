/**
 * Generic sequence operations used by several parts of the model: keeping
 * the elements that satisfy a predicate, concatenating a list of lists, and
 * collecting optional values, stopping at the first missing one.
 */
module Seqs {
  import opened Outcomes

  /** The elements of `xs` that satisfy `p`, in their original order. */
  function Filter<T>(xs: seq<T>, p: T -> bool): (r: seq<T>)
    ensures |r| <= |xs|
    ensures forall i :: 0 <= i < |r| ==> p(r[i]) && r[i] in xs
    ensures forall i :: 0 <= i < |xs| && p(xs[i]) ==> xs[i] in r
    ensures (forall i :: 0 <= i < |xs| ==> p(xs[i])) ==> r == xs
  {
    if |xs| == 0 then []
    else if p(xs[0]) then [xs[0]] + Filter(xs[1..], p)
    else Filter(xs[1..], p)
  }

  /** The number of elements of `xs` that satisfy `p`. */
  function CountWhere<T>(xs: seq<T>, p: T -> bool): (n: nat)
    ensures n <= |xs|
  {
    if |xs| == 0 then 0
    else (if p(xs[0]) then 1 else 0) + CountWhere(xs[1..], p)
  }

  /**
   * A list function that handles the first element on its own distributes
   * over concatenation.
   */
  lemma {:induction false} ConcatFromCons<T, U>(f: seq<T> -> seq<U>, a: seq<T>, b: seq<T>)
    requires f([]) == []
    requires forall x, rest :: f([x] + rest) == f([x]) + f(rest)
    ensures f(a + b) == f(a) + f(b)
  {
    if |a| == 0 {
      assert a + b == b;
    } else {
      assert a + b == [a[0]] + (a[1..] + b);
      HeadTail(a);
      ConcatFromCons(f, a[1..], b);
    }
  }

  lemma {:induction false} FilterLength<T>(xs: seq<T>, p: T -> bool)
    ensures |Filter(xs, p)| == CountWhere(xs, p)
  {
    if |xs| > 0 {
      FilterLength(xs[1..], p);
    }
  }

  /** The lists of `xss` one after another. */
  function Flatten<T>(xss: seq<seq<T>>): seq<T>
  {
    if |xss| == 0 then [] else Flatten(xss[..|xss| - 1]) + xss[|xss| - 1]
  }

  /** The sum of the lengths of the lists of `xss`. */
  function TotalLength<T>(xss: seq<seq<T>>): nat
  {
    if |xss| == 0 then 0 else TotalLength(xss[..|xss| - 1]) + |xss[|xss| - 1]|
  }

  lemma {:induction false} FlattenLength<T>(xss: seq<seq<T>>)
    ensures |Flatten(xss)| == TotalLength(xss)
  {
    if |xss| > 0 {
      FlattenLength(xss[..|xss| - 1]);
    }
  }

  /**
   * All the values of `xs`, or the index of the first `None`: what a loop
   * that appends one value per element and raises on a failure leaves.
   */
  function AllSome<T>(xs: seq<Option<T>>): (r: Result<seq<T>, nat>)
    ensures r.Ok? <==> forall i :: 0 <= i < |xs| ==> xs[i].Some?
    ensures r.Ok? ==> |r.value| == |xs| && forall i :: 0 <= i < |xs| ==> xs[i] == Some(r.value[i])
    ensures r.Err? ==>
              && r.error < |xs|
              && xs[r.error].None?
              && forall i :: 0 <= i < r.error ==> xs[i].Some?
  {
    if |xs| == 0 then Ok([])
    else
      match xs[0]
      case None => Err(0)
      case Some(b) =>
        match AllSome(xs[1..])
        case Err(j) => Err(j + 1)
        case Ok(bs) => Ok([b] + bs)
  }

  /** A non-empty list is its first element followed by the rest. */
  lemma HeadTail<T>(xs: seq<T>)
    requires |xs| > 0
    ensures [xs[0]] + xs[1..] == xs
  {
  }
}
