/** Option and Result: absence and failure as values. */
module Wrappers {

  datatype Option<+T> = None | Some(value: T) {
    /** The wrapped value, or `default` when there is none (Python's `x or default`). */
    function GetOr(default: T): T {
      match this
      case Some(v) => v
      case None => default
    }
  }

  /** A computation that either produced a value or raised an exception. */
  datatype Result<+T, +E> = Ok(value: T) | Err(error: E) {
    predicate IsFailure() {
      Err?
    }

    function PropagateFailure<U>(): Result<U, E>
      requires Err?
    {
      Err(error)
    }

    function Extract(): T
      requires Ok?
    {
      value
    }
  }

  /** The values of the `Some`s, in order. */
  function Somes<T>(os: seq<Option<T>>): (r: seq<T>)
    ensures |r| <= |os|
    ensures forall i :: 0 <= i < |r| ==> Some(r[i]) in os
    decreases |os|
  {
    if |os| == 0 then []
    else
      var rest := Somes(os[1..]);
      if os[0].Some? then [os[0].value] + rest else rest
  }

  lemma {:induction false} SomesConcat<T>(a: seq<Option<T>>, b: seq<Option<T>>)
    ensures Somes(a + b) == Somes(a) + Somes(b)
    decreases |a|
  {
    if |a| == 0 {
      assert a + b == b;
    } else {
      assert (a + b)[0] == a[0];
      assert (a + b)[1..] == a[1..] + b;
      SomesConcat(a[1..], b);
    }
  }

  /** `[f(x) for x in xs]`. */
  function MapSeq<A, B>(xs: seq<A>, f: A -> B): (r: seq<B>)
    ensures |r| == |xs| && forall i :: 0 <= i < |xs| ==> r[i] == f(xs[i])
  {
    seq(|xs|, i requires 0 <= i < |xs| => f(xs[i]))
  }

  /** When every `Some` that `f` yields satisfies `P`, so does every value kept from mapping `f`. */
  lemma SomesOfMapSatisfy<A, B>(xs: seq<A>, f: A -> Option<B>, P: B -> bool)
    requires forall x :: f(x).Some? ==> P(f(x).value)
    ensures forall i :: 0 <= i < |Somes(MapSeq(xs, f))| ==> P(Somes(MapSeq(xs, f))[i])
  {
    var os := MapSeq(xs, f);
    var r := Somes(os);
    forall i | 0 <= i < |r|
      ensures P(r[i])
    {
      var j :| 0 <= j < |os| && os[j] == Some(r[i]);
      assert f(xs[j]) == Some(r[i]);
    }
  }

  /** The loop that keeps the values `f` yields, in order. */
  method CollectSomes<A, B>(xs: seq<A>, f: A -> Option<B>) returns (r: seq<B>)
    ensures r == Somes(MapSeq(xs, f))
  {
    r := [];
    var i := 0;
    while i < |xs|
      invariant 0 <= i <= |xs|
      invariant r == Somes(MapSeq(xs[..i], f))
    {
      assert xs[..i + 1] == xs[..i] + [xs[i]];
      MapSeqConcat(xs[..i], [xs[i]], f);
      SomesConcat(MapSeq(xs[..i], f), MapSeq([xs[i]], f));
      var o := f(xs[i]);
      assert MapSeq([xs[i]], f) == [o];
      assert [o][1..] == [];
      if o.Some? {
        r := r + [o.value];
      }
      i := i + 1;
    }
    assert xs[..i] == xs;
  }

  lemma MapSeqConcat<A, B>(a: seq<A>, b: seq<A>, f: A -> B)
    ensures MapSeq(a + b, f) == MapSeq(a, f) + MapSeq(b, f)
  {
    assert forall i :: 0 <= i < |a| ==> (a + b)[i] == a[i];
    assert forall i :: |a| <= i < |a + b| ==> (a + b)[i] == b[i - |a|];
  }

  lemma MapSeqPrefix<A, B>(xs: seq<A>, i: nat, f: A -> B)
    requires i <= |xs|
    ensures MapSeq(xs, f)[..i] == MapSeq(xs[..i], f)
  {
  }
}
