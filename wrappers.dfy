/** A value that may be missing, and collecting the values that are present. */
module Wrappers {

  datatype Option<+T> = None | Some(value: T)

  /** The present values of `xs`, in order: what a loop that skips the failed
      items of a batch collects. */
  function Somes<T>(xs: seq<Option<T>>): (r: seq<T>)
    ensures |r| <= |xs|
    ensures forall y :: y in r ==> Some(y) in xs
  {
    if xs == [] then []
    else
      var earlier := Somes(xs[..|xs| - 1]);
      match xs[|xs| - 1]
      case None => earlier
      case Some(y) => earlier + [y]
  }

  /** A present value is never dropped, however many other items failed. */
  lemma {:induction false} SomesKeeps<T>(xs: seq<Option<T>>, y: T)
    requires Some(y) in xs
    ensures y in Somes(xs)
  {
    var n := |xs| - 1;
    if xs[n] != Some(y) {
      assert xs == xs[..n] + [xs[n]];
      SomesKeeps(xs[..n], y);
    }
  }

  /** When no item failed, nothing is skipped and the order is kept. */
  lemma {:induction false} SomesAllPresent<T>(xs: seq<Option<T>>)
    requires forall k :: 0 <= k < |xs| ==> xs[k].Some?
    ensures |Somes(xs)| == |xs|
    ensures forall k :: 0 <= k < |xs| ==> Somes(xs)[k] == xs[k].value
  {
    if xs != [] {
      var n := |xs| - 1;
      var init := xs[..n];
      assert forall k :: 0 <= k < n ==> init[k] == xs[k];
      SomesAllPresent(init);
      assert Somes(xs) == Somes(init) + [xs[n].value];
      forall k | 0 <= k < |xs| ensures Somes(xs)[k] == xs[k].value {
        if k < n {
          assert Somes(xs)[k] == Somes(init)[k];
        }
      }
    }
  }

  /** Collecting over two batches one after the other collects over the first,
      then over the second: the order of the present values is kept. */
  lemma {:induction false} SomesAppend<T>(a: seq<Option<T>>, b: seq<Option<T>>)
    ensures Somes(a + b) == Somes(a) + Somes(b)
  {
    if b == [] {
      assert a + b == a;
    } else {
      var n := |b| - 1;
      assert (a + b)[..|a + b| - 1] == a + b[..n];
      SomesAppend(a, b[..n]);
    }
  }
}
