/** The shape both file-to-file drivers share: a loop over the read
    outcomes that handles each item on its own and either writes one record
    for it or skips it.  `Collect` is that loop as a fold; the lemmas say
    which items survive and in what order. */
module Pipeline {
  import opened Wrappers

  function Emit<B>(o: Option<B>): seq<B>
  {
    match o
    case Some(b) => [b]
    case None => []
  }

  /** What the loop leaves behind after handling `xs` in order with `f`:
      one result for every item `f` does not skip. */
  function Collect<A, B>(xs: seq<A>, f: A -> Option<B>): (r: seq<B>)
    ensures |r| <= |xs|
    decreases |xs|
  {
    if |xs| == 0 then [] else Collect(xs[..|xs| - 1], f) + Emit(f(xs[|xs| - 1]))
  }

  /** One more pass of the loop: handling the next item appends its result,
      if any, to what was already written. */
  lemma CollectNext<A, B>(xs: seq<A>, i: nat, f: A -> Option<B>)
    requires i < |xs|
    ensures Collect(xs[..i + 1], f) == Collect(xs[..i], f) + Emit(f(xs[i]))
  {
    assert xs[..i + 1][..i] == xs[..i];
  }

  /** Items are handled independently: the output for a concatenation of
      inputs is the concatenation of their outputs. */
  lemma {:induction false} CollectAppend<A, B>(xs: seq<A>, ys: seq<A>, f: A -> Option<B>)
    ensures Collect(xs + ys, f) == Collect(xs, f) + Collect(ys, f)
    decreases |ys|
  {
    if |ys| == 0 {
      assert xs + ys == xs;
    } else {
      var ys' := ys[..|ys| - 1];
      assert (xs + ys)[..|xs + ys| - 1] == xs + ys';
      assert (xs + ys)[|xs + ys| - 1] == ys[|ys| - 1];
      CollectAppend(xs, ys', f);
    }
  }

  /** The input positions of the items `f` does not skip, in order. */
  function Survivors<A, B>(xs: seq<A>, f: A -> Option<B>): seq<nat>
    decreases |xs|
  {
    if |xs| == 0 then [] else
      var n := |xs| - 1;
      Survivors(xs[..n], f) + (if f(xs[n]).Some? then [n] else [])
  }

  lemma {:induction false} SurvivorsShape<A, B>(xs: seq<A>, f: A -> Option<B>)
    ensures |Survivors(xs, f)| == |Collect(xs, f)|
    ensures forall k :: 0 <= k < |Survivors(xs, f)| ==> Survivors(xs, f)[k] < |xs|
    ensures forall j, k :: 0 <= j < k < |Survivors(xs, f)| ==> Survivors(xs, f)[j] < Survivors(xs, f)[k]
    decreases |xs|
  {
    if |xs| != 0 {
      var n := |xs| - 1;
      var prev, idx := Survivors(xs[..n], f), Survivors(xs, f);
      SurvivorsShape(xs[..n], f);
      forall j, k | 0 <= j < k < |idx|
        ensures idx[j] < idx[k]
      {
        assert idx[j] == prev[j];
        if k < |prev| {
          assert idx[k] == prev[k];
        }
      }
    }
  }

  lemma {:induction false} SurvivorsResults<A, B>(xs: seq<A>, f: A -> Option<B>)
    ensures |Survivors(xs, f)| == |Collect(xs, f)|
    ensures forall k :: 0 <= k < |Survivors(xs, f)| ==>
              Survivors(xs, f)[k] < |xs| && f(xs[Survivors(xs, f)[k]]) == Some(Collect(xs, f)[k])
    decreases |xs|
  {
    SurvivorsShape(xs, f);
    if |xs| != 0 {
      var n := |xs| - 1;
      var init := xs[..n];
      var prev, idx := Survivors(init, f), Survivors(xs, f);
      var out, before := Collect(xs, f), Collect(init, f);
      SurvivorsResults(init, f);
      forall k | 0 <= k < |idx|
        ensures idx[k] < |xs| && f(xs[idx[k]]) == Some(out[k])
      {
        if k < |prev| {
          assert idx[k] == prev[k] && out[k] == before[k];
          assert init[prev[k]] == xs[prev[k]];
        } else {
          assert idx[k] == n && out[k] == f(xs[n]).value;
        }
      }
    }
  }

  lemma {:induction false} SurvivorsComplete<A, B>(xs: seq<A>, f: A -> Option<B>)
    ensures forall i :: 0 <= i < |xs| && f(xs[i]).Some? ==> i in Survivors(xs, f)
    decreases |xs|
  {
    if |xs| != 0 {
      var n := |xs| - 1;
      var init := xs[..n];
      SurvivorsComplete(init, f);
      forall i | 0 <= i < |xs| && f(xs[i]).Some?
        ensures i in Survivors(xs, f)
      {
        if i < n {
          assert init[i] == xs[i];
          assert i in Survivors(init, f);
        }
      }
    }
  }

  /** The output is exactly the results of the items that were not skipped,
      in input order: position `k` of the output comes from input position
      `idx[k]`, the positions increase, and every item that was not skipped
      has its position in `idx`. */
  lemma CollectIndices<A, B>(xs: seq<A>, f: A -> Option<B>) returns (idx: seq<nat>)
    ensures |idx| == |Collect(xs, f)|
    ensures forall j, k :: 0 <= j < k < |idx| ==> idx[j] < idx[k]
    ensures forall k :: 0 <= k < |idx| ==> idx[k] < |xs| && f(xs[idx[k]]) == Some(Collect(xs, f)[k])
    ensures forall i :: 0 <= i < |xs| && f(xs[i]).Some? ==> i in idx
  {
    idx := Survivors(xs, f);
    SurvivorsShape(xs, f);
    SurvivorsResults(xs, f);
    SurvivorsComplete(xs, f);
  }

  /** A loop that skips at least the items a second loop skips writes at
      most as many records. */
  lemma {:induction false} CollectShrinks<A, B, C>(xs: seq<A>, f: A -> Option<B>, g: A -> Option<C>)
    requires forall x :: f(x).Some? ==> g(x).Some?
    ensures |Collect(xs, f)| <= |Collect(xs, g)|
    decreases |xs|
  {
    if |xs| != 0 {
      CollectShrinks(xs[..|xs| - 1], f, g);
    }
  }
}
