/**
 Sequence surgery used by the insertion and removal algorithms of topic.go:
 the tail-to-head bubbling that places a new sibling before or after the acting
 topic, and the in-place stable compaction that drops removed children.
 Each loop of the source is modelled by a method and proved equal to a
 declarative reference definition.
 */
module Splice {
  import opened Optional

  /** Index of the last element of `xs` that satisfies `f`: the element a
      scan from the tail meets first. */
  function LastMatch<T>(xs: seq<T>, f: T -> bool): (r: Option<nat>)
    ensures r.Some? ==> r.value < |xs| && f(xs[r.value])
    ensures r.Some? ==> forall j | r.value < j < |xs| :: !f(xs[j])
    ensures r.None? ==> forall j | 0 <= j < |xs| :: !f(xs[j])
    decreases |xs|
  {
    if |xs| == 0 then None
    else if f(xs[|xs| - 1]) then Some(|xs| - 1)
    else LastMatch(xs[..|xs| - 1], f)
  }

  /** The match found by a tail scan is unique: any index that satisfies `f`
      and has no satisfying element after it is that match. */
  lemma LastMatchUnique<T>(xs: seq<T>, f: T -> bool, j: nat)
    requires j < |xs| && f(xs[j])
    requires forall k | j < k < |xs| :: !f(xs[k])
    ensures LastMatch(xs, f) == Some(j)
  {
  }

  /** The tail scan looks only at the elements of `xs`: two tests that agree
      on them find the same match. */
  lemma {:induction false} LastMatchAgree<T>(xs: seq<T>, f: T -> bool, g: T -> bool)
    requires forall i | 0 <= i < |xs| :: f(xs[i]) == g(xs[i])
    ensures LastMatch(xs, f) == LastMatch(xs, g)
    decreases |xs|
  {
    if |xs| > 0 {
      var init := xs[..|xs| - 1];
      assert forall i | 0 <= i < |init| :: init[i] == xs[i];
      LastMatchAgree(init, f, g);
    }
  }

  function InsertAt<T>(xs: seq<T>, i: nat, x: T): (ys: seq<T>)
    requires i <= |xs|
    ensures |ys| == |xs| + 1 && ys[i] == x
    ensures forall k | 0 <= k < i :: ys[k] == xs[k]
    ensures forall k | i < k < |ys| :: ys[k] == xs[k - 1]
  {
    xs[..i] + [x] + xs[i..]
  }

  function RemoveAt<T>(ys: seq<T>, i: nat): (xs: seq<T>)
    requires i < |ys|
    ensures |xs| == |ys| - 1
    ensures forall k | 0 <= k < i :: xs[k] == ys[k]
    ensures forall k | i <= k < |xs| :: xs[k] == ys[k + 1]
  {
    ys[..i] + ys[i + 1..]
  }

  /** Inserting and then removing at the same slot gives the list back. */
  lemma RemoveInsert<T>(xs: seq<T>, i: nat, x: T)
    requires i <= |xs|
    ensures RemoveAt(InsertAt(xs, i, x), i) == xs
  {
    var ys := RemoveAt(InsertAt(xs, i, x), i);
    assert |ys| == |xs|;
    assert forall k | 0 <= k < |xs| :: ys[k] == xs[k];
  }

  /** Slot of the new element in a Before insertion: the position of the last
      anchor, or the head when there is none. */
  function BeforeSlot<T>(xs: seq<T>, f: T -> bool): (i: nat)
    ensures i <= |xs|
  {
    match LastMatch(xs, f)
    case Some(j) => j
    case None => 0
  }

  /** Slot of the new element in an After insertion: just past the last anchor,
      or the head when there is none. */
  function AfterSlot<T>(xs: seq<T>, f: T -> bool): (i: nat)
    ensures i <= |xs|
  {
    match LastMatch(xs, f)
    case Some(j) => j + 1
    case None => 0
  }

  /** `x` placed immediately before the last anchor of `xs`; with no anchor it
      ends up at the head. The other elements keep their order. */
  function InsertBefore<T>(xs: seq<T>, x: T, f: T -> bool): (ys: seq<T>)
    ensures |ys| == |xs| + 1
    ensures ys[BeforeSlot(xs, f)] == x
    ensures RemoveAt(ys, BeforeSlot(xs, f)) == xs
    ensures LastMatch(xs, f).Some? ==>
              ys[BeforeSlot(xs, f) + 1] == xs[LastMatch(xs, f).value]
    ensures LastMatch(xs, f).None? ==> ys == [x] + xs
  {
    RemoveInsert(xs, BeforeSlot(xs, f), x);
    InsertAt(xs, BeforeSlot(xs, f), x)
  }

  /** `x` placed immediately after the last anchor of `xs`; with no anchor it
      ends up at the head. The other elements keep their order. */
  function InsertAfter<T>(xs: seq<T>, x: T, f: T -> bool): (ys: seq<T>)
    ensures |ys| == |xs| + 1
    ensures ys[AfterSlot(xs, f)] == x
    ensures RemoveAt(ys, AfterSlot(xs, f)) == xs
    ensures LastMatch(xs, f).Some? ==>
              ys[AfterSlot(xs, f) - 1] == xs[LastMatch(xs, f).value]
    ensures LastMatch(xs, f).None? ==> ys == [x] + xs
  {
    RemoveInsert(xs, AfterSlot(xs, f), x);
    InsertAt(xs, AfterSlot(xs, f), x)
  }

  /** The Before loop of Add: append `x`, then swap it towards the head until
      the element it just passed satisfies `f`. */
  method BubbleBefore<T>(xs: seq<T>, x: T, f: T -> bool) returns (tps: seq<T>)
    ensures tps == InsertBefore(xs, x, f)
  {
    tps := xs + [x];
    var i := |tps| - 1;
    while i > 0
      invariant 0 <= i <= |xs|
      invariant tps == InsertAt(xs, i, x)
      invariant forall j | i <= j < |xs| :: !f(xs[j])
    {
      tps := tps[i := tps[i - 1]][i - 1 := tps[i]];
      if f(tps[i]) {
        LastMatchUnique(xs, f, i - 1);
        assert tps == InsertAt(xs, i - 1, x);
        break;
      }
      i := i - 1;
    }
  }

  /** The After loop of Add: append `x`, then swap it towards the head until
      the element in front of it satisfies `f`. */
  method BubbleAfter<T>(xs: seq<T>, x: T, f: T -> bool) returns (tps: seq<T>)
    ensures tps == InsertAfter(xs, x, f)
  {
    tps := xs + [x];
    var i := |tps| - 1;
    while i > 0
      invariant 0 <= i <= |xs|
      invariant tps == InsertAt(xs, i, x)
      invariant forall j | i <= j < |xs| :: !f(xs[j])
    {
      if f(tps[i - 1]) {
        LastMatchUnique(xs, f, i - 1);
        break;
      }
      tps := tps[i := tps[i - 1]][i - 1 := tps[i]];
      i := i - 1;
    }
  }

  /** The elements of `xs` that satisfy `keep`, in their original order. */
  function Filter<T>(xs: seq<T>, keep: T -> bool): (ys: seq<T>)
    ensures |ys| <= |xs|
    ensures forall k | 0 <= k < |ys| :: keep(ys[k])
    ensures |ys| == |xs| <==> forall j | 0 <= j < |xs| :: keep(xs[j])
    ensures |ys| == |xs| ==> ys == xs
    decreases |xs|
  {
    if |xs| == 0 then []
    else
      var init := xs[..|xs| - 1];
      var last := xs[|xs| - 1];
      assert xs == init + [last];
      Filter(init, keep) + (if keep(last) then [last] else [])
  }

  /** An element survives filtering exactly when it occurs in the input and
      is kept. */
  lemma {:induction false} FilterMembers<T>(xs: seq<T>, keep: T -> bool, x: T)
    ensures x in Filter(xs, keep) <==> x in xs && keep(x)
    decreases |xs|
  {
    if |xs| > 0 {
      var init := xs[..|xs| - 1];
      assert xs == init + [xs[|xs| - 1]];
      FilterMembers(init, keep, x);
    }
  }

  /** Every element of the output is an element of the input. */
  lemma FilterWithin<T>(xs: seq<T>, keep: T -> bool)
    ensures forall i | 0 <= i < |Filter(xs, keep)| :: Filter(xs, keep)[i] in xs
  {
    var ys := Filter(xs, keep);
    forall i | 0 <= i < |ys| ensures ys[i] in xs {
      FilterMembers(xs, keep, ys[i]);
    }
  }

  /** Filtering distributes over concatenation: whatever precedes a kept
      element in the input still precedes it in the output. */
  lemma {:induction false} FilterConcat<T>(a: seq<T>, b: seq<T>, keep: T -> bool)
    ensures Filter(a + b, keep) == Filter(a, keep) + Filter(b, keep)
    decreases |b|
  {
    if |b| == 0 {
      assert a + b == a;
    } else {
      var b' := b[..|b| - 1];
      var last := b[|b| - 1];
      assert (a + b)[..|a + b| - 1] == a + b';
      assert (a + b)[|a + b| - 1] == last;
      FilterConcat(a, b', keep);
    }
  }

  /** Extending the input by one element extends the output by that element
      exactly when it is kept. */
  lemma FilterSnoc<T>(xs: seq<T>, i: nat, keep: T -> bool)
    requires i < |xs|
    ensures Filter(xs[..i + 1], keep) ==
              Filter(xs[..i], keep) + (if keep(xs[i]) then [xs[i]] else [])
  {
    assert xs[..i + 1][..i] == xs[..i];
  }

  /** The removal loop of RemoveByID: kept elements are copied down to slot
      `cur`, the prefix `a[..cur]` is the surviving list. */
  method Compact<T>(xs: seq<T>, keep: T -> bool) returns (a: seq<T>, cur: nat)
    ensures |a| == |xs| && cur <= |xs|
    ensures a[..cur] == Filter(xs, keep)
  {
    a := xs;
    cur := 0;
    var i := 0;
    while i < |xs|
      invariant cur <= i <= |xs| && |a| == |xs|
      invariant a[..cur] == Filter(xs[..i], keep)
      invariant forall j | i <= j < |xs| :: a[j] == xs[j]
    {
      FilterSnoc(xs, i, keep);
      assert a[i] == xs[i];
      ghost var before := a[..cur];
      if keep(a[i]) {
        a := a[cur := a[i]];
        assert a[..cur + 1] == before + [xs[i]];
        cur := cur + 1;
      }
      i := i + 1;
    }
    assert xs[..i] == xs;
  }
}
