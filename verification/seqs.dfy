/** Sequences of blocks glued end to end, the shape of a list built by pushing
    one group of entries after another. */
module Seqs {
  /** The blocks concatenated in order. */
  function Flatten<T>(blocks: seq<seq<T>>): seq<T>
  {
    if |blocks| == 0 then [] else Flatten(blocks[..|blocks| - 1]) + blocks[|blocks| - 1]
  }

  /** Pushing one more block appends its entries. */
  lemma FlattenPush<T>(blocks: seq<seq<T>>, b: seq<T>)
    ensures Flatten(blocks + [b]) == Flatten(blocks) + b
  {
    assert (blocks + [b])[..|blocks|] == blocks;
  }

  lemma MulMonotone(a: int, b: int, k: nat)
    requires a <= b
    ensures a * k <= b * k
  {
  }

  /** Blocks of a common length `k` give `k` entries per block. */
  lemma {:induction false} FlattenLength<T>(blocks: seq<seq<T>>, k: nat)
    requires forall i :: 0 <= i < |blocks| ==> |blocks[i]| == k
    ensures |Flatten(blocks)| == |blocks| * k
  {
    if |blocks| > 0 {
      var n := |blocks|;
      FlattenLength(blocks[..n - 1], k);
      assert (n - 1) * k + k == n * k;
    }
  }

  /** With blocks of a common length `k`, block `d` sits at `[d * k, (d + 1) * k)`. */
  lemma {:induction false} FlattenBlock<T>(blocks: seq<seq<T>>, k: nat, d: nat)
    requires forall i :: 0 <= i < |blocks| ==> |blocks[i]| == k
    requires d < |blocks|
    ensures (d + 1) * k <= |Flatten(blocks)|
    ensures Flatten(blocks)[d * k..(d + 1) * k] == blocks[d]
  {
    var n := |blocks|;
    var prev := blocks[..n - 1];
    FlattenLength(blocks, k);
    FlattenLength(prev, k);
    MulMonotone(d + 1, n, k);
    assert Flatten(blocks) == Flatten(prev) + blocks[n - 1];
    if d < n - 1 {
      FlattenBlock(prev, k, d);
      MulMonotone(d + 1, n - 1, k);
      PrefixSlice(Flatten(prev), blocks[n - 1], d * k, (d + 1) * k);
    } else {
      SuffixSlice(Flatten(prev), blocks[n - 1]);
    }
  }

  lemma PrefixSlice<T>(s: seq<T>, t: seq<T>, i: nat, j: nat)
    requires i <= j <= |s|
    ensures (s + t)[i..j] == s[i..j]
  {
  }

  lemma SuffixSlice<T>(s: seq<T>, t: seq<T>)
    ensures (s + t)[|s|..] == t
  {
  }

  /** The elements that `keep` accepts, in their order. */
  function Filter<T>(xs: seq<T>, keep: T -> bool): (r: seq<T>)
    ensures |r| <= |xs|
  {
    if xs == [] then []
    else (if keep(xs[0]) then [xs[0]] else []) + Filter(xs[1..], keep)
  }

  /** An element is kept exactly when it is in the list and accepted. */
  lemma {:induction false} FilterMembers<T>(xs: seq<T>, keep: T -> bool)
    ensures forall x :: x in Filter(xs, keep) <==> x in xs && keep(x)
  {
    if xs != [] {
      FilterMembers(xs[1..], keep);
      assert xs == [xs[0]] + xs[1..];
    }
  }

  /** Filtering keeps order: the filter of two pieces is the two filters glued. */
  lemma {:induction false} FilterAppend<T>(xs: seq<T>, ys: seq<T>, keep: T -> bool)
    ensures Filter(xs + ys, keep) == Filter(xs, keep) + Filter(ys, keep)
  {
    if xs == [] {
      assert xs + ys == ys;
    } else {
      var zs := xs + ys;
      assert zs[0] == xs[0] && zs[1..] == xs[1..] + ys;
      FilterAppend(xs[1..], ys, keep);
      var k := if keep(xs[0]) then [xs[0]] else [];
      var u, v := Filter(xs[1..], keep), Filter(ys, keep);
      assert k + (u + v) == (k + u) + v;
    }
  }

  /** A filter that accepts every element keeps the whole list. */
  lemma {:induction false} FilterAll<T>(xs: seq<T>, keep: T -> bool)
    requires forall i :: 0 <= i < |xs| ==> keep(xs[i])
    ensures Filter(xs, keep) == xs
  {
    if xs != [] {
      assert keep(xs[0]);
      FilterAll(xs[1..], keep);
      assert xs == [xs[0]] + xs[1..];
    }
  }
  /** Nothing passes a filter no element satisfies. */
  lemma {:induction false} FilterNone<T>(xs: seq<T>, keep: T -> bool)
    requires forall i :: 0 <= i < |xs| ==> !keep(xs[i])
    ensures Filter(xs, keep) == []
  {
    if xs != [] {
      assert !keep(xs[0]);
      FilterNone(xs[1..], keep);
    }
  }

}
