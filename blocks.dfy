/** The block operators the partition layer relies on. A `DataBlock` is one
    column's values for one partition; its kernels live in the block backend,
    which is not part of this model. Here a block is a sequence of values and
    each kernel the core calls is a small sequence function stating what the
    core expects of it. */
module Blocks {
  import opened Common

  /** One cell of a column. */
  datatype Value = Null | Bool(b: bool) | Int(i: int) | Str(s: string) | Obj(handle: nat)

  type Block = seq<Value>

  /** Every index is a valid row of a block with `n` rows. */
  predicate InRange(idx: seq<nat>, n: nat) {
    forall k :: 0 <= k < |idx| ==> idx[k] < n
  }

  /** `DataBlock.head(num)`: the first `num` rows (all of them when there are fewer). */
  function Head(b: Block, num: nat): (r: Block)
    ensures |r| == Min(num, |b|)
    ensures r <= b
  {
    b[..Min(num, |b|)]
  }

  /** `DataBlock.take(indices)`: the rows at the given positions, in the order given. */
  function Gather<T>(b: seq<T>, idx: seq<nat>): (r: seq<T>)
    requires InRange(idx, |b|)
    ensures |r| == |idx|
    ensures forall k :: 0 <= k < |idx| ==> r[k] == b[idx[k]]
  {
    seq(|idx|, k requires 0 <= k < |idx| => b[idx[k]])
  }

  lemma InRangeAppend(x: seq<nat>, y: seq<nat>, n: nat)
    requires InRange(x, n) && InRange(y, n)
    ensures InRange(x + y, n)
  {
    forall k | 0 <= k < |x + y| ensures (x + y)[k] < n {
      if k < |x| { assert (x + y)[k] == x[k]; } else { assert (x + y)[k] == y[k - |x|]; }
    }
  }

  lemma GatherAppend<T>(b: seq<T>, x: seq<nat>, y: seq<nat>)
    requires InRange(x, |b|) && InRange(y, |b|)
    ensures InRange(x + y, |b|)
    ensures Gather(b, x + y) == Gather(b, x) + Gather(b, y)
  {
    InRangeAppend(x, y, |b|);
  }

  /** `0, 1, ..., n - 1`. */
  function Range(n: nat): (r: seq<nat>)
    ensures |r| == n && forall k :: 0 <= k < n ==> r[k] == k
  {
    seq(n, k => k)
  }

  lemma GatherRange<T>(b: seq<T>)
    ensures InRange(Range(|b|), |b|) && Gather(b, Range(|b|)) == b
  {
  }

  /** Taking one index out of an index sequence takes its value out of the gather. */
  lemma GatherRemove<T>(b: seq<T>, y: seq<nat>, p: nat)
    requires InRange(y, |b|) && p < |y|
    ensures InRange(y[..p] + y[p + 1..], |b|)
    ensures multiset(y) == multiset(y[..p] + y[p + 1..]) + multiset([y[p]])
    ensures multiset(Gather(b, y)) == multiset(Gather(b, y[..p] + y[p + 1..])) + multiset([b[y[p]]])
  {
    var y1: seq<nat> := y[..p];
    var y2: seq<nat> := y[p + 1..];
    assert y == y1 + [y[p]] + y2;
    assert InRange(y1, |b|) && InRange(y2, |b|) by {
      forall k | 0 <= k < |y1| ensures y1[k] < |b| { assert y1[k] == y[k]; }
      forall k | 0 <= k < |y2| ensures y2[k] < |b| { assert y2[k] == y[p + 1 + k]; }
    }
    GatherPick(b, y1, y[p], y2);
  }

  lemma GatherPick<T>(b: seq<T>, y1: seq<nat>, v: nat, y2: seq<nat>)
    requires InRange(y1, |b|) && v < |b| && InRange(y2, |b|)
    ensures InRange(y1 + [v] + y2, |b|)
    ensures multiset(Gather(b, y1 + [v] + y2)) == multiset(Gather(b, y1 + y2)) + multiset([b[v]])
  {
    GatherAppend(b, y1, [v]);
    GatherAppend(b, y1 + [v], y2);
    GatherAppend(b, y1, y2);
    assert Gather(b, [v]) == [b[v]];
  }

  /** Gathering by two index sequences holding the same indices, each as often,
      gives the same values, each as often. */
  lemma {:induction false} GatherSameMultiset<T>(b: seq<T>, x: seq<nat>, y: seq<nat>)
    requires InRange(x, |b|) && InRange(y, |b|) && multiset(x) == multiset(y)
    ensures multiset(Gather(b, x)) == multiset(Gather(b, y))
  {
    if x == [] {
      assert |y| == |multiset(y)| == 0;
    } else {
      var n := |x| - 1;
      var v: nat := x[n];
      assert v in multiset(y);
      var p :| 0 <= p < |y| && y[p] == v;
      GatherRemove(b, x, n);
      GatherRemove(b, y, p);
      var x': seq<nat> := x[..n] + x[n + 1..];
      var y': seq<nat> := y[..p] + y[p + 1..];
      MultisetCancel(multiset(x'), multiset(y'), multiset([v]));
      GatherSameMultiset(b, x', y');
    }
  }

  lemma MultisetCancel<T>(a: multiset<T>, c: multiset<T>, m: multiset<T>)
    requires a + m == c + m
    ensures a == c
  {
    assert a == (a + m) - m;
    assert c == (c + m) - m;
  }

  /** A gather by a permutation of the rows keeps every value, each as often. */
  lemma PermutedGather<T>(b: seq<T>, idx: seq<nat>)
    requires multiset(idx) == multiset(Range(|b|))
    ensures InRange(idx, |b|) && multiset(Gather(b, idx)) == multiset(b)
  {
    forall k | 0 <= k < |idx| ensures idx[k] < |b| {
      assert idx[k] in multiset(Range(|b|));
    }
    GatherRange(b);
    GatherSameMultiset(b, idx, Range(|b|));
  }

  /** The positions below `n` where a mask block holds `True`, in increasing order. */
  function TruePositions(mask: Block, n: nat): (r: seq<nat>)
    ensures InRange(r, n) && InRange(r, |mask|)
    ensures forall k :: 0 <= k < |r| ==> mask[r[k]] == Bool(true)
    ensures forall k1, k2 :: 0 <= k1 < k2 < |r| ==> r[k1] < r[k2]
    ensures forall j :: 0 <= j < Min(n, |mask|) && mask[j] == Bool(true) ==> j in r
  {
    var m := Min(n, |mask|);
    if m == 0 then []
    else
      var p := TruePositions(mask[..m - 1], m - 1);
      if mask[m - 1] == Bool(true) then p + [m - 1] else p
  }

  /** `DataBlock.filter(mask)`: the rows whose mask entry is `True`, in order.
      Rows past the end of the mask are dropped. */
  function FilterBlock(b: Block, mask: Block): (r: Block)
  {
    Gather(b, TruePositions(mask, |b|))
  }

  /** `run_binary_operator(other, AND)` on two boolean blocks, row by row. */
  function AndBlocks(a: Block, c: Block): (r: Block)
    ensures |r| == Min(|a|, |c|)
    ensures forall i :: 0 <= i < |r| ==> (r[i] == Bool(true) <==> a[i] == Bool(true) && c[i] == Bool(true))
  {
    seq(Min(|a|, |c|), i requires 0 <= i < Min(|a|, |c|) => Bool(a[i] == Bool(true) && c[i] == Bool(true)))
  }

  /** `DataBlock.merge_blocks`: the blocks one after another, in order. */
  function Concat<T>(bs: seq<seq<T>>): (r: seq<T>)
  {
    if bs == [] then [] else Concat(bs[..|bs| - 1]) + bs[|bs| - 1]
  }

  lemma {:induction false} ConcatOne<T>(b: seq<T>)
    ensures Concat([b]) == b
  {
    assert [b][..0] == [];
  }

  /** The rows sent to bucket `i`: the positions `j` with `targets[j] == i`,
      in increasing order (so a bucket keeps the rows' relative order). */
  function Bucket(targets: seq<nat>, i: nat): (r: seq<nat>)
    ensures InRange(r, |targets|)
  {
    if targets == [] then []
    else
      var m := |targets| - 1;
      var p := Bucket(targets[..m], i);
      if targets[m] == i then p + [m] else p
  }

  /** A bucket holds exactly the rows aimed at it, in their original order. */
  lemma {:induction false} BucketMembers(targets: seq<nat>, i: nat)
    ensures forall k :: 0 <= k < |Bucket(targets, i)| ==> targets[Bucket(targets, i)[k]] == i
    ensures forall k1, k2 :: 0 <= k1 < k2 < |Bucket(targets, i)| ==> Bucket(targets, i)[k1] < Bucket(targets, i)[k2]
    ensures forall j :: 0 <= j < |targets| && targets[j] == i ==> j in Bucket(targets, i)
  {
    if targets != [] {
      var m := |targets| - 1;
      BucketMembers(targets[..m], i);
      var p := Bucket(targets[..m], i);
      assert InRange(p, m);
      forall j | 0 <= j < |targets| && targets[j] == i
        ensures j in Bucket(targets, i)
      {
        if j < m { assert targets[..m][j] == i; }
      }
      forall k | 0 <= k < |p| ensures targets[p[k]] == i {
        assert targets[..m][p[k]] == i;
      }
    }
  }

  /** `DataBlock.partition(n, targets)`: `n` blocks, row `j` landing in block
      `targets[j]`. A target outside `0..n` sends its row nowhere. */
  function PartitionBlock(b: Block, n: nat, targets: seq<nat>): (r: seq<Block>)
    requires |targets| == |b|
    ensures |r| == n
    ensures forall i :: 0 <= i < n ==> r[i] == Gather(b, Bucket(targets, i))
  {
    seq(n, i requires 0 <= i < n => Gather(b, Bucket(targets, i)))
  }

  /** The row order of the buckets `0..k` laid end to end. */
  function BucketOrder(targets: seq<nat>, k: nat): seq<nat>
  {
    if k == 0 then [] else BucketOrder(targets, k - 1) + Bucket(targets, k - 1)
  }

  /** Every position in bucket order is a row of the block. */
  lemma {:induction false} BucketOrderInRange(targets: seq<nat>, k: nat)
    ensures InRange(BucketOrder(targets, k), |targets|)
  {
    if k > 0 {
      BucketOrderInRange(targets, k - 1);
      InRangeAppend(BucketOrder(targets, k - 1), Bucket(targets, k - 1), |targets|);
    }
  }

  /** Position `x` occurs in bucket `i` once if row `x` is aimed at `i`, and
      not at all otherwise. */
  lemma {:induction false} BucketCount(targets: seq<nat>, i: nat, x: nat)
    ensures multiset(Bucket(targets, i))[x] == if x < |targets| && targets[x] == i then 1 else 0
  {
    if targets != [] {
      var m := |targets| - 1;
      BucketCount(targets[..m], i, x);
      if x < m {
        assert targets[..m][x] == targets[x];
      }
    }
  }

  /** Position `x` occurs in the buckets `0..k` once if row `x` is aimed below
      `k`, and not at all otherwise. */
  lemma {:induction false} BucketOrderCount(targets: seq<nat>, k: nat, x: nat)
    ensures multiset(BucketOrder(targets, k))[x] == if x < |targets| && targets[x] < k then 1 else 0
    decreases k, 1
  {
    if k > 0 {
      BucketOrderCountStep(targets, k, x);
    } else {
      assert BucketOrder(targets, k) == [];
    }
  }

  /** One more bucket adds the rows aimed at it. */
  lemma {:induction false} BucketOrderCountStep(targets: seq<nat>, k: nat, x: nat)
    requires k > 0
    ensures multiset(BucketOrder(targets, k))[x] == if x < |targets| && targets[x] < k then 1 else 0
    decreases k, 0
  {
    var a, b := BucketOrder(targets, k - 1), Bucket(targets, k - 1);
    BucketOrderCount(targets, k - 1, x);
    BucketCount(targets, k - 1, x);
    assert multiset(BucketOrder(targets, k)) == multiset(a) + multiset(b);
  }

  /** Position `x` occurs in `Range(n)` once if it is below `n`. */
  lemma {:induction false} RangeCount(n: nat, x: nat)
    ensures multiset(Range(n))[x] == if x < n then 1 else 0
  {
    if n > 0 {
      RangeCount(n - 1, x);
      assert Range(n) == Range(n - 1) + [n - 1];
    }
  }

  /** When every target names one of the `n` buckets, the buckets together hold
      every row exactly once. */
  lemma BucketOrderIsPermutation(targets: seq<nat>, n: nat)
    requires InRange(targets, n)
    ensures multiset(BucketOrder(targets, n)) == multiset(Range(|targets|))
    ensures |BucketOrder(targets, n)| == |targets|
  {
    var bo, rg := multiset(BucketOrder(targets, n)), multiset(Range(|targets|));
    forall x | x in bo || x in rg ensures bo[x] == rg[x] {
      BucketOrderCount(targets, n, x);
      RangeCount(|targets|, x);
    }
    assert bo == rg;
    assert |bo| == |rg|;
  }

  /** Laying the `k` first pieces of a partition end to end gives the rows of
      the block in bucket order. */
  lemma {:induction false} ConcatPieces(b: Block, n: nat, targets: seq<nat>, k: nat)
    requires |targets| == |b| && k <= n
    ensures InRange(BucketOrder(targets, k), |b|)
    ensures Concat(PartitionBlock(b, n, targets)[..k]) == Gather(b, BucketOrder(targets, k))
  {
    var pieces := PartitionBlock(b, n, targets);
    BucketOrderInRange(targets, k);
    if k > 0 {
      ConcatPieces(b, n, targets, k - 1);
      ConcatPrefix(pieces, k);
      GatherAppend(b, BucketOrder(targets, k - 1), Bucket(targets, k - 1));
    } else {
      assert pieces[..0] == [];
    }
  }

  /** The `k` first of a sequence of pieces laid end to end are the `k - 1`
      first followed by the `k`-th. */
  lemma ConcatPrefix<T>(ps: seq<seq<T>>, k: nat)
    requires 0 < k <= |ps|
    ensures Concat(ps[..k]) == Concat(ps[..k - 1]) + ps[k - 1]
  {
    assert ps[..k][..k - 1] == ps[..k - 1];
  }

  /** Splitting a block into `n` pieces and concatenating them again gives the
      original rows re-ordered by the permutation `BucketOrder(targets, n)`;
      that permutation depends on the targets only, so every column of a
      partition is re-ordered the same way. */
  lemma SplitThenConcat(b: Block, n: nat, targets: seq<nat>)
    requires |targets| == |b| && InRange(targets, n)
    ensures InRange(BucketOrder(targets, n), |b|)
    ensures Concat(PartitionBlock(b, n, targets)) == Gather(b, BucketOrder(targets, n))
    ensures multiset(BucketOrder(targets, n)) == multiset(Range(|b|))
    ensures |Concat(PartitionBlock(b, n, targets))| == |b|
  {
    ConcatPieces(b, n, targets, n);
    assert PartitionBlock(b, n, targets)[..n] == PartitionBlock(b, n, targets);
    BucketOrderIsPermutation(targets, n);
  }

  /** The target bucket of each row: its hash modulo `n` (numpy's `%` on a
      positive divisor, which is never negative, as Dafny's). */
  function HashTargets(h: seq<int>, n: nat): (r: seq<nat>)
    requires n > 0
    ensures |r| == |h| && InRange(r, n)
    ensures forall j :: 0 <= j < |h| ==> r[j] as int == h[j] % n
  {
    seq(|h|, j requires 0 <= j < |h| => (h[j] % n) as nat)
  }
}
