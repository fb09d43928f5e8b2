/** The shuffle primitives of `vPartition`: splitting a partition into `n`
    pieces by a target index per row, or by a hash of key columns, and merging
    pieces back into one partition. */
module Shuffle {
  import opened Common
  import opened Dicts
  import opened Blocks
  import opened Tiles
  import opened Partitions
  import Schema

  // ---------------------------------------------------------------------------
  // split_by_index

  /** The rows of a partition with `len` rows can be split by `targets`. */
  predicate Splittable(p: VPartition, targets: seq<nat>) {
    p.Invariant() && Length(p) == Ok(|targets|)
  }

  lemma SplittableColumns(p: VPartition, targets: seq<nat>)
    requires Splittable(p, targets)
    ensures forall k :: k in p.columns.keys ==> k in p.columns.items && |p.columns.items[k].block| == |targets|
  {
    forall k | k in p.columns.keys ensures k in p.columns.items {
      assert k in Elements(p.columns.keys);
    }
  }

  /** The columns piece `i` receives from the first `j` columns: each one's
      piece `i`, in the partition's column order. */
  function PieceColumns(p: VPartition, targets: seq<nat>, i: nat, j: nat): (d: Dict<ColID, Tile>)
    requires Splittable(p, targets) && j <= |p.columns.keys|
    ensures d.Valid() && d.keys == p.columns.keys[..j]
    ensures forall k :: k in d.items ==> k in p.columns.items && d.items[k] == Piece(p.columns.items[k], targets, i)
  {
    SplittableColumns(p, targets);
    var ks := p.columns.keys[..j];
    assert Distinct(ks);
    Dict(ks, map k | k in ks :: Piece(p.columns.items[k], targets, i))
  }

  /** Recording column `j`'s piece extends the piece by that column. */
  lemma PieceColumnsStep(p: VPartition, targets: seq<nat>, i: nat, j: nat)
    requires Splittable(p, targets) && j < |p.columns.keys|
    ensures p.columns.keys[j] in p.columns.items
    ensures Put(PieceColumns(p, targets, i, j), p.columns.keys[j], Piece(p.columns.items[p.columns.keys[j]], targets, i))
            == PieceColumns(p, targets, i, j + 1)
  {
    SplittableColumns(p, targets);
    var ks := p.columns.keys;
    assert ks[j] !in ks[..j];
    assert ks[..j + 1] == ks[..j] + [ks[j]];
  }

  /** `[vPartition(partition_id=i, columns=c) for i, c in enumerate(cs)]`,
      stopping at the first failure. */
  function BuildAll(cs: seq<Dict<ColID, Tile>>): (r: Result<seq<VPartition>>)
    requires forall i :: 0 <= i < |cs| ==> cs[i].Valid()
    ensures r.Ok? <==> forall i :: 0 <= i < |cs| ==> Construct(cs[i], i).Ok?
    ensures r.Ok? ==> |r.value| == |cs| && forall i :: 0 <= i < |cs| ==> r.value[i] == Construct(cs[i], i).value
  {
    if cs == [] then Ok([])
    else
      var n := |cs| - 1;
      assert forall i :: 0 <= i < n ==> cs[..n][i] == cs[i];
      var ps :- BuildAll(cs[..n]);
      var q :- Construct(cs[n], n);
      Ok(ps + [q])
  }

  /** `vPartition.split_by_index(n, targets)`: `len(self)` needs a column, the
      targets must be one per row, and piece `i` holds every column's piece `i`. */
  function SplitByIndex(p: VPartition, n: nat, targets: seq<nat>): (r: Result<seq<VPartition>>)
    requires p.Invariant()
    ensures p.columns.keys == [] ==> r == Err(NoColumns)
    ensures p.columns.keys != [] && |targets| != Length(p).value ==> r == Err(TargetCountMismatch)
  {
    var len :- Length(p);
    if |targets| != len then Err(TargetCountMismatch)
    else
      assert Splittable(p, targets);
      BuildAll(PieceDicts(p, n, targets))
  }

  /** Piece `i` of column `k`. */
  function PieceOf(p: VPartition, targets: seq<nat>, k: ColID, i: nat): (t: Tile)
    requires Splittable(p, targets) && k in p.columns.items
  {
    Piece(p.columns.items[k], targets, i)
  }

  /** The column dicts of the `n` pieces. */
  function PieceDicts(p: VPartition, n: nat, targets: seq<nat>): (cs: seq<Dict<ColID, Tile>>)
    requires Splittable(p, targets)
    ensures |cs| == n && forall i :: 0 <= i < n ==> cs[i].Valid()
  {
    seq(n, i requires 0 <= i < n => PieceColumns(p, targets, i, |p.columns.keys|))
  }

  /** The `n` pieces of a split, piece `i` numbered `i`. */
  function Pieces(p: VPartition, n: nat, targets: seq<nat>): (ps: seq<VPartition>)
    requires Splittable(p, targets)
    ensures |ps| == n
  {
    var cs := PieceDicts(p, n, targets);
    seq(n, i requires 0 <= i < n => VPartition(cs[i], i))
  }

  /** A split into `n` pieces yields `n` partitions, piece `i` numbered `i`;
      each satisfies the partition invariant and has the original column
      identities, names and order, column `k` holding the rows aimed at `i`. */
  lemma SplitByIndexShape(p: VPartition, n: nat, targets: seq<nat>)
    requires Splittable(p, targets)
    ensures SplitByIndex(p, n, targets) == Ok(Pieces(p, n, targets))
    ensures forall i :: 0 <= i < n ==>
      var q := Pieces(p, n, targets)[i];
      q.Invariant() && q.partitionId == i && q.columns.keys == p.columns.keys
      && q.columns.items.Keys == p.columns.items.Keys
      && forall k :: k in p.columns.items ==> q.columns.items[k] == Piece(p.columns.items[k], targets, i)
  {
    var m := |p.columns.keys|;
    assert p.columns.keys[..m] == p.columns.keys;
    SplittableColumns(p, targets);
    var cs := PieceDicts(p, n, targets);
    forall i | 0 <= i < n ensures Construct(cs[i], i) == Ok(VPartition(cs[i], i)) && VPartition(cs[i], i).Invariant() {
      var d := cs[i];
      forall k | k in d.items ensures d.items[k].partitionId == i && d.items[k].columnId == k {
        assert p.columns.items[k].columnId == k;
      }
      ConstructOk(d, i);
    }
    forall i | 0 <= i < n ensures cs[i].items.Keys == p.columns.items.Keys {
      assert cs[i].items.Keys == Elements(p.columns.keys);
    }
    assert BuildAll(cs).value == Pieces(p, n, targets);
  }

  /** The rows column `k` has across a sequence of partitions. */
  function ColumnRows(ps: seq<VPartition>, k: ColID): nat {
    if ps == [] then 0
    else
      var last := ps[|ps| - 1];
      ColumnRows(ps[..|ps| - 1], k) + (if k in last.columns.items then |last.columns.items[k].block| else 0)
  }

  /** Column `k` of piece `i` is the column's piece `i`. */
  lemma PieceAt(p: VPartition, n: nat, targets: seq<nat>, i: nat, k: ColID)
    requires Splittable(p, targets) && k in p.columns.items && i < n
    ensures k in Pieces(p, n, targets)[i].columns.items
    ensures |Pieces(p, n, targets)[i].columns.items[k].block| == |Bucket(targets, i)|
  {
    assert k in Elements(p.columns.keys);
    assert p.columns.keys[..|p.columns.keys|] == p.columns.keys;
  }

  lemma {:induction false} ColumnRowsOfPieces(p: VPartition, n: nat, targets: seq<nat>, k: ColID, m: nat)
    requires Splittable(p, targets) && k in p.columns.items && m <= n
    ensures ColumnRows(Pieces(p, n, targets)[..m], k) == |BucketOrder(targets, m)|
  {
    var ps := Pieces(p, n, targets);
    if m > 0 {
      ColumnRowsOfPieces(p, n, targets, k, m - 1);
      PieceAt(p, n, targets, m - 1, k);
      var pre := ps[..m];
      assert pre[..m - 1] == ps[..m - 1];
      assert pre[m - 1] == ps[m - 1];
      assert ColumnRows(pre, k) == ColumnRows(ps[..m - 1], k) + |ps[m - 1].columns.items[k].block|;
    }
  }

  /** A split loses no rows and duplicates none when every target names one of
      the `n` pieces: every column's pieces together have as many rows as the
      column had. */
  lemma SplitConservesRows(p: VPartition, n: nat, targets: seq<nat>, k: ColID)
    requires Splittable(p, targets) && k in p.columns.items && InRange(targets, n)
    ensures SplitByIndex(p, n, targets).Ok?
    ensures ColumnRows(SplitByIndex(p, n, targets).value, k) == |p.columns.items[k].block|
  {
    SplitByIndexShape(p, n, targets);
    ColumnRowsOfPieces(p, n, targets, k, n);
    assert Pieces(p, n, targets)[..n] == Pieces(p, n, targets);
    BucketOrderIsPermutation(targets, n);
  }

  /** The transposition state part-way through column `j`: the pieces below
      `i` have received their piece of column `j`, the others not yet. */
  predicate Transposed(p: VPartition, targets: seq<nat>, parts: seq<Dict<ColID, Tile>>, i: nat, j: nat)
    requires Splittable(p, targets) && j < |p.columns.keys|
  {
    forall i' :: 0 <= i' < |parts| ==> parts[i'] == PieceColumns(p, targets, i', if i' < i then j + 1 else j)
  }

  lemma TransposeStep(p: VPartition, targets: seq<nat>, parts: seq<Dict<ColID, Tile>>, i: nat, j: nat)
    requires Splittable(p, targets) && j < |p.columns.keys| && i < |parts|
    requires Transposed(p, targets, parts, i, j)
    ensures p.columns.keys[j] in p.columns.items
    ensures parts[i].Valid()
    ensures Transposed(p, targets, parts[i := Put(parts[i], p.columns.keys[j], Piece(p.columns.items[p.columns.keys[j]], targets, i))], i + 1, j)
  {
    PieceColumnsStep(p, targets, i, j);
  }

  /** The inner loop of `split_by_index`: column `j` is split and piece `i`
      of it is recorded in the dict of piece `i`, for every `i`. */
  method TransposeColumn(p: VPartition, n: nat, targets: seq<nat>, parts: seq<Dict<ColID, Tile>>, j: nat)
    returns (out: seq<Dict<ColID, Tile>>)
    requires Splittable(p, targets) && j < |p.columns.keys| && |parts| == n
    requires forall i :: 0 <= i < n ==> parts[i] == PieceColumns(p, targets, i, j)
    ensures |out| == n && forall i :: 0 <= i < n ==> out[i] == PieceColumns(p, targets, i, j + 1)
  {
    SplittableColumns(p, targets);
    var colId := p.columns.keys[j];
    var tile := p.columns.items[colId];
    var newTiles := Tiles.SplitByIndex(tile, n, targets).value;
    out := parts;
    var i := 0;
    while i < n
      invariant 0 <= i <= n && |out| == n
      invariant Transposed(p, targets, out, i, j)
    {
      TransposeStep(p, targets, out, i, j);
      out := out[i := Put(out[i], colId, newTiles[i])];
      i := i + 1;
    }
    assert Transposed(p, targets, out, n, j);
  }

  /** Once every column is transposed, each piece's dict is complete. */
  lemma AllPieceColumns(p: VPartition, n: nat, targets: seq<nat>, parts: seq<Dict<ColID, Tile>>, j: nat)
    requires Splittable(p, targets) && j == |p.columns.keys| && |parts| == n
    requires forall i :: 0 <= i < n ==> parts[i] == PieceColumns(p, targets, i, j)
    ensures parts == PieceDicts(p, n, targets)
  {
  }

  /** `vPartition.split_by_index`: the per-column splits transposed into one
      column dict per piece by a nested loop, then one partition per piece. */
  method SplitPartition(p: VPartition, n: nat, targets: seq<nat>) returns (r: Result<seq<VPartition>>)
    requires p.Invariant()
    ensures r == SplitByIndex(p, n, targets)
  {
    if p.columns.keys == [] {
      return Err(NoColumns);
    }
    if |targets| != p.columns.items[p.columns.keys[0]].Length() {
      return Err(TargetCountMismatch);
    }
    assert Splittable(p, targets);
    SplittableColumns(p, targets);
    var parts: seq<Dict<ColID, Tile>> := seq(n, _ => Empty());
    var j := 0;
    while j < |p.columns.keys|
      invariant 0 <= j <= |p.columns.keys|
      invariant |parts| == n && forall i :: 0 <= i < n ==> parts[i] == PieceColumns(p, targets, i, j)
    {
      parts := TransposeColumn(p, n, targets, parts, j);
      j := j + 1;
    }
    AllPieceColumns(p, n, targets, parts, j);
    r := BuildAll(parts);
  }

  // ---------------------------------------------------------------------------
  // split_by_hash

  /** Strictly increasing: sorted, with no identity twice. */
  predicate Increasing(s: seq<ColID>) {
    forall i, j :: 0 <= i < j < |s| ==> s[i] < s[j]
  }

  /** `x` put in its place in an increasing sequence that lacks it. */
  function Insert(x: ColID, s: seq<ColID>): (r: seq<ColID>)
    requires Increasing(s) && x !in s
    ensures Increasing(r) && multiset(r) == multiset(s) + multiset{x}
  {
    if s == [] || x < s[0] then
      InsertFirst(x, s);
      [x] + s
    else
      RestIncreasing(s);
      var t := Insert(x, s[1..]);
      InsertBehind(s, x, t);
      [s[0]] + t
  }

  /** Below the first element, `x` goes in front. */
  lemma InsertFirst(x: ColID, s: seq<ColID>)
    requires Increasing(s) && (s == [] || x < s[0])
    ensures Increasing([x] + s)
  {
    if s != [] {
      assert forall i :: 0 < i < |s| ==> s[0] < s[i];
    }
  }

  /** The tail of an increasing sequence is increasing, and lacks what the
      sequence lacks. */
  lemma RestIncreasing(s: seq<ColID>)
    requires Increasing(s) && s != []
    ensures Increasing(s[1..]) && forall y :: y in s[1..] ==> y in s
  {
  }

  /** Above the first element, `x` goes into the tail. */
  lemma InsertBehind(s: seq<ColID>, x: ColID, t: seq<ColID>)
    requires Increasing(s) && s != [] && s[0] < x && Increasing(t)
    requires multiset(t) == multiset(s[1..]) + multiset{x}
    ensures Increasing([s[0]] + t) && multiset([s[0]] + t) == multiset(s) + multiset{x}
  {
    assert s == [s[0]] + s[1..];
    InsertAbove(s[0], x, s[1..], t);
  }

  /** What is put into a sequence above `y` stays above `y`. */
  lemma InsertAbove(y: ColID, x: ColID, s: seq<ColID>, t: seq<ColID>)
    requires y < x && (forall i :: 0 <= i < |s| ==> y < s[i]) && multiset(t) == multiset(s) + multiset{x}
    ensures forall i :: 0 <= i < |t| ==> y < t[i]
  {
    forall i | 0 <= i < |t| ensures y < t[i] {
      assert t[i] in multiset(t);
      if t[i] != x {
        assert t[i] in multiset(s);
      }
    }
  }

  /** `keys.sort()` on distinct column identities. */
  function SortIds(ks: seq<ColID>): (r: seq<ColID>)
    requires Distinct(ks)
    ensures Increasing(r) && multiset(r) == multiset(ks)
  {
    if ks == [] then []
    else
      var n := |ks| - 1;
      assert ks == ks[..n] + [ks[n]];
      var r := SortIds(ks[..n]);
      assert ks[n] !in ks[..n];
      assert ks[n] !in r by {
        assert ks[n] !in multiset(ks[..n]);
      }
      Insert(ks[n], r)
  }

  /** There is one increasing order of a set of identities. */
  lemma {:induction false} IncreasingUnique(a: seq<ColID>, b: seq<ColID>)
    requires Increasing(a) && Increasing(b) && Elements(a) == Elements(b)
    ensures a == b
  {
    ElementsEmpty(a);
    ElementsEmpty(b);
    if a != [] && b != [] {
      assert a[0] in Elements(a) && b[0] in Elements(b);
      assert a[0] == b[0] by {
        var i :| 0 <= i < |b| && b[i] == a[0];
        var j :| 0 <= j < |a| && a[j] == b[0];
      }
      assert Elements(a[1..]) == Elements(b[1..]) by {
        forall x | x in Elements(a[1..]) ensures x in Elements(b[1..]) {
          assert x in Elements(b) && x != b[0];
        }
        forall x | x in Elements(b[1..]) ensures x in Elements(a[1..]) {
          assert x in Elements(a) && x != a[0];
        }
      }
      IncreasingUnique(a[1..], b[1..]);
      assert a == [a[0]] + a[1..] && b == [b[0]] + b[1..];
    }
  }

  /** `block.array_hash(seed=hsf)`: one hash per row of the block, seeded by
      the hashes so far (none for the first block). */
  type Hasher = (Block, Option<seq<int>>) -> seq<int>

  /** The hashes after the first `j` of the sorted key columns. */
  function HashFold(cols: map<ColID, Tile>, keys: seq<ColID>, hash: Hasher, j: nat): (h: Option<seq<int>>)
    requires j <= |keys| && forall q :: 0 <= q < |keys| ==> keys[q] in cols
    ensures h.None? <==> j == 0
  {
    if j == 0 then None
    else Some(hash(cols[keys[j - 1]].block, HashFold(cols, keys, hash, j - 1)))
  }

  /** The evaluated key columns' identities in increasing order. */
  function KeyOrder(v: VPartition): (keys: seq<ColID>)
    requires v.Invariant()
    ensures Increasing(keys) && Elements(keys) == v.columns.items.Keys
    ensures forall q :: 0 <= q < |keys| ==> keys[q] in v.columns.items
  {
    var keys := SortIds(v.columns.keys);
    assert forall k :: k in keys <==> k in multiset(v.columns.keys);
    keys
  }

  /** The row hashes of the evaluated key columns, hashed in increasing
      identity order. */
  function RowHashes(v: VPartition, hash: Hasher): (h: seq<int>)
    requires v.Invariant() && v.columns.keys != []
  {
    var keys := KeyOrder(v);
    assert v.columns.keys[0] in v.columns.items;
    HashFold(v.columns.items, keys, hash, |keys|).value
  }

  /** `vPartition.split_by_hash(exprs, n)`: evaluate the key expressions,
      hash their columns in increasing identity order (`assert len(keys) > 0`),
      aim each row at its hash modulo `n`, and split by those targets. */
  function SplitByHash(p: VPartition, exprs: Schema.ExpressionList, n: nat, exec: Executor, hash: Hasher)
    : (r: Result<seq<VPartition>>)
    requires p.Invariant()
    ensures r.Ok? ==> |r.value| == n && forall i :: 0 <= i < n ==> r.value[i].Invariant() && r.value[i].partitionId == i
  {
    var v :- EvalExpressionList(p, exprs, exec);
    if v.columns.keys == [] then Err(NoColumns)
    else if n == 0 then Err(ZeroPartitions)
    else
      var targets := HashTargets(RowHashes(v, hash), n);
      SplitByHashTargets(p, n, targets);
      SplitByIndex(p, n, targets)
  }

  /** A split by targets that all name a piece yields `n` valid pieces,
      piece `i` numbered `i`. */
  lemma SplitByHashTargets(p: VPartition, n: nat, targets: seq<nat>)
    requires p.Invariant() && InRange(targets, n)
    ensures SplitByIndex(p, n, targets).Ok? ==>
      var ps := SplitByIndex(p, n, targets).value;
      |ps| == n && forall i :: 0 <= i < n ==> ps[i].Invariant() && ps[i].partitionId == i
  {
    if SplitByIndex(p, n, targets).Ok? {
      SplitByIndexShape(p, n, targets);
    }
  }

  /** The hashing loop of `split_by_hash`. */
  method HashColumns(cols: map<ColID, Tile>, keys: seq<ColID>, hash: Hasher) returns (hsf: Option<seq<int>>)
    requires forall q :: 0 <= q < |keys| ==> keys[q] in cols
    ensures hsf == HashFold(cols, keys, hash, |keys|)
  {
    hsf := None;
    var j := 0;
    while j < |keys|
      invariant 0 <= j <= |keys| && hsf == HashFold(cols, keys, hash, j)
    {
      var block := cols[keys[j]].block;
      hsf := Some(hash(block, hsf));
      j := j + 1;
    }
  }

  /** `split_by_hash`, with the hashing loop and the split loop. */
  method SplitPartitionByHash(p: VPartition, exprs: Schema.ExpressionList, n: nat, exec: Executor, hash: Hasher)
    returns (r: Result<seq<VPartition>>)
    requires p.Invariant()
    ensures r == SplitByHash(p, exprs, n, exec, hash)
  {
    var values := EvalExpressionList(p, exprs, exec);
    if values.Err? {
      return Err(values.error);
    }
    var v := values.value;
    if v.columns.keys == [] {
      return Err(NoColumns);
    }
    var keys := KeyOrder(v);
    var hsf := HashColumns(v.columns.items, keys, hash);
    if n == 0 {
      return Err(ZeroPartitions);
    }
    var targets := HashTargets(hsf.value, n);
    r := SplitPartition(p, n, targets);
  }

  /** The hash split fails where the key expressions fail to evaluate,
      evaluate to no columns, or there are no pieces; otherwise it is the split
      by index that sends each row to piece `hash % n`. */
  lemma SplitByHashErrors(p: VPartition, exprs: Schema.ExpressionList, n: nat, exec: Executor, hash: Hasher)
    requires p.Invariant()
    ensures var r, e := SplitByHash(p, exprs, n, exec, hash), EvalExpressionList(p, exprs, exec);
      (e.Err? ==> r == Err(e.error))
      && (e.Ok? && e.value.columns.keys == [] ==> r == Err(NoColumns))
      && (e.Ok? && e.value.columns.keys != [] && n == 0 ==> r == Err(ZeroPartitions))
      && (e.Ok? && e.value.columns.keys != [] && n > 0 ==>
            r == SplitByIndex(p, n, HashTargets(RowHashes(e.value, hash), n)))
  {
  }

  /** A split by targets that all name one of the `n` pieces fails exactly
      when the partition has no column or the targets are not one per row;
      otherwise piece `i` holds, of every column, the rows aimed at `i`, and
      every row of every column lands in exactly one piece. */
  lemma SplitByIndexOutcome(p: VPartition, n: nat, targets: seq<nat>)
    requires p.Invariant() && InRange(targets, n)
    ensures var r := SplitByIndex(p, n, targets);
      (r.Ok? <==> p.columns.keys != [] && |targets| == Length(p).value)
      && (r.Err? ==> r.error == NoColumns || r.error == TargetCountMismatch)
      && (r.Ok? ==>
            (forall i, k :: 0 <= i < n && k in p.columns.items ==>
               k in r.value[i].columns.items
               && r.value[i].columns.items[k].block == Gather(p.columns.items[k].block, Bucket(targets, i)))
            && (forall k :: k in p.columns.items ==> ColumnRows(r.value, k) == |p.columns.items[k].block|))
  {
    if SplitByIndex(p, n, targets).Ok? {
      assert Splittable(p, targets);
      SplitByIndexShape(p, n, targets);
      forall k | k in p.columns.items ensures ColumnRows(SplitByIndex(p, n, targets).value, k) == |p.columns.items[k].block| {
        SplitConservesRows(p, n, targets, k);
      }
    }
  }

  /** The row hashes depend only on the evaluated columns, not on the order in
      which they were evaluated. */
  lemma RowHashesIgnoreOrder(v: VPartition, w: VPartition, hash: Hasher)
    requires v.Invariant() && w.Invariant() && v.columns.keys != []
    requires v.columns.items == w.columns.items
    ensures w.columns.keys != [] && RowHashes(v, hash) == RowHashes(w, hash)
  {
    assert v.columns.keys[0] in Elements(w.columns.keys);
    IncreasingUnique(KeyOrder(v), KeyOrder(w));
  }

  /** Row `j` of a seed, when there is one. */
  function SeedRow(s: Option<seq<int>>, j: nat): (r: Option<int>)
    ensures r.Some? <==> s.Some? && j < |s.value|
  {
    if s.Some? && j < |s.value| then Some(s.value[j]) else None
  }

  /** What `array_hash` is expected to be: one hash per row, each depending
      only on that row of the block and that row of the seed. */
  ghost predicate RowLocal(hash: Hasher) {
    (forall b, s :: |hash(b, s)| == |b|)
    && forall b1: Block, s1: Option<seq<int>>, b2: Block, s2: Option<seq<int>>, j1: nat, j2: nat ::
         j1 < |b1| && j2 < |b2| && b1[j1] == b2[j2] && SeedRow(s1, j1) == SeedRow(s2, j2)
         ==> hash(b1, s1)[j1] == hash(b2, s2)[j2]
  }

  /** Two rows, of two column maps, that hold equal values in every key
      column get equal hashes after every prefix of the key columns. */
  lemma {:induction false} HashFoldRows(c1: map<ColID, Tile>, c2: map<ColID, Tile>, keys: seq<ColID>, hash: Hasher,
                                        j: nat, i1: nat, i2: nat)
    requires RowLocal(hash) && j <= |keys|
    requires forall q :: 0 <= q < |keys| ==> keys[q] in c1 && keys[q] in c2
    requires forall q :: 0 <= q < |keys| ==>
               i1 < |c1[keys[q]].block| && i2 < |c2[keys[q]].block| && c1[keys[q]].block[i1] == c2[keys[q]].block[i2]
    ensures SeedRow(HashFold(c1, keys, hash, j), i1) == SeedRow(HashFold(c2, keys, hash, j), i2)
    ensures j > 0 ==> SeedRow(HashFold(c1, keys, hash, j), i1).Some?
  {
    if j > 0 {
      HashFoldRows(c1, c2, keys, hash, j - 1, i1, i2);
      var b1, b2 := c1[keys[j - 1]].block, c2[keys[j - 1]].block;
      var s1, s2 := HashFold(c1, keys, hash, j - 1), HashFold(c2, keys, hash, j - 1);
      assert |hash(b1, s1)| == |b1| && |hash(b2, s2)| == |b2|;
      assert hash(b1, s1)[i1] == hash(b2, s2)[i2];
    }
  }

  /** What hash partitioning is for: given two partitions whose key
      expressions evaluate to the same column identities, two rows whose key
      columns hold equal values are sent to the same piece. */
  lemma EqualKeysMeet(v: VPartition, w: VPartition, hash: Hasher, n: nat, i1: nat, i2: nat)
    requires v.Invariant() && w.Invariant() && v.columns.keys != []
    requires v.columns.items.Keys == w.columns.items.Keys
    requires RowLocal(hash) && n > 0
    requires forall k :: k in v.columns.items && k in w.columns.items ==>
               i1 < |v.columns.items[k].block| && i2 < |w.columns.items[k].block|
               && v.columns.items[k].block[i1] == w.columns.items[k].block[i2]
    ensures w.columns.keys != []
    ensures i1 < |RowHashes(v, hash)| && i2 < |RowHashes(w, hash)|
    ensures HashTargets(RowHashes(v, hash), n)[i1] == HashTargets(RowHashes(w, hash), n)[i2]
  {
    assert v.columns.keys[0] in Elements(w.columns.keys);
    var keys := KeyOrder(v);
    IncreasingUnique(keys, KeyOrder(w));
    assert keys != [] by {
      ElementsEmpty(keys);
    }
    HashFoldRows(v.columns.items, w.columns.items, keys, hash, |keys|, i1, i2);
  }

  // ---------------------------------------------------------------------------
  // merge_partitions

  predicate AllValid(ps: seq<VPartition>) {
    forall i :: 0 <= i < |ps| ==> ps[i].Invariant()
  }

  /** The sanity check of `merge_partitions`: every partition after the first
      has the first's set of column identities and, when verifying, its number. */
  predicate SameLayout(ps: seq<VPartition>, verify: bool)
    requires |ps| > 0
  {
    forall i :: 1 <= i < |ps| ==>
      (verify ==> ps[i].partitionId == ps[0].partitionId) && ps[i].columns.items.Keys == ps[0].columns.items.Keys
  }

  /** Column `k` of every partition, in order. */
  function ColumnAcross(ps: seq<VPartition>, k: ColID): (ts: seq<Tile>)
    requires forall i :: 0 <= i < |ps| ==> k in ps[i].columns.items
    ensures |ts| == |ps| && forall i :: 0 <= i < |ps| ==> ts[i] == ps[i].columns.items[k]
  {
    seq(|ps|, i requires 0 <= i < |ps| => ps[i].columns.items[k])
  }

  /** A column identity of the first partition is one of every partition. */
  lemma SharedColumns(ps: seq<VPartition>, verify: bool)
    requires |ps| > 0 && ps[0].columns.Valid() && SameLayout(ps, verify)
    ensures forall q, i :: 0 <= q < |ps[0].columns.keys| && 0 <= i < |ps| ==> ps[0].columns.keys[q] in ps[i].columns.items
  {
    forall q, i | 0 <= q < |ps[0].columns.keys| && 0 <= i < |ps| ensures ps[0].columns.keys[q] in ps[i].columns.items {
      assert ps[0].columns.keys[q] in Elements(ps[0].columns.keys);
    }
  }

  /** For each column identity of the first partition, that column across all
      partitions: the tiles `merge_tiles` receives. */
  function Groups(ps: seq<VPartition>, verify: bool): (gs: seq<seq<Tile>>)
    requires |ps| > 0 && ps[0].columns.Valid() && SameLayout(ps, verify)
    ensures |gs| == |ps[0].columns.keys|
    ensures forall q :: 0 <= q < |gs| ==> |gs[q]| == |ps| && gs[q] == ColumnAcross(ps, ps[0].columns.keys[q])
  {
    SharedColumns(ps, verify);
    seq(|ps[0].columns.keys|, q requires 0 <= q < |ps[0].columns.keys| => ColumnAcross(ps, ps[0].columns.keys[q]))
  }

  /** The outcome of `merge_tiles` on each group. */
  function Merges(gs: seq<seq<Tile>>, verify: bool): (ms: seq<Result<Tile>>)
    ensures |ms| == |gs| && forall q :: 0 <= q < |gs| ==> ms[q] == MergedTile(gs[q], verify)
  {
    seq(|gs|, q requires 0 <= q < |gs| => MergedTile(gs[q], verify))
  }

  /** `vPartition.merge_partitions(to_merge, verify_partition_id)`. */
  function MergePartitions(ps: seq<VPartition>, verify: bool): (r: Result<VPartition>)
    requires AllValid(ps)
    ensures ps == [] ==> r == Err(EmptyMerge)
    ensures |ps| == 1 ==> r == Ok(ps[0])
    ensures |ps| > 1 && !SameLayout(ps, verify) ==> r == Err(MergeMismatch)
  {
    if ps == [] then Err(EmptyMerge)
    else if |ps| == 1 then Ok(ps[0])
    else if !SameLayout(ps, verify) then Err(MergeMismatch)
    else
      var cols :- Collect(ps[0].columns.keys, Merges(Groups(ps, verify), verify));
      Construct(cols, ps[0].partitionId)
  }

  /** The blocks of column `k` across partitions, laid end to end, have as
      many rows as the column has across them. */
  lemma {:induction false} ConcatColumnLength(ps: seq<VPartition>, k: ColID)
    requires forall i :: 0 <= i < |ps| ==> k in ps[i].columns.items
    ensures |Concat(BlocksOf(ColumnAcross(ps, k)))| == ColumnRows(ps, k)
  {
    if ps != [] {
      var n := |ps| - 1;
      ConcatColumnLength(ps[..n], k);
      assert BlocksOf(ColumnAcross(ps, k))[..n] == BlocksOf(ColumnAcross(ps[..n], k));
    }
  }

  /** Partitions that each have columns of one length have, across them, as
      many rows in one column as in any other they share. */
  lemma {:induction false} ColumnRowsUniform(ps: seq<VPartition>, k1: ColID, k2: ColID)
    requires AllValid(ps)
    requires forall i :: 0 <= i < |ps| ==> k1 in ps[i].columns.items && k2 in ps[i].columns.items
    ensures ColumnRows(ps, k1) == ColumnRows(ps, k2)
  {
    if ps != [] {
      var n := |ps| - 1;
      ColumnRowsUniform(ps[..n], k1, k2);
      assert ps[n].columns.items[k1].Length() == ps[n].columns.items[k2].Length();
    }
  }

  /** The merge of a column across agreeing partitions is the first
      partition's tile holding all the column's blocks end to end. */
  lemma MergedColumn(ps: seq<VPartition>, verify: bool, k: ColID, t: Tile)
    requires |ps| > 1 && AllValid(ps) && forall i :: 0 <= i < |ps| ==> k in ps[i].columns.items
    requires MergedTile(ColumnAcross(ps, k), verify) == Ok(t)
    ensures t == ps[0].columns.items[k].ReplaceBlock(Concat(BlocksOf(ColumnAcross(ps, k))))
    ensures t.partitionId == ps[0].partitionId && t.columnId == k && t.Length() == ColumnRows(ps, k)
  {
    MergedTileShape(ColumnAcross(ps, k), verify);
    ConcatColumnLength(ps, k);
  }

  /** Once the layouts agree, merging fails only on a column merge: the merged
      columns always satisfy the constructor, since the first partition's
      tiles belong to it and each column gathers as many rows as any other.
      The result keeps the first partition's number and column order, and
      each column holds its blocks end to end. */
  lemma MergeShape(ps: seq<VPartition>, verify: bool)
    requires AllValid(ps) && |ps| > 1 && SameLayout(ps, verify)
    ensures MergePartitions(ps, verify).Ok?
            <==> forall q :: 0 <= q < |ps[0].columns.keys| ==> MergedTile(Groups(ps, verify)[q], verify).Ok?
    ensures MergePartitions(ps, verify).Err? ==> MergePartitions(ps, verify).error == TileMismatch
  {
    var ks, gs := ps[0].columns.keys, Groups(ps, verify);
    var ms := Merges(gs, verify);
    SharedColumns(ps, verify);
    var rc := Collect(ks, ms);
    if rc.Ok? {
      MergeDict(ps, verify);
      assert forall q :: 0 <= q < |ks| ==> MergedTile(gs[q], verify).Ok? by {
        forall q | 0 <= q < |ks| ensures MergedTile(gs[q], verify).Ok? {
          assert ms[q].Ok?;
        }
      }
    } else {
      assert MergePartitions(ps, verify) == Err(rc.error);
      var q :| 0 <= q < |ks| && ms[q] == Err(rc.error);
      MergedTileShape(gs[q], verify);
      assert !MergedTile(gs[q], verify).Ok?;
    }
  }

  /** Each merged column of agreeing partitions is the first partition's tile
      holding the column's blocks across the partitions end to end. */
  lemma MergedItems(ps: seq<VPartition>, verify: bool)
    requires AllValid(ps) && |ps| > 1 && SameLayout(ps, verify)
    requires Collect(ps[0].columns.keys, Merges(Groups(ps, verify), verify)).Ok?
    ensures var d := Collect(ps[0].columns.keys, Merges(Groups(ps, verify), verify)).value;
      d.Valid() && d.keys == ps[0].columns.keys
      && forall q :: 0 <= q < |d.keys| ==> (
           d.items[d.keys[q]] == ps[0].columns.items[d.keys[q]].ReplaceBlock(Concat(BlocksOf(Groups(ps, verify)[q])))
           && d.items[d.keys[q]].Length() == ColumnRows(ps, d.keys[q]))
  {
    var ks, gs := ps[0].columns.keys, Groups(ps, verify);
    var ms := Merges(gs, verify);
    SharedColumns(ps, verify);
    var d := Collect(ks, ms).value;
    forall q | 0 <= q < |ks|
      ensures d.items[ks[q]] == ps[0].columns.items[ks[q]].ReplaceBlock(Concat(BlocksOf(gs[q])))
      && d.items[ks[q]].Length() == ColumnRows(ps, ks[q])
    {
      MergedColumn(ps, verify, ks[q], d.items[ks[q]]);
    }
  }

  /** The merged columns satisfy the constructor under the first partition's
      number: its tiles belong to it and every column gathers as many rows as
      any other. */
  lemma MergedConsistent(ps: seq<VPartition>, verify: bool)
    requires AllValid(ps) && |ps| > 1 && SameLayout(ps, verify)
    requires Collect(ps[0].columns.keys, Merges(Groups(ps, verify), verify)).Ok?
    ensures Consistent(Collect(ps[0].columns.keys, Merges(Groups(ps, verify), verify)).value, ps[0].partitionId)
  {
    var ks := ps[0].columns.keys;
    var d := Collect(ks, Merges(Groups(ps, verify), verify)).value;
    MergedFiled(ps, verify);
    forall k1, k2 | k1 in d.items && k2 in d.items ensures d.items[k1].Length() == d.items[k2].Length() {
      ColumnRowsUniform(ps, k1, k2);
    }
  }

  /** Each merged tile belongs to the first partition, is stored under its own
      identity and holds the column's rows across the partitions. */
  lemma MergedFiled(ps: seq<VPartition>, verify: bool)
    requires AllValid(ps) && |ps| > 1 && SameLayout(ps, verify)
    requires Collect(ps[0].columns.keys, Merges(Groups(ps, verify), verify)).Ok?
    ensures var d := Collect(ps[0].columns.keys, Merges(Groups(ps, verify), verify)).value;
      d.keys == ps[0].columns.keys && d.Valid()
      && forall k :: k in d.items ==>
           (forall i :: 0 <= i < |ps| ==> k in ps[i].columns.items)
           && d.items[k].partitionId == ps[0].partitionId && d.items[k].columnId == k && d.items[k].Length() == ColumnRows(ps, k)
  {
    var ks := ps[0].columns.keys;
    var d := Collect(ks, Merges(Groups(ps, verify), verify)).value;
    MergedItems(ps, verify);
    forall k | k in d.items
      ensures forall i :: 0 <= i < |ps| ==> k in ps[i].columns.items
      ensures d.items[k].partitionId == ps[0].partitionId && d.items[k].columnId == k && d.items[k].Length() == ColumnRows(ps, k)
    {
      assert k in Elements(ks);
      var q :| 0 <= q < |ks| && ks[q] == k;
      MergedFiledAt(ps, verify, q);
    }
  }

  /** `MergedFiled` for the `q`-th column identity of the first partition. */
  lemma MergedFiledAt(ps: seq<VPartition>, verify: bool, q: nat)
    requires AllValid(ps) && |ps| > 1 && SameLayout(ps, verify) && q < |ps[0].columns.keys|
    requires Collect(ps[0].columns.keys, Merges(Groups(ps, verify), verify)).Ok?
    ensures var d, k := Collect(ps[0].columns.keys, Merges(Groups(ps, verify), verify)).value, ps[0].columns.keys[q];
      (forall i :: 0 <= i < |ps| ==> k in ps[i].columns.items)
      && d.items[k].partitionId == ps[0].partitionId && d.items[k].columnId == k && d.items[k].Length() == ColumnRows(ps, k)
  {
    MergedItems(ps, verify);
    SharedColumns(ps, verify);
  }

  /** When every column merge succeeds, the merge is the first partition with
      the merged columns: its number, its column identities in its order, each
      holding the column's blocks across the partitions end to end. */
  lemma MergeDict(ps: seq<VPartition>, verify: bool)
    requires AllValid(ps) && |ps| > 1 && SameLayout(ps, verify)
    requires Collect(ps[0].columns.keys, Merges(Groups(ps, verify), verify)).Ok?
    ensures var d := Collect(ps[0].columns.keys, Merges(Groups(ps, verify), verify)).value;
      MergePartitions(ps, verify) == Ok(VPartition(d, ps[0].partitionId))
      && VPartition(d, ps[0].partitionId).Invariant()
      && d.keys == ps[0].columns.keys
      && forall q :: 0 <= q < |d.keys| ==>
           d.items[d.keys[q]] == ps[0].columns.items[d.keys[q]].ReplaceBlock(Concat(BlocksOf(Groups(ps, verify)[q])))
  {
    var d := Collect(ps[0].columns.keys, Merges(Groups(ps, verify), verify)).value;
    MergedConsistent(ps, verify);
    MergedItems(ps, verify);
    ConstructOk(d, ps[0].partitionId);
  }

  /** The sanity loop of `merge_partitions`. */
  method CheckLayout(ps: seq<VPartition>, verify: bool) returns (ok: bool)
    requires |ps| > 0
    ensures ok == SameLayout(ps, verify)
  {
    var pid := ps[0].partitionId;
    var colIds := ps[0].columns.items.Keys;
    var i := 1;
    while i < |ps|
      invariant 1 <= i <= |ps|
      invariant forall m :: 1 <= m < i ==>
        (verify ==> ps[m].partitionId == pid) && ps[m].columns.items.Keys == colIds
    {
      var part := ps[i];
      if verify && part.partitionId != pid {
        return false;
      }
      if part.columns.items.Keys != colIds {
        return false;
      }
      i := i + 1;
    }
    return true;
  }

  /** A collecting loop whose step `j` is the first to fail has that failure
      as its outcome. */
  lemma CollectFails<V>(ks: seq<ColID>, ms: seq<Result<V>>, j: nat)
    requires |ks| == |ms| && Distinct(ks) && j < |ks| && forall q :: 0 <= q < j ==> ms[q].Ok?
    requires ms[j].Err?
    ensures Collect(ks, ms) == Err(ms[j].error)
  {
    assert FirstFailure(ms, j + 1) == Some(ms[j].error);
    FirstFailureStays(ms, j + 1, |ms|);
  }

  /** The merge loop of `merge_partitions`: column `keys[j]` of the result is
      `merge_tiles` of the group `gs[j]`, the column gathered across all the
      partitions; the first failing merge ends the loop. */
  method MergeGroups(keys: seq<ColID>, gs: seq<seq<Tile>>, verify: bool, ghost ms: seq<Result<Tile>>)
    returns (r: Result<Dict<ColID, Tile>>)
    requires |keys| == |gs| == |ms| && Distinct(keys)
    requires forall q :: 0 <= q < |gs| ==> ms[q] == MergedTile(gs[q], verify)
    ensures r == Collect(keys, ms)
  {
    var cols := Empty();
    var j := 0;
    while j < |keys|
      invariant 0 <= j <= |keys|
      invariant cols.Valid() && cols.keys == keys[..j]
      invariant forall q :: 0 <= q < j ==> ms[q] == Ok(cols.items[keys[q]])
    {
      var merged := MergeTiles(gs[j], verify);
      assert merged == ms[j];
      if merged.Err? {
        CollectFails(keys, ms, j);
        return Err(merged.error);
      }
      AppendKey(keys, j + 1, cols, merged.value);
      cols := Put(cols, keys[j], merged.value);
      j := j + 1;
    }
    assert keys[..|keys|] == keys;
    CollectedEntries(keys, ms, cols);
    return Ok(cols);
  }

  /** The merge loop over the first partition's column identities, each
      column gathered across all the partitions. */
  method MergeColumns(ps: seq<VPartition>, verify: bool) returns (r: Result<Dict<ColID, Tile>>)
    requires |ps| > 0 && ps[0].columns.Valid() && SameLayout(ps, verify)
    ensures r == Collect(ps[0].columns.keys, Merges(Groups(ps, verify), verify))
  {
    r := MergeGroups(ps[0].columns.keys, Groups(ps, verify), verify, Merges(Groups(ps, verify), verify));
  }

  /** `vPartition.merge_partitions`: the sanity loop, the merge loop, then the
      constructor's check on the first partition with the merged columns. */
  method MergeAll(ps: seq<VPartition>, verify: bool) returns (r: Result<VPartition>)
    requires AllValid(ps)
    ensures r == MergePartitions(ps, verify)
  {
    if |ps| == 0 {
      return Err(EmptyMerge);
    }
    if |ps| == 1 {
      return Ok(ps[0]);
    }
    var ok := CheckLayout(ps, verify);
    if !ok {
      return Err(MergeMismatch);
    }
    var cols := MergeColumns(ps, verify);
    if cols.Err? {
      return Err(cols.error);
    }
    r := MakePartition(cols.value, ps[0].partitionId);
  }

  /** The partition a split followed by an unchecked merge rebuilds: every
      column's rows in bucket order, under partition 0. */
  function Reassembled(p: VPartition, n: nat, targets: seq<nat>): (q: VPartition)
    requires Splittable(p, targets)
  {
    SplittableColumns(p, targets);
    BucketOrderInRange(targets, n);
    VPartition(Dict(p.columns.keys, map k | k in p.columns.items ::
      p.columns.items[k].(partitionId := 0, block := Gather(p.columns.items[k].block, BucketOrder(targets, n)))), 0)
  }

  /** Column `k` across the pieces of a split is the tile split of column `k`. */
  lemma ColumnAcrossPieces(p: VPartition, n: nat, targets: seq<nat>, k: ColID)
    requires Splittable(p, targets) && k in p.columns.items
    ensures forall i :: 0 <= i < n ==> k in Pieces(p, n, targets)[i].columns.items
    ensures ColumnAcross(Pieces(p, n, targets), k) == Tiles.SplitByIndex(p.columns.items[k], n, targets).value
  {
    SplitByIndexShape(p, n, targets);
    SplittableColumns(p, targets);
  }

  /** Every column of the pieces of a split merges, unchecked, into the
      column of the reassembled partition; the rows of each column are kept
      when every target names a piece. */
  lemma PieceColumnsMerge(p: VPartition, n: nat, targets: seq<nat>, k: ColID)
    requires Splittable(p, targets) && n > 0 && InRange(targets, n) && k in p.columns.items
    ensures forall i :: 0 <= i < n ==> k in Pieces(p, n, targets)[i].columns.items
    ensures k in Reassembled(p, n, targets).columns.items
    ensures MergedTile(ColumnAcross(Pieces(p, n, targets), k), false) == Ok(Reassembled(p, n, targets).columns.items[k])
    ensures multiset(Reassembled(p, n, targets).columns.items[k].block) == multiset(p.columns.items[k].block)
  {
    ColumnAcrossPieces(p, n, targets, k);
    Tiles.SplitThenMerge(p.columns.items[k], n, targets);
  }

  /** A split into one piece is the reassembled partition already. */
  lemma SplitIntoOne(p: VPartition, targets: seq<nat>)
    requires Splittable(p, targets) && InRange(targets, 1)
    ensures Pieces(p, 1, targets)[0] == Reassembled(p, 1, targets)
  {
    var ps := Pieces(p, 1, targets);
    var q := Reassembled(p, 1, targets);
    SplitByIndexShape(p, 1, targets);
    forall k | k in p.columns.items ensures ps[0].columns.items[k] == q.columns.items[k] {
      PieceColumnsMerge(p, 1, targets, k);
      MergedTileShape(ColumnAcross(ps, k), false);
    }
    assert ps[0].columns == q.columns;
  }

  /** The pieces of a split share the partition's layout, the first being
      partition 0. */
  lemma PiecesLayout(p: VPartition, n: nat, targets: seq<nat>)
    requires Splittable(p, targets) && n > 0
    ensures |Pieces(p, n, targets)| == n && AllValid(Pieces(p, n, targets))
    ensures SameLayout(Pieces(p, n, targets), false)
    ensures Pieces(p, n, targets)[0].columns.keys == p.columns.keys
    ensures Pieces(p, n, targets)[0].partitionId == 0
  {
    SplitByIndexShape(p, n, targets);
  }

  /** Every column merge of the pieces of a split yields the reassembled
      column. */
  lemma PiecesMerges(p: VPartition, n: nat, targets: seq<nat>)
    requires Splittable(p, targets) && n > 1 && InRange(targets, n)
    requires AllValid(Pieces(p, n, targets)) && SameLayout(Pieces(p, n, targets), false)
    ensures var ps := Pieces(p, n, targets);
      forall j :: 0 <= j < |ps[0].columns.keys| ==>
        Merges(Groups(ps, false), false)[j] == Ok(Reassembled(p, n, targets).columns.items[ps[0].columns.keys[j]])
  {
    var ps := Pieces(p, n, targets);
    PiecesLayout(p, n, targets);
    var ks := ps[0].columns.keys;
    forall j | 0 <= j < |ks|
      ensures Merges(Groups(ps, false), false)[j] == Ok(Reassembled(p, n, targets).columns.items[ks[j]])
    {
      assert ks[j] in Elements(p.columns.keys);
      PieceColumnsMerge(p, n, targets, ks[j]);
    }
  }

  /** A split into several pieces merges, unchecked, column by column into the
      reassembled partition. */
  lemma SplitIntoSeveral(p: VPartition, n: nat, targets: seq<nat>)
    requires Splittable(p, targets) && n > 1 && InRange(targets, n)
    ensures MergePartitions(Pieces(p, n, targets), false) == Ok(Reassembled(p, n, targets))
  {
    var ps := Pieces(p, n, targets);
    var q := Reassembled(p, n, targets);
    PiecesLayout(p, n, targets);
    PiecesMerges(p, n, targets);
    ReassembledValid(p, n, targets);
    CollectedEntries(ps[0].columns.keys, Merges(Groups(ps, false), false), q.columns);
    MergeDict(ps, false);
    assert q == VPartition(q.columns, ps[0].partitionId);
  }

  lemma ReassembledValid(p: VPartition, n: nat, targets: seq<nat>)
    requires Splittable(p, targets)
    ensures Reassembled(p, n, targets).columns.Valid()
    ensures Reassembled(p, n, targets).columns.keys == p.columns.keys
  {
  }

  /** Merging the pieces of a split of a partition into `n > 0` pieces, without
      checking partition numbers, gives back every column with its rows in
      bucket order — every row exactly once when every target names a piece —
      under partition 0, with the original column identities, names and order. */
  lemma SplitThenMergePartitions(p: VPartition, n: nat, targets: seq<nat>)
    requires Splittable(p, targets) && n > 0 && InRange(targets, n)
    ensures MergePartitions(Pieces(p, n, targets), false) == Ok(Reassembled(p, n, targets))
    ensures forall k :: k in p.columns.items ==>
      multiset(Reassembled(p, n, targets).columns.items[k].block) == multiset(p.columns.items[k].block)
  {
    SplitByIndexShape(p, n, targets);
    forall k | k in p.columns.items
      ensures multiset(Reassembled(p, n, targets).columns.items[k].block) == multiset(p.columns.items[k].block)
    {
      PieceColumnsMerge(p, n, targets, k);
    }
    if n == 1 {
      SplitIntoOne(p, targets);
    } else {
      SplitIntoSeveral(p, n, targets);
    }
  }
}
