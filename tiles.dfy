/** `PyListTile`: one column of one partition — a column identity and name,
    the partition it belongs to, and its block. Tiles are frozen values; every
    operation returns a new tile. */
module Tiles {
  import opened Common
  import opened Blocks

  datatype Tile = Tile(columnId: ColID, columnName: string, partitionId: PartID, block: Block) {

    /** `len(tile)`: the number of rows. */
    function Length(): nat {
      |block|
    }

    /** `replace_block(block)`: the same column of the same partition, holding `b`. */
    function ReplaceBlock(b: Block): (r: Tile)
      ensures r.columnId == columnId && r.columnName == columnName && r.partitionId == partitionId
      ensures r.block == b
    {
      Tile(columnId, columnName, partitionId, b)
    }

    /** `apply(func)`: the block replaced by its image under `f`. */
    function Apply(f: Block -> Block): (r: Tile)
      ensures r == ReplaceBlock(f(block))
    {
      Tile(columnId, columnName, partitionId, f(block))
    }
  }

  /** Laws that hold by the definition of `ReplaceBlock`, stated for readers:
      replacing a block twice keeps only the second, and replacing a block by
      itself changes nothing. */
  lemma ReplaceBlockLaws(t: Tile, b: Block, c: Block)
    ensures t.ReplaceBlock(b).ReplaceBlock(c) == t.ReplaceBlock(c)
    ensures t.ReplaceBlock(t.block) == t
    ensures t.Apply(x => x) == t
  {
  }

  /** The piece of `t` that a split sends to partition `i`. */
  function Piece(t: Tile, targets: seq<nat>, i: nat): (r: Tile)
    requires |targets| == |t.block|
    ensures r.columnId == t.columnId && r.columnName == t.columnName && r.partitionId == i
    ensures r.block == Gather(t.block, Bucket(targets, i))
  {
    Tile(t.columnId, t.columnName, i, Gather(t.block, Bucket(targets, i)))
  }

  /** `PyListTile.split_by_index(n, targets)`: one piece per partition, row `j`
      going to piece `targets[j]`; the targets must be one per row. */
  function SplitByIndex(t: Tile, n: nat, targets: seq<nat>): (r: Result<seq<Tile>>)
    ensures r.Ok? <==> |targets| == t.Length()
    ensures r.Err? ==> r.error == TargetCountMismatch
    ensures r.Ok? ==> |r.value| == n
    ensures r.Ok? ==> forall i :: 0 <= i < n ==> r.value[i] == Piece(t, targets, i)
  {
    if |targets| != t.Length() then Err(TargetCountMismatch)
    else
      var blocks := PartitionBlock(t.block, n, targets);
      Ok(seq(n, i requires 0 <= i < n => t.ReplaceBlock(blocks[i]).(partitionId := i)))
  }

  /** The sanity check of `merge_tiles`: every tile after the first has the
      first's column identity and name, and, when verifying, its partition. */
  predicate Compatible(ts: seq<Tile>, verifyPartitionId: bool)
    requires |ts| > 0
  {
    forall k :: 1 <= k < |ts| ==>
      ts[k].columnId == ts[0].columnId && ts[k].columnName == ts[0].columnName
      && (verifyPartitionId ==> ts[k].partitionId == ts[0].partitionId)
  }

  function BlocksOf(ts: seq<Tile>): (r: seq<Block>)
    ensures |r| == |ts| && forall k :: 0 <= k < |ts| ==> r[k] == ts[k].block
  {
    seq(|ts|, k requires 0 <= k < |ts| => ts[k].block)
  }

  /** The outcome of `merge_tiles(ts, verify_partition_id)`. */
  function MergedTile(ts: seq<Tile>, verifyPartitionId: bool): (r: Result<Tile>)
    ensures r.Err? ==> r.error == EmptyMerge || r.error == TileMismatch
  {
    if ts == [] then Err(EmptyMerge)
    else if |ts| == 1 then Ok(ts[0])
    else if !Compatible(ts, verifyPartitionId) then Err(TileMismatch)
    else Ok(ts[0].ReplaceBlock(Concat(BlocksOf(ts))))
  }

  /** A merge needs at least one tile and returns a single tile unchanged;
      otherwise it succeeds exactly when the tiles agree, and then keeps the
      first tile's identity, name and partition, holding all the blocks end
      to end in input order. */
  lemma MergedTileShape(ts: seq<Tile>, verifyPartitionId: bool)
    ensures ts == [] ==> MergedTile(ts, verifyPartitionId) == Err(EmptyMerge)
    ensures |ts| == 1 ==> MergedTile(ts, verifyPartitionId) == Ok(ts[0])
    ensures |ts| > 1 ==> (MergedTile(ts, verifyPartitionId).Ok? <==> Compatible(ts, verifyPartitionId))
    ensures |ts| > 1 && !Compatible(ts, verifyPartitionId) ==> MergedTile(ts, verifyPartitionId) == Err(TileMismatch)
    ensures |ts| > 0 && MergedTile(ts, verifyPartitionId).Ok? ==>
      var t := MergedTile(ts, verifyPartitionId).value;
      t.columnId == ts[0].columnId && t.columnName == ts[0].columnName && t.partitionId == ts[0].partitionId
      && t.block == Concat(BlocksOf(ts))
  {
    if |ts| == 1 {
      ConcatOne(ts[0].block);
      assert BlocksOf(ts) == [ts[0].block];
    }
  }

  /** `PyListTile.merge_tiles`: the check loop, then the blocks laid end to end
      under the first tile's identity, name and partition. */
  method MergeTiles(ts: seq<Tile>, verifyPartitionId: bool) returns (r: Result<Tile>)
    ensures r == MergedTile(ts, verifyPartitionId)
  {
    if |ts| == 0 {
      return Err(EmptyMerge);
    }
    if |ts| == 1 {
      return Ok(ts[0]);
    }
    var first := ts[0];
    var k := 1;
    while k < |ts|
      invariant 1 <= k <= |ts|
      invariant forall m :: 1 <= m < k ==>
        ts[m].columnId == first.columnId && ts[m].columnName == first.columnName
        && (verifyPartitionId ==> ts[m].partitionId == first.partitionId)
    {
      var part := ts[k];
      if part.columnId != first.columnId
         || (verifyPartitionId && part.partitionId != first.partitionId)
         || part.columnName != first.columnName
      {
        return Err(TileMismatch);
      }
      k := k + 1;
    }
    r := Ok(first.ReplaceBlock(Concat(BlocksOf(ts))));
  }

  /** The pieces of a split, merged again without checking partitions, give
      back the column with its rows in bucket order — every row exactly once
      when every target names one of the `n` partitions — under partition 0. */
  lemma SplitThenMerge(t: Tile, n: nat, targets: seq<nat>)
    requires n > 0 && |targets| == t.Length() && InRange(targets, n)
    ensures SplitByIndex(t, n, targets).Ok?
    ensures InRange(BucketOrder(targets, n), |t.block|)
    ensures MergedTile(SplitByIndex(t, n, targets).value, false)
            == Ok(Tile(t.columnId, t.columnName, 0, Gather(t.block, BucketOrder(targets, n))))
    ensures multiset(Gather(t.block, BucketOrder(targets, n))) == multiset(t.block)
  {
    MergeSplitPieces(t, n, targets);
    SplitThenConcat(t.block, n, targets);
    PermutedGather(t.block, BucketOrder(targets, n));
  }

  /** The unchecked merge of a split's pieces lays the pieces' blocks end to
      end under the column's identity and name, in partition 0. */
  lemma MergeSplitPieces(t: Tile, n: nat, targets: seq<nat>)
    requires n > 0 && |targets| == t.Length()
    ensures SplitByIndex(t, n, targets).Ok?
    ensures MergedTile(SplitByIndex(t, n, targets).value, false)
            == Ok(Tile(t.columnId, t.columnName, 0, Concat(PartitionBlock(t.block, n, targets))))
  {
    var pieces := SplitByIndex(t, n, targets).value;
    MergedTileShape(pieces, false);
    assert BlocksOf(pieces) == PartitionBlock(t.block, n, targets);
    if n == 1 {
      ConcatOne(pieces[0].block);
      assert BlocksOf(pieces) == [pieces[0].block];
    }
  }

  /** Merging the pieces of a split into two or more partitions while checking
      partitions fails: the pieces carry different partition numbers. */
  lemma SplitThenVerifiedMergeFails(t: Tile, n: nat, targets: seq<nat>)
    requires n > 1 && |targets| == t.Length()
    ensures MergedTile(SplitByIndex(t, n, targets).value, true) == Err(TileMismatch)
  {
    var pieces := SplitByIndex(t, n, targets).value;
    MergedTileShape(pieces, true);
    assert pieces[1].partitionId != pieces[0].partitionId;
  }
}
