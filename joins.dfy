/** The column bookkeeping of `vPartition.join`: evaluating both sides' keys,
    handing the key and non-key blocks to the join kernel, and reassembling
    the kernel's blocks into a partition laid out as left keys, left non-key
    columns, right non-key columns, before the output schema is evaluated. */
module Joins {
  import opened Common
  import opened Dicts
  import opened Blocks
  import opened Expressions
  import opened Tiles
  import opened Partitions
  import Schema

  /** `DataBlock.join(left_keys, right_keys, left_rest, right_rest)`: the
      joined blocks, keys first, then the left then the right non-key blocks. */
  type JoinKernel = (seq<Block>, seq<Block>, seq<Block>, seq<Block>) -> seq<Block>

  /** `[key_part.columns[e.get_id()].block for e in on]`, failing with the
      `KeyError` of the first lookup that misses. */
  function KeyBlocks(kp: VPartition, es: seq<Expression>): (r: Result<seq<Block>>)
    ensures r.Ok? <==> forall q :: 0 <= q < |es| ==> es[q].Id().Some? && es[q].Id().value in kp.columns.items
    ensures r.Ok? ==> (|r.value| == |es|
      && forall q :: 0 <= q < |es| ==> r.value[q] == kp.columns.items[es[q].Id().value].block)
    ensures r.Err? ==> r.error == MissingKey || r.error.MissingColumn?
  {
    if es == [] then Ok([])
    else
      var n := |es| - 1;
      assert forall q :: 0 <= q < n ==> es[..n][q] == es[q];
      var bs :- KeyBlocks(kp, es[..n]);
      var e := es[n];
      if e.Id().None? then Err(MissingKey)
      else if e.Id().value !in kp.columns.items then Err(MissingColumn(e.Id().value))
      else Ok(bs + [kp.columns.items[e.Id().value].block])
  }

  /** A partition evaluated from an expression list holds a column under the
      identity of every expression of the list. */
  lemma EvaluatedIds(p: VPartition, l: Schema.ExpressionList, exec: Executor)
    requires EvalExpressionList(p, l, exec).Ok?
    ensures forall q :: 0 <= q < |l.exprs| ==>
      l.exprs[q].Id().Some? && l.exprs[q].Id().value in EvalExpressionList(p, l, exec).value.columns.items
  {
    var ts := EvalAll(p, l.exprs, exec).value;
    var kp := EvalExpressionList(p, l, exec).value;
    assert kp == VPartition(Keyed(ts), p.partitionId);
    forall q | 0 <= q < |l.exprs|
      ensures l.exprs[q].Id().Some? && l.exprs[q].Id().value in kp.columns.items
    {
      assert EvalExpression(p, l.exprs[q], exec).Ok?;
      assert IdsOf(ts)[q] == l.exprs[q].Id().value;
      assert IdsOf(ts)[q] in Elements(Dedup(IdsOf(ts)));
    }
  }

  /** The key lookups after evaluating the keys never miss. */
  lemma KeyBlocksFound(p: VPartition, l: Schema.ExpressionList, exec: Executor)
    requires EvalExpressionList(p, l, exec).Ok?
    ensures KeyBlocks(EvalExpressionList(p, l, exec).value, l.exprs).Ok?
  {
    EvaluatedIds(p, l, exec);
  }

  /** `[i for i in ks if i not in drop]`. */
  function Without(ks: seq<ColID>, drop: set<ColID>): (r: seq<ColID>)
    ensures forall x :: x in r <==> x in ks && x !in drop
    ensures Distinct(ks) ==> Distinct(r)
    ensures |r| <= |ks|
  {
    if ks == [] then []
    else
      var n := |ks| - 1;
      var r := Without(ks[..n], drop);
      assert ks == ks[..n] + [ks[n]];
      if ks[n] in drop then r else r + [ks[n]]
  }

  /** Everything the join needs from both sides once their keys are evaluated:
      the evaluated key partitions, their key blocks in key-list order, and
      each side's non-key column identities in column order. */
  datatype Sides = Sides(lk: VPartition, rk: VPartition, leftKeys: seq<Block>, rightKeys: seq<Block>,
                         leftRest: seq<ColID>, rightRest: seq<ColID>)

  /** What preparing the sides of `left` and `right` guarantees. */
  predicate Prepared(s: Sides, left: VPartition, right: VPartition) {
    left.Invariant() && right.Invariant() && s.lk.Invariant() && s.rk.Invariant()
    && s.lk.partitionId == left.partitionId && s.rk.partitionId == right.partitionId
    && s.leftRest == Without(left.columns.keys, s.lk.columns.items.Keys)
    && s.rightRest == Without(right.columns.keys, s.rk.columns.items.Keys)
  }

  /** The first half of `join`: both key lists evaluated, then both key
      lookups, then the non-key identities of each side. */
  function Prepare(left: VPartition, right: VPartition, leftOn: Schema.ExpressionList,
                   rightOn: Schema.ExpressionList, exec: Executor): (r: Result<Sides>)
    requires left.Invariant() && right.Invariant()
    ensures r.Ok? ==> Prepared(r.value, left, right)
  {
    var lk :- EvalExpressionList(left, leftOn, exec);
    var rk :- EvalExpressionList(right, rightOn, exec);
    var lkb :- KeyBlocks(lk, leftOn.exprs);
    var rkb :- KeyBlocks(rk, rightOn.exprs);
    Ok(Sides(lk, rk, lkb, rkb,
             Without(left.columns.keys, lk.columns.items.Keys),
             Without(right.columns.keys, rk.columns.items.Keys)))
  }

  /** Preparing fails only where evaluating a key list fails. */
  lemma PrepareFails(left: VPartition, right: VPartition, leftOn: Schema.ExpressionList,
                     rightOn: Schema.ExpressionList, exec: Executor)
    requires left.Invariant() && right.Invariant()
    ensures Prepare(left, right, leftOn, rightOn, exec).Ok?
            <==> EvalExpressionList(left, leftOn, exec).Ok? && EvalExpressionList(right, rightOn, exec).Ok?
  {
    if EvalExpressionList(left, leftOn, exec).Ok? && EvalExpressionList(right, rightOn, exec).Ok? {
      KeyBlocksFound(left, leftOn, exec);
      KeyBlocksFound(right, rightOn, exec);
    }
  }

  /** `result_keys`: left key identities, left non-key, right non-key. */
  function Layout(s: Sides): seq<ColID> {
    s.lk.columns.keys + s.leftRest + s.rightRest
  }

  /** The tiles of the columns named by `ids`, in order. */
  function TilesAt(d: Dict<ColID, Tile>, ids: seq<ColID>): (ts: seq<Tile>)
    requires forall q :: 0 <= q < |ids| ==> ids[q] in d.items
    ensures |ts| == |ids| && forall q :: 0 <= q < |ids| ==> ts[q] == d.items[ids[q]]
  {
    seq(|ids|, q requires 0 <= q < |ids| => d.items[ids[q]])
  }

  function BlocksAt(d: Dict<ColID, Tile>, ids: seq<ColID>): (bs: seq<Block>)
    requires forall q :: 0 <= q < |ids| ==> ids[q] in d.items
    ensures |bs| == |ids| && forall q :: 0 <= q < |ids| ==> bs[q] == d.items[ids[q]].block
  {
    seq(|ids|, q requires 0 <= q < |ids| => d.items[ids[q]].block)
  }

  lemma PreparedColumns(s: Sides, left: VPartition, right: VPartition)
    requires Prepared(s, left, right)
    ensures forall q :: 0 <= q < |s.lk.columns.keys| ==> s.lk.columns.keys[q] in s.lk.columns.items
    ensures forall q :: 0 <= q < |s.leftRest| ==> s.leftRest[q] in left.columns.items
    ensures forall q :: 0 <= q < |s.rightRest| ==> s.rightRest[q] in right.columns.items
  {
    forall q | 0 <= q < |s.lk.columns.keys| ensures s.lk.columns.keys[q] in s.lk.columns.items {
      assert s.lk.columns.keys[q] in Elements(s.lk.columns.keys);
    }
    forall q | 0 <= q < |s.leftRest| ensures s.leftRest[q] in left.columns.items {
      assert s.leftRest[q] in left.columns.keys;
      assert s.leftRest[q] in Elements(left.columns.keys);
    }
    forall q | 0 <= q < |s.rightRest| ensures s.rightRest[q] in right.columns.items {
      assert s.rightRest[q] in right.columns.keys;
      assert s.rightRest[q] in Elements(right.columns.keys);
    }
  }

  /** The tile each joined block replaces the block of, in layout order: the
      evaluated left key tile, the left tile, or the right tile. */
  function Sources(s: Sides, left: VPartition, right: VPartition): (ts: seq<Tile>)
    requires Prepared(s, left, right)
    ensures |ts| == |Layout(s)|
  {
    PreparedColumns(s, left, right);
    TilesAt(s.lk.columns, s.lk.columns.keys) + TilesAt(left.columns, s.leftRest) + TilesAt(right.columns, s.rightRest)
  }

  /** The joined blocks from the kernel. */
  function JoinedBlocks(s: Sides, left: VPartition, right: VPartition, kernel: JoinKernel): seq<Block>
    requires Prepared(s, left, right)
  {
    PreparedColumns(s, left, right);
    kernel(s.leftKeys, s.rightKeys, BlocksAt(left.columns, s.leftRest), BlocksAt(right.columns, s.rightRest))
  }

  /** Each source tile holding its joined block. */
  function Rebased(ts: seq<Tile>, bs: seq<Block>): (r: seq<Tile>)
    requires |ts| == |bs|
    ensures |r| == |ts| && forall i :: 0 <= i < |ts| ==> r[i] == ts[i].ReplaceBlock(bs[i])
  {
    seq(|ts|, i requires 0 <= i < |ts| => ts[i].ReplaceBlock(bs[i]))
  }

  /** `result_columns`, written in layout order. */
  function JoinedColumns(s: Sides, left: VPartition, right: VPartition, bs: seq<Block>): (d: Dict<ColID, Tile>)
    requires Prepared(s, left, right) && |bs| == |Layout(s)|
    ensures d.Valid() && d.keys == Dedup(Layout(s))
  {
    FromPairs(Layout(s), Rebased(Sources(s, left, right), bs))
  }

  /** The second half of `join`: the block count check, then the partition
      built from `result_columns` under the left partition's number. */
  function Assemble(s: Sides, left: VPartition, right: VPartition, bs: seq<Block>): (r: Result<VPartition>)
    requires Prepared(s, left, right)
    ensures |bs| != |Layout(s)| <==> r == Err(JoinBlockCount)
    ensures r.Ok? ==> r.value.Invariant() && r.value.partitionId == left.partitionId
                      && r.value.columns.keys == Dedup(Layout(s))
  {
    if |bs| != |Layout(s)| then Err(JoinBlockCount)
    else
      var d := JoinedColumns(s, left, right, bs);
      ConstructOk(d, left.partitionId);
      Construct(d, left.partitionId)
  }

  /** The partition `join` evaluates the output schema against. */
  function Intermediate(left: VPartition, right: VPartition, leftOn: Schema.ExpressionList,
                        rightOn: Schema.ExpressionList, how: string, exec: Executor, kernel: JoinKernel)
    : (r: Result<VPartition>)
    requires left.Invariant() && right.Invariant()
    ensures how != "inner" ==> r == Err(UnsupportedJoin(how))
  {
    if how != "inner" then Err(UnsupportedJoin(how))
    else
      var s :- Prepare(left, right, leftOn, rightOn, exec);
      Assemble(s, left, right, JoinedBlocks(s, left, right, kernel))
  }

  /** `vPartition.join(right, left_on, right_on, output_schema, how)`: only
      an inner join is carried out; any other mode is refused. */
  function Join(left: VPartition, right: VPartition, leftOn: Schema.ExpressionList, rightOn: Schema.ExpressionList,
                outputSchema: Schema.ExpressionList, how: string, exec: Executor, kernel: JoinKernel)
    : (r: Result<VPartition>)
    requires left.Invariant() && right.Invariant()
    ensures how != "inner" ==> r == Err(UnsupportedJoin(how))
    ensures r.Ok? ==> r.value.Invariant() && r.value.partitionId == left.partitionId
  {
    var mid :- Intermediate(left, right, leftOn, rightOn, how, exec, kernel);
    EvalExpressionList(mid, outputSchema, exec)
  }

  // ---------------------------------------------------------------------------
  // Properties of the layout

  /** The layout lists the left key identities, then the left columns that are
      not keys, then the right columns that are not keys, each part without
      repeats and the first two apart; it repeats an identity exactly when a
      right non-key column shares its identity with a left one. */
  lemma LayoutShape(s: Sides, left: VPartition, right: VPartition)
    requires Prepared(s, left, right)
    ensures forall x :: x in s.leftRest <==> x in left.columns.items && x !in s.lk.columns.items
    ensures forall x :: x in s.rightRest <==> x in right.columns.items && x !in s.rk.columns.items
    ensures Distinct(s.lk.columns.keys + s.leftRest)
    ensures Distinct(Layout(s)) <==> forall x :: x in s.rightRest ==> x !in s.lk.columns.items && x !in s.leftRest
  {
    var a, b, c := s.lk.columns.keys, s.leftRest, s.rightRest;
    forall x ensures x in b <==> x in left.columns.items && x !in s.lk.columns.items {
      assert x in left.columns.keys <==> x in Elements(left.columns.keys);
    }
    forall x ensures x in c <==> x in right.columns.items && x !in s.rk.columns.items {
      assert x in right.columns.keys <==> x in Elements(right.columns.keys);
    }
    forall i, j | 0 <= i < j < |a + b| ensures (a + b)[i] != (a + b)[j] {
      if i < |a| && j >= |a| {
        assert (a + b)[j] == b[j - |a|] && (a + b)[i] in Elements(a);
      }
    }
    DistinctConcat(a + b, c);
    if (forall x :: x in c ==> x !in s.lk.columns.items && x !in b) {
      forall x | x in c ensures x !in a + b {
        assert x !in Elements(a);
      }
    } else {
      var x :| x in c && (x in s.lk.columns.items || x in b);
      assert x in Elements(a) || x in b;
      assert x in a + b;
    }
  }

  /** Two sequences without repeats joined end to end repeat nothing exactly
      when they share nothing. */
  lemma DistinctConcat(a: seq<ColID>, b: seq<ColID>)
    requires Distinct(a) && Distinct(b)
    ensures Distinct(a + b) <==> forall x :: x in b ==> x !in a
  {
    if Distinct(a + b) {
      forall i, j | 0 <= i < |a| && 0 <= j < |b| ensures a[i] != b[j] {
        assert (a + b)[i] == a[i] && (a + b)[|a| + j] == b[j];
      }
    } else {
      var i, j :| 0 <= i < j < |a + b| && (a + b)[i] == (a + b)[j];
      assert i < |a| && j >= |a|;
      assert (a + b)[i] == a[i] && (a + b)[j] == b[j - |a|];
      assert b[j - |a|] in b && b[j - |a|] in a;
    }
  }

  /** Every source tile is stored under its own identity. */
  lemma SourcesFiled(s: Sides, left: VPartition, right: VPartition)
    requires Prepared(s, left, right)
    ensures forall i :: 0 <= i < |Layout(s)| ==> Sources(s, left, right)[i].columnId == Layout(s)[i]
    ensures forall i :: 0 <= i < |s.lk.columns.keys| + |s.leftRest| ==> Sources(s, left, right)[i].partitionId == left.partitionId
    ensures forall i :: |s.lk.columns.keys| + |s.leftRest| <= i < |Layout(s)| ==> Sources(s, left, right)[i].partitionId == right.partitionId
  {
    var a, b := |s.lk.columns.keys|, |s.leftRest|;
    forall i | 0 <= i < |Layout(s)|
      ensures Sources(s, left, right)[i].columnId == Layout(s)[i]
      ensures Sources(s, left, right)[i].partitionId == if i < a + b then left.partitionId else right.partitionId
    {
      SourceFiled(s, left, right, i);
    }
  }

  /** `SourcesFiled` at one position. */
  lemma SourceFiled(s: Sides, left: VPartition, right: VPartition, i: nat)
    requires Prepared(s, left, right) && i < |Layout(s)|
    ensures Sources(s, left, right)[i].columnId == Layout(s)[i]
    ensures Sources(s, left, right)[i].partitionId ==
      if i < |s.lk.columns.keys| + |s.leftRest| then left.partitionId else right.partitionId
  {
    var a, b := |s.lk.columns.keys|, |s.leftRest|;
    if i < a {
      SourcesAtKeys(s, left, right);
      assert s.lk.columns.keys[i] in s.lk.columns.items;
    } else if i < a + b {
      SourcesAtLeft(s, left, right);
      assert s.leftRest[i - a] in left.columns.items;
    } else {
      SourcesAtRight(s, left, right);
      assert s.rightRest[i - a - b] in right.columns.items;
    }
  }

  /** With a layout that repeats nothing, `result_columns` holds under each
      layout identity, in layout order, its source tile with the joined block
      at that position. */
  lemma JoinedDistinct(s: Sides, left: VPartition, right: VPartition, bs: seq<Block>)
    requires Prepared(s, left, right) && |bs| == |Layout(s)| && Distinct(Layout(s))
    ensures var d := JoinedColumns(s, left, right, bs);
      d.keys == Layout(s)
      && forall i :: 0 <= i < |bs| ==>
           Layout(s)[i] in d.items && d.items[Layout(s)[i]] == Sources(s, left, right)[i].ReplaceBlock(bs[i])
  {
    FromDistinctPairs(Layout(s), Rebased(Sources(s, left, right), bs));
  }

  /** Every column of `result_columns` is found at one layout position. */
  lemma JoinedAt(s: Sides, left: VPartition, right: VPartition, bs: seq<Block>, k: ColID) returns (i: nat)
    requires Prepared(s, left, right) && |bs| == |Layout(s)| && Distinct(Layout(s))
    requires k in JoinedColumns(s, left, right, bs).items
    ensures i < |bs| && Layout(s)[i] == k
    ensures JoinedColumns(s, left, right, bs).items[k] == Sources(s, left, right)[i].ReplaceBlock(bs[i])
  {
    JoinedDistinct(s, left, right, bs);
    assert k in Elements(Layout(s));
    i :| 0 <= i < |Layout(s)| && Layout(s)[i] == k;
  }

  /** The joined columns are accepted when the joined blocks have one length
      and no right column of another partition number survives. */
  lemma JoinedAccepted(s: Sides, left: VPartition, right: VPartition, bs: seq<Block>)
    requires Prepared(s, left, right) && |bs| == |Layout(s)| && Distinct(Layout(s))
    requires forall i, j :: 0 <= i < |bs| && 0 <= j < |bs| ==> |bs[i]| == |bs[j]|
    requires s.rightRest == [] || right.partitionId == left.partitionId
    ensures Consistent(JoinedColumns(s, left, right, bs), left.partitionId)
  {
    var d := JoinedColumns(s, left, right, bs);
    SourcesFiled(s, left, right);
    forall k | k in d.items ensures d.items[k].partitionId == left.partitionId && d.items[k].columnId == k {
      var i := JoinedAt(s, left, right, bs, k);
    }
    forall k1, k2 | k1 in d.items && k2 in d.items ensures d.items[k1].Length() == d.items[k2].Length() {
      var i := JoinedAt(s, left, right, bs, k1);
      var j := JoinedAt(s, left, right, bs, k2);
    }
  }

  /** The joined columns are refused when two joined blocks differ in length
      or a right column of another partition number survives. */
  lemma JoinedRefused(s: Sides, left: VPartition, right: VPartition, bs: seq<Block>)
    requires Prepared(s, left, right) && |bs| == |Layout(s)| && Distinct(Layout(s))
    requires !(forall i, j :: 0 <= i < |bs| && 0 <= j < |bs| ==> |bs[i]| == |bs[j]|)
             || (s.rightRest != [] && right.partitionId != left.partitionId)
    ensures !Consistent(JoinedColumns(s, left, right, bs), left.partitionId)
  {
    if !(forall i, j :: 0 <= i < |bs| && 0 <= j < |bs| ==> |bs[i]| == |bs[j]|) {
      var i, j :| 0 <= i < |bs| && 0 <= j < |bs| && |bs[i]| != |bs[j]|;
      JoinedAtPosition(s, left, right, bs, i);
      JoinedAtPosition(s, left, right, bs, j);
    } else {
      var i := |Layout(s)| - 1;
      JoinedAtPosition(s, left, right, bs, i);
      SourceFiled(s, left, right, i);
    }
  }

  /** The joined column at layout position `i`: present, with the source
      tile's partition number and the joined block's length. */
  lemma JoinedAtPosition(s: Sides, left: VPartition, right: VPartition, bs: seq<Block>, i: nat)
    requires Prepared(s, left, right) && |bs| == |Layout(s)| && Distinct(Layout(s)) && i < |bs|
    ensures var d := JoinedColumns(s, left, right, bs);
      Layout(s)[i] in d.items
      && d.items[Layout(s)[i]] == Sources(s, left, right)[i].ReplaceBlock(bs[i])
      && d.items[Layout(s)[i]].Length() == |bs[i]|
      && d.items[Layout(s)[i]].partitionId == Sources(s, left, right)[i].partitionId
  {
    var d, ks := JoinedColumns(s, left, right, bs), Layout(s);
    JoinedDistinct(s, left, right, bs);
    assert ks[i] in Elements(ks);
  }

  /** With a layout that repeats nothing, the intermediate partition is the
      joined columns in layout order; it is refused exactly when the joined
      blocks differ in length or a right column of another partition number
      survives, and never for a column filed under a wrong identity. */
  lemma AssembleDistinct(s: Sides, left: VPartition, right: VPartition, bs: seq<Block>)
    requires Prepared(s, left, right) && |bs| == |Layout(s)| && Distinct(Layout(s))
    ensures var r := Assemble(s, left, right, bs);
      (r.Ok? <==> (forall i, j :: 0 <= i < |bs| && 0 <= j < |bs| ==> |bs[i]| == |bs[j]|)
                  && (s.rightRest == [] || right.partitionId == left.partitionId))
      && (r.Err? ==> r.error == TileLengthMismatch || r.error == PartitionIdMismatch)
      && (r.Ok? ==> (r.value.columns.keys == Layout(s)
            && forall i :: 0 <= i < |bs| ==>
                 Layout(s)[i] in r.value.columns.items
                 && r.value.columns.items[Layout(s)[i]] == Sources(s, left, right)[i].ReplaceBlock(bs[i])))
  {
    var d := JoinedColumns(s, left, right, bs);
    JoinedDistinct(s, left, right, bs);
    ConstructOk(d, left.partitionId);
    if (forall i, j :: 0 <= i < |bs| && 0 <= j < |bs| ==> |bs[i]| == |bs[j]|)
       && (s.rightRest == [] || right.partitionId == left.partitionId) {
      JoinedAccepted(s, left, right, bs);
    } else {
      JoinedRefused(s, left, right, bs);
      JoinedFiled(s, left, right, bs);
      ConstructErrors(d, left.partitionId);
    }
  }

  /** Every joined column is stored under its own identity. */
  lemma JoinedFiled(s: Sides, left: VPartition, right: VPartition, bs: seq<Block>)
    requires Prepared(s, left, right) && |bs| == |Layout(s)| && Distinct(Layout(s))
    ensures var d := JoinedColumns(s, left, right, bs);
      d.Valid() && forall k :: k in d.items ==> d.items[k].columnId == k
  {
    var d := JoinedColumns(s, left, right, bs);
    forall k | k in d.items ensures d.items[k].columnId == k {
      var i := JoinedAt(s, left, right, bs, k);
      SourceFiled(s, left, right, i);
    }
  }

  /** Tiles stored under their own identities are refused only for their
      partition numbers or their lengths. */
  lemma ConstructErrors(d: Dict<ColID, Tile>, pid: PartID)
    requires d.Valid() && forall k :: k in d.items ==> d.items[k].columnId == k
    ensures Construct(d, pid).Err? ==> Construct(d, pid).error == TileLengthMismatch || Construct(d, pid).error == PartitionIdMismatch
  {
    if d.keys != [] {
      CheckIds(d, pid, d.items[d.keys[0]].Length(), 0);
    }
  }

  lemma {:induction false} CheckIds(d: Dict<ColID, Tile>, pid: PartID, size: nat, i: nat)
    requires d.Valid() && i <= |d.keys| && forall k :: k in d.items ==> d.items[k].columnId == k
    ensures CheckFrom(d, pid, size, i) != Some(ColumnIdMismatch)
    decreases |d.keys| - i
  {
    if i < |d.keys| {
      assert d.keys[i] in Elements(d.keys);
      CheckIds(d, pid, size, i + 1);
    }
  }

  // ---------------------------------------------------------------------------
  // The reassembly loops

  /** Position by position, the first part of the layout and its source
      tiles: the evaluated left key columns. */
  lemma SourcesAtKeys(s: Sides, left: VPartition, right: VPartition)
    requires Prepared(s, left, right)
    ensures forall q :: 0 <= q < |s.lk.columns.keys| ==>
      Layout(s)[q] == s.lk.columns.keys[q] && s.lk.columns.keys[q] in s.lk.columns.items
      && Sources(s, left, right)[q] == s.lk.columns.items[s.lk.columns.keys[q]]
  {
    PreparedColumns(s, left, right);
    var x, y, z := s.lk.columns.keys, s.leftRest, s.rightRest;
    var tx, ty, tz := TilesAt(s.lk.columns, x), TilesAt(left.columns, y), TilesAt(right.columns, z);
    assert Sources(s, left, right) == tx + ty + tz;
    forall q | 0 <= q < |x|
      ensures Layout(s)[q] == x[q] && Sources(s, left, right)[q] == s.lk.columns.items[x[q]]
    {
      assert (x + y + z)[q] == x[q];
      assert (tx + ty + tz)[q] == tx[q];
    }
  }

  /** The second part: the left columns that are not keys. */
  lemma SourcesAtLeft(s: Sides, left: VPartition, right: VPartition)
    requires Prepared(s, left, right)
    ensures var a := |s.lk.columns.keys|;
      forall q :: 0 <= q < |s.leftRest| ==>
        Layout(s)[a + q] == s.leftRest[q] && s.leftRest[q] in left.columns.items
        && Sources(s, left, right)[a + q] == left.columns.items[s.leftRest[q]]
  {
    PreparedColumns(s, left, right);
    var x, y, z := s.lk.columns.keys, s.leftRest, s.rightRest;
    var tx, ty, tz := TilesAt(s.lk.columns, x), TilesAt(left.columns, y), TilesAt(right.columns, z);
    assert Sources(s, left, right) == tx + ty + tz;
    forall q | 0 <= q < |y|
      ensures Layout(s)[|x| + q] == y[q] && Sources(s, left, right)[|x| + q] == left.columns.items[y[q]]
    {
      SecondPart(x, y, z, tx, ty, tz, q);
    }
  }

  /** The third part: the right columns that are not keys. */
  lemma SourcesAtRight(s: Sides, left: VPartition, right: VPartition)
    requires Prepared(s, left, right)
    ensures var a := |s.lk.columns.keys| + |s.leftRest|;
      forall q :: 0 <= q < |s.rightRest| ==>
        Layout(s)[a + q] == s.rightRest[q] && s.rightRest[q] in right.columns.items
        && Sources(s, left, right)[a + q] == right.columns.items[s.rightRest[q]]
  {
    PreparedColumns(s, left, right);
    var x, y, z := s.lk.columns.keys, s.leftRest, s.rightRest;
    var tx, ty, tz := TilesAt(s.lk.columns, x), TilesAt(left.columns, y), TilesAt(right.columns, z);
    assert Sources(s, left, right) == tx + ty + tz;
    ThirdPart(x, y, z, tx, ty, tz);
  }

  /** The third of three parts joined end to end, with a second sequence of
      parts of the same lengths alongside. */
  lemma ThirdPart<K, T>(x: seq<K>, y: seq<K>, z: seq<K>, tx: seq<T>, ty: seq<T>, tz: seq<T>)
    requires |tx| == |x| && |ty| == |y| && |tz| == |z|
    ensures forall q :: 0 <= q < |z| ==>
      (x + y + z)[|x| + |y| + q] == z[q] && (tx + ty + tz)[|x| + |y| + q] == tz[q]
  {
  }

  /** The second of three parts joined end to end, with a second sequence of
      parts of the same lengths alongside. */
  lemma SecondPart<K, T>(x: seq<K>, y: seq<K>, z: seq<K>, tx: seq<T>, ty: seq<T>, tz: seq<T>, q: nat)
    requires |tx| == |x| && |ty| == |y| && q < |y|
    ensures (x + y + z)[|x| + q] == y[q] && (tx + ty + tz)[|x| + q] == ty[q]
  {
    assert (x + y + z)[|x| + q] == (x + y)[|x| + q];
    assert (tx + ty + tz)[|x| + q] == (tx + ty)[|x| + q];
  }

  /** The layout and the rebased source tiles, position by position, in the
      form the three loops consume them. */
  lemma RebasedAt(s: Sides, left: VPartition, right: VPartition, blocks: seq<Block>)
    requires Prepared(s, left, right) && |blocks| == |Layout(s)|
    ensures var ks, ts, a, b := Layout(s), Rebased(Sources(s, left, right), blocks), |s.lk.columns.keys|, |s.leftRest|;
      && Writes(ks, ts, s.lk.columns.items, s.lk.columns.keys, blocks, 0)
      && Writes(ks, ts, left.columns.items, s.leftRest, blocks, a)
      && Writes(ks, ts, right.columns.items, s.rightRest, blocks, a + b)
  {
    SourcesAtKeys(s, left, right);
    SourcesAtLeft(s, left, right);
    SourcesAtRight(s, left, right);
  }

  /** Positions `start` on of the layout `ks` and the tiles `ts` are what one
      loop of `join` writes: each identity of `ids` in turn, with the tile
      `src` holds under it rebased onto the joined block at that position. */
  ghost predicate Writes(ks: seq<ColID>, ts: seq<Tile>, src: map<ColID, Tile>, ids: seq<ColID>,
                         blocks: seq<Block>, start: nat)
  {
    && |ks| == |ts| == |blocks| && start + |ids| <= |ks|
    && forall q :: 0 <= q < |ids| ==>
         ks[start + q] == ids[q] && ids[q] in src && ts[start + q] == src[ids[q]].ReplaceBlock(blocks[start + q])
  }

  /** The `q`-th step of one loop writes the next pair of the layout. */
  lemma WriteStep(ks: seq<ColID>, ts: seq<Tile>, src: map<ColID, Tile>, ids: seq<ColID>,
                  blocks: seq<Block>, start: nat, q: nat, cols: Dict<ColID, Tile>)
    requires Writes(ks, ts, src, ids, blocks, start) && q < |ids|
    requires cols == FromPairs(ks[..start + q], ts[..start + q])
    ensures ids[q] in src && start + q < |blocks|
    ensures cols.Valid()
    ensures Put(cols, ids[q], src[ids[q]].ReplaceBlock(blocks[start + q])) == FromPairs(ks[..start + q + 1], ts[..start + q + 1])
  {
    FromPairsStep(ks, ts, start + q);
  }

  /** One of the three loops of `join`: for each identity of `ids`, the tile
      `src` holds under it, with the joined block at position `idx`, is written
      under that identity and `idx` moves on. */
  method WriteColumns(cols: Dict<ColID, Tile>, src: map<ColID, Tile>, ids: seq<ColID>, blocks: seq<Block>,
                      start: nat, ghost ks: seq<ColID>, ghost ts: seq<Tile>)
    returns (out: Dict<ColID, Tile>, idx: nat)
    requires Writes(ks, ts, src, ids, blocks, start)
    requires cols == FromPairs(ks[..start], ts[..start])
    ensures idx == start + |ids| && out == FromPairs(ks[..idx], ts[..idx])
  {
    out, idx := cols, start;
    for q := 0 to |ids|
      invariant idx == start + q && out == FromPairs(ks[..idx], ts[..idx])
    {
      var k := ids[q];
      var t := src[k].ReplaceBlock(blocks[idx]);
      WriteStep(ks, ts, src, ids, blocks, start, q, out);
      out := Put(out, k, t);
      idx := idx + 1;
    }
  }

  /** `result_columns` built by the three loops of `join`, one per part of
      the layout, sharing the `joined_block_idx` counter: the evaluated left
      key columns, then the left and the right columns that are not keys. The
      layout `ks` and the rebased tiles `ts` are what the loops are to write,
      part by part. */
  method ReassembleColumns(keyCols: Dict<ColID, Tile>, leftCols: Dict<ColID, Tile>, leftRest: seq<ColID>,
                           rightCols: Dict<ColID, Tile>, rightRest: seq<ColID>, blocks: seq<Block>,
                           ghost ks: seq<ColID>, ghost ts: seq<Tile>)
    returns (cols: Dict<ColID, Tile>)
    requires |ks| == |keyCols.keys| + |leftRest| + |rightRest|
    requires Writes(ks, ts, keyCols.items, keyCols.keys, blocks, 0)
    requires Writes(ks, ts, leftCols.items, leftRest, blocks, |keyCols.keys|)
    requires Writes(ks, ts, rightCols.items, rightRest, blocks, |keyCols.keys| + |leftRest|)
    ensures cols == FromPairs(ks, ts)
  {
    var idx;
    cols, idx := ReassembleLeft(keyCols, leftCols, leftRest, blocks, ks, ts);
    cols, idx := WriteColumns(cols, rightCols.items, rightRest, blocks, idx, ks, ts);
    assert ks[..idx] == ks && ts[..idx] == ts;
  }

  /** The first two loops of `join`: the key columns, then the left columns
      that are not keys. */
  method ReassembleLeft(keyCols: Dict<ColID, Tile>, leftCols: Dict<ColID, Tile>, leftRest: seq<ColID>,
                        blocks: seq<Block>, ghost ks: seq<ColID>, ghost ts: seq<Tile>)
    returns (cols: Dict<ColID, Tile>, idx: nat)
    requires Writes(ks, ts, keyCols.items, keyCols.keys, blocks, 0)
    requires Writes(ks, ts, leftCols.items, leftRest, blocks, |keyCols.keys|)
    ensures idx == |keyCols.keys| + |leftRest| && cols == FromPairs(ks[..idx], ts[..idx])
  {
    idx := 0;
    cols := Empty();
    assert cols == FromPairs(ks[..0], ts[..0]);
    cols, idx := WriteColumns(cols, keyCols.items, keyCols.keys, blocks, idx, ks, ts);
    cols, idx := WriteColumns(cols, leftCols.items, leftRest, blocks, idx, ks, ts);
  }

  /** The reassembly loops of `join` write `result_columns`. */
  method JoinColumns(s: Sides, left: VPartition, right: VPartition, joinedBlocks: seq<Block>)
    returns (cols: Dict<ColID, Tile>)
    requires Prepared(s, left, right) && |joinedBlocks| == |Layout(s)|
    ensures cols == JoinedColumns(s, left, right, joinedBlocks)
  {
    RebasedAt(s, left, right, joinedBlocks);
    cols := ReassembleColumns(s.lk.columns, left.columns, s.leftRest, right.columns, s.rightRest, joinedBlocks,
                              Layout(s), Rebased(Sources(s, left, right), joinedBlocks));
  }

  /** `vPartition.join`: the mode check, both key evaluations and lookups,
      the kernel, the block count check, the reassembly loops, the
      constructor's check and the evaluation of the output schema. */
  method JoinPartitions(left: VPartition, right: VPartition, leftOn: Schema.ExpressionList,
                        rightOn: Schema.ExpressionList, outputSchema: Schema.ExpressionList, how: string,
                        exec: Executor, kernel: JoinKernel)
    returns (r: Result<VPartition>)
    requires left.Invariant() && right.Invariant()
    ensures r == Join(left, right, leftOn, rightOn, outputSchema, how, exec, kernel)
  {
    if how != "inner" {
      return Err(UnsupportedJoin(how));
    }
    var prepared := Prepare(left, right, leftOn, rightOn, exec);
    if prepared.Err? {
      return Err(prepared.error);
    }
    var s := prepared.value;
    var joinedBlocks := JoinedBlocks(s, left, right, kernel);
    if |joinedBlocks| != |Layout(s)| {
      return Err(JoinBlockCount);
    }
    var cols := JoinColumns(s, left, right, joinedBlocks);
    var output := MakePartition(cols, left.partitionId);
    if output.Err? {
      return Err(output.error);
    }
    r := EvalExpressionList(output.value, outputSchema, exec);
  }

  /** An inner join whose key lists evaluate and whose right non-key columns
      share no identity with a left column reaches the output schema with the
      intermediate partition laid out exactly as left keys, left non-key
      columns, right non-key columns, each holding its joined block; it stops
      before exactly when the kernel's block count is off, the joined blocks
      differ in length, or a right column of another partition number is
      kept. */
  lemma JoinLayout(left: VPartition, right: VPartition, leftOn: Schema.ExpressionList,
                   rightOn: Schema.ExpressionList, exec: Executor, kernel: JoinKernel)
    requires left.Invariant() && right.Invariant()
    requires EvalExpressionList(left, leftOn, exec).Ok? && EvalExpressionList(right, rightOn, exec).Ok?
    ensures Prepare(left, right, leftOn, rightOn, exec).Ok?
    ensures var s := Prepare(left, right, leftOn, rightOn, exec).value;
      var bs := JoinedBlocks(s, left, right, kernel);
      (forall x :: x in s.rightRest ==> x !in s.lk.columns.items && x !in s.leftRest) ==>
        LaidOut(s, left, right, bs, Intermediate(left, right, leftOn, rightOn, "inner", exec, kernel))
  {
    PrepareFails(left, right, leftOn, rightOn, exec);
    var s := Prepare(left, right, leftOn, rightOn, exec).value;
    IntermediateInner(left, right, leftOn, rightOn, exec, kernel);
    AssembleApart(s, left, right, JoinedBlocks(s, left, right, kernel));
  }

  /** The reassembly `r` of the blocks `bs` succeeds exactly when there is one
      block per layout position, the blocks agree in length and no right
      column of another partition number is kept; it then holds, in layout
      order, each source tile with its joined block. */
  predicate LaidOut(s: Sides, left: VPartition, right: VPartition, bs: seq<Block>, r: Result<VPartition>)
    requires Prepared(s, left, right)
  {
    (r.Ok? <==> |bs| == |Layout(s)|
                && (forall i, j :: 0 <= i < |bs| && 0 <= j < |bs| ==> |bs[i]| == |bs[j]|)
                && (s.rightRest == [] || right.partitionId == left.partitionId))
    && (r.Ok? ==> (r.value.columns.keys == Layout(s)
          && forall i :: 0 <= i < |bs| ==>
               Layout(s)[i] in r.value.columns.items
               && r.value.columns.items[Layout(s)[i]] == Sources(s, left, right)[i].ReplaceBlock(bs[i])))
  }

  /** `AssembleDistinct` for any block count, when no right non-key column
      shares its identity with a left column. */
  lemma AssembleApart(s: Sides, left: VPartition, right: VPartition, bs: seq<Block>)
    requires Prepared(s, left, right)
    ensures (forall x :: x in s.rightRest ==> x !in s.lk.columns.items && x !in s.leftRest) ==>
      LaidOut(s, left, right, bs, Assemble(s, left, right, bs))
  {
    if (forall x :: x in s.rightRest ==> x !in s.lk.columns.items && x !in s.leftRest) {
      LayoutShape(s, left, right);
      if |bs| == |Layout(s)| {
        AssembleDistinct(s, left, right, bs);
      }
    }
  }

  /** Once the sides are prepared, an inner join's intermediate partition is
      the reassembly of the kernel's blocks. */
  lemma IntermediateInner(left: VPartition, right: VPartition, leftOn: Schema.ExpressionList,
                          rightOn: Schema.ExpressionList, exec: Executor, kernel: JoinKernel)
    requires left.Invariant() && right.Invariant()
    requires Prepare(left, right, leftOn, rightOn, exec).Ok?
    ensures var s := Prepare(left, right, leftOn, rightOn, exec).value;
      Intermediate(left, right, leftOn, rightOn, "inner", exec, kernel) == Assemble(s, left, right, JoinedBlocks(s, left, right, kernel))
  {
  }
}
