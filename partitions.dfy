/** `vPartition`: the columns of one partition, a dict from column identity to
    tile, together with the partition's number. The constructor checks that
    every tile belongs to this partition, that all tiles have the same length,
    and that every tile is stored under its own column identity. Partitions are
    frozen: every operation returns a new one, built through that constructor. */
module Partitions {
  import opened Common
  import opened Dicts
  import opened Blocks
  import opened Expressions
  import opened Tiles
  import Schema

  datatype VPartition = VPartition(columns: Dict<ColID, Tile>, partitionId: PartID) {

    /** What construction guarantees. */
    predicate Invariant() {
      columns.Valid() && Consistent(columns, partitionId)
    }
  }

  /** The three checks of the constructor, for the column at position `j`, the
      first column's length being `size`. */
  predicate Fits(d: Dict<ColID, Tile>, pid: PartID, size: nat, j: nat)
    requires d.Valid() && j < |d.keys|
  {
    var t := d.items[d.keys[j]];
    t.partitionId == pid && t.Length() == size && d.keys[j] == t.columnId
  }

  /** Every tile belongs to partition `pid`, all tiles have one length, and each
      is stored under its own column identity. */
  predicate Consistent(d: Dict<ColID, Tile>, pid: PartID) {
    (forall k :: k in d.items ==> d.items[k].partitionId == pid && d.items[k].columnId == k)
    && (forall k1, k2 :: k1 in d.items && k2 in d.items ==> d.items[k1].Length() == d.items[k2].Length())
  }

  /** The first failure the constructor's loop meets from position `i` on. */
  function CheckFrom(d: Dict<ColID, Tile>, pid: PartID, size: nat, i: nat): (r: Option<Error>)
    requires d.Valid() && i <= |d.keys|
    ensures r.None? <==> forall j :: i <= j < |d.keys| ==> Fits(d, pid, size, j)
    ensures r.Some? ==> r.value in {PartitionIdMismatch, TileLengthMismatch, ColumnIdMismatch}
    ensures (forall j :: i <= j < |d.keys| ==> d.items[d.keys[j]].partitionId == pid && d.keys[j] == d.items[d.keys[j]].columnId)
            ==> r.None? || r == Some(TileLengthMismatch)
    decreases |d.keys| - i
  {
    if i == |d.keys| then None
    else
      var t := d.items[d.keys[i]];
      if !Fits(d, pid, size, i) then
        if t.partitionId != pid then Some(PartitionIdMismatch)
        else if t.Length() != size then Some(TileLengthMismatch)
        else Some(ColumnIdMismatch)
      else CheckFrom(d, pid, size, i + 1)
  }

  /** The failure `__post_init__` raises, if any: the loop over the columns in
      dict order, the first column fixing the length. */
  function PostInitError(d: Dict<ColID, Tile>, pid: PartID): (r: Option<Error>)
    requires d.Valid()
  {
    if d.keys == [] then None else CheckFrom(d, pid, d.items[d.keys[0]].Length(), 0)
  }

  /** `vPartition(columns, partition_id)`. */
  function Construct(d: Dict<ColID, Tile>, pid: PartID): (r: Result<VPartition>)
    requires d.Valid()
  {
    match PostInitError(d, pid)
    case Some(e) => Err(e)
    case None => Ok(VPartition(d, pid))
  }

  /** Construction succeeds exactly on consistent columns, and then yields a
      partition satisfying the invariant; its failures are the three
      `ValueError`s of the constructor. */
  lemma ConstructOk(d: Dict<ColID, Tile>, pid: PartID)
    requires d.Valid()
    ensures Construct(d, pid).Ok? <==> Consistent(d, pid)
    ensures Construct(d, pid).Ok? ==> Construct(d, pid).value == VPartition(d, pid) && VPartition(d, pid).Invariant()
    ensures Construct(d, pid).Err? ==> Construct(d, pid).error in {PartitionIdMismatch, TileLengthMismatch, ColumnIdMismatch}
  {
    if d.keys != [] {
      var size := d.items[d.keys[0]].Length();
      if Consistent(d, pid) {
        forall j | 0 <= j < |d.keys| ensures Fits(d, pid, size, j) {
          var k, k0 := d.keys[j], d.keys[0];
          assert k in Elements(d.keys) && k0 in Elements(d.keys);
          assert d.items[k].Length() == d.items[k0].Length();
        }
      }
      if PostInitError(d, pid).None? {
        forall k | k in d.items ensures d.items[k].partitionId == pid && d.items[k].columnId == k
          && d.items[k].Length() == size
        {
          var j :| 0 <= j < |d.keys| && d.keys[j] == k;
          assert Fits(d, pid, size, j);
        }
      }
    }
  }

  /** Worked example of `ConstructOk`: a partition without columns is
      accepted, whatever its number. */
  lemma EmptyPartitionAccepted(pid: PartID)
    ensures Construct(Empty(), pid) == Ok(VPartition(Empty(), pid))
  {
  }

  /** Worked example of `ConstructOk`: a tile of another partition, stored
      under its own identity, is refused. */
  lemma ForeignTileRefused(t: Tile, pid: PartID)
    requires t.partitionId != pid
    ensures Construct(Put(Empty(), t.columnId, t), pid) == Err(PartitionIdMismatch)
  {
  }

  /** Worked example of `ConstructOk`: two tiles of different lengths are
      refused. */
  lemma RaggedTilesRefused(t: Tile, u: Tile, pid: PartID)
    requires t.partitionId == pid && u.partitionId == pid && t.columnId != u.columnId
    requires t.Length() != u.Length()
    ensures Construct(Put(Put(Empty(), t.columnId, t), u.columnId, u), pid) == Err(TileLengthMismatch)
  {
    var d := Put(Put(Empty(), t.columnId, t), u.columnId, u);
    assert d.keys == [t.columnId, u.columnId];
    assert Fits(d, pid, t.Length(), 0) && !Fits(d, pid, t.Length(), 1);
    assert CheckFrom(d, pid, t.Length(), 0) == CheckFrom(d, pid, t.Length(), 1) == Some(TileLengthMismatch);
  }

  /** Worked example of `ConstructOk`: a tile stored under another column's
      identity is refused. */
  lemma MisfiledTileRefused(t: Tile, k: ColID, pid: PartID)
    requires t.partitionId == pid && k != t.columnId
    ensures Construct(Put(Empty(), k, t), pid) == Err(ColumnIdMismatch)
  {
  }

  /** `vPartition.__post_init__`: the loop with its `size` accumulator. */
  method MakePartition(d: Dict<ColID, Tile>, pid: PartID) returns (r: Result<VPartition>)
    requires d.Valid()
    ensures r == Construct(d, pid)
  {
    var size: Option<nat> := None;
    var i := 0;
    while i < |d.keys|
      invariant 0 <= i <= |d.keys|
      invariant size.None? <==> i == 0
      invariant size.Some? ==>
        size.value == d.items[d.keys[0]].Length() && PostInitError(d, pid) == CheckFrom(d, pid, size.value, i)
    {
      var colId := d.keys[i];
      var tile := d.items[colId];
      if tile.partitionId != pid {
        return Err(PartitionIdMismatch);
      }
      if size.None? {
        size := Some(tile.Length());
      }
      if tile.Length() != size.value {
        return Err(TileLengthMismatch);
      }
      if colId != tile.columnId {
        return Err(ColumnIdMismatch);
      }
      i := i + 1;
    }
    return Ok(VPartition(d, pid));
  }

  /** `len(partition)`: the length of the first column; there must be one. */
  function Length(p: VPartition): (r: Result<nat>)
    requires p.Invariant()
    ensures r.Err? <==> p.columns.keys == []
    ensures r.Err? ==> r.error == NoColumns
    ensures r.Ok? ==> forall k :: k in p.columns.items ==> p.columns.items[k].Length() == r.value
  {
    if p.columns.keys == [] then Err(NoColumns)
    else
      var k0 := p.columns.keys[0];
      assert k0 in Elements(p.columns.keys);
      assert forall k :: k in p.columns.items ==> p.columns.items[k].Length() == p.columns.items[k0].Length();
      Ok(p.columns.items[k0].Length())
  }

  // ---------------------------------------------------------------------------
  // Evaluating expressions against a partition

  /** The block the partition holds for column `id`; a missing column is the
      `KeyError` of the dict lookup. */
  function BlockOf(p: VPartition, id: ColID): (r: Result<Block>)
    ensures r.Ok? <==> id in p.columns.items
    ensures r.Ok? ==> r.value == p.columns.items[id].block
    ensures r.Err? ==> r.error == MissingColumn(id)
  {
    if id in p.columns.items then Ok(p.columns.items[id].block) else Err(MissingColumn(id))
  }

  /** A reference the evaluation loop accepts: it has an identity the partition
      holds and a name. */
  predicate Usable(p: VPartition, c: ColumnRef) {
    c.id.Some? && c.id.value in p.columns.items && c.name.Some?
  }

  /** The name-to-block dict `eval_expression` builds from the references, in
      order, stopping at the first one that has no identity, names an absent
      column or has no name. */
  function RequiredBlocks(p: VPartition, refs: seq<ColumnRef>): (r: Result<map<string, Block>>)
    ensures r.Ok? <==> forall k :: 0 <= k < |refs| ==> Usable(p, refs[k])
    ensures r.Err? ==> r.error == MissingId || r.error == MissingName || r.error.MissingColumn?
  {
    if refs == [] then Ok(map[])
    else
      var n := |refs| - 1;
      var m :- RequiredBlocks(p, refs[..n]);
      var c := refs[n];
      if c.id.None? then Err(MissingId)
      else
        var block :- BlockOf(p, c.id.value);
        if c.name.None? then Err(MissingName)
        else
          assert forall k :: 0 <= k < n ==> refs[..n][k] == refs[k];
          Ok(m[c.name.value := block])
  }

  /** Every name read is a key of the dict. */
  lemma {:induction false} RequiredBlocksKeys(p: VPartition, refs: seq<ColumnRef>)
    requires RequiredBlocks(p, refs).Ok?
    ensures forall k :: 0 <= k < |refs| ==> refs[k].name.value in RequiredBlocks(p, refs).value
    ensures forall nm :: nm in RequiredBlocks(p, refs).value ==> exists k :: 0 <= k < |refs| && refs[k].name == Some(nm)
  {
    if refs != [] {
      var n := |refs| - 1;
      var init := refs[..n];
      RequiredBlocksKeys(p, init);
      var m := RequiredBlocks(p, init).value;
      assert RequiredBlocks(p, refs).value == m[refs[n].name.value := p.columns.items[refs[n].id.value].block];
      forall k | 0 <= k < n ensures refs[k].name.value in m {
        assert refs[k] == init[k];
      }
      forall nm | nm in m ensures exists k :: 0 <= k < |refs| && refs[k].name == Some(nm) {
        var k :| 0 <= k < n && init[k].name == Some(nm);
        assert refs[k] == init[k];
      }
    }
  }

  /** Under each name the dict holds the block of the last reference with that name. */
  lemma {:induction false} RequiredBlocksLast(p: VPartition, refs: seq<ColumnRef>, k: nat)
    requires RequiredBlocks(p, refs).Ok? && k < |refs| && IsLastName(refs, k)
    ensures refs[k].name.value in RequiredBlocks(p, refs).value
    ensures RequiredBlocks(p, refs).value[refs[k].name.value] == p.columns.items[refs[k].id.value].block
  {
    RequiredBlocksKeys(p, refs);
    var n := |refs| - 1;
    var init := refs[..n];
    if k < n {
      assert refs[n].name != refs[k].name;
      assert init[k] == refs[k];
      assert IsLastName(init, k) by {
        forall j | k < j < n ensures init[j].name != init[k].name {
          assert init[j] == refs[j];
        }
      }
      RequiredBlocksLast(p, init, k);
      RequiredBlocksKeys(p, init);
    }
  }

  /** A failure among the first references is the failure of the whole loop. */
  lemma {:induction false} RequiredBlocksPrefixErr(p: VPartition, refs: seq<ColumnRef>, i: nat)
    requires i <= |refs| && RequiredBlocks(p, refs[..i]).Err?
    ensures RequiredBlocks(p, refs) == RequiredBlocks(p, refs[..i])
    decreases |refs|
  {
    if i < |refs| {
      var n := |refs| - 1;
      assert refs[..n][..i] == refs[..i];
      RequiredBlocksPrefixErr(p, refs[..n], i);
      RequiredBlocksErrStep(p, refs);
    } else {
      assert refs[..i] == refs;
    }
  }

  /** A failure before the last reference is the failure of the whole loop. */
  lemma RequiredBlocksErrStep(p: VPartition, refs: seq<ColumnRef>)
    requires refs != [] && RequiredBlocks(p, refs[..|refs| - 1]).Err?
    ensures RequiredBlocks(p, refs) == RequiredBlocks(p, refs[..|refs| - 1])
  {
  }

  /** No later reference carries the name of reference `k`. */
  predicate IsLastName(refs: seq<ColumnRef>, k: nat)
    requires k < |refs|
  {
    forall j :: k < j < |refs| ==> refs[j].name != refs[k].name
  }

  /** The loop of `eval_expression` that collects the blocks a computed
      expression reads. */
  method CollectBlocks(p: VPartition, refs: seq<ColumnRef>) returns (r: Result<map<string, Block>>)
    ensures r == RequiredBlocks(p, refs)
  {
    var blocks: map<string, Block> := map[];
    var i := 0;
    while i < |refs|
      invariant 0 <= i <= |refs|
      invariant RequiredBlocks(p, refs[..i]) == Ok(blocks)
    {
      var c := refs[i];
      assert refs[..i + 1][..i] == refs[..i] && refs[..i + 1][i] == c;
      if c.id.None? {
        RequiredBlocksPrefixErr(p, refs, i + 1);
        return Err(MissingId);
      }
      if c.id.value !in p.columns.items {
        RequiredBlocksPrefixErr(p, refs, i + 1);
        return Err(MissingColumn(c.id.value));
      }
      var block := p.columns.items[c.id.value].block;
      if c.name.None? {
        RequiredBlocksPrefixErr(p, refs, i + 1);
        return Err(MissingName);
      }
      blocks := blocks[c.name.value := block];
      i := i + 1;
    }
    assert refs[..i] == refs;
    return Ok(blocks);
  }

  /** The expression executor, which computes a block from the blocks an
      expression reads by name. */
  type Executor = (Expression, map<string, Block>) -> Block

  /** `vPartition.eval_expression(expr)`: a column reference yields the
      referenced block under the expression's identity and name; a computed
      expression yields the executor's block. */
  function EvalExpression(p: VPartition, e: Expression, exec: Executor): (r: Result<Tile>)
    ensures e.Id().None? ==> r == Err(MissingId)
    ensures e.Id().Some? && e.Name().None? ==> r == Err(MissingName)
    ensures r.Ok? ==> r.value.columnId == e.Id().value && r.value.columnName == e.Name().value
                      && r.value.partitionId == p.partitionId
    ensures e.Id().Some? && e.Name().Some? && !e.HasCall() ==>
      (r.Ok? <==> e.Id().value in p.columns.items)
      && (r.Ok? ==> r.value.block == p.columns.items[e.Id().value].block)
    ensures e.Id().Some? && e.Name().Some? && e.HasCall() ==>
      (r.Ok? <==> forall c :: c in e.RequiredColumns(false) ==> Usable(p, c))
      && (r.Ok? ==> r.value.block == exec(e, RequiredBlocks(p, e.RequiredColumns(false)).value))
    ensures r.Err? ==> r.error == MissingId || r.error == MissingName || r.error.MissingColumn?
  {
    if e.Id().None? then Err(MissingId)
    else if e.Name().None? then Err(MissingName)
    else if !e.HasCall() then
      var block :- BlockOf(p, e.Id().value);
      Ok(Tile(e.Id().value, e.Name().value, p.partitionId, block))
    else
      var blocks :- RequiredBlocks(p, e.RequiredColumns(false));
      Ok(Tile(e.Id().value, e.Name().value, p.partitionId, exec(e, blocks)))
  }

  /** `[self.eval_expression(e) for e in exprs]`, stopping at the first failure. */
  function EvalAll(p: VPartition, es: seq<Expression>, exec: Executor): (r: Result<seq<Tile>>)
    ensures r.Ok? <==> forall k :: 0 <= k < |es| ==> EvalExpression(p, es[k], exec).Ok?
    ensures r.Ok? ==> |r.value| == |es| && forall k :: 0 <= k < |es| ==> r.value[k] == EvalExpression(p, es[k], exec).value
    ensures r.Err? ==> exists k :: 0 <= k < |es| && EvalExpression(p, es[k], exec) == Err(r.error)
  {
    if es == [] then Ok([])
    else
      var n := |es| - 1;
      var ts :- EvalAll(p, es[..n], exec);
      assert forall k :: 0 <= k < n ==> es[..n][k] == es[k];
      var t :- EvalExpression(p, es[n], exec);
      Ok(ts + [t])
  }

  function IdsOf(ts: seq<Tile>): (r: seq<ColID>)
    ensures |r| == |ts| && forall k :: 0 <= k < |ts| ==> r[k] == ts[k].columnId
  {
    seq(|ts|, k requires 0 <= k < |ts| => ts[k].columnId)
  }

  /** `vPartition.eval_expression_list(exprs)`: the evaluated tiles keyed by
      their identities, in list order, as a partition of the same number. */
  function EvalExpressionList(p: VPartition, l: Schema.ExpressionList, exec: Executor): (r: Result<VPartition>)
    ensures r.Ok? ==> r.value.Invariant() && r.value.partitionId == p.partitionId
  {
    var ts :- EvalAll(p, l.exprs, exec);
    ConstructOk(Keyed(ts), p.partitionId);
    Construct(Keyed(ts), p.partitionId)
  }

  /** Tiles that all belong to partition `pid` and are each stored under their
      own identity can only be refused for their lengths, and are accepted
      exactly when all have one length. */
  lemma ConstructFiled(d: Dict<ColID, Tile>, pid: PartID)
    requires d.Valid()
    requires forall k :: k in d.items ==> d.items[k].partitionId == pid && d.items[k].columnId == k
    ensures Construct(d, pid).Ok?
            <==> forall k1, k2 :: k1 in d.items && k2 in d.items ==> d.items[k1].Length() == d.items[k2].Length()
    ensures Construct(d, pid).Err? ==> Construct(d, pid).error == TileLengthMismatch
    ensures Construct(d, pid).Ok? ==> Construct(d, pid).value == VPartition(d, pid)
  {
    ConstructOk(d, pid);
    forall j | 0 <= j < |d.keys|
      ensures d.items[d.keys[j]].partitionId == pid && d.keys[j] == d.items[d.keys[j]].columnId
    {
      var k := d.keys[j];
      assert k in Elements(d.keys);
      assert k in d.items;
    }
  }

  /** Tiles keyed by their own identities, each kept under its last occurrence. */
  function Keyed(ts: seq<Tile>): (d: Dict<ColID, Tile>)
    ensures d.Valid() && d.keys == Dedup(IdsOf(ts))
  {
    FromPairs(IdsOf(ts), ts)
  }

  /** Every tile of the keyed dict is one of the tiles, under its own identity. */
  lemma KeyedFiled(ts: seq<Tile>, pid: PartID)
    requires forall i :: 0 <= i < |ts| ==> ts[i].partitionId == pid
    ensures forall k :: k in Keyed(ts).items ==> Keyed(ts).items[k].partitionId == pid && Keyed(ts).items[k].columnId == k
  {
    forall k | k in Keyed(ts).items ensures Keyed(ts).items[k].partitionId == pid && Keyed(ts).items[k].columnId == k {
      FromPairsValues(IdsOf(ts), ts, k);
    }
  }

  /** The keyed tiles have one length exactly when the tiles that are kept,
      the last one evaluated for each identity, have one length. */
  lemma KeyedUniform(ts: seq<Tile>)
    ensures (forall k1, k2 :: k1 in Keyed(ts).items && k2 in Keyed(ts).items ==> Keyed(ts).items[k1].Length() == Keyed(ts).items[k2].Length())
        <==> KeptUniform(ts)
  {
    var ids, d := IdsOf(ts), Keyed(ts);
    if KeptUniform(ts) {
      forall k1, k2 | k1 in d.items && k2 in d.items ensures d.items[k1].Length() == d.items[k2].Length() {
        FromPairsValues(ids, ts, k1);
        FromPairsValues(ids, ts, k2);
      }
    } else {
      var a, b :| 0 <= a < |ts| && 0 <= b < |ts| && IsLast(ids, a) && IsLast(ids, b) && ts[a].Length() != ts[b].Length();
      FromPairsLast(ids, ts, a);
      FromPairsLast(ids, ts, b);
      assert d.items[ids[a]].Length() != d.items[ids[b]].Length();
    }
  }

  /** The last tile evaluated for each identity all have one length. */
  predicate KeptUniform(ts: seq<Tile>) {
    forall a, b :: 0 <= a < |ts| && 0 <= b < |ts| && IsLast(IdsOf(ts), a) && IsLast(IdsOf(ts), b) ==> ts[a].Length() == ts[b].Length()
  }

  /** Tiles of one partition, keyed by their identities, are refused only for
      their lengths, exactly when two of the tiles kept differ in length. */
  lemma KeyedConstruct(ts: seq<Tile>, pid: PartID)
    requires forall i :: 0 <= i < |ts| ==> ts[i].partitionId == pid
    ensures Construct(Keyed(ts), pid).Ok? <==> KeptUniform(ts)
    ensures Construct(Keyed(ts), pid).Err? ==> Construct(Keyed(ts), pid).error == TileLengthMismatch
    ensures Construct(Keyed(ts), pid).Ok? ==> Construct(Keyed(ts), pid).value == VPartition(Keyed(ts), pid)
  {
    KeyedFiled(ts, pid);
    ConstructFiled(Keyed(ts), pid);
    KeyedUniform(ts);
  }

  /** The keyed tiles hold, under each identity, the last tile evaluated for it. */
  lemma KeyedLast(ts: seq<Tile>)
    ensures forall i :: 0 <= i < |ts| && IsLast(IdsOf(ts), i) ==> Keyed(ts).items[ts[i].columnId] == ts[i]
  {
    forall i | 0 <= i < |ts| && IsLast(IdsOf(ts), i) ensures Keyed(ts).items[ts[i].columnId] == ts[i] {
      FromPairsLast(IdsOf(ts), ts, i);
    }
  }

  /** When every expression evaluates, the evaluated partition keeps the
      partition's number, lists each identity once in order of first
      appearance, holds under each identity the last tile evaluated for it,
      and is refused only when two of the tiles it keeps differ in length. */
  lemma EvalExpressionListShape(p: VPartition, l: Schema.ExpressionList, exec: Executor)
    requires EvalAll(p, l.exprs, exec).Ok?
    ensures var ts := EvalAll(p, l.exprs, exec).value;
      var r := EvalExpressionList(p, l, exec);
      (r.Ok? <==> KeptUniform(ts))
      && (r.Err? ==> r.error == TileLengthMismatch)
      && (r.Ok? ==> r.value.columns.keys == Dedup(IdsOf(ts))
                    && forall i :: 0 <= i < |ts| && IsLast(IdsOf(ts), i) ==> r.value.columns.items[ts[i].columnId] == ts[i])
  {
    var ts := EvalAll(p, l.exprs, exec).value;
    assert EvalExpressionList(p, l, exec) == Construct(Keyed(ts), p.partitionId);
    KeyedConstruct(ts, p.partitionId);
    KeyedLast(ts);
  }

  // ---------------------------------------------------------------------------
  // Operations applied to every column

  /** Every tile with its block replaced by its image under `f`, in the same order. */
  function MapBlocks(d: Dict<ColID, Tile>, f: Block -> Block): (r: Dict<ColID, Tile>)
    ensures r.keys == d.keys && r.items.Keys == d.items.Keys
    ensures forall k :: k in d.items ==> r.items[k] == d.items[k].Apply(f)
  {
    Dict(d.keys, map k | k in d.items :: d.items[k].Apply(f))
  }

  /** `for_each_column_block(func)`: every block replaced by its image, the
      partition's number, column identities, names and order kept. The result
      goes through the constructor, which refuses it when the images differ in
      length. */
  function ForEachColumnBlock(p: VPartition, f: Block -> Block): (r: Result<VPartition>)
    requires p.Invariant()
    ensures r.Ok? <==> forall k1, k2 :: k1 in p.columns.items && k2 in p.columns.items ==>
                         |f(p.columns.items[k1].block)| == |f(p.columns.items[k2].block)|
    ensures r.Err? ==> r.error == TileLengthMismatch
    ensures r.Ok? ==> r.value.Invariant() && r.value.partitionId == p.partitionId
                      && r.value.columns.keys == p.columns.keys && r.value.columns.items.Keys == p.columns.items.Keys
    ensures r.Ok? ==> forall k :: k in p.columns.items ==> r.value.columns.items[k] == p.columns.items[k].ReplaceBlock(f(p.columns.items[k].block))
  {
    var d := MapBlocks(p.columns, f);
    ConstructFiled(d, p.partitionId);
    ConstructOk(d, p.partitionId);
    Construct(d, p.partitionId)
  }

  /** A function that maps blocks of one length to blocks of one length can
      always be applied to every column. */
  lemma ForEachUniformOk(p: VPartition, f: Block -> Block)
    requires p.Invariant()
    requires forall a: Block, b: Block :: |a| == |b| ==> |f(a)| == |f(b)|
    ensures ForEachColumnBlock(p, f).Ok?
  {
  }

  /** `head(num)`. */
  function Head(p: VPartition, num: nat): (r: Result<VPartition>)
    requires p.Invariant()
  {
    ForEachColumnBlock(p, b => Blocks.Head(b, num))
  }

  /** The head of a partition always exists: the first `num` rows of every
      column, or all of them when there are fewer. */
  lemma HeadShape(p: VPartition, num: nat)
    requires p.Invariant()
    ensures Head(p, num).Ok?
    ensures Head(p, num).value.partitionId == p.partitionId && Head(p, num).value.columns.keys == p.columns.keys
    ensures forall k :: k in p.columns.items ==>
      var t, u := p.columns.items[k], Head(p, num).value.columns.items[k];
      u.columnId == t.columnId && u.columnName == t.columnName && u.block == t.block[..Min(num, |t.block|)]
  {
    ForEachUniformOk(p, b => Blocks.Head(b, num));
  }

  /** The gather the take kernel performs; the partition-level check below
      makes sure it is only asked for rows that exist. */
  function TakeBlock(b: Block, idx: seq<nat>): Block {
    if InRange(idx, |b|) then Gather(b, idx) else b
  }

  /** `take(indices)`: the rows at the given positions, in the order given, in
      every column; a position past the end is the kernel's `IndexError`. A
      partition without columns is returned as it is. */
  function Take(p: VPartition, idx: seq<nat>): (r: Result<VPartition>)
    requires p.Invariant()
  {
    match Length(p)
    case Err(_) => ForEachColumnBlock(p, b => TakeBlock(b, idx))
    case Ok(n) =>
      if !InRange(idx, n) then Err(IndexOutOfRange)
      else ForEachColumnBlock(p, b => TakeBlock(b, idx))
  }

  /** Taking rows that exist gathers them from every column and keeps the
      partition's number, column identities, names and order; asking for a
      row that does not exist fails. */
  lemma TakeShape(p: VPartition, idx: seq<nat>)
    requires p.Invariant()
    ensures Take(p, idx).Ok? <==> p.columns.keys == [] || InRange(idx, Length(p).value)
    ensures Take(p, idx).Err? ==> Take(p, idx).error == IndexOutOfRange
    ensures Take(p, idx).Ok? ==> Take(p, idx).value.partitionId == p.partitionId
                                 && Take(p, idx).value.columns.keys == p.columns.keys
    ensures Take(p, idx).Ok? ==> forall k :: k in p.columns.items ==>
      var t, u := p.columns.items[k], Take(p, idx).value.columns.items[k];
      InRange(idx, |t.block|) && u.columnId == t.columnId && u.columnName == t.columnName && u.block == Gather(t.block, idx)
  {
    if p.columns.keys != [] {
      var n := Length(p).value;
      if InRange(idx, n) {
        ForEachUniformOk(p, b => TakeBlock(b, idx));
      }
    } else {
      assert p.columns.items == map[];
    }
  }

  /** `sort(sort_key, desc)`: the rows in the order the argsort kernel computes
      for the evaluated sort key. */
  function Sort(p: VPartition, key: Expression, desc: bool, exec: Executor,
                argsort: (Block, bool) -> seq<nat>): (r: Result<VPartition>)
    requires p.Invariant()
  {
    var t :- EvalExpression(p, key, exec);
    Take(p, argsort(t.block, desc))
  }

  /** When the argsort kernel returns a permutation of the partition's rows,
      sorting succeeds and every column holds the same values, each as often,
      re-ordered by that one permutation. */
  lemma SortPermutes(p: VPartition, key: Expression, desc: bool, exec: Executor,
                     argsort: (Block, bool) -> seq<nat>)
    requires p.Invariant() && p.columns.keys != []
    requires EvalExpression(p, key, exec).Ok?
    requires multiset(argsort(EvalExpression(p, key, exec).value.block, desc)) == multiset(Range(Length(p).value))
    ensures Sort(p, key, desc, exec, argsort).Ok?
    ensures Sort(p, key, desc, exec, argsort).value.partitionId == p.partitionId
    ensures Sort(p, key, desc, exec, argsort).value.columns.keys == p.columns.keys
    ensures forall k :: k in p.columns.items ==>
      var t, u := p.columns.items[k], Sort(p, key, desc, exec, argsort).value.columns.items[k];
      u.columnId == t.columnId && u.columnName == t.columnName
      && u.block == Gather(t.block, argsort(EvalExpression(p, key, exec).value.block, desc))
      && multiset(u.block) == multiset(t.block)
  {
    var idx := argsort(EvalExpression(p, key, exec).value.block, desc);
    var n := Length(p).value;
    forall k | 0 <= k < |idx| ensures idx[k] < n {
      assert idx[k] in multiset(Range(n));
    }
    TakeShape(p, idx);
    forall k | k in p.columns.items
      ensures multiset(Gather(p.columns.items[k].block, idx)) == multiset(p.columns.items[k].block)
    {
      PermutedGather(p.columns.items[k].block, idx);
    }
  }

  /** The mask loop of `filter`: `mask` ANDed with every block in turn. */
  function FoldAnd(mask: Block, bs: seq<Block>): (r: Block)
  {
    if bs == [] then mask else AndBlocks(FoldAnd(mask, bs[..|bs| - 1]), bs[|bs| - 1])
  }

  /** A row of the combined mask is `True` exactly when it is `True` in the
      first mask and in every block; the combined mask is no longer than any. */
  lemma {:induction false} FoldAndMeaning(mask: Block, bs: seq<Block>)
    ensures |FoldAnd(mask, bs)| <= |mask|
    ensures forall k :: 0 <= k < |bs| ==> |FoldAnd(mask, bs)| <= |bs[k]|
    ensures |FoldAnd(mask, bs)| == |mask| || exists k :: 0 <= k < |bs| && |FoldAnd(mask, bs)| == |bs[k]|
    ensures forall i :: 0 <= i < |FoldAnd(mask, bs)| ==>
      (FoldAnd(mask, bs)[i] == Bool(true) <==> mask[i] == Bool(true) && forall k :: 0 <= k < |bs| ==> bs[k][i] == Bool(true))
  {
    if bs != [] {
      var n := |bs| - 1;
      FoldAndMeaning(mask, bs[..n]);
      assert forall k :: 0 <= k < n ==> bs[..n][k] == bs[k];
      if |FoldAnd(mask, bs[..n])| != |mask| && |FoldAnd(mask, bs)| != |bs[n]| {
        var k :| 0 <= k < n && |FoldAnd(mask, bs[..n])| == |bs[..n][k]|;
        assert |FoldAnd(mask, bs)| == |bs[k]|;
      }
    }
  }

  /** The mask loop of `filter`. */
  method CombineMasks(first: Block, bs: seq<Block>) returns (mask: Block)
    ensures mask == FoldAnd(first, bs)
  {
    mask := first;
    var i := 0;
    while i < |bs|
      invariant 0 <= i <= |bs|
      invariant mask == FoldAnd(first, bs[..i])
    {
      assert bs[..i + 1][..i] == bs[..i];
      mask := AndBlocks(mask, bs[i]);
      i := i + 1;
    }
    assert bs[..i] == bs;
  }

  function BlocksOfColumns(d: Dict<ColID, Tile>): (r: seq<Block>)
    requires d.Valid()
    ensures |r| == |d.keys| && forall k :: 0 <= k < |d.keys| ==> r[k] == d.items[d.keys[k]].block
  {
    seq(|d.keys|, k requires 0 <= k < |d.keys| => d.items[d.keys[k]].block)
  }

  /** The combined mask of an evaluated predicate list with at least one column. */
  function PredicateMask(masks: VPartition): (r: Block)
    requires masks.Invariant() && masks.columns.keys != []
  {
    var bs := BlocksOfColumns(masks.columns);
    FoldAnd(bs[0], bs)
  }

  /** `filter(predicate)`: the predicate list evaluated, its masks ANDed, and
      every column cut down to the rows the combined mask keeps. */
  function Filter(p: VPartition, preds: Schema.ExpressionList, exec: Executor): (r: Result<VPartition>)
    requires p.Invariant()
  {
    var masks :- EvalExpressionList(p, preds, exec);
    if masks.columns.keys == [] then Err(NoColumns)
    else ForEachColumnBlock(p, b => FilterBlock(b, PredicateMask(masks)))
  }

  /** Filtering with an evaluated predicate list fails when the list is empty;
      otherwise it keeps, in order and in every column, exactly the rows where
      every predicate mask is `True`. */
  lemma FilterShape(p: VPartition, preds: Schema.ExpressionList, exec: Executor)
    requires p.Invariant() && EvalExpressionList(p, preds, exec).Ok?
    ensures var masks := EvalExpressionList(p, preds, exec).value;
      var r := Filter(p, preds, exec);
      (masks.columns.keys == [] <==> r == Err(NoColumns))
      && (masks.columns.keys != [] ==> r.Ok? && r.value.partitionId == p.partitionId && r.value.columns.keys == p.columns.keys)
  {
    var masks := EvalExpressionList(p, preds, exec).value;
    if masks.columns.keys != [] {
      var mask := PredicateMask(masks);
      ForEachUniformOk(p, b => FilterBlock(b, mask));
    }
  }

  /** Row `j` of the combined mask, when every mask reaches it, is `True`
      exactly when every mask holds `True` there. */
  lemma MaskRow(masks: VPartition, j: nat)
    requires masks.Invariant() && masks.columns.keys != []
    requires forall c :: c in masks.columns.items ==> j < |masks.columns.items[c].block|
    ensures j < |PredicateMask(masks)|
    ensures PredicateMask(masks)[j] == Bool(true)
            <==> forall c :: c in masks.columns.items ==> masks.columns.items[c].block[j] == Bool(true)
  {
    var d := masks.columns;
    var bs := BlocksOfColumns(d);
    FoldAndMeaning(bs[0], bs);
    forall q | 0 <= q < |bs| ensures d.keys[q] in d.items && j < |bs[q]| {
      var c := d.keys[q];
      assert c in Elements(d.keys);
      assert c in d.items && bs[q] == d.items[c].block;
    }
    var mask := PredicateMask(masks);
    assert j < |mask|;
    var all := forall c :: c in d.items ==> d.items[c].block[j] == Bool(true);
    if mask[j] == Bool(true) {
      forall c | c in d.items ensures d.items[c].block[j] == Bool(true) {
        assert c in Elements(d.keys);
        var q :| 0 <= q < |d.keys| && d.keys[q] == c;
        assert bs[q] == d.items[c].block;
      }
    }
    if all {
      forall q | 0 <= q < |bs| ensures bs[q][j] == Bool(true) {
        var c := d.keys[q];
        assert c in d.items && bs[q] == d.items[c].block;
        assert d.items[c].block[j] == Bool(true);
      }
    }
  }

  /** A row below the length of every mask survives the filter exactly when
      every predicate mask holds `True` there; the filter keeps rows in order. */
  lemma FilterKeepsRow(p: VPartition, preds: Schema.ExpressionList, exec: Executor, k: ColID, j: nat)
    requires p.Invariant() && EvalExpressionList(p, preds, exec).Ok?
    requires EvalExpressionList(p, preds, exec).value.columns.keys != []
    requires k in p.columns.items && j < |p.columns.items[k].block|
    requires forall c :: c in EvalExpressionList(p, preds, exec).value.columns.items ==>
      j < |EvalExpressionList(p, preds, exec).value.columns.items[c].block|
    ensures var masks := EvalExpressionList(p, preds, exec).value;
      var kept := TruePositions(PredicateMask(masks), |p.columns.items[k].block|);
      Filter(p, preds, exec).Ok?
      && Filter(p, preds, exec).value.columns.items[k].block == Gather(p.columns.items[k].block, kept)
      && (j in kept <==> forall c :: c in masks.columns.items ==> masks.columns.items[c].block[j] == Bool(true))
  {
    FilterShape(p, preds, exec);
    var masks := EvalExpressionList(p, preds, exec).value;
    var mask := PredicateMask(masks);
    MaskRow(masks, j);
    var tp := TruePositions(mask, |p.columns.items[k].block|);
    if j in tp {
      var x :| 0 <= x < |tp| && tp[x] == j;
      assert mask[j] == Bool(true);
    }
  }
}
