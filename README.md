# Partitions, tiles and expression lists of a columnar dataframe engine

This project models, in Dafny, the physical execution layer of a partitioned,
column-oriented dataframe engine, and proves properties of that model.

- A **tile** (`PyListTile`) is one column of one partition: a column identity,
  a column name, a partition number and a block of values.
- A **partition** (`vPartition`) maps column identities to tiles. Its
  constructor checks three things: every tile belongs to the partition, all
  tiles have one length, and every tile is stored under its own identity.
- On partitions sit the per-column operations (`head`, `take`, `sort`,
  `filter`), the evaluation of expressions and expression lists, the shuffle
  primitives (`split_by_index`, `split_by_hash`, `merge_tiles`,
  `merge_partitions`) and the column layout of `join`.
- The **partition manager** maps plan-node identifiers to partition sets. A
  partition set is modelled in its in-memory, map-backed form.
- An **expression list** (`ExpressionList`) is an ordered list of expressions
  with a parallel list of unique display names. It supports construction,
  lookup by name or identity, `resolve`, `keep`, `union`, structural equality,
  `required_columns` and `to_id_set`.

Layout, one module per file:

- `common.dfy`: identities, the error taxonomy, `Option` and `Result`.
- `dicts.dfy`: Python's insertion-ordered `dict`, as a key sequence plus a map.
  Iteration order matters in `join`, in `eval_expression_list` and in the
  `filter` mask loop.
- `blocks.dfy`: the block kernels the core calls, as sequence functions.
- `expressions.dfy`: the part of the expression contract the core uses.
- `schema.dfy`: `ExpressionList`.
- `tiles.dfy`: `PyListTile`.
- `partitions.dfy`: `vPartition` construction, evaluation, and the per-column
  operations.
- `shuffle.dfy`: `split_by_index`, `split_by_hash` and `merge_partitions`,
  with the split-then-merge round trip.
- `joins.dfy`: the column bookkeeping of `join`.
- `manager.dfy`: `PartitionSet` and `PartitionManager` as classes.

Tiles, partitions and expression lists are frozen values in the source, so
they are datatypes with functions here. The loops the source writes (the
constructor's check loop, the transposition loop of `split_by_index`, the
hashing loop, the sanity and merge loops, the three reassembly loops of `join`,
and the accumulating loops of `ExpressionList`) are methods. Most methods are
proved equal to a function that specifies them: `union` to the fold
`Schema.UnionOf`, and the loops of `split`, `merge`, `join` and the
constructors to their functions. The identity assignment of `resolve`
(`Schema.AssignIds`, and `Schema.Resolve` through it) is instead specified
by a relation, `Schema.AssignedFrom`, since any fresh distinct identities
will do. The manager and the partition
set update a dict in place, so they are classes whose methods are proved
against pure functions on a `Registry` value.

Behaviour of the code worth noting:

- The fallback display name of an unnamed entry is the literal text
  `"col_{i}"` (daft/logical/schema.py:20 lacks the `f` prefix). Two unnamed
  entries therefore always collide, which `Schema.UnnamedEntriesCollide`
  proves.
- `vPartition.split_by_index` calls `len(self)`, which asserts at least one
  column. A partition without columns therefore cannot be split.
- `keep` builds a new `ExpressionList`, so asking for one name twice fails
  with a duplicate-name error.
- `union` also builds a new `ExpressionList`. A renamed right entry whose new
  name is already taken therefore fails with a duplicate-name error.
- The constructor of `vPartition` checks the columns in dict order. It reports
  the first failure it meets, in the order partition number, then length,
  then identity.

## Model

| member | source | states |
|---|---|---|
| `Tiles.Tile.Apply` | daft/runners/partitioning.py:32-33 | `apply(func)` is the tile with only its block replaced by `func(block)` |
| `Tiles.ReplaceBlockLaws` | daft/runners/partitioning.py:60-61 | replacing a block keeps identity, name and partition; a second replacement overrides the first; replacing a block by itself is the identity |
| `Tiles.SplitByIndex` | daft/runners/partitioning.py:35-39 | a tile split succeeds iff there is one target per row; it returns exactly `n` pieces, piece `i` numbered `i` with the same identity and name, holding in order the rows aimed at `i` |
| `Tiles.MergedTileShape` | daft/runners/partitioning.py:42-58 | `merge_tiles` fails on no input and returns a single tile unchanged; otherwise it succeeds iff all tiles share identity and name (and partition when verifying), keeping the first tile's identity, name and partition with the blocks concatenated in input order |
| `Tiles.MergeTiles` | daft/runners/partitioning.py:42-58 | the check-and-concatenate loop of `merge_tiles` computes exactly the outcome above |
| `Tiles.SplitThenMerge` | daft/runners/partitioning.py:35-58 | splitting a tile into `n > 0` pieces and merging them unverified gives the column back under partition 0, its rows grouped by bucket, every row exactly once |
| `Tiles.SplitThenVerifiedMergeFails` | daft/runners/partitioning.py:42-58 | the pieces of a split into two or more partitions cannot be merged with partition checking |
| `Partitions.ConstructOk` | daft/runners/partitioning.py:69-79 | construction succeeds iff every tile has the partition's number, all tiles have one length and every tile sits under its own identity; its only failures are those three errors |
| `Partitions.MakePartition` | daft/runners/partitioning.py:69-79 | the constructor's loop with its `size` accumulator reports exactly the outcome above |
| `Partitions.EmptyPartitionAccepted` | daft/runners/partitioning.py:69-79 | a partition without columns is accepted |
| `Partitions.ForeignTileRefused` | daft/runners/partitioning.py:72-73 | a tile of another partition is refused with a partition-number mismatch |
| `Partitions.RaggedTilesRefused` | daft/runners/partitioning.py:74-77 | two tiles of different lengths are refused with a length mismatch |
| `Partitions.MisfiledTileRefused` | daft/runners/partitioning.py:78-79 | a tile stored under another identity is refused with an identity mismatch |
| `Partitions.Length` | daft/runners/partitioning.py:81-83 | `len` fails iff the partition has no column, and otherwise is the common length of every column |
| `Partitions.EvalExpression` | daft/runners/partitioning.py:85-114 | an expression needs an identity and a name; a bare column yields the partition's block under the expression's identity and name, failing iff that column is absent; a computed one yields the executor's block over the blocks it reads, failing iff a reference lacks an identity, a name or its column |
| `Partitions.CollectBlocks` | daft/runners/partitioning.py:99-107 | the loop gathering the name-to-block environment stops at the first unusable reference and otherwise equals `RequiredBlocks` |
| `Partitions.RequiredBlocksLast` | daft/runners/partitioning.py:99-107 | under each name the environment holds the block of the last reference read with that name |
| `Partitions.EvalAll` | daft/runners/partitioning.py:117 | evaluating a list succeeds iff every entry evaluates, giving one tile per entry in order; a failure is the failure of some entry |
| `Partitions.EvalExpressionListShape` | daft/runners/partitioning.py:116-119 | once every entry evaluates, the partition is built iff the tiles kept per identity agree in length, failing otherwise with a length mismatch; it lists each identity once in first-appearance order and holds the last tile evaluated for each |
| `Partitions.ForEachColumnBlock` | daft/runners/partitioning.py:162-163 | mapping a block function keeps the partition number and the column identities, names and order, and replaces each block by its image; it fails iff the images differ in length |
| `Partitions.HeadShape` | daft/runners/partitioning.py:165-167 | `head(num)` always succeeds and keeps the first `min(num, len)` rows of every column, with identities, names and order kept |
| `Partitions.TakeShape` | daft/runners/partitioning.py:188-189 | `take(idx)` succeeds iff every index is a row (or there is no column), gathering those rows in the order given from every column |
| `Partitions.SortPermutes` | daft/runners/partitioning.py:183-186 | when the argsort kernel returns a permutation of the rows, `sort` re-orders every column by that one permutation, keeping every value as often |
| `Partitions.FoldAndMeaning` | daft/runners/partitioning.py:178-180 | a row of the combined mask is true iff it is true in the first mask and in every predicate mask |
| `Partitions.CombineMasks` | daft/runners/partitioning.py:178-180 | the AND loop of `filter` computes that combined mask |
| `Partitions.FilterShape` | daft/runners/partitioning.py:175-181 | `filter` fails iff the predicates evaluate to no column; otherwise it keeps the partition number and column layout |
| `Partitions.FilterKeepsRow` | daft/runners/partitioning.py:175-181 | a row survives `filter` in every column iff every predicate mask is true there, and surviving rows keep their order |
| `Blocks.SplitThenConcat` | daft/runners/partitioning.py:37-38 | the `n` blocks of a partition split, concatenated, are the rows permuted by one order that depends only on the targets, when every target names a bucket |
| `Blocks.BucketMembers` | daft/runners/partitioning.py:37 | bucket `i` holds exactly the rows aimed at `i`, in their original relative order |
| `Blocks.PermutedGather` | daft/runners/partitioning.py:186 | gathering by a permutation of the rows keeps every value as often |
| `Blocks.HashTargets` | daft/runners/partitioning.py:226 | the target of a row is its hash modulo `n`, always one of the `n` buckets |
| `Shuffle.SplitByIndexShape` | daft/runners/partitioning.py:229-239 | a split of a partition whose length equals the target count yields `n` partitions, piece `i` numbered `i`, each valid and with the source's identities, names and order, column `k` of piece `i` being the tile split of `k` |
| `Shuffle.SplitByIndexOutcome` | daft/runners/partitioning.py:229-239 | with targets below `n`, the split fails iff the partition has no column or the target count is not its length; otherwise piece `i` holds the rows aimed at `i` and every column's rows are conserved |
| `Shuffle.SplitConservesRows` | daft/runners/partitioning.py:229-239 | the pieces of a column together have as many rows as the column |
| `Shuffle.SplitPartition` | daft/runners/partitioning.py:229-239 | the nested transposition loop of `split_by_index` computes exactly that split |
| `Shuffle.TransposeColumn` | daft/runners/partitioning.py:233-237 | one pass of the inner loop records piece `i` of column `j` in the dict of piece `i`, for every `i`, so each dict then holds the pieces of the first `j + 1` columns |
| `Shuffle.SortIds` | daft/runners/partitioning.py:218-219 | `keys.sort()` on distinct identities gives them strictly increasing, as a permutation |
| `Shuffle.IncreasingUnique` | daft/runners/partitioning.py:218-219 | there is only one increasing order of a set of identities |
| `Shuffle.RowHashesIgnoreOrder` | daft/runners/partitioning.py:216-225 | the row hashes depend only on the evaluated key columns, not on their dict order |
| `Shuffle.HashColumns` | daft/runners/partitioning.py:220-225 | the hashing loop folds the hash over the key columns in the given order, seeding each step with the previous hashes |
| `Shuffle.SplitByHash` | daft/runners/partitioning.py:216-227 | a successful hash split returns `n` valid partitions, piece `i` numbered `i` |
| `Shuffle.SplitByHashErrors` | daft/runners/partitioning.py:216-227 | the hash split fails when the keys fail to evaluate, evaluate to no column, or `n` is 0; otherwise it is the split by index with targets `hash mod n` over the keys in increasing identity order |
| `Shuffle.SplitPartitionByHash` | daft/runners/partitioning.py:216-227 | the loops of `split_by_hash` compute exactly that outcome |
| `Shuffle.HashFoldRows` | daft/runners/partitioning.py:222-224 | with a row-local `array_hash`, two rows holding equal values in every key column get equal hashes after every prefix of the key columns |
| `Shuffle.EqualKeysMeet` | daft/runners/partitioning.py:216-226 | with a row-local `array_hash`, two rows of two partitions whose keys evaluate to the same identities and hold equal values are sent to the same piece `hash mod n` |
| `Shuffle.MergePartitions` | daft/runners/partitioning.py:287-306 | merging fails on no input, returns a single partition unchanged, and fails when some partition's identity set (or, when verifying, its number) differs from the first's |
| `Shuffle.MergeShape` | daft/runners/partitioning.py:287-306 | once the layouts agree, merging fails iff some column's tile merge fails, and then only with a tile mismatch |
| `Shuffle.MergeDict` | daft/runners/partitioning.py:300-306 | a successful merge is the first partition's number and column order, each column the first partition's tile holding the column's blocks across all inputs in order |
| `Shuffle.CheckLayout` | daft/runners/partitioning.py:296-299 | the sanity loop accepts iff every later partition has the first's identity set and, when verifying, its number |
| `Shuffle.MergeAll` | daft/runners/partitioning.py:287-306 | the loops of `merge_partitions` compute exactly that outcome |
| `Shuffle.SplitThenMergePartitions` | daft/runners/partitioning.py:229-306 | splitting a partition into `n > 0` pieces and merging all of them unverified gives back every column under partition 0, with the original identities, names and order, its rows grouped by bucket, every row exactly once |
| `Joins.KeyBlocks` | daft/runners/partitioning.py:254-255 | the key-block lookup succeeds iff every key expression has an identity present in the evaluated keys, giving the key blocks in key-list order |
| `Joins.Without` | daft/runners/partitioning.py:257-258 | the non-key identities are exactly the side's columns that are not keys, in column order, without repeats |
| `Joins.PrepareFails` | daft/runners/partitioning.py:250-258 | preparing both sides fails iff evaluating one side's key list fails |
| `Joins.Assemble` | daft/runners/partitioning.py:263-284 | a wrong number of blocks from the kernel fails with a block-count error, and a right number never does; any other failure is the constructor's; on success the partition is valid, numbered as the left partition, and laid out as left keys, left non-keys, right non-keys, each identity kept once |
| `Joins.LayoutShape` | daft/runners/partitioning.py:257-265 | the layout repeats an identity iff a right non-key column shares its identity with a left one |
| `Joins.AssembleDistinct` | daft/runners/partitioning.py:263-284 | with a layout without repeats, each column holds its source tile with the joined block at its position; construction fails iff the blocks differ in length or a kept right column has another partition number |
| `Joins.Join` | daft/runners/partitioning.py:241-285 | any mode other than `"inner"` fails; a successful join is a valid partition numbered as the left one |
| `Joins.JoinLayout` | daft/runners/partitioning.py:249-284 | for an inner join whose keys evaluate and whose right non-key columns share no identity with the left, the intermediate partition is laid out exactly as left keys, left non-keys, right non-keys, and fails iff the block count is off, the blocks differ in length, or a right column of another partition is kept |
| `Joins.ReassembleColumns` | daft/runners/partitioning.py:268-282 | the three reassembly loops sharing `joined_block_idx` write exactly the layout's pairs, in layout order |
| `Joins.ReassembleLeft` | daft/runners/partitioning.py:268-276 | the first two loops leave `joined_block_idx` at the number of key and left non-key columns, with the layout's pairs up to there written in order |
| `Joins.JoinPartitions` | daft/runners/partitioning.py:241-285 | the steps of `join`, run in order, compute exactly `Join` |
| `Manager.GetSet` | daft/runners/partitioning.py:355-357 | reading a node's set succeeds iff the node is registered, and returns that set |
| `Manager.PutSet` | daft/runners/partitioning.py:359-360 | registering a set overwrites the node's entry and leaves other nodes unchanged |
| `Manager.RmNode` | daft/runners/partitioning.py:362-364 | removing a node fails iff it is absent, and otherwise drops exactly that entry |
| `Manager.RmPartition` | daft/runners/partitioning.py:365-368 | removing a partition fails for an absent node or partition; otherwise it deletes that partition, drops the node iff its set becomes empty, and leaves other nodes unchanged |
| `Manager.PutThenGet` | daft/runners/partitioning.py:355-360 | a registered set reads back as registered; other nodes read as before |
| `Manager.PutThenRemove` | daft/runners/partitioning.py:359-364 | registering a new node and removing it restores the registry |
| `Manager.RemoveLastPartition` | daft/runners/partitioning.py:365-368 | removing the only partition of a set is the same as removing the node |
| `Manager.RemoveOneOfSeveral` | daft/runners/partitioning.py:365-368 | removing one of several partitions keeps the node with exactly one partition fewer |
| `Manager.PartitionSet.GetPartition` | daft/runners/partitioning.py:317-319 | reading an index succeeds iff it is present |
| `Manager.PartitionSet.SetPartition` | daft/runners/partitioning.py:321-323 | writing an index sets exactly that entry |
| `Manager.PartitionSet.DeletePartition` | daft/runners/partitioning.py:325-327 | deleting removes exactly that entry, failing without change when it is absent |
| `Manager.PartitionSet.HasPartition` | daft/runners/partitioning.py:329-331 | membership of an index |
| `Manager.PartitionSet.NumPartitions` | daft/runners/partitioning.py:341-343 | the number of entries, zero iff the set is empty |
| `Manager.PartitionManager.constructor` | daft/runners/partitioning.py:347-349 | a new manager has an empty registry |
| `Manager.PartitionManager.NewPartitionSet` | daft/runners/partitioning.py:351-353 | a new, empty set; the registry is untouched |
| `Manager.PartitionManager.GetPartitionSet` | daft/runners/partitioning.py:355-357 | fails for an unregistered node, never registers anything, and otherwise returns the node's set, as `GetSet` |
| `Manager.PartitionManager.PutPartitionSet` | daft/runners/partitioning.py:359-360 | the registry becomes `PutSet` of the old one |
| `Manager.PartitionManager.RemoveNode` | daft/runners/partitioning.py:362-364 | the registry becomes `RmNode` of the old one, or is unchanged on failure |
| `Manager.PartitionManager.RemovePartition` | daft/runners/partitioning.py:365-368 | only the node's set changes; with sets not shared between nodes, the registry becomes `RmPartition` of the old one |
| `Manager.PartitionManager.Clear` | daft/runners/partitioning.py:370-372 | the registry is left empty |
| `Schema.Construct` | daft/logical/schema.py:13-24 | construction succeeds iff the display names are distinct, and then keeps the entries with their names index-aligned |
| `Schema.Make` | daft/logical/schema.py:13-24 | the constructor's loop fails at the first name already listed, with that name, and otherwise lists every entry under its display name |
| `Schema.UnnamedEntriesCollide` | daft/logical/schema.py:18-22 | two unnamed entries share the fallback name, so construction fails |
| `Schema.FindName` | daft/logical/schema.py:36-40 | the first position holding a name, or none iff the name is absent |
| `Schema.GetExpressionByName` | daft/logical/schema.py:36-40 | the entry at the first position listed under the name, or none iff no entry is |
| `Schema.GetExpressionById` | daft/logical/schema.py:42-46 | the first entry with that identity, or none iff no entry has it |
| `Schema.Contains` | daft/logical/schema.py:30-34 | true iff some entry has the same identity as the column |
| `Schema.Resolve` | daft/logical/schema.py:48-68 | without a schema every entry must be a bare column; with one, every unbound reference is bound by name and every entry must type-check; on success every entry has an identity, keeps its name and structure, fresh identities are distinct, and an already-resolved list is returned unchanged |
| `Schema.BindRef` | daft/logical/schema.py:55-62 | an unbound reference is bound to the first schema entry of its name and takes its identity, failing iff its name is missing or not listed |
| `Schema.BindEach` | daft/logical/schema.py:54-64 | the binding loop succeeds iff every entry binds and type-checks, the first failure winning |
| `Schema.AssignIds` | daft/logical/schema.py:65-66 | every entry without an identity receives a distinct fresh one; entries that have one are unchanged |
| `Schema.Unresolve` | daft/logical/schema.py:70-71 | the unresolved list keeps the names, drops every identity and binding, and is structurally equal to the original |
| `Schema.Keep` | daft/logical/schema.py:73-81 | the `i`-th entry is the entry named `names[i]`; it fails at the first absent name, or when a name is asked for twice |
| `Schema.SeenNames` | daft/logical/schema.py:87-92 | the first loop of `union` records every named left entry under its name, exactly the map `SeenOf` |
| `Schema.Union` | daft/logical/schema.py:86-113 | the loops of `union` compute exactly the fold `UnionOf`; a conflict is raised iff the union is strict and some named right entry has the name of an earlier entry of a different structure; left entries come first and unchanged; every right entry is present under its name in an equal form, or aliased to `rename_dup + name` when not strict; every appended entry is a right entry or its alias; a right list already present is a no-op |
| `Schema.UnionFoldStops` | daft/logical/schema.py:105-107 | once a strict union raises on a conflict, the remaining right entries change nothing |
| `Schema.LooseUnionGoesOn` | daft/logical/schema.py:105-111 | a union that is not strict never raises a conflict |
| `Schema.UnionOutcome` | daft/logical/schema.py:86-113 | a union fails only with a conflict or a duplicate name; it raises a conflict iff it is strict and some named right entry has the name of an earlier entry, left or right, of a different structure; strict without such a clash, it keeps after the left entries exactly the unnamed right entries and the first right entry of each name no left entry has, succeeding iff their display names are distinct |
| `Schema.StrictFold` | daft/logical/schema.py:94-111 | entry by entry, a strict union either has met a clash or has kept the entries above, its seen map holding under each name met an entry met, equal to every entry of that name met so far |
| `Schema.UnionDisjoint` | daft/logical/schema.py:86-113 | two well-formed lists sharing no display name unite, strict or not, to the one followed by the other |
| `Schema.ToColumnExpressions` | daft/logical/schema.py:115-116 | as assumed of `to_column_expression`: one bare column per entry, bound, with the same name and identity |
| `Schema.Equal` | daft/logical/schema.py:118-122 | equality holds iff the lengths agree and the entries are pairwise structurally equal, in order |
| `Schema.EqualIsEquivalence` | daft/logical/schema.py:118-122 | list equality is reflexive, symmetric and transitive |
| `Schema.RequiredColumnList` | daft/logical/schema.py:124-131 | one bare column per distinct name among all references read, names in first-occurrence order and unique, each the reference read last under it; a nameless reference fails |
| `Schema.RecordRefs` | daft/logical/schema.py:127-130 | the inner loop records one entry's references, each under its name |
| `Schema.ToIdSet` | daft/logical/schema.py:136-142 | fails iff some entry has no identity, and otherwise is exactly the set of the entries' identities |
| `Expressions.Expression.Alias` | daft/logical/schema.py:108-109 | as assumed of `alias`: an alias carries the new name and keeps identity, call flag and references |
| `Expressions.Expression.Unresolved` | daft/logical/schema.py:70-71 | as assumed of `_unresolve`: unresolving keeps the name and structure and drops the identity and every binding |
| `Expressions.IsEqEquivalence` | daft/logical/schema.py:101 | as assumed of `is_eq`: structural equality is an equivalence relation |

## Left out

- `vPartition.to_pandas`, `from_arrow_table` and `from_pydict`: conversions to and from pandas and pyarrow, which are foreign libraries.
- `vPartition.sample`: it draws row indices from `np.random`, so it is nondeterministic.
- `vPartition.agg`: sum and mean arithmetic lives in the block backend and includes floats. The grouped-aggregate kernel is not modelled.
- `ExpressionList.resource_request`: a thin call to `ResourceRequest.max_resources`, which is not part of this model.
- `ExpressionList.__len__`, `__iter__` and `__repr__`, and `PyListTile.__len__`: trivial accessors. They are read directly as `|exprs|` and `Tile.Length`.
- `PartitionSet.to_pandas`, `__len__` and `len_of_partitions`: abstract in the source, with no implementation to model. The in-memory set keeps only its map.
- The factory `pset_default` of `PartitionManager`: it is modelled as always producing the in-memory set. Distributed backends are not modelled.
- Block kernels (`partition`, `merge_blocks`, `take`, `filter`, `head`, `run_binary_operator` with AND and MOD): they live in files not part of this model. Each is a sequence function stating what the core expects of it. `argsort`, `array_hash`, the join kernel and `ExpressionExecutor.eval` are function parameters.
- Type resolution (`resolved_type()`) inside `resolve`: a parameter `typeChecks` that may refuse an entry.
- Identity assignment (`_assign_id`): it draws from a process-wide counter, modelled as an explicit starting identity `next` that `Resolve` returns advanced.
- In-place mutation in `resolve`: `resolve_to_expression` and `_assign_id` mutate shared expression objects, and a failure part-way leaves earlier entries mutated. The model returns a new list, or an error with no partial result. Aliasing between expressions is not modelled.
- Deep copy in the `ExpressionList` constructor: expressions are values here, so there is no aliasing to prevent.
- `split_by_hash` with `num_partitions == 0`: the outcome of the backend's modulo by zero is not shown, so it is modelled as a distinct error.
- `take` with an index past the end: it is the kernel's index error, modelled as a distinct error.
- `Shuffle.SplitThenMergePartitions`: states that each column's multiset of rows is kept and that all columns are permuted by one shared order, rather than the multiset of whole rows.
- `union` when not strict: its result is pinned only through the fold `UnionOf`. Renamed entries are stored in the seen map under `rename_dup + name`, which may be a name already met, so no closed description of the kept entries is stated beyond the left prefix, that every right entry is accounted for, and that every appended entry is a right entry or its alias.
- `Expressions.Expression.Alias`, `Expressions.Expression.IsEq`, `Expressions.Expression.IsSame`, `Expressions.Expression.Unresolved`, `Expressions.Expression.ToColumnExpression`, `Expressions.Expression.RequiredColumns` and the identity copy in `Schema.BindRef`: daft/expressions.py is not part of this model, so their semantics are assumed from the way the core uses them. An alias keeps the identity. `is_eq` compares structure and ignores identities. Unresolving drops identities and bindings. Binding a reference copies the matched entry's identity. `to_column_expression` never fails, even for an unnamed entry, and gives a bound bare reference with the entry's name and identity. `required_columns` gives a flat list of references, a bare column reading itself, and with `unresolved_only` keeps only the unbound ones. `Schema.ToColumnExpressions` succeeding on every well-formed list, and `Schema.Resolve`, `Schema.BindEach` and `Schema.RequiredColumnList`, rest on these assumptions.
- `array_hash`: the backend kernel is a parameter. `Shuffle.EqualKeysMeet` assumes it is row-local, meaning each output row depends only on that row of the block and of the seed.
- `Manager.PartitionManager.RemovePartition`: states the registry-level effect only when no set object is registered under two nodes. The source allows such sharing.
- Concurrency: the manager's registry takes no locks in the source. The model is sequential.
