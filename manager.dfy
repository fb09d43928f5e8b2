/** The addressing layer: a partition set owns the partitions of one logical
    dataset by partition index, and the partition manager maps the identifier
    of each plan node to the partition set holding its output. The set is
    modelled by its in-memory, map-backed form; the manager's registry is
    specified by the pure functions on `Registry` below, and the methods of
    the two classes are proved to follow them. */
module Manager {
  import opened Common
  import opened Partitions

  /** A plan-node identifier (a Python int). */
  type NodeID = int

  /** What the manager's registry holds, seen as values: for every registered
      node, the partitions of its set. */
  type Registry = map<NodeID, map<PartID, VPartition>>

  // ---------------------------------------------------------------------------
  // The registry as values

  /** `get_partition_set(node_id)`: the set registered for `node`; a node that
      is not registered makes the lookup fail and registers nothing. */
  function GetSet(reg: Registry, node: NodeID): (r: Result<map<PartID, VPartition>>)
    ensures r.Ok? <==> node in reg
    ensures r.Ok? ==> r.value == reg[node]
    ensures r.Err? ==> r.error == MissingNode
  {
    if node in reg then Ok(reg[node]) else Err(MissingNode)
  }

  /** `put_partition_set(node_id, pset)`: registers `parts` for `node`,
      overwriting whatever was registered for it. */
  function PutSet(reg: Registry, node: NodeID, parts: map<PartID, VPartition>): (r: Registry)
    ensures r.Keys == reg.Keys + {node} && r[node] == parts
    ensures forall m :: m in reg && m != node ==> r[m] == reg[m]
  {
    reg[node := parts]
  }

  /** `rm(node_id)`: drops the entry of `node`, which must be registered. */
  function RmNode(reg: Registry, node: NodeID): (r: Result<Registry>)
    ensures r.Ok? <==> node in reg
    ensures r.Err? ==> r.error == MissingNode
    ensures r.Ok? ==> r.value.Keys == reg.Keys - {node}
    ensures r.Ok? ==> forall m :: m in r.value ==> r.value[m] == reg[m]
  {
    if node in reg then Ok(reg - {node}) else Err(MissingNode)
  }

  /** `rm(node_id, partition_id)`: deletes one partition from the set of
      `node`, then drops the node when its set has no partition left. The node
      must be registered and its set must hold the partition. */
  function RmPartition(reg: Registry, node: NodeID, pid: PartID): (r: Result<Registry>)
    ensures r.Ok? <==> node in reg && pid in reg[node]
    ensures node !in reg ==> r == Err(MissingNode)
    ensures node in reg && pid !in reg[node] ==> r == Err(MissingKey)
    ensures r.Ok? ==> (node in r.value <==> reg[node] - {pid} != map[])
    ensures r.Ok? && node in r.value ==> r.value[node] == reg[node] - {pid} && pid !in r.value[node]
    ensures r.Ok? ==> forall m :: m != node ==> (m in r.value <==> m in reg)
    ensures r.Ok? ==> forall m :: m in r.value && m != node ==> r.value[m] == reg[m]
  {
    if node !in reg then Err(MissingNode)
    else if pid !in reg[node] then Err(MissingKey)
    else
      var rest := reg[node] - {pid};
      if |rest| == 0 then Ok(reg - {node}) else Ok(reg[node := rest])
  }

  /** A registry that differs from `reg` only in the set of `node`, which has
      lost `pid` and is gone when nothing is left, is the outcome of
      `RmPartition`. */
  lemma RmPartitionIs(reg: Registry, after: Registry, node: NodeID, pid: PartID)
    requires node in reg && pid in reg[node]
    requires after.Keys == if reg[node] - {pid} == map[] then reg.Keys - {node} else reg.Keys
    requires node in after ==> after[node] == reg[node] - {pid}
    requires forall m :: m in after && m != node ==> after[m] == reg[m]
    ensures RmPartition(reg, node, pid) == Ok(after)
  {
    var rest := reg[node] - {pid};
    var expected := if |rest| == 0 then reg - {node} else reg[node := rest];
    assert |rest| == 0 <==> rest == map[] by {
      if |rest| == 0 {
        assert rest.Keys == {};
      }
    }
    assert after.Keys == expected.Keys;
    forall m | m in after ensures after[m] == expected[m] {
    }
    assert after == expected;
  }

  /** Registering a set and reading it back gives that set; every other node
      reads as before. */
  lemma PutThenGet(reg: Registry, node: NodeID, parts: map<PartID, VPartition>, other: NodeID)
    ensures GetSet(PutSet(reg, node, parts), node) == Ok(parts)
    ensures other != node ==> GetSet(PutSet(reg, node, parts), other) == GetSet(reg, other)
  {
  }

  /** Registering a set for a node that had none and removing the node again
      restores the registry. */
  lemma PutThenRemove(reg: Registry, node: NodeID, parts: map<PartID, VPartition>)
    requires node !in reg
    ensures RmNode(PutSet(reg, node, parts), node) == Ok(reg)
  {
    assert PutSet(reg, node, parts) - {node} == reg;
  }

  /** Removing the only partition of a node's set removes the node, exactly as
      removing the node itself. */
  lemma RemoveLastPartition(reg: Registry, node: NodeID, pid: PartID)
    requires node in reg && reg[node].Keys == {pid}
    ensures RmPartition(reg, node, pid) == RmNode(reg, node)
  {
    assert reg[node] - {pid} == map[];
  }

  /** Removing a partition of a set that holds others keeps the node, with
      exactly one partition fewer. */
  lemma RemoveOneOfSeveral(reg: Registry, node: NodeID, pid: PartID, kept: PartID)
    requires node in reg && pid in reg[node] && kept in reg[node] && kept != pid
    ensures RmPartition(reg, node, pid).Ok?
    ensures var r := RmPartition(reg, node, pid).value;
      node in r && r[node].Keys == reg[node].Keys - {pid} && |r[node]| == |reg[node]| - 1
  {
    var rest := reg[node] - {pid};
    assert kept in rest;
    assert rest.Keys == reg[node].Keys - {pid};
  }

  // ---------------------------------------------------------------------------
  // The partition set, map-backed

  /** An in-memory `PartitionSet`: a dict from partition index to partition. */
  class PartitionSet {
    var parts: map<PartID, VPartition>

    /** A set holding no partition. */
    constructor ()
      ensures parts == map[]
    {
      parts := map[];
    }

    /** `get_partition(idx)`: a missing index is a `KeyError`. */
    method GetPartition(idx: PartID) returns (r: Result<VPartition>)
      ensures r.Ok? <==> idx in parts
      ensures r.Ok? ==> r.value == parts[idx]
      ensures r.Err? ==> r.error == MissingKey
    {
      if idx in parts {
        r := Ok(parts[idx]);
      } else {
        r := Err(MissingKey);
      }
    }

    /** `set_partition(idx, part)`: the only way an entry is written. */
    method SetPartition(idx: PartID, part: VPartition)
      modifies this
      ensures parts == old(parts)[idx := part]
    {
      parts := parts[idx := part];
    }

    /** `delete_partition(idx)`: removes exactly that entry; a missing index is
        a `KeyError` and changes nothing. */
    method DeletePartition(idx: PartID) returns (r: Result<()>)
      modifies this
      ensures r.Ok? <==> idx in old(parts)
      ensures r.Err? ==> r.error == MissingKey && parts == old(parts)
      ensures r.Ok? ==> parts == old(parts) - {idx}
    {
      if idx in parts {
        parts := parts - {idx};
        r := Ok(());
      } else {
        r := Err(MissingKey);
      }
    }

    /** `has_partition(idx)`. */
    method HasPartition(idx: PartID) returns (b: bool)
      ensures b <==> idx in parts
    {
      b := idx in parts;
    }

    /** `num_partitions()`: the number of entries. */
    method NumPartitions() returns (n: nat)
      ensures n == |parts|
      ensures n == 0 <==> parts == map[]
    {
      n := |parts|;
    }
  }

  // ---------------------------------------------------------------------------
  // The partition manager

  /** `PartitionManager`: the registry from plan node to partition set. The
      registry holds references, so one set may be registered for several
      nodes; `Separate` says it is not. */
  class PartitionManager {
    var nodes: map<NodeID, PartitionSet>

    /** The registry seen as values. */
    function Contents(): (reg: Registry)
      reads this, nodes.Values
      ensures reg.Keys == nodes.Keys
    {
      map m | m in nodes :: nodes[m].parts
    }

    /** Different nodes hold different set objects. */
    predicate Separate()
      reads this
    {
      forall m, n :: m in nodes && n in nodes && m != n ==> nodes[m] != nodes[n]
    }

    /** An empty registry. */
    constructor ()
      ensures nodes == map[] && Contents() == map[]
    {
      nodes := map[];
    }

    /** `new_partition_set()`: a new empty set of the in-memory kind; the
        registry is untouched. */
    method NewPartitionSet() returns (pset: PartitionSet)
      ensures fresh(pset) && pset.parts == map[]
    {
      pset := new PartitionSet();
    }

    /** `get_partition_set(node_id)`: fails for an unregistered node and,
        having no `modifies` clause, changes nothing. */
    method GetPartitionSet(node: NodeID) returns (r: Result<PartitionSet>)
      ensures r.Ok? <==> node in nodes
      ensures r.Ok? ==> r.value == nodes[node]
      ensures r.Err? ==> r.error == MissingNode
      ensures match GetSet(Contents(), node)
              case Ok(parts) => r.Ok? && r.value.parts == parts
              case Err(e) => r == Err(e)
    {
      if node in nodes {
        r := Ok(nodes[node]);
      } else {
        r := Err(MissingNode);
      }
    }

    /** `put_partition_set(node_id, pset)`: overwrites the entry of `node`. */
    method PutPartitionSet(node: NodeID, pset: PartitionSet)
      modifies this
      ensures nodes == old(nodes)[node := pset]
      ensures Contents() == PutSet(old(Contents()), node, pset.parts)
      ensures old(Separate()) && (forall m :: m in old(nodes) && m != node ==> old(nodes)[m] != pset) ==> Separate()
    {
      nodes := nodes[node := pset];
    }

    /** `rm(node_id)`: drops the entry of `node`; an unregistered node is a
        `KeyError` and changes nothing. No set is modified. */
    method RemoveNode(node: NodeID) returns (r: Result<()>)
      modifies this
      ensures r.Ok? <==> node in old(nodes)
      ensures r.Err? ==> r.error == MissingNode && nodes == old(nodes)
      ensures r.Ok? ==> nodes == old(nodes) - {node}
      ensures match RmNode(old(Contents()), node)
              case Ok(reg) => r.Ok? && Contents() == reg
              case Err(e) => r == Err(e) && Contents() == old(Contents())
      ensures old(Separate()) ==> Separate()
    {
      if node in nodes {
        nodes := nodes - {node};
        r := Ok(());
      } else {
        r := Err(MissingNode);
      }
    }

    /** `rm(node_id, partition_id)`: deletes the partition from the set of
        `node` and drops the node when that set is left empty. Only that set
        changes; when the sets are separate, the registry follows
        `RmPartition`. */
    method RemovePartition(node: NodeID, pid: PartID) returns (r: Result<()>)
      modifies this, if node in nodes then {nodes[node]} else {}
      ensures node !in old(nodes) ==> r == Err(MissingNode) && nodes == old(nodes)
      ensures node in old(nodes) ==>
        var pset := old(nodes)[node];
        (r.Ok? <==> pid in old(pset.parts))
        && (r.Err? ==> r.error == MissingKey && nodes == old(nodes) && pset.parts == old(pset.parts))
        && (r.Ok? ==> pset.parts == old(pset.parts) - {pid}
                      && nodes == if pset.parts == map[] then old(nodes) - {node} else old(nodes))
      ensures old(Separate()) ==>
        match RmPartition(old(Contents()), node, pid)
        case Ok(reg) => r.Ok? && Contents() == reg
        case Err(e) => r == Err(e) && Contents() == old(Contents())
      ensures old(Separate()) ==> Separate()
    {
      if node !in nodes {
        return Err(MissingNode);
      }
      var pset := nodes[node];
      ghost var before := Contents();
      r := pset.DeletePartition(pid);
      if r.Err? {
        assert Contents() == before;
        return;
      }
      var left := pset.NumPartitions();
      if left == 0 {
        nodes := nodes - {node};
      }
      if old(Separate()) {
        ghost var after := Contents();
        forall m | m in after && m != node ensures after[m] == before[m] {
          assert nodes[m] != pset;
        }
        RmPartitionIs(before, after, node, pid);
      }
    }

    /** `clear()`: forgets every entry. */
    method Clear()
      modifies this
      ensures nodes == map[] && Contents() == map[] && Separate()
    {
      nodes := map[];
    }
  }
}
