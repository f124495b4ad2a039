/**
 What each engine operation does to the node table, stated against the store
 invariant and the history of every node: creating a branch keeps every
 existing history and gives the new node its parent's; appending a message
 extends exactly the histories that pass through the node; pruning an empty,
 childless node leaves every other history alone.
 */
module Operations {
  import opened Types
  import opened Tree
  import opened History

  // ---------------------------------------------------------------------
  // createBranch / createRoot
  // ---------------------------------------------------------------------

  /** Storing a new node under a fresh id keeps the store invariant: its depth
      is one more than a stored parent's, and no existing node can acquire it
      as a parent. */
  lemma BranchPreservesInvariant(nodes: Nodes, id: Id, rootId: Id, parentId: Option<Id>, title: string, createdAt: int)
    requires Invariant(nodes)
    requires FreshId(nodes, id) && parentId != Some(id)
    ensures Invariant(WithBranch(nodes, id, rootId, parentId, title, createdAt))
  {
  }

  /** Adding node `id` under a fresh id changes no history that does not
      start at `id`. */
  lemma {:induction false} ChainOfExtension(nodes: Nodes, id: Id, x: Node, cur: Option<Id>)
    requires DepthConsistent(nodes) && DepthConsistent(nodes[id := x])
    requires FreshId(nodes, id) && cur != Some(id)
    ensures Chain(nodes[id := x], cur) == Chain(nodes, cur)
    decreases Measure(nodes, cur)
  {
    if Links(cur) && cur.value in nodes {
      var p := nodes[cur.value].parentId;
      assert p != Some(id);
      ChainOfExtension(nodes, id, x, p);
    }
  }

  /** A new branch sees exactly its parent's history (it has no messages of
      its own yet; none at all when the parent is falsy or missing), and
      every existing node keeps its history. */
  lemma BranchHistory(nodes: Nodes, id: Id, rootId: Id, parentId: Option<Id>, title: string, createdAt: int)
    requires Invariant(nodes)
    requires FreshId(nodes, id) && parentId != Some(id) && id != ""
    ensures Invariant(WithBranch(nodes, id, rootId, parentId, title, createdAt))
    ensures Chain(WithBranch(nodes, id, rootId, parentId, title, createdAt), Some(id)) == Chain(nodes, parentId)
    ensures forall k :: k in nodes ==>
      Chain(WithBranch(nodes, id, rootId, parentId, title, createdAt), Some(k)) == Chain(nodes, Some(k))
  {
    BranchPreservesInvariant(nodes, id, rootId, parentId, title, createdAt);
    var nb := WithBranch(nodes, id, rootId, parentId, title, createdAt);
    ChainOfExtension(nodes, id, nb[id], parentId);
    forall k | k in nodes
      ensures Chain(nb, Some(k)) == Chain(nodes, Some(k))
    {
      ChainOfExtension(nodes, id, nb[id], Some(k));
    }
  }

  /** The node ids of topic `rootId` that have no parent. */
  function StartNodes(nodes: Nodes, rootId: Id): set<Id>
  {
    set k | k in nodes && nodes[k].rootId == rootId && nodes[k].parentId == None
  }

  /** A new topic, whose id no node names yet, gets exactly one node: its
      parentless "Start" node at depth 0 and sibling index 0, with no messages. */
  lemma NewTopicHasOneStartNode(nodes: Nodes, rootId: Id, startId: Id, createdAt: int)
    requires FreshId(nodes, startId)
    requires forall k :: k in nodes ==> nodes[k].rootId != rootId
    ensures var nb := WithBranch(nodes, startId, rootId, None, "Start", createdAt);
      && (set k | k in nb && nb[k].rootId == rootId) == {startId}
      && StartNodes(nb, rootId) == {startId}
      && nb[startId] == Node(startId, rootId, None, "Start", [], 0, 0, createdAt)
  {
  }

  // ---------------------------------------------------------------------
  // addMessage
  // ---------------------------------------------------------------------

  /** Appending a message keeps parent links and depths, so the depth rule
      holds afterwards; when the message id is fresh, no two stored messages
      share an id either, and the whole store invariant holds. */
  lemma AppendPreservesInvariant(nodes: Nodes, id: Id, m: Message)
    requires id in nodes && DepthConsistent(nodes)
    ensures DepthConsistent(Appended(nodes, id, m))
    ensures Invariant(nodes) && FreshMessageId(nodes, m.id) ==> Invariant(Appended(nodes, id, m))
  {
  }

  /** Two appends, `x` then `y`, leave the node's messages as the old ones
      followed by `x` and `y`, and touch no other node. */
  lemma AppendTwice(nodes: Nodes, id: Id, x: Message, y: Message)
    requires id in nodes
    ensures var n2 := Appended(Appended(nodes, id, x), id, y);
      && n2.Keys == nodes.Keys
      && n2[id].messages == nodes[id].messages + [x, y]
      && (forall k :: k in nodes && k != id ==> n2[k] == nodes[k])
  {
  }

  /** Appending to `id` changes no history whose walk does not visit `id`. */
  lemma {:induction false} ChainOfAppendedElsewhere(nodes: Nodes, id: Id, m: Message, cur: Option<Id>)
    requires DepthConsistent(nodes) && id in nodes
    requires id !in Visited(nodes, cur)
    ensures DepthConsistent(Appended(nodes, id, m))
    ensures Chain(Appended(nodes, id, m), cur) == Chain(nodes, cur)
    decreases Measure(nodes, cur)
  {
    AppendPreservesInvariant(nodes, id, m);
    if Links(cur) && cur.value in nodes {
      var p := nodes[cur.value].parentId;
      assert Visited(nodes, cur) == Visited(nodes, p) + [cur.value];
      ChainOfAppendedElsewhere(nodes, id, m, p);
    }
  }

  /** After `addMessage(id, m)` the history of `id` is its old history
      followed by `m`. */
  lemma ChainOfAppended(nodes: Nodes, id: Id, m: Message)
    requires DepthConsistent(nodes) && id in nodes && id != ""
    ensures DepthConsistent(Appended(nodes, id, m))
    ensures Chain(Appended(nodes, id, m), Some(id)) == Chain(nodes, Some(id)) + [m]
  {
    var p := nodes[id].parentId;
    VisitedIsWalk(nodes, p);
    var u := Visited(nodes, p);
    assert id !in u;
    ChainOfAppendedElsewhere(nodes, id, m, p);
  }

  /** Appending `m` to `id` inserts it into every history whose walk visits
      `id`: right after `id`'s own messages, before the messages of the
      descendants on the walk. */
  lemma {:induction false} ChainOfAppendedThrough(nodes: Nodes, id: Id, m: Message, cur: Option<Id>, j: nat)
    requires DepthConsistent(nodes)
    requires j < |Visited(nodes, cur)| && Visited(nodes, cur)[j] == id
    ensures DepthConsistent(Appended(nodes, id, m))
    ensures Chain(Appended(nodes, id, m), cur)
         == Chain(nodes, Some(id)) + [m] + Concat(nodes, Visited(nodes, cur)[j + 1..])
    decreases Measure(nodes, cur)
  {
    AppendPreservesInvariant(nodes, id, m);
    var v := Visited(nodes, cur);
    var p := nodes[cur.value].parentId;
    var u := Visited(nodes, p);
    assert v == u + [cur.value];
    if j == |u| {
      assert Some(id) == cur;
      ChainOfAppended(nodes, id, m);
      assert v[j + 1..] == [];
    } else {
      VisitedIsWalk(nodes, cur);
      assert cur.value != id by {
        assert nodes[v[j]].depth < nodes[v[|v| - 1]].depth;
      }
      ChainOfAppendedThrough(nodes, id, m, p, j);
      assert v[j + 1..] == u[j + 1..] + [cur.value];
      assert (u[j + 1..] + [cur.value])[..|u[j + 1..]|] == u[j + 1..];
    }
  }

  // ---------------------------------------------------------------------
  // cleanupNode
  // ---------------------------------------------------------------------

  /** A removable node is nobody's parent. */
  lemma RemovableHasNoChildren(nodes: Nodes, id: Id)
    requires Removable(nodes, id)
    ensures forall k :: k in nodes ==> nodes[k].parentId != Some(id)
  {
    forall k | k in nodes
      ensures nodes[k].parentId != Some(id)
    {
      assert nodes[k].parentId == Some(id) ==> k in Children(nodes, id);
    }
  }

  /** Pruning deletes `id` exactly when it is stored, holds no messages and
      has no children; every other record stays as it was. */
  lemma PrunedRemovesOnlyEmptyLeaves(nodes: Nodes, id: Id)
    ensures id in Pruned(nodes, id) <==> id in nodes && (|nodes[id].messages| > 0 || Children(nodes, id) != {})
    ensures forall k :: k in Pruned(nodes, id) ==> k in nodes && Pruned(nodes, id)[k] == nodes[k]
    ensures forall k :: k in nodes && k != id ==> k in Pruned(nodes, id)
  {
  }

  /** Pruning twice is pruning once. */
  lemma PrunedIdempotent(nodes: Nodes, id: Id)
    ensures Pruned(Pruned(nodes, id), id) == Pruned(nodes, id)
  {
  }

  /** Pruning keeps the depth rule and the store invariant, and never leaves
      a remaining node without the stored parent it had before. */
  lemma PrunePreservesInvariant(nodes: Nodes, id: Id)
    requires DepthConsistent(nodes)
    ensures DepthConsistent(Pruned(nodes, id))
    ensures Invariant(nodes) ==> Invariant(Pruned(nodes, id))
    ensures forall k :: k in Pruned(nodes, id) && HasStoredParent(nodes, k) ==> HasStoredParent(Pruned(nodes, id), k)
  {
  }

  /** Pruning changes the history of no remaining node. */
  lemma {:induction false} ChainOfPruned(nodes: Nodes, id: Id, cur: Option<Id>)
    requires DepthConsistent(nodes)
    requires cur != Some(id)
    ensures DepthConsistent(Pruned(nodes, id))
    ensures Chain(Pruned(nodes, id), cur) == Chain(nodes, cur)
    decreases Measure(nodes, cur)
  {
    PrunePreservesInvariant(nodes, id);
    if Removable(nodes, id) && Links(cur) && cur.value in nodes {
      var p := nodes[cur.value].parentId;
      RemovableHasNoChildren(nodes, id);
      assert p != Some(id);
      ChainOfPruned(nodes, id, p);
    }
  }
}
