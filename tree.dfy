/**
 The conversation tree as two keyed tables of values, the store invariant the
 engine keeps, the history a node is entitled to see, and the new table each
 engine operation produces. The class in knowledge_graph.dfy is proved
 against these functions; the lemmas here and in history.dfy and
 operations.dfy say what they mean.
 */
module Tree {
  import opened Types

  type Nodes = map<Id, Node>
  type Roots = map<Id, Root>

  /** JavaScript truthiness of a nullable id: both `null` and `""` are falsy,
      so neither is followed as a parent link. */
  predicate Links(p: Option<Id>)
  {
    p.Some? && p.value != ""
  }

  /** The nodes whose `parentId` is `p`: what an index scan on `parentId` counts. */
  function Children(nodes: Nodes, p: Id): set<Id>
  {
    set k | k in nodes && nodes[k].parentId == Some(p)
  }

  /** Node `k` has a parent link that leads to a stored node. */
  predicate HasStoredParent(nodes: Nodes, k: Id)
    requires k in nodes
  {
    Links(nodes[k].parentId) && nodes[k].parentId.value in nodes
  }

  /** Every record is stored under its own id. */
  predicate Keyed(nodes: Nodes)
  {
    forall k :: k in nodes ==> nodes[k].id == k
  }

  /** A node whose parent is stored sits exactly one level below it. */
  predicate DepthConsistent(nodes: Nodes)
  {
    forall k :: k in nodes && HasStoredParent(nodes, k) ==>
      nodes[k].depth == nodes[nodes[k].parentId.value].depth + 1
  }

  /** No two stored messages carry the same id. */
  predicate MessageIdsDistinct(nodes: Nodes)
  {
    forall k1, i1, k2, i2 ::
      k1 in nodes && k2 in nodes &&
      0 <= i1 < |nodes[k1].messages| && 0 <= i2 < |nodes[k2].messages| &&
      nodes[k1].messages[i1].id == nodes[k2].messages[i2].id
      ==> k1 == k2 && i1 == i2
  }

  /** The store invariant of the node table. */
  predicate Invariant(nodes: Nodes)
  {
    Keyed(nodes) && DepthConsistent(nodes) && MessageIdsDistinct(nodes)
  }

  /** A newly generated id: not a key, and not the parent id any stored node
      already names (a never-seen UUID). */
  predicate FreshId(nodes: Nodes, id: Id)
  {
    id !in nodes && forall k :: k in nodes ==> nodes[k].parentId != Some(id)
  }

  /** A newly generated topic id: not a stored topic, and no stored node
      names it as its topic (a never-seen UUID). */
  predicate FreshRootId(roots: Roots, nodes: Nodes, id: Id)
  {
    id !in roots && forall k :: k in nodes ==> nodes[k].rootId != id
  }

  /** A newly generated message id: no stored message carries it (a
      never-seen UUID). */
  predicate FreshMessageId(nodes: Nodes, id: Id)
  {
    forall k, i :: k in nodes && 0 <= i < |nodes[k].messages| ==> nodes[k].messages[i].id != id
  }

  /** Bound on the number of parent links the history walk can still follow
      from `cur`. */
  function Measure(nodes: Nodes, cur: Option<Id>): nat
  {
    if Links(cur) && cur.value in nodes then nodes[cur.value].depth + 1 else 0
  }

  /** The history of `cur`: the messages of every node on the walk from `cur`
      up the parent links, root-most first and `cur`'s own last. The walk
      stops at a falsy link or at the first id that is not stored. */
  function Chain(nodes: Nodes, cur: Option<Id>): seq<Message>
    requires DepthConsistent(nodes)
    decreases Measure(nodes, cur)
  {
    if !Links(cur) || cur.value !in nodes then []
    else Chain(nodes, nodes[cur.value].parentId) + nodes[cur.value].messages
  }

  /** The ids that walk visits, root-most first. */
  function Visited(nodes: Nodes, cur: Option<Id>): (v: seq<Id>)
    requires DepthConsistent(nodes)
    ensures forall j :: 0 <= j < |v| ==> v[j] in nodes
    decreases Measure(nodes, cur)
  {
    if !Links(cur) || cur.value !in nodes then []
    else Visited(nodes, nodes[cur.value].parentId) + [cur.value]
  }

  /** The messages of the stored nodes `ids`, concatenated in order. */
  function Concat(nodes: Nodes, ids: seq<Id>): seq<Message>
    requires forall j :: 0 <= j < |ids| ==> ids[j] in nodes
  {
    if ids == [] then []
    else Concat(nodes, ids[..|ids| - 1]) + nodes[ids[|ids| - 1]].messages
  }

  /** The total number of messages held by the stored nodes `ids`. */
  function MessageCount(nodes: Nodes, ids: seq<Id>): nat
    requires forall j :: 0 <= j < |ids| ==> ids[j] in nodes
  {
    if ids == [] then 0
    else MessageCount(nodes, ids[..|ids| - 1]) + |nodes[ids[|ids| - 1]].messages|
  }

  // ---------------------------------------------------------------------
  // The tables each engine operation leaves behind.
  // ---------------------------------------------------------------------

  /** The store's `update(rootId, {lastActiveNodeId})`: a no-op when the topic
      is missing. */
  function WithLastActive(roots: Roots, rootId: Id, nodeId: Id): Roots
  {
    if rootId in roots then roots[rootId := roots[rootId].(lastActiveNodeId := Some(nodeId))]
    else roots
  }

  /** Depth of a new node: one below a stored parent, otherwise 0 (also when a
      truthy parent id names no stored node). */
  function BranchDepth(nodes: Nodes, parentId: Option<Id>): nat
  {
    if Links(parentId) && parentId.value in nodes then nodes[parentId.value].depth + 1 else 0
  }

  /** Sibling index of a new node: how many nodes already name the same
      truthy parent; 0 for a falsy parent. */
  function SiblingCount(nodes: Nodes, parentId: Option<Id>): nat
  {
    if Links(parentId) then |Children(nodes, parentId.value)| else 0
  }

  /** The node table after `createBranch` stores node `id`. */
  function WithBranch(nodes: Nodes, id: Id, rootId: Id, parentId: Option<Id>, title: string, createdAt: int): Nodes
  {
    nodes[id := Node(id, rootId, parentId, title, [], BranchDepth(nodes, parentId),
                     SiblingCount(nodes, parentId), createdAt)]
  }

  /** The node table after `addMessage` appends `m` to stored node `id`. */
  function Appended(nodes: Nodes, id: Id, m: Message): Nodes
    requires id in nodes
  {
    nodes[id := nodes[id].(messages := nodes[id].messages + [m])]
  }

  /** `cleanupNode`'s deletion condition: stored, no messages, no children. */
  predicate Removable(nodes: Nodes, id: Id)
  {
    id in nodes && |nodes[id].messages| == 0 && |Children(nodes, id)| == 0
  }

  /** The node table after `cleanupNode(id)`. */
  function Pruned(nodes: Nodes, id: Id): Nodes
  {
    if Removable(nodes, id) then nodes - {id} else nodes
  }
}
