/**
 The conversation-tree engine: the two tables of the browser store (topics and
 nodes) held in one object, and one method per engine operation, each proved
 to leave the tables as the corresponding function of Tree describes. Fresh
 ids and clock readings are parameters; the store's asynchronous calls are
 taken as one atomic step per operation.
 */
module KnowledgeGraph {
  import opened Types
  import opened Tree
  import opened History
  import opened Operations

  /** What `addMessage` reports: success, or the "Node not found" error. */
  datatype Outcome = Done | NodeNotFound

  class Store {
    var roots: Roots
    var nodes: Nodes

    /** The store invariant: records keyed by their own ids, and a node whose
        parent is stored sits one level below it. */
    ghost predicate Valid()
      reads this
    {
      Invariant(nodes)
    }

    /** An empty store. */
    constructor ()
      ensures Valid() && roots == map[] && nodes == map[]
    {
      roots := map[];
      nodes := map[];
    }

    /** `createRoot(title)`: a topic with an empty backpack, its "Start" node,
        and the topic's cursor on that node. The new topic then has exactly
        one node, and it is parentless. */
    method CreateRoot(title: string, rootId: Id, rootCreatedAt: int, startId: Id, startCreatedAt: int)
      returns (id: Id)
      requires Valid()
      requires FreshRootId(roots, nodes, rootId)
      requires FreshId(nodes, startId) && startId != ""
      modifies this
      ensures Valid()
      ensures id == rootId
      ensures roots == old(roots)[rootId := Root(rootId, title, "", Some(startId), rootCreatedAt)]
      ensures nodes == old(nodes)[startId := Node(startId, rootId, None, "Start", [], 0, 0, startCreatedAt)]
      ensures nodes == WithBranch(old(nodes), startId, rootId, None, "Start", startCreatedAt)
      ensures (set k | k in nodes && nodes[k].rootId == rootId) == {startId}
      ensures StartNodes(nodes, rootId) == {startId}
    {
      NewTopicHasOneStartNode(nodes, rootId, startId, startCreatedAt);
      roots := roots[rootId := Root(rootId, title, "", None, rootCreatedAt)];
      var nodeId := CreateBranch(rootId, None, "Start", startId, startCreatedAt);
      roots := WithLastActive(roots, rootId, nodeId);
      id := rootId;
    }

    /** `createBranch(rootId, parentId, title)`: stores a node under the fresh
        id `nodeId` with no messages, at depth one below a stored parent (0
        when the parent is falsy or missing, without an error), with sibling
        index the number of nodes already under that parent; then moves the
        topic's cursor to it when the topic exists. */
    method CreateBranch(rootId: Id, parentId: Option<Id>, title: string, nodeId: Id, createdAt: int)
      returns (id: Id)
      requires Valid()
      requires FreshId(nodes, nodeId) && nodeId != "" && parentId != Some(nodeId)
      modifies this
      ensures Valid()
      ensures id == nodeId
      ensures nodes == WithBranch(old(nodes), nodeId, rootId, parentId, title, createdAt)
      ensures nodes.Keys == old(nodes).Keys + {nodeId}
      ensures forall k :: k in old(nodes) ==> nodes[k] == old(nodes)[k]
      ensures Links(parentId) && parentId.value in old(nodes) ==>
                nodes[nodeId].depth == old(nodes)[parentId.value].depth + 1
      ensures !(Links(parentId) && parentId.value in old(nodes)) ==> nodes[nodeId].depth == 0
      ensures nodes[nodeId].siblingIndex == if Links(parentId) then |Children(old(nodes), parentId.value)| else 0
      ensures nodes[nodeId].messages == []
      ensures roots == WithLastActive(old(roots), rootId, nodeId)
      ensures Chain(nodes, Some(nodeId)) == Chain(old(nodes), parentId)
      ensures forall k :: k in old(nodes) ==> Chain(nodes, Some(k)) == Chain(old(nodes), Some(k))
    {
      var siblings := 0;
      if Links(parentId) {
        siblings := |Children(nodes, parentId.value)|;
      }
      var depth := 0;
      if Links(parentId) && parentId.value in nodes {
        depth := nodes[parentId.value].depth + 1;
      }
      BranchHistory(nodes, nodeId, rootId, parentId, title, createdAt);
      nodes := nodes[nodeId := Node(nodeId, rootId, parentId, title, [], depth, siblings, createdAt)];
      roots := WithLastActive(roots, rootId, nodeId);
      id := nodeId;
    }

    /** `addMessage(nodeId, role, content)`: "Node not found" and no change
        when the node is missing; otherwise the message (fresh id `messageId`,
        clock reading `timestamp`) goes at the end of the node's messages and
        nothing else changes. */
    method AddMessage(nodeId: Id, role: Role, content: string, messageId: Id, timestamp: int)
      returns (outcome: Outcome)
      requires Valid()
      requires FreshMessageId(nodes, messageId)
      modifies this
      ensures Valid()
      ensures roots == old(roots)
      ensures outcome == NodeNotFound <==> nodeId !in old(nodes)
      ensures outcome == NodeNotFound ==> nodes == old(nodes)
      ensures outcome == Done ==>
                nodes == Appended(old(nodes), nodeId, Message(messageId, role, content, timestamp))
      ensures outcome == Done ==>
                nodes[nodeId].messages == old(nodes)[nodeId].messages + [Message(messageId, role, content, timestamp)]
      ensures nodes.Keys == old(nodes).Keys
      ensures forall k :: k in old(nodes) && k != nodeId ==> nodes[k] == old(nodes)[k]
    {
      if nodeId !in nodes {
        return NodeNotFound;
      }
      var node := nodes[nodeId];
      var newMessage := Message(messageId, role, content, timestamp);
      var updatedMessages := node.messages + [newMessage];
      AppendPreservesInvariant(nodes, nodeId, newMessage);
      nodes := nodes[nodeId := node.(messages := updatedMessages)];
      outcome := Done;
    }

    /** `cleanupNode(nodeId)`: deletes the node exactly when it is stored,
        holds no messages and has no children; otherwise (and for a missing
        id) nothing changes. No remaining node loses its history. */
    method CleanupNode(nodeId: Id)
      requires Valid()
      modifies this
      ensures Valid()
      ensures roots == old(roots)
      ensures nodes == Pruned(old(nodes), nodeId)
      ensures Removable(old(nodes), nodeId) ==> nodes == old(nodes) - {nodeId}
      ensures !Removable(old(nodes), nodeId) ==> nodes == old(nodes)
      ensures forall k :: k in nodes ==> Chain(nodes, Some(k)) == Chain(old(nodes), Some(k))
    {
      PrunePreservesInvariant(nodes, nodeId);
      forall k | k in Pruned(nodes, nodeId)
        ensures Chain(Pruned(nodes, nodeId), Some(k)) == Chain(nodes, Some(k))
      {
        if k != nodeId {
          ChainOfPruned(nodes, nodeId, Some(k));
        }
      }
      if nodeId !in nodes {
        return;
      }
      var node := nodes[nodeId];
      var childCount := |Children(nodes, nodeId)|;
      if |node.messages| == 0 && childCount == 0 {
        nodes := nodes - {nodeId};
      }
    }

    /** `getHistoryChain(nodeId)`: walks parent links from `nodeId`,
        prepending each visited node's messages, until a falsy link or a
        missing node; the result is the node's history. */
    method GetHistoryChain(nodeId: Id) returns (chain: seq<Message>)
      requires Valid()
      ensures chain == Chain(nodes, Some(nodeId))
      ensures nodeId !in nodes ==> chain == []
      ensures |chain| == MessageCount(nodes, Visited(nodes, Some(nodeId)))
    {
      ChainIsConcat(nodes, Some(nodeId));
      chain := [];
      var currentId: Option<Id> := Some(nodeId);
      while Links(currentId)
        invariant Chain(nodes, currentId) + chain == Chain(nodes, Some(nodeId))
        decreases Measure(nodes, currentId)
      {
        if currentId.value !in nodes {
          break;
        }
        var node := nodes[currentId.value];
        chain := node.messages + chain;
        currentId := node.parentId;
      }
    }

    /** The cursor sync of the application shell: the store's update of the
        topic's `lastActiveNodeId`, with no check that the node belongs to
        the topic; a no-op for a missing topic. */
    method SetLastActive(rootId: Id, nodeId: Id)
      requires Valid()
      modifies this
      ensures Valid()
      ensures nodes == old(nodes)
      ensures roots == WithLastActive(old(roots), rootId, nodeId)
    {
      roots := WithLastActive(roots, rootId, nodeId);
    }
  }

  /** A topic with one branch under its start node that receives a user
      message and a model reply: the cursor follows the branch, the reply
      lands after the message, and cleaning up the start node keeps it
      because it now has a child. */
  method SessionKeepsParent()
  {
    var s := new Store();
    var t := s.CreateRoot("T", "topic", 0, "start", 1);
    assert s.roots["topic"].lastActiveNodeId == Some("start");
    var b := s.CreateBranch(t, Some("start"), "B", "b1", 2);
    assert s.nodes["b1"].depth == 1 && s.nodes["b1"].siblingIndex == 0;
    assert s.roots["topic"].lastActiveNodeId == Some("b1");
    var r := s.AddMessage(b, User, "hi", "m1", 3);
    assert r == Done;
    r := s.AddMessage(b, Model, "Echo: hi", "m2", 4);
    assert s.nodes["b1"].messages == [Message("m1", User, "hi", 3), Message("m2", Model, "Echo: hi", 4)];
    ghost var before := s.nodes;
    s.CleanupNode("start");
    assert "start" in s.nodes by {
      assert "b1" in Children(before, "start");
    }
  }

  /** A second, untouched sibling gets sibling index 1 and is deleted by
      cleanup; a second cleanup changes nothing. */
  method SessionPrunesUntouched()
  {
    var s := new Store();
    var t := s.CreateRoot("T", "topic", 0, "start", 1);
    var b := s.CreateBranch(t, Some("start"), "B", "b1", 2);
    assert s.nodes.Keys == {"start", "b1"};
    ghost var before := s.nodes;
    assert Children(before, "start") == {"b1"};
    var c := s.CreateBranch(t, Some("start"), "C", "b2", 3);
    assert s.nodes["b2"].siblingIndex == 1;
    before := s.nodes;
    assert Children(before, "b2") == {};
    s.CleanupNode(c);
    assert c !in s.nodes;
    before := s.nodes;
    s.CleanupNode(c);
    assert s.nodes == before && s.nodes.Keys == {"start", "b1"};
  }
}
