/**
 What `getHistoryChain` returns, stated independently of how the walk
 accumulates it: the walk follows parent links up to the topic's start node,
 never revisits a node, and the history is the concatenation of the visited
 nodes' messages, root-most first.
 */
module History {
  import opened Types
  import opened Tree

  /** The visited ids form a walk along parent links: it ends at `cur`, each
      id is the parent of the next one, depth grows by one at every step (so
      no id is visited twice), and the first id has no stored parent. */
  lemma {:induction false} VisitedIsWalk(nodes: Nodes, cur: Option<Id>)
    requires DepthConsistent(nodes)
    ensures var v := Visited(nodes, cur);
      && (v == [] <==> !Links(cur) || cur.value !in nodes)
      && (v != [] ==> v[|v| - 1] == cur.value && v[0] in nodes && !HasStoredParent(nodes, v[0]))
      && (forall j :: 0 <= j < |v| ==> v[j] in nodes && nodes[v[j]].depth < Measure(nodes, cur))
      && (forall j :: 0 < j < |v| ==>
            nodes[v[j]].parentId == Some(v[j - 1]) && nodes[v[j]].depth == nodes[v[j - 1]].depth + 1)
      && (forall i, j :: 0 <= i < j < |v| ==> nodes[v[i]].depth < nodes[v[j]].depth)
    decreases Measure(nodes, cur)
  {
    if Links(cur) && cur.value in nodes {
      var p := nodes[cur.value].parentId;
      VisitedIsWalk(nodes, p);
      var u := Visited(nodes, p);
      var v := Visited(nodes, cur);
      assert v == u + [cur.value];
      if u != [] {
        assert u[|u| - 1] == p.value;
        assert HasStoredParent(nodes, cur.value);
      }
    }
  }

  /** The history is the concatenation of the visited nodes' messages, and its
      length is the number of messages they hold together. */
  lemma {:induction false} ChainIsConcat(nodes: Nodes, cur: Option<Id>)
    requires DepthConsistent(nodes)
    ensures Chain(nodes, cur) == Concat(nodes, Visited(nodes, cur))
    ensures |Chain(nodes, cur)| == MessageCount(nodes, Visited(nodes, cur))
    decreases Measure(nodes, cur)
  {
    VisitedIsWalk(nodes, cur);
    if Links(cur) && cur.value in nodes {
      var p := nodes[cur.value].parentId;
      ChainIsConcat(nodes, p);
      var v := Visited(nodes, cur);
      assert v[..|v| - 1] == Visited(nodes, p);
    }
  }

  /** Every visited node's history is a prefix of the history of the node the
      walk started from. */
  lemma {:induction false} AncestorChainIsPrefix(nodes: Nodes, cur: Option<Id>, j: nat)
    requires DepthConsistent(nodes)
    requires j < |Visited(nodes, cur)|
    ensures Chain(nodes, Some(Visited(nodes, cur)[j])) <= Chain(nodes, cur)
    decreases Measure(nodes, cur)
  {
    var v := Visited(nodes, cur);
    var p := nodes[cur.value].parentId;
    var u := Visited(nodes, p);
    assert v == u + [cur.value];
    if j < |u| {
      AncestorChainIsPrefix(nodes, p, j);
      assert v[j] == u[j];
    } else {
      assert Some(v[j]) == cur;
    }
  }

  /** A node's own messages close its history. */
  lemma OwnMessagesEndChain(nodes: Nodes, n: Id)
    requires DepthConsistent(nodes)
    requires n in nodes && n != ""
    ensures |Chain(nodes, Some(n))| >= |nodes[n].messages|
    ensures Chain(nodes, Some(n))[|Chain(nodes, Some(n))| - |nodes[n].messages|..] == nodes[n].messages
  {
  }

  /** Root with [A, B], middle node with [C], leaf with [D]: the leaf's
      history is [A, B, C, D]. */
  lemma ThreeLevelHistory(a: Message, b: Message, c: Message, d: Message)
    ensures var nodes := map[
        "root" := Node("root", "t", None, "Start", [a, b], 0, 0, 0),
        "mid" := Node("mid", "t", Some("root"), "B", [c], 1, 0, 1),
        "leaf" := Node("leaf", "t", Some("mid"), "C", [d], 2, 0, 2)];
      DepthConsistent(nodes) && Chain(nodes, Some("leaf")) == [a, b, c, d]
  {
    var nodes := map[
        "root" := Node("root", "t", None, "Start", [a, b], 0, 0, 0),
        "mid" := Node("mid", "t", Some("root"), "B", [c], 1, 0, 1),
        "leaf" := Node("leaf", "t", Some("mid"), "C", [d], 2, 0, 2)];
    assert DepthConsistent(nodes);
    assert Chain(nodes, Some("root")) == [a, b];
    assert Chain(nodes, Some("mid")) == [a, b, c];
  }

  /** The history of a missing or falsy id is empty. */
  lemma MissingNodeHasNoHistory(nodes: Nodes, n: Id)
    requires DepthConsistent(nodes)
    requires n !in nodes || n == ""
    ensures Chain(nodes, Some(n)) == []
  {
  }
}
