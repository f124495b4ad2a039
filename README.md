# Divi conversation-tree engine in Dafny

Divi lets a user keep many topics, each a tree of conversation branches
instead of one linear chat. The engine in `src/lib/knowledge-graph.ts` keeps
two keyed tables in the browser store: topics ("roots") and branch nodes.
It has five operations:

- `createRoot` makes a topic and its single "Start" node.
- `createBranch` adds a child node. The node's depth is one below its
  parent, and its sibling index counts the nodes already under that parent.
  The topic's cursor (`lastActiveNodeId`) then moves to the new node.
- `addMessage` appends a message to a node.
- `cleanupNode` prunes a node that has no messages and no children.
- `getHistoryChain` walks parent links to the start node and returns every
  message on the way, root-most first.

This project models the engine as a class `KnowledgeGraph.Store` holding the
two tables as maps. Each operation is one method. Each method is proved to
leave the tables as a function of `Tree` describes. The lemmas in `History`
and `Operations` state what those functions mean.

The store invariant is `Tree.Invariant`:

- every record is stored under its own id;
- a node whose parent is stored has depth one more than that parent;
- no two stored messages carry the same id.

With the invariant, depth strictly decreases along parent links. This is
why the history walk terminates and never visits a node twice.

Files:

- `types.dfy`: the record shapes (topic, node, message, role).
- `tree.dfy`: the two tables, the invariant, and the history of a node
  (`Chain`). It also has the table each operation leaves behind.
- `history.dfy`: what the history walk visits and returns.
- `operations.dfy`: how each operation affects the invariant and every
  node's history.
- `knowledge_graph.dfy`: the `Store` class with one method per operation,
  and two client sessions.

Modelling choices:

- Each `uuidv4()` call becomes an id parameter that must be fresh. A
  never-before-seen UUID meets every one of these conditions:
  - a new node id (`CreateBranch`'s `nodeId`, `CreateRoot`'s `startId`)
    satisfies `Tree.FreshId`: it is not a stored key, and no stored node
    names it as its parent. It is also not empty, and `CreateBranch`'s
    `nodeId` differs from the parent id passed with it;
  - a new topic id (`CreateRoot`'s `rootId`) satisfies `Tree.FreshRootId`:
    it is not a stored topic and no stored node names it as its topic;
  - a new message id (`AddMessage`'s `messageId`) satisfies
    `Tree.FreshMessageId`: no stored message carries it.
- `Date.now()` becomes a timestamp parameter.
- JavaScript truthiness is modelled as written. `if (parentId)` and
  `while (currentId)` treat `""` the same as `null` (`Tree.Links`).
  Generated ids are never empty.
- The store's `update` on a missing key does nothing (`Tree.WithLastActive`).
  So `createBranch` on a missing topic still stores the node and leaves the
  topics unchanged.
- `createBranch` raises no error when a truthy parent id names no stored
  node: the new node gets depth 0 (`src/lib/knowledge-graph.ts:44-48`), and
  the sibling count is still taken over the nodes naming that parent id.
  The model does the same.

## Model

| member | source | states |
|---|---|---|
| `Tree.Visited` | src/lib/knowledge-graph.ts:99-105 | every id the history walk visits is a stored node |
| `History.VisitedIsWalk` | src/lib/knowledge-graph.ts:99-105 | the walk ends at the start id; each visited id is the parent of the next; depth grows by one per step, so no id repeats; the first id has no stored parent; the walk is empty exactly when the id is falsy or missing |
| `History.ChainIsConcat` | src/lib/knowledge-graph.ts:95-106 | the history equals the visited nodes' messages concatenated root-most first; its length is the sum of their message counts |
| `History.AncestorChainIsPrefix` | src/lib/knowledge-graph.ts:99-105 | the history of every ancestor on the walk is a prefix of the node's history |
| `History.OwnMessagesEndChain` | src/lib/knowledge-graph.ts:103 | a node's history ends with the node's own messages |
| `History.ThreeLevelHistory` | src/lib/knowledge-graph.ts:95-106 | root [A,B], middle [C], leaf [D]: the leaf's history is exactly [A,B,C,D] |
| `History.MissingNodeHasNoHistory` | src/lib/knowledge-graph.ts:97-101 | the history of a missing or empty id is empty |
| `Operations.BranchPreservesInvariant` | src/lib/knowledge-graph.ts:43-59 | storing a branch under a fresh id keeps the store invariant, including the depth = parent depth + 1 rule |
| `Operations.ChainOfExtension` | src/lib/knowledge-graph.ts:50-59 | adding a node under a fresh id changes no other id's history |
| `Operations.BranchHistory` | src/lib/knowledge-graph.ts:37-59 | a new branch's history equals its parent's history (empty for a falsy or missing parent); every existing node keeps its history |
| `Operations.NewTopicHasOneStartNode` | src/lib/knowledge-graph.ts:5-24 | after a new topic's start node is stored, the topic has exactly one node; that node has no parent, title "Start", depth 0, sibling index 0 and no messages |
| `Operations.AppendPreservesInvariant` | src/lib/knowledge-graph.ts:71-80 | appending a message keeps the depth rule; with a fresh message id it keeps the whole store invariant, so message ids stay distinct |
| `Operations.AppendTwice` | src/lib/knowledge-graph.ts:71-80 | appending x and then y gives the old messages followed by [x, y]; no other node changes and no key is added or removed |
| `Operations.ChainOfAppendedElsewhere` | src/lib/knowledge-graph.ts:78-80 | appending to a node changes no history whose walk does not visit that node |
| `Operations.ChainOfAppended` | src/lib/knowledge-graph.ts:78-80 | after appending m to a node, the node's history is its old history followed by m |
| `Operations.ChainOfAppendedThrough` | src/lib/knowledge-graph.ts:78-80 | for every history whose walk visits the node, m appears right after the node's own messages and before the messages of the descendants on the walk |
| `Operations.RemovableHasNoChildren` | src/lib/knowledge-graph.ts:88-90 | a node that passes the cleanup test is no node's parent |
| `Operations.PrunedRemovesOnlyEmptyLeaves` | src/lib/knowledge-graph.ts:83-93 | after cleanup, the id is kept iff it was stored with messages or children; every other record is unchanged |
| `Operations.PrunedIdempotent` | src/lib/knowledge-graph.ts:83-93 | cleaning up twice equals cleaning up once |
| `Operations.PrunePreservesInvariant` | src/lib/knowledge-graph.ts:88-92 | cleanup keeps the depth rule and the store invariant; no remaining node loses the stored parent it had |
| `Operations.ChainOfPruned` | src/lib/knowledge-graph.ts:88-92 | cleanup changes no other id's history |
| `KnowledgeGraph.Store.constructor` | src/lib/db.ts:5-32 | the store starts with both tables empty and satisfies the invariant |
| `KnowledgeGraph.Store.CreateRoot` | src/lib/knowledge-graph.ts:5-24 | adds the topic with empty backpack, its cursor on the new "Start" node; adds exactly that node (no parent, depth 0, sibling index 0, no messages); the new topic then has exactly one node, and it is parentless; keeps the invariant |
| `KnowledgeGraph.Store.CreateBranch` | src/lib/knowledge-graph.ts:28-65 | adds exactly the new node and changes no existing node; depth is stored parent depth + 1, otherwise 0 with no error; sibling index counts the nodes under a truthy parent; the topic cursor moves only if the topic exists; existing histories are kept and the new node inherits its parent's |
| `KnowledgeGraph.Store.AddMessage` | src/lib/knowledge-graph.ts:67-81 | takes a fresh message id; missing node: NodeNotFound and nothing changes; otherwise the new messages are the old ones plus the new message; the topics and every other node are unchanged |
| `KnowledgeGraph.Store.CleanupNode` | src/lib/knowledge-graph.ts:83-93 | deletes the node iff it is stored with no messages and no children, and otherwise changes nothing; topics are unchanged; every remaining node keeps its history |
| `KnowledgeGraph.Store.GetHistoryChain` | src/lib/knowledge-graph.ts:95-107 | the loop returns the node's history: empty for a missing id, with length equal to the visited nodes' message count |
| `KnowledgeGraph.Store.SetLastActive` | src/components/AppShell.tsx:26-28 | only the topic's cursor changes, with no check that the node belongs to the topic; a missing topic means no change |

## Left out

- The React components (sidebar, canvas, shell) are not modelled. This
  covers rendering, live queries, effect hooks, confirmation dialogs and the
  timer-delayed mock model replies. The only part kept is the shell's cursor
  sync, modelled as `SetLastActive`.
- The store's schema, indexes, `db.delete()` and the reset helper
  (`src/lib/db.ts:35-38`) are not modelled. The two tables are plain maps.
- The store's calls are asynchronous and each operation makes several of
  them. The model treats each operation as one atomic step with a single
  caller, so it does not capture interleaving or partially applied
  operations.
- The store's `add` throws when the key already exists. The model never
  reaches that case, because the fresh-id preconditions exclude it.
- Truncating a new branch's title in the canvas (`src/components/MainCanvas.tsx:39`)
  is not modelled; `CreateBranch` takes the title as given.
- `KnowledgeGraph.Store.constructor` models a newly created, empty
  database. The browser database persists across page loads, and a
  reopened one holds whatever earlier sessions stored. The model assumes
  such a state was produced by the operations modelled here, so it
  satisfies `Valid()`. It does not model data written by other means.
- Default parameter values (`title = "New Branch"`) are not modelled. Every
  caller passes a title explicitly.
