/**
 Record shapes of the conversation tree: topics ("roots"), branch nodes and
 the messages a node holds. Identifiers are opaque strings; timestamps are
 the milliseconds the host clock reports, passed in by the caller.
 */
module Types {

  /** A nullable reference: `None` stands for the source's `null`. */
  datatype Option<+T> = None | Some(value: T)

  type Id = string

  /** Who wrote a message. */
  datatype Role = User | Model

  datatype Message = Message(id: Id, role: Role, content: string, timestamp: int)

  /** A topic: the container of one conversation tree. */
  datatype Root = Root(
    id: Id,
    title: string,
    backpack: string,                // shared context visible to every branch
    lastActiveNodeId: Option<Id>,    // cursor where the user left off
    createdAt: int)

  /** A vertex of a topic's tree, holding its own segment of the conversation. */
  datatype Node = Node(
    id: Id,
    rootId: Id,
    parentId: Option<Id>,            // None for the topic's start node
    title: string,
    messages: seq<Message>,
    depth: nat,
    siblingIndex: nat,
    createdAt: int)
}
