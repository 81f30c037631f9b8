/** The flat message record the export parser produces and the worker and
    graph consume. */
module Messages {
  import opened Wrappers
  import Json

  /** An embedding vector. */
  type Vector = seq<real>

  datatype Metadata = Metadata(
    model: Option<string>,
    finishReason: Option<string>,
    parentId: Option<string>,
    children: Json.Json,
    conversationCreateTime: Option<int>,
    conversationUpdateTime: Option<int>)

  /** `timestamp` is `None` for JavaScript `null`. */
  datatype Message = Message(
    id: string,
    text: string,
    role: string,
    timestamp: Option<int>,
    conversationId: string,
    conversationTitle: string,
    nodeId: string,
    metadata: Metadata)

  /** A message as the worker returns it: `{...message, clusterId, embedding}`. */
  datatype ClusteredMessage = ClusteredMessage(message: Message, clusterId: nat, embedding: Vector)

  /** `timestamp || 0`, and also the value JavaScript's relational operators
      give `null`. */
  function TimeKey(t: Option<int>): int {
    t.GetOr(0)
  }

  function ConversationOf(m: Message): string {
    m.conversationId
  }

  function RoleOf(m: Message): string {
    m.role
  }

  function MessageTime(m: Message): int {
    TimeKey(m.timestamp)
  }
}
