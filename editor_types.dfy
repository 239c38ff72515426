/**
  The value types shared by the editor and the transform engine: edits,
  participants, saved document versions and the messages exchanged between
  participants. Document text is a sequence of characters; offsets are
  natural numbers.
 */
module EditorTypes {

  datatype Option<T> = None | Some(value: T)

  datatype OpKind = Insert | Delete | Retain

  /** One edit. `content` is meaningful for inserts and `length` for deletes;
      both are optional, and every consumer reads a missing one as "" or 0. */
  datatype Operation = Operation(
    kind: OpKind,
    position: nat,
    content: Option<string>,
    length: Option<nat>,
    userId: string,
    timestamp: int)
  {
    /** The inserted text, "" when absent. */
    function Text(): string {
      if content.Some? then content.value else ""
    }

    /** The deleted length, 0 when absent. */
    function Len(): nat {
      if length.Some? then length.value else 0
    }
  }

  /** A remote participant; `cursor` is cleared when a cursor message carries none. */
  datatype User = User(id: string, name: string, color: string, cursor: Option<int>)

  /** A saved snapshot: the text, the operations made since the previous save,
      and its version number. */
  datatype DocumentVersion = DocumentVersion(
    id: string,
    content: string,
    operations: seq<Operation>,
    timestamp: int,
    version: int)

  /** The five kinds of message a session receives. Each carries the sender's
      id; the payload of each kind may be missing, as in the wire format. */
  datatype EditorMessage =
    | OperationMessage(userId: string, operation: Option<Operation>)
    | CursorMessage(userId: string, cursor: Option<int>)
    | UserJoinMessage(userId: string, user: Option<User>)
    | UserLeaveMessage(userId: string)
    | DocumentStateMessage(userId: string, document: Option<DocumentVersion>)
}
