/**
 * The logical content of the messages the node exchanges, the sends it makes and the
 * audit-log records it writes. Serialisation and transport are not part of this model.
 */
module Messages {
  import opened Ring

  datatype MessageType = CREATE | READ | UPDATE | DELETE | REPLY | READREPLY

  /** The four operations a coordinator issues and a replica serves. */
  predicate IsClientOp(kind: MessageType)
  {
    kind.CREATE? || kind.READ? || kind.UPDATE? || kind.DELETE?
  }

  /** A wire message: transaction id, sender, kind, key, value (empty when absent) and the success flag of a REPLY. */
  datatype Message = Message(transID: int, fromAddr: Address, msgType: MessageType, key: string, value: string, success: bool)

  /** A request of one of the four client kinds. */
  function Request(transID: int, fromAddr: Address, kind: MessageType, key: string, value: string): Message
  {
    Message(transID, fromAddr, kind, key, value, false)
  }

  /** The REPLY a replica sends after a write. */
  function Reply(transID: int, fromAddr: Address, success: bool): Message
  {
    Message(transID, fromAddr, REPLY, "", "", success)
  }

  /** The READREPLY a replica sends after a read, carrying the value read (empty on a miss). */
  function ReadReply(transID: int, fromAddr: Address, value: string): Message
  {
    Message(transID, fromAddr, READREPLY, "", value, false)
  }

  /** One send: from an address, to an address, a message. */
  datatype Envelope = Envelope(from: Address, to: Address, msg: Message)

  /** One audit-log record: the operation, whether the coordinator wrote it, the transaction id and the outcome. */
  datatype LogEntry = LogEntry(kind: MessageType, isCoordinator: bool, transID: int, success: bool)

  /** The sends of `msg` from `from` to every node of `targets`, in the order of `targets`. */
  function SendToAll(from: Address, targets: seq<Node>, msg: Message): (sends: seq<Envelope>)
    ensures |sends| == |targets|
    ensures forall k :: 0 <= k < |targets| ==> sends[k] == Envelope(from, targets[k].address, msg)
  {
    if targets == [] then []
    else SendToAll(from, targets[..|targets| - 1], msg) + [Envelope(from, targets[|targets| - 1].address, msg)]
  }

  /** Every target receives the message. */
  lemma SendToAllCovers(from: Address, targets: seq<Node>, msg: Message, n: Node)
    requires n in targets
    ensures Envelope(from, n.address, msg) in SendToAll(from, targets, msg)
  {
    var j :| 0 <= j < |targets| && targets[j] == n;
    assert SendToAll(from, targets, msg)[j] == Envelope(from, n.address, msg);
  }

  /** An outbox holding `prefix` and the sends to the first `i` targets, plus the send to target `i`, holds the sends to the first `i + 1`. */
  lemma SendStep(prefix: seq<Envelope>, outbox: seq<Envelope>, from: Address, targets: seq<Node>, i: nat, msg: Message)
    requires i < |targets|
    requires outbox == prefix + SendToAll(from, targets[..i], msg)
    ensures outbox + [Envelope(from, targets[i].address, msg)] == prefix + SendToAll(from, targets[..i + 1], msg)
  {
    assert targets[..i + 1][..i] == targets[..i];
    AppendAssoc(prefix, SendToAll(from, targets[..i], msg), [Envelope(from, targets[i].address, msg)]);
  }

  /** Regrouping a concatenation of three sequences, stated for arbitrary sequences so the regrouping never sees what they are. */
  lemma AppendAssoc<T>(a: seq<T>, b: seq<T>, c: seq<T>)
    ensures (a + b) + c == a + (b + c)
  {
  }
}
