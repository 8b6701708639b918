# MP2Node replication engine

A Dafny model of the replication layer of one key/value node (`MP2Node`).
Each node sits on a consistent-hash ring. The ring holds the cluster members sorted by the
hash code of their address. Every key hashes to a position on that ring and is stored on three
replicas: the first member at or after that position, and its two successors.

As coordinator, a node turns each client CREATE/READ/UPDATE/DELETE into a numbered transaction.
It sends the request to the three replicas and counts their replies. A periodic sweep then
decides each transaction as a success or a failure, logs it and forgets it. The sweep applies
five literal branches over the reply count R, the success count S and the transaction's age.

As replica, a node applies requests to its local store. It answers with a REPLY or a READREPLY
carrying the request's transaction id.

When the ring changes size, the node re-pushes every key it stores to that key's current
replicas. This is the stabilisation protocol.

The project has five files:

- `ring.dfy` (module `Ring`): the key hash and the ring order. Replica placement is a function
  `Replicas`, with its placement properties proved.
- `local_store.dfy` (module `LocalStore`): the semantics the engine assumes of its local
  hash table.
- `messages.dfy` (module `Messages`): message kinds, messages, sends and audit records.
- `quorum.dfy` (module `Quorum`): the pending-transaction table, reply intake, the literal
  decision rule, its comparison with the threshold rule, and what a sweep logs.
- `replication.dfy` (module `Replication`): the node itself. It is a class `MP2Node` whose
  fields are:
  - `ring`;
  - `pending` (the transaction map);
  - `store`;
  - `outbox` (every send, in order);
  - `log` (every audit record, in order);
  - `transID` (the transaction id counter).

  Each source operation is a method on these fields, proved against the specification
  functions of the other modules.

The clock is a parameter `now`. The library string hash and the node-address hash are
uninterpreted functions, held as constants of the node.

## Model

| member | source | states |
|---|---|---|
| Ring.HashFunction | MP2Node.cpp:109-113 | the ring position of a key is below RING_SIZE, and equals the library hash when that is already below RING_SIZE |
| Ring.SortByHash | MP2Node.cpp:62-63 | the rebuilt ring is sorted by hash code and is a permutation of the membership list |
| Ring.FirstAtOrAbove | MP2Node.cpp:685-693 | the replica search loop always stops when the last hash is at least the position; it stops at the first index from its start whose hash is at least the position |
| Ring.PrimaryIndex | MP2Node.cpp:677-693 | the primary is member 0 exactly when the position wraps (at or below the smallest hash, or above the largest) |
| Ring.Replicas | MP2Node.cpp:674-697 | the replica list is empty if and only if the ring has fewer than 3 members; otherwise it holds exactly 3 ring members |
| Ring.PrimaryIsSuccessor | MP2Node.cpp:677-693 | on a sorted ring the primary is the first member whose hash is at least the position (all before it are below), or member 0 when no hash reaches it; it heads the replica list |
| Ring.ReplicaIndicesDistinct | MP2Node.cpp:680-690 | on a ring of at least 3 members the replica list is exactly [ring[i], ring[(i+1) mod n], ring[(i+2) mod n]] for the primary index i, and the three indices are pairwise distinct |
| Ring.ReplicasDistinct | MP2Node.cpp:680-690 | on a ring without repeated members the three replicas are pairwise different |
| LocalStore.Create | MP2Node.cpp:285 | insertion succeeds if and only if the key is absent; a present key keeps its value; other keys are untouched |
| LocalStore.Read | MP2Node.cpp:323 | the stored value, or "" when the key is absent |
| LocalStore.Update | MP2Node.cpp:347 | succeeds if and only if the key is present, then holds the new value; the key set and other keys are untouched |
| LocalStore.Delete | MP2Node.cpp:370 | succeeds if and only if the key is present; exactly that key leaves the store, and other keys keep their values |
| LocalStore.CreateIdempotent | MP2Node.cpp:285 | repeating a create leaves the store as one create does, and the repeat reports failure |
| LocalStore.ReadAfterCreate | MP2Node.cpp:323-324 | a read after creating a new key returns the created value |
| Messages.SendToAll | MP2Node.cpp:141-152 | one send per replica, in replica order, each from the sender to that replica's address with the same message |
| Quorum.IntakeReply | MP2Node.cpp:499-508 | a REPLY for an unknown id changes nothing; for a known id R grows by 1, S grows by 1 if and only if the flag is set, and nothing else in the table changes |
| Quorum.IntakeReadReply | MP2Node.cpp:510-520 | a READREPLY for an unknown id changes nothing; for a known id R grows by 1, the value is replaced, S grows by 1 if and only if the value is non-empty, and nothing else changes |
| Quorum.Open | MP2Node.cpp:29-35 | a new transaction carries the given id, timestamp, kind, key and value, with reply and success counters at 0 |
| Quorum.OpenIsPending | MP2Node.cpp:29-35 | a new client transaction on its own is a well-formed table entry, and a sweep at its start time leaves it undecided |
| Quorum.OpenKeepsWellFormed | MP2Node.cpp:145-146 | opening a client operation under a fresh id keeps the table well formed: keyed by id, client kinds only, 0 <= S <= R |
| Quorum.IntakeKeepsWellFormed | MP2Node.cpp:499-520 | both kinds of reply intake keep the table well formed |
| Quorum.Decide | MP2Node.cpp:536-564 | a success has at least 2 successes; a failure has fewer than 2 successes, two non-successful replies or an age above 10; an undecided transaction has R != 3, S != 2, R - S != 2 and an age of at most 10 |
| Quorum.DecideCases | MP2Node.cpp:536-564 | a transaction succeeds if and only if (R == 3 and S > 1) or (R != 3 and S == 2); otherwise it fails if and only if R == 3, R - S == 2 or its age exceeds 10 |
| Quorum.DecideAgreesWithThreshold | MP2Node.cpp:536-564 | while 0 <= S <= R <= 3 the literal branches decide exactly as the threshold rule: success once S >= 2, failure once two replies were failures or on timeout |
| Quorum.DuplicateRepliesDelaySuccess | MP2Node.cpp:536-564 | with duplicate replies (R > 3, S > 2, R - S != 2) a transaction that reached a quorum stays pending until it times out, and then fails |
| Quorum.DuplicateRepliesFailQuorum | MP2Node.cpp:554-558 | with duplicate replies (R > 3, S > 2, R - S == 2) a transaction that reached a quorum is decided a failure |
| Quorum.TimeoutFails | MP2Node.cpp:560-564 | a transaction short of replies and of successes fails once it is older than 10 |
| Quorum.TwoSuccessesSucceed | MP2Node.cpp:542-546 | two successful REPLYs to a fresh transaction decide it a success |
| Quorum.TwoFailuresFail | MP2Node.cpp:554-558 | two failed REPLYs to a fresh transaction decide it a failure |
| Quorum.Survivors | MP2Node.cpp:523-566 | after a sweep exactly the undecided transactions remain, unchanged |
| Quorum.Remaining | MP2Node.cpp:524-564 | partway through a sweep the table holds the unexamined transactions and the examined undecided ones, unchanged |
| Quorum.RemainingStep | MP2Node.cpp:536-564 | examining one transaction removes it exactly when it is decided |
| Quorum.RemainingEnds | MP2Node.cpp:524-526 | a sweep starts with the whole table and ends with the survivors |
| Quorum.CoordinatorLog | MP2Node.cpp:608-620 | a finalised client operation gets exactly one coordinator record with its kind, id and outcome; any other kind gets none |
| Quorum.SweepStep | MP2Node.cpp:523-566 | examining the smallest unexamined id keeps the sweep log correct: one coordinator record per finalised, examined transaction, in ascending id order, all below the ids still to examine |
| Quorum.SweepLogCountsFinalised | MP2Node.cpp:523-566 | a complete sweep log names each removed transaction exactly once, and has as many records as transactions were removed |
| Replication.MinKey | MP2Node.cpp:524-526 | the next id of the in-order walk of the transaction map is the smallest unexamined one |
| Replication.PushAll | MP2Node.cpp:735-752 | stabilisation makes no send on a ring of fewer than 3 members, and otherwise 3 sends per listed key |
| Replication.PushAllSends | MP2Node.cpp:741-751 | every stabilisation send is a CREATE with transaction id -1 from this node, carrying a listed key and its stored value, to a replica of that key |
| Replication.PushAllCovers | MP2Node.cpp:735-752 | for every listed key and every replica of that key, the stabilisation sends include that key's CREATE to that replica |
| Replication.StabilizationCovers | MP2Node.cpp:726-753 | for a listing of every stored key, every (stored key, replica of the key) pair receives the key's CREATE with its stored value |
| Replication.PushAllCount | MP2Node.cpp:735-752 | on a ring of at least 3 members, stabilisation makes exactly 3 sends per stored key |
| Replication.Handle | MP2Node.cpp:442-520 | a CREATE, READ, UPDATE or DELETE leaves the transaction map alone, appends one replica record with the request's id and sends one reply with that id to the sender; a REPLY or READREPLY leaves store, log and outbox alone and keeps the transaction ids |
| Replication.Drain | MP2Node.cpp:399-414 | handling a queue of messages in order keeps the transaction ids and only extends the log and the outbox |
| Replication.DrainAppend | MP2Node.cpp:399-414 | handling a + b is handling a and then b |
| Replication.DrainKeepsWellFormed | MP2Node.cpp:499-520 | handling any queue of messages keeps the transaction map well formed |
| Replication.MP2Node.constructor | MP2Node.cpp:11-19 | a new node has an empty ring, transaction map, store, outbox and log |
| Replication.MP2Node.NodesOf | MP2Node.cpp:86-98 | one ring entry per member address, in membership order, carrying that address's hash code |
| Replication.MP2Node.UpdateRing | MP2Node.cpp:46-74 | the ring becomes the membership plus this node, sorted by hash; stabilisation runs if and only if the ring size changed and the store is non-empty; otherwise nothing is sent |
| Replication.MP2Node.FindNodes | MP2Node.cpp:674-697 | the search loop returns exactly the replica list `Ring.Replicas` of the key's position |
| Replication.MP2Node.ClientRequest | MP2Node.cpp:124-153 | the id counter advances by 1. With no replicas nothing is recorded or sent. Otherwise exactly one transaction (kind, key, value, counters 0) is added under the new id, and one request is sent to each replica in order |
| Replication.MP2Node.ClientCreate | MP2Node.cpp:124-153 | a client CREATE is issued as `ClientRequest` states |
| Replication.MP2Node.ClientRead | MP2Node.cpp:164-192 | a client READ is issued with an empty value, as `ClientRequest` states |
| Replication.MP2Node.ClientUpdate | MP2Node.cpp:203-231 | a client UPDATE is issued as `ClientRequest` states |
| Replication.MP2Node.ClientDelete | MP2Node.cpp:242-270 | a client DELETE is issued with an empty value, as `ClientRequest` states |
| Replication.MP2Node.CreateKeyValue | MP2Node.cpp:280-292 | the store takes the create, and the result and the replica's record carry its outcome |
| Replication.MP2Node.ReadKey | MP2Node.cpp:318-332 | returns exactly the stored value ("" on a miss), and records success if and only if it is non-empty |
| Replication.MP2Node.UpdateKeyValue | MP2Node.cpp:342-355 | the store takes the update, and the result and the replica's record carry its outcome |
| Replication.MP2Node.DeleteKey | MP2Node.cpp:365-378 | the store takes the delete, and the result and the replica's record carry its outcome |
| Replication.MP2Node.HandleCreateMessage | MP2Node.cpp:472-478 | the create is applied and one REPLY with the request's id and the store's result goes to the request's sender |
| Replication.MP2Node.HandleReadMessage | MP2Node.cpp:480-484 | the store is unchanged and one READREPLY with the request's id and the value read goes to the sender |
| Replication.MP2Node.HandleUpdateMessage | MP2Node.cpp:486-491 | the update is applied and one REPLY with the request's id and the store's result goes to the sender |
| Replication.MP2Node.HandleDeleteMessage | MP2Node.cpp:493-497 | the delete is applied and one REPLY with the request's id and the store's result goes to the sender |
| Replication.MP2Node.HandleReplyMessage | MP2Node.cpp:499-508 | the transaction map becomes `Quorum.IntakeReply` of the old one and stays well formed |
| Replication.MP2Node.HandleReadReplyMessage | MP2Node.cpp:510-520 | the transaction map becomes `Quorum.IntakeReadReply` of the old one and stays well formed |
| Replication.MP2Node.HandleMessage | MP2Node.cpp:442-470 | the store, log, outbox and transaction map become exactly `Handle` of the old ones: each kind goes to its handler with that handler's effect |
| Replication.MP2Node.LogOperationCoordinator | MP2Node.cpp:608-620 | the log grows by exactly `Quorum.CoordinatorLog` of the transaction and outcome |
| Replication.MP2Node.DeleteTransaction | MP2Node.cpp:663-666 | exactly that id leaves the transaction map |
| Replication.MP2Node.AnalyzeQuorumConsistency | MP2Node.cpp:523-566 | afterwards the map holds exactly `Quorum.Survivors`. The earlier log is kept, and the new records are a complete sweep log (`SweepLogged`): one coordinator record per removed transaction, with its outcome, in ascending id order |
| Replication.MP2Node.CheckMessages | MP2Node.cpp:388-421 | the store and outbox become `Drain` of the inbox in arrival order; the transaction map becomes `Quorum.Survivors` of the drained map; the log is the drained log followed by a complete sweep log; no new transaction exists and none left pending is decided at `now` |
| Replication.MP2Node.PushKey | MP2Node.cpp:736-751 | one CREATE with id -1, the key and its stored value goes to each replica of the key, in replica order |
| Replication.MP2Node.StabilizationProtocol | MP2Node.cpp:731-753 | the sends are `PushAll` over a listing of every stored key exactly once, so by `StabilizationCovers` every replica of every stored key receives its CREATE; the store, ring and transaction map are unchanged |

## Left out

- Transport: sends through the emulated network, the receive loop and the byte queue are not
  modelled. Sends are appends to `outbox`; `CheckMessages` takes the queued messages as a
  sequence of decoded messages.
- Message serialisation and parsing (`toString`, `Message(string)`) are not part of this model.
- The byte packing of id and port into an address in the membership lookup
  (MP2Node.cpp:89-96). Members are a sequence of `Address(id, port)`.
- Ring.HashFunction: the library string hash is a parameter `string -> nat`. Its 64-bit
  `size_t` width is not modelled, because only its value modulo RING_SIZE matters.
- RING_SIZE is set to 512. Its definition is in a header that is not part of this model.
- The node-address hash code is computed by the node type, which is not part of this model. It
  is a parameter `nodeHash`.
- Ring.SortByHash: the model sorts stably. The library sort leaves the order of members with
  equal hash codes unspecified, so equal hash codes may be ordered differently there.
- The local hash table's code is not part of this model. `LocalStore` states the semantics the
  engine relies on:
  - create refuses a present key;
  - read answers "" for a missing key;
  - update and delete refuse a missing key.
- The textual log format and the key and value fields of log lines. A record is
  (kind, isCoordinator, transaction id, success).
- The generic `logOperation` (MP2Node.cpp:568-606). Nothing in the core calls it.
- The per-kind log helpers (MP2Node.cpp:622-661) are not modelled separately; they appear
  only as the coordinator record they write.
- The `ReplicaType` argument of the server operations is not modelled, because it is never read.
- Memory management: leaked messages, the extra transaction objects that `emplace` discards,
  and the destructor.
- Replication.MP2Node.AnalyzeQuorumConsistency: the sweep advances its map iterator after
  erasing the entry it points to (MP2Node.cpp:538-539, and likewise after each erase). The model
  follows the evident intent instead: each pending transaction is examined exactly once, in
  ascending id order.
- Replication.MP2Node.StabilizationProtocol: the order in which the hash table yields its keys
  is not modelled. A ghost result `order` lists every stored key exactly once, and the sends
  are stated in that order.
- The transaction id counter is global to the process in the source. Here it is a field of
  the node that starts at 0, since the header that defines it is not part of this model.
- The transaction counters R and S are not set by the transaction constructor
  (MP2Node.cpp:29-35). Their defaults are in a header that is not part of this model, so they
  are taken to start at 0.
- Replication.MP2Node.ClientRequest: the source reads the clock once per replica, and the first
  insertion wins. The model reads the clock once per call (`now`).
- 32-bit overflow of the transaction id counter and of the reply counters is not modelled.
- Three behaviours of the code are modelled as written, although a reader might expect
  otherwise:
  - With fewer than three ring members the replica lookup returns no replicas at all, not
    up to three.
  - A client operation on such a ring still consumes a transaction id, records nothing, sends
    nothing and reports nothing to its caller.
  - The sweep uses the five literal branches, not the threshold rule (success once S >= 2,
    failure once two replies were failures or on timeout).
    `Quorum.DecideAgreesWithThreshold` shows the two agree while no more than three replies
    were counted. `Quorum.DuplicateRepliesDelaySuccess` and `Quorum.DuplicateRepliesFailQuorum`
    show where they part.
