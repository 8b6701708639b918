/**
 * One key/value node of the replication layer: its ring, its pending transactions, its
 * local store, and the sends and audit records it produces. Sends are appended to
 * `outbox` and audit records to `log`; the clock is passed in as `now`.
 */
module Replication {
  import opened Ring
  import opened Messages
  import opened Quorum
  import LocalStore

  /** Some element of a non-empty set. */
  method AnyOf<T>(s: set<T>) returns (x: T)
    requires s != {}
    ensures x in s
  {
    // Stating the impossible empty case first keeps the choice below from being checked against a contradiction.
    if forall y :: y !in s {
      assert false;
    }
    x :| x in s;
  }

  /** The smallest id of a non-empty set: the next entry an in-order walk of the pending table reaches. */
  method MinKey(ids: set<int>) returns (m: int)
    requires ids != {}
    ensures m in ids
    ensures forall x :: x in ids ==> m <= x
  {
    m := AnyOf(ids);
    var rest := ids - {m};
    while rest != {}
      invariant rest <= ids && m in ids
      invariant forall x :: x in ids && x !in rest ==> m <= x
      decreases rest
    {
      var x := AnyOf(rest);
      if x < m {
        m := x;
      }
      rest := rest - {x};
    }
  }

  /** `order` lists every key of `keys` exactly once. */
  ghost predicate Enumerates(order: seq<string>, keys: set<string>)
  {
    && (forall k :: k in order <==> k in keys)
    && (forall a, b :: 0 <= a < b < |order| ==> order[a] != order[b])
  }

  /** The CREATE that stabilisation sends for `key`: no transaction (id -1), the stored value. */
  function PushMessage(from: Address, key: string, value: string): Message
  {
    Request(-1, from, CREATE, key, value)
  }

  /**
   * The stabilisation sends for the keys of `order`, key after key: one CREATE per replica
   * of the key, in replica order.
   */
  function PushAll(from: Address, ring: seq<Node>, keyHash: string -> nat, store: map<string, string>, order: seq<string>)
    : (sends: seq<Envelope>)
    requires forall k :: k in order ==> k in store
    ensures |ring| < REPLICAS ==> sends == []
    ensures |ring| >= REPLICAS ==> |sends| == REPLICAS * |order|
  {
    if order == [] then []
    else
      var key := order[|order| - 1];
      PushAll(from, ring, keyHash, store, order[..|order| - 1])
        + SendToAll(from, Replicas(ring, HashFunction(keyHash, key)), PushMessage(from, key, store[key]))
  }

  /** Every stabilisation send is a CREATE without transaction, from this node, of a listed key and its stored value, to a replica of that key. */
  lemma {:induction false} PushAllSends(from: Address, ring: seq<Node>, keyHash: string -> nat, store: map<string, string>, order: seq<string>)
    requires forall k :: k in order ==> k in store
    ensures forall e :: e in PushAll(from, ring, keyHash, store, order) ==>
      && e.msg.key in order
      && e.msg == PushMessage(from, e.msg.key, store[e.msg.key])
      && e.from == from
      && exists n :: n in Replicas(ring, HashFunction(keyHash, e.msg.key)) && e.to == n.address
  {
    if order != [] {
      var init, key := order[..|order| - 1], order[|order| - 1];
      PushAllSends(from, ring, keyHash, store, init);
      var replicas := Replicas(ring, HashFunction(keyHash, key));
      var last := SendToAll(from, replicas, PushMessage(from, key, store[key]));
      forall e | e in PushAll(from, ring, keyHash, store, order)
        ensures e.msg.key in order
        ensures e.msg == PushMessage(from, e.msg.key, store[e.msg.key]) && e.from == from
        ensures exists n :: n in Replicas(ring, HashFunction(keyHash, e.msg.key)) && e.to == n.address
      {
        if e in last {
          var k :| 0 <= k < |last| && last[k] == e;
          assert replicas[k] in replicas;
        } else {
          assert e in PushAll(from, ring, keyHash, store, init);
        }
      }
    }
  }

  /** The `a`-th listed key's CREATE reaches every replica of that key. */
  lemma {:induction false} PushAllCovers(
    from: Address, ring: seq<Node>, keyHash: string -> nat, store: map<string, string>, order: seq<string>,
    a: nat, n: Node)
    requires forall k :: k in order ==> k in store
    requires a < |order| && n in Replicas(ring, HashFunction(keyHash, order[a]))
    ensures Envelope(from, n.address, PushMessage(from, order[a], store[order[a]])) in PushAll(from, ring, keyHash, store, order)
  {
    var init, last := order[..|order| - 1], order[|order| - 1];
    assert PushAll(from, ring, keyHash, store, order) == PushAll(from, ring, keyHash, store, init)
      + SendToAll(from, Replicas(ring, HashFunction(keyHash, last)), PushMessage(from, last, store[last]));
    if a == |order| - 1 {
      SendToAllCovers(from, Replicas(ring, HashFunction(keyHash, last)), PushMessage(from, last, store[last]), n);
    } else {
      assert init[a] == order[a];
      PushAllCovers(from, ring, keyHash, store, init, a, n);
    }
  }

  /** Stabilisation over a listing of the whole store sends every stored key's CREATE to every replica of that key. */
  lemma StabilizationCovers(
    from: Address, ring: seq<Node>, keyHash: string -> nat, store: map<string, string>, order: seq<string>)
    requires Enumerates(order, store.Keys)
    ensures forall key, n :: key in store && n in Replicas(ring, HashFunction(keyHash, key)) ==>
      Envelope(from, n.address, PushMessage(from, key, store[key])) in PushAll(from, ring, keyHash, store, order)
  {
    forall key, n | key in store && n in Replicas(ring, HashFunction(keyHash, key))
      ensures Envelope(from, n.address, PushMessage(from, key, store[key])) in PushAll(from, ring, keyHash, store, order)
    {
      var a :| 0 <= a < |order| && order[a] == key;
      PushAllCovers(from, ring, keyHash, store, order, a, n);
    }
  }

  /** Appending one more key's sends to an outbox that ends with the sends of `order` yields the sends of `order + [key]`. */
  lemma PushStep(prefix: seq<Envelope>, outbox: seq<Envelope>,
    from: Address, ring: seq<Node>, keyHash: string -> nat, store: map<string, string>, order: seq<string>, key: string)
    requires forall k :: k in order ==> k in store
    requires key in store
    requires outbox == prefix + PushAll(from, ring, keyHash, store, order)
    ensures outbox + SendToAll(from, Replicas(ring, HashFunction(keyHash, key)), PushMessage(from, key, store[key]))
         == prefix + PushAll(from, ring, keyHash, store, order + [key])
  {
    var sends := SendToAll(from, Replicas(ring, HashFunction(keyHash, key)), PushMessage(from, key, store[key]));
    calc {
      outbox + sends;
      (prefix + PushAll(from, ring, keyHash, store, order)) + sends;
      { AppendAssoc(prefix, PushAll(from, ring, keyHash, store, order), sends); }
      prefix + (PushAll(from, ring, keyHash, store, order) + sends);
      { PushAllSnoc(from, ring, keyHash, store, order, key); }
      prefix + PushAll(from, ring, keyHash, store, order + [key]);
    }
  }

  /** Listing one more unlisted key keeps `order` a duplicate-free list of the keys no longer in `rest`. */
  lemma EnumerateStep(order: seq<string>, rest: set<string>, keys: set<string>, key: string)
    requires rest <= keys && key in rest
    requires forall k :: k in order <==> k in keys && k !in rest
    requires forall a, b :: 0 <= a < b < |order| ==> order[a] != order[b]
    ensures forall k :: k in order + [key] <==> k in keys && k !in rest - {key}
    ensures forall a, b :: 0 <= a < b < |order + [key]| ==> (order + [key])[a] != (order + [key])[b]
  {
    var order' := order + [key];
    forall a, b | 0 <= a < b < |order'|
      ensures order'[a] != order'[b]
    {
      if b == |order| {
        assert order'[a] == order[a];
        assert order[a] in order;
      } else {
        assert order'[a] == order[a] && order'[b] == order[b];
      }
    }
  }

  /** A duplicate-free listing of a set is exactly as long as the set is large. */
  lemma {:induction false} EnumeratesSize<T>(order: seq<T>, keys: set<T>)
    requires forall k :: k in order <==> k in keys
    requires forall a, b :: 0 <= a < b < |order| ==> order[a] != order[b]
    ensures |order| == |keys|
  {
    if order == [] {
      assert keys == {};
    } else {
      var init, last := order[..|order| - 1], order[|order| - 1];
      forall k
        ensures k in init <==> k in keys - {last}
      {
        if k in init {
          var a :| 0 <= a < |init| && init[a] == k;
          assert order[a] == k;
        }
        if k in keys - {last} {
          assert k in order;
          var a :| 0 <= a < |order| && order[a] == k;
          assert a < |init| && init[a] == k;
        }
      }
      EnumeratesSize(init, keys - {last});
    }
  }

  /** On a ring of at least three members, stabilisation makes exactly one send per (stored key, replica) pair. */
  lemma PushAllCount(from: Address, ring: seq<Node>, keyHash: string -> nat, store: map<string, string>, order: seq<string>)
    requires Enumerates(order, store.Keys) && |ring| >= REPLICAS
    ensures |PushAll(from, ring, keyHash, store, order)| == REPLICAS * |store|
  {
    EnumeratesSize(order, store.Keys);
    assert |store| == |store.Keys|;
  }

  /** Pushing one more key appends that key's sends. */
  lemma PushAllSnoc(from: Address, ring: seq<Node>, keyHash: string -> nat, store: map<string, string>, order: seq<string>, key: string)
    requires forall k :: k in order ==> k in store
    requires key in store
    ensures PushAll(from, ring, keyHash, store, order + [key])
         == PushAll(from, ring, keyHash, store, order)
            + SendToAll(from, Replicas(ring, HashFunction(keyHash, key)), PushMessage(from, key, store[key]))
  {
    assert (order + [key])[..|order|] == order;
  }

  /** The parts of a node's state that handling inbound messages changes. */
  datatype Handled = Handled(
    store: LocalStore.Store, log: seq<LogEntry>, outbox: seq<Envelope>, pending: map<int, Transaction>)

  /** A served write: the store operation's result, its replica record, and a REPLY with the outcome to the sender. */
  function Written(address: Address, h: Handled, m: Message, kind: MessageType, r: (LocalStore.Store, bool)): Handled
  {
    h.(store := r.0,
       log := h.log + [LogEntry(kind, false, m.transID, r.1)],
       outbox := h.outbox + [Envelope(address, m.fromAddr, Reply(m.transID, address, r.1))])
  }

  /**
   * Handling one inbound message at `address`: a request is served from the local store,
   * recorded and answered to its sender under its transaction id; a reply goes to intake.
   */
  function Handle(address: Address, h: Handled, m: Message): (h': Handled)
    ensures IsClientOp(m.msgType) ==>
      && h'.pending == h.pending
      && |h'.log| == |h.log| + 1 && h'.log[..|h.log|] == h.log
      && h'.log[|h.log|].transID == m.transID && !h'.log[|h.log|].isCoordinator
      && |h'.outbox| == |h.outbox| + 1 && h'.outbox[..|h.outbox|] == h.outbox
      && h'.outbox[|h.outbox|].to == m.fromAddr && h'.outbox[|h.outbox|].msg.transID == m.transID
    ensures !IsClientOp(m.msgType) ==>
      h'.store == h.store && h'.log == h.log && h'.outbox == h.outbox && h'.pending.Keys == h.pending.Keys
  {
    match m.msgType
    case CREATE => Written(address, h, m, CREATE, LocalStore.Create(h.store, m.key, m.value))
    case UPDATE => Written(address, h, m, UPDATE, LocalStore.Update(h.store, m.key, m.value))
    case DELETE => Written(address, h, m, DELETE, LocalStore.Delete(h.store, m.key))
    case READ =>
      var v := LocalStore.Read(h.store, m.key);
      h.(log := h.log + [LogEntry(READ, false, m.transID, v != "")],
         outbox := h.outbox + [Envelope(address, m.fromAddr, ReadReply(m.transID, address, v))])
    case REPLY => h.(pending := IntakeReply(h.pending, m))
    case READREPLY => h.(pending := IntakeReadReply(h.pending, m))
  }

  /**
   * Handling a whole inbox in arrival order. Earlier records and sends are kept as a prefix,
   * and no transaction is added or removed.
   */
  function Drain(address: Address, h: Handled, inbox: seq<Message>): (d: Handled)
    ensures d.pending.Keys == h.pending.Keys
    ensures |h.log| <= |d.log| && d.log[..|h.log|] == h.log
    ensures |h.outbox| <= |d.outbox| && d.outbox[..|h.outbox|] == h.outbox
  {
    if inbox == [] then h
    else
      var prev := Drain(address, h, inbox[..|inbox| - 1]);
      var d := Handle(address, prev, inbox[|inbox| - 1]);
      assert d.log[..|h.log|] == prev.log[..|h.log|];
      assert d.outbox[..|h.outbox|] == prev.outbox[..|h.outbox|];
      d
  }

  /** Draining two inboxes one after the other is draining their concatenation. */
  lemma {:induction false} DrainAppend(address: Address, h: Handled, a: seq<Message>, b: seq<Message>)
    ensures Drain(address, h, a + b) == Drain(address, Drain(address, h, a), b)
  {
    if b == [] {
      assert a + b == a;
    } else {
      var init := b[..|b| - 1];
      assert (a + b)[..|a + b| - 1] == a + init;
      assert (a + b)[|a + b| - 1] == b[|b| - 1];
      DrainAppend(address, h, a, init);
    }
  }

  /** Draining keeps the pending table well formed. */
  lemma {:induction false} DrainKeepsWellFormed(address: Address, h: Handled, inbox: seq<Message>)
    requires WellFormed(h.pending)
    ensures WellFormed(Drain(address, h, inbox).pending)
  {
    if inbox != [] {
      var prev := Drain(address, h, inbox[..|inbox| - 1]);
      DrainKeepsWellFormed(address, h, inbox[..|inbox| - 1]);
      IntakeKeepsWellFormed(prev.pending, inbox[|inbox| - 1]);
    }
  }

  class MP2Node {
    /** This node's address. */
    const address: Address
    /** Hash code of a node address (computed by the node type; not part of this model). */
    const nodeHash: Address -> nat
    /** The library string hash applied to keys. */
    const keyHash: string -> nat

    /** Members sorted by hash code, this node included. */
    var ring: seq<Node>
    /** Pending transactions by id. */
    var pending: map<int, Transaction>
    /** The local shard. */
    var store: LocalStore.Store
    /** Every send so far, oldest first. */
    var outbox: seq<Envelope>
    /** Every audit record so far, oldest first. */
    var log: seq<LogEntry>
    /** The next transaction id to allocate. */
    var transID: int

    /** The ring is sorted, the pending table well formed, and every pending id allocated already. */
    ghost predicate Valid()
      reads this
    {
      && Sorted(ring)
      && WellFormed(pending)
      && transID >= 0
      && (forall id :: id in pending ==> 0 <= id < transID)
    }

    /** A fresh node: empty ring, no pending transactions, empty store; ids start at 0. */
    constructor (address: Address, nodeHash: Address -> nat, keyHash: string -> nat)
      ensures Valid()
      ensures this.address == address && this.nodeHash == nodeHash && this.keyHash == keyHash
      ensures ring == [] && pending == map[] && store == map[] && outbox == [] && log == [] && transID == 0
    {
      this.address := address;
      this.nodeHash := nodeHash;
      this.keyHash := keyHash;
      ring := [];
      pending := map[];
      store := map[];
      outbox := [];
      log := [];
      transID := 0;
    }

    /** The ring entry of an address. */
    function NodeOf(a: Address): Node
    {
      Node(a, nodeHash(a))
    }

    /** The ring entries of a list of addresses, in the same order. */
    function NodesOf(addrs: seq<Address>): (nodes: seq<Node>)
      ensures |nodes| == |addrs|
      ensures forall k :: 0 <= k < |addrs| ==> nodes[k] == NodeOf(addrs[k])
    {
      seq(|addrs|, k requires 0 <= k < |addrs| => NodeOf(addrs[k]))
    }

    /** The ring position of a key. */
    function Position(key: string): (pos: nat)
    {
      HashFunction(keyHash, key)
    }

    /**
     * Rebuilds the ring from the membership list plus this node, sorted by hash code, and runs
     * stabilisation when the ring size changed and the store holds keys.
     */
    method UpdateRing(members: seq<Address>) returns (ghost order: seq<string>)
      requires Valid()
      modifies this`ring, this`outbox
      ensures Valid()
      ensures ring == SortByHash(NodesOf(members + [address]))
      ensures multiset(ring) == multiset(NodesOf(members + [address])) && |ring| == |members| + 1
      ensures |ring| != |old(ring)| && |store| > 0 ==>
        Enumerates(order, store.Keys) && outbox == old(outbox) + PushAll(address, ring, keyHash, store, order)
      ensures !(|ring| != |old(ring)| && |store| > 0) ==> outbox == old(outbox)
    {
      var curMemList := NodesOf(members + [address]);
      var sorted := SortByHash(curMemList);
      assert |multiset(sorted)| == |multiset(curMemList)|;
      var change := |sorted| != |ring|;
      ring := sorted;
      order := [];
      if |store| > 0 && change {
        order := StabilizationProtocol();
      }
    }

    /** The replicas of a key on the current ring: the search loop of the lookup, proved against `Replicas`. */
    method FindNodes(key: string) returns (replicas: seq<Node>)
      ensures replicas == Replicas(ring, Position(key))
    {
      var pos := Position(key);
      var n := |ring|;
      replicas := [];
      if n >= REPLICAS {
        if pos <= ring[0].hashCode || pos > ring[n - 1].hashCode {
          assert PrimaryIndex(ring, pos) == 0 && 1 % n == 1 && 2 % n == 2;
          replicas := [ring[0], ring[1], ring[2]];
        } else {
          var i := 1;
          while i < n
            invariant 1 <= i <= n
            invariant forall j :: 1 <= j < i ==> ring[j].hashCode < pos
            invariant replicas == []
          {
            if pos <= ring[i].hashCode {
              assert PrimaryIndex(ring, pos) == i by {
                var k := FirstAtOrAbove(ring, pos, 1);
                assert !(k < i) && !(i < k);
              }
              replicas := [ring[i], ring[(i + 1) % n], ring[(i + 2) % n]];
              break;
            }
            i := i + 1;
          }
        }
      }
    }

    /** Allocation, sends and the new pending entry of one client operation. */
    twostate predicate Issued(kind: MessageType, key: string, value: string, now: int)
      reads this
    {
      var id, replicas := old(transID), Replicas(ring, Position(key));
      && transID == old(transID) + 1
      && (replicas == [] ==> pending == old(pending))
      && (replicas != [] ==> id !in old(pending) && pending == old(pending)[id := Open(id, now, kind, key, value)])
      && outbox == old(outbox) + SendToAll(address, replicas, Request(id, address, kind, key, value))
    }

    /**
     * A client operation: allocate the next transaction id, find the key's replicas, record
     * one transaction under the id (the first insertion wins) and send the request to each
     * replica in order.
     */
    method ClientRequest(kind: MessageType, key: string, value: string, now: int)
      requires Valid() && IsClientOp(kind)
      modifies this`transID, this`pending, this`outbox
      ensures Valid()
      ensures Issued(kind, key, value, now)
    {
      var id := transID;
      transID := transID + 1;
      var msg := Request(id, address, kind, key, value);
      var replicas := FindNodes(key);
      var entry := Open(id, now, kind, key, value);
      ghost var added := old(pending)[id := entry];
      assert id !in old(pending);
      OpenKeepsWellFormed(old(pending), entry);
      IdsBelowAfterOpen(old(pending), entry, added, transID);
      var i := 0;
      while i < |replicas|
        invariant 0 <= i <= |replicas|
        invariant transID == old(transID) + 1
        invariant i == 0 ==> pending == old(pending)
        invariant i > 0 ==> pending == added
        invariant outbox == old(outbox) + SendToAll(address, replicas[..i], msg)
      {
        if id !in pending {
          pending := pending[id := entry];
        }
        SendStep(old(outbox), outbox, address, replicas, i, msg);
        outbox := outbox + [Envelope(address, replicas[i].address, msg)];
        i := i + 1;
      }
      assert replicas[..i] == replicas;
    }

    method ClientCreate(key: string, value: string, now: int)
      requires Valid()
      modifies this`transID, this`pending, this`outbox
      ensures Valid()
      ensures Issued(CREATE, key, value, now)
    {
      ClientRequest(CREATE, key, value, now);
    }

    method ClientRead(key: string, now: int)
      requires Valid()
      modifies this`transID, this`pending, this`outbox
      ensures Valid()
      ensures Issued(READ, key, "", now)
    {
      ClientRequest(READ, key, "", now);
    }

    method ClientUpdate(key: string, value: string, now: int)
      requires Valid()
      modifies this`transID, this`pending, this`outbox
      ensures Valid()
      ensures Issued(UPDATE, key, value, now)
    {
      ClientRequest(UPDATE, key, value, now);
    }

    method ClientDelete(key: string, now: int)
      requires Valid()
      modifies this`transID, this`pending, this`outbox
      ensures Valid()
      ensures Issued(DELETE, key, "", now)
    {
      ClientRequest(DELETE, key, "", now);
    }

    /** Server side CREATE: insert into the local store and record the local outcome. */
    method CreateKeyValue(key: string, value: string, transId: int) returns (ok: bool)
      modifies this`store, this`log
      ensures (store, ok) == LocalStore.Create(old(store), key, value)
      ensures log == old(log) + [LogEntry(CREATE, false, transId, ok)]
    {
      var r := LocalStore.Create(store, key, value);
      store, ok := r.0, r.1;
      log := log + [LogEntry(CREATE, false, transId, ok)];
    }

    /** Server side READ: the stored value (empty on a miss), recorded as a success iff non-empty. */
    method ReadKey(key: string, transId: int) returns (value: string)
      modifies this`log
      ensures value == LocalStore.Read(store, key)
      ensures log == old(log) + [LogEntry(READ, false, transId, value != "")]
    {
      value := LocalStore.Read(store, key);
      var ok := value != "";
      log := log + [LogEntry(READ, false, transId, ok)];
    }

    /** Server side UPDATE: overwrite in the local store and record the local outcome. */
    method UpdateKeyValue(key: string, value: string, transId: int) returns (ok: bool)
      modifies this`store, this`log
      ensures (store, ok) == LocalStore.Update(old(store), key, value)
      ensures log == old(log) + [LogEntry(UPDATE, false, transId, ok)]
    {
      var r := LocalStore.Update(store, key, value);
      store, ok := r.0, r.1;
      log := log + [LogEntry(UPDATE, false, transId, ok)];
    }

    /** Server side DELETE: remove from the local store and record the local outcome. */
    method DeleteKey(key: string, transId: int) returns (ok: bool)
      modifies this`store, this`log
      ensures (store, ok) == LocalStore.Delete(old(store), key)
      ensures log == old(log) + [LogEntry(DELETE, false, transId, ok)]
    {
      var r := LocalStore.Delete(store, key);
      store, ok := r.0, r.1;
      log := log + [LogEntry(DELETE, false, transId, ok)];
    }

    /** The effect of serving a write: the store operation, its local record, and one REPLY to the sender with the request's id. */
    twostate predicate ServedWrite(m: Message, kind: MessageType, r: (LocalStore.Store, bool))
      reads this
    {
      && store == r.0
      && log == old(log) + [LogEntry(kind, false, m.transID, r.1)]
      && outbox == old(outbox) + [Envelope(address, m.fromAddr, Reply(m.transID, address, r.1))]
    }

    /** The effect of serving a read: the store is unchanged, and one READREPLY with the value goes to the sender. */
    twostate predicate ServedRead(m: Message)
      reads this
    {
      var v := LocalStore.Read(old(store), m.key);
      && store == old(store)
      && log == old(log) + [LogEntry(READ, false, m.transID, v != "")]
      && outbox == old(outbox) + [Envelope(address, m.fromAddr, ReadReply(m.transID, address, v))]
    }

    method HandleCreateMessage(m: Message)
      modifies this`store, this`log, this`outbox
      ensures ServedWrite(m, CREATE, LocalStore.Create(old(store), m.key, m.value))
    {
      var ok := CreateKeyValue(m.key, m.value, m.transID);
      outbox := outbox + [Envelope(address, m.fromAddr, Reply(m.transID, address, ok))];
    }

    method HandleReadMessage(m: Message)
      modifies this`log, this`outbox
      ensures ServedRead(m)
    {
      var content := ReadKey(m.key, m.transID);
      outbox := outbox + [Envelope(address, m.fromAddr, ReadReply(m.transID, address, content))];
    }

    method HandleUpdateMessage(m: Message)
      modifies this`store, this`log, this`outbox
      ensures ServedWrite(m, UPDATE, LocalStore.Update(old(store), m.key, m.value))
    {
      var ok := UpdateKeyValue(m.key, m.value, m.transID);
      outbox := outbox + [Envelope(address, m.fromAddr, Reply(m.transID, address, ok))];
    }

    method HandleDeleteMessage(m: Message)
      modifies this`store, this`log, this`outbox
      ensures ServedWrite(m, DELETE, LocalStore.Delete(old(store), m.key))
    {
      var ok := DeleteKey(m.key, m.transID);
      outbox := outbox + [Envelope(address, m.fromAddr, Reply(m.transID, address, ok))];
    }

    /** Coordinator intake of a REPLY. */
    method HandleReplyMessage(m: Message)
      requires Valid()
      modifies this`pending
      ensures Valid()
      ensures pending == IntakeReply(old(pending), m)
    {
      if m.transID !in pending {
        return;
      }
      var transaction := pending[m.transID];
      transaction := transaction.(replyCount := transaction.replyCount + 1);
      if m.success {
        transaction := transaction.(successCount := transaction.successCount + 1);
      }
      pending := pending[m.transID := transaction];
    }

    /** Coordinator intake of a READREPLY. */
    method HandleReadReplyMessage(m: Message)
      requires Valid()
      modifies this`pending
      ensures Valid()
      ensures pending == IntakeReadReply(old(pending), m)
    {
      if m.transID !in pending {
        return;
      }
      var transaction := pending[m.transID];
      transaction := transaction.(replyCount := transaction.replyCount + 1, value := m.value);
      if m.value != "" {
        transaction := transaction.(successCount := transaction.successCount + 1);
      }
      pending := pending[m.transID := transaction];
    }

    /** Routes one inbound message by its kind to the server handler or to reply intake. */
    method HandleMessage(m: Message)
      requires Valid()
      modifies this`store, this`log, this`outbox, this`pending
      ensures Valid()
      ensures Handled(store, log, outbox, pending) == Handle(address, Handled(old(store), old(log), old(outbox), old(pending)), m)
    {
      match m.msgType {
        case CREATE => HandleCreateMessage(m);
        case DELETE => HandleDeleteMessage(m);
        case READ => HandleReadMessage(m);
        case UPDATE => HandleUpdateMessage(m);
        case READREPLY => HandleReadReplyMessage(m);
        case REPLY => HandleReplyMessage(m);
      }
    }

    /** Appends the coordinator's record of a finalised transaction. */
    method LogOperationCoordinator(t: Transaction, success: bool)
      modifies this`log
      ensures log == old(log) + CoordinatorLog(t, success)
    {
      if t.msgType == CREATE {
        log := log + [LogEntry(CREATE, true, t.id, success)];
      }
      if t.msgType == READ {
        log := log + [LogEntry(READ, true, t.id, success)];
      }
      if t.msgType == UPDATE {
        log := log + [LogEntry(UPDATE, true, t.id, success)];
      }
      if t.msgType == DELETE {
        log := log + [LogEntry(DELETE, true, t.id, success)];
      }
    }

    /** Removes a transaction from the pending table. */
    method DeleteTransaction(id: int)
      modifies this`pending
      ensures pending == old(pending) - {id}
    {
      pending := pending - {id};
    }

    /**
     * The quorum sweep at time `now`: every pending transaction is examined once, in ascending
     * id order; a decided one is logged by the coordinator with its outcome and removed.
     */
    method AnalyzeQuorumConsistency(now: int)
      requires Valid()
      modifies this`pending, this`log
      ensures Valid()
      ensures pending == Survivors(old(pending), now)
      ensures |log| >= |old(log)| && log[..|old(log)|] == old(log)
      ensures SweepLogged(old(pending), now, log[|old(log)|..], {})
    {
      ghost var start := pending;
      ghost var entries: seq<LogEntry> := [];
      var unexamined := pending.Keys;
      RemainingEnds(start, now);
      while unexamined != {}
        invariant unexamined <= start.Keys
        invariant pending == Remaining(start, now, unexamined)
        invariant log == old(log) + entries
        invariant SweepLogged(start, now, entries, unexamined)
        decreases unexamined
      {
        var id := MinKey(unexamined);
        var transaction := pending[id];
        var verdict := Decide(transaction, now);
        SweepStep(start, now, entries, unexamined, id);
        RemainingStep(start, now, unexamined, id);
        ghost var examined := ExamineLog(transaction, now);
        AppendAssoc(old(log), entries, examined);
        if verdict != Undecided {
          assert examined == CoordinatorLog(transaction, verdict == Succeeded);
          LogOperationCoordinator(transaction, verdict == Succeeded);
          DeleteTransaction(id);
        }
        entries := entries + examined;
        unexamined := unexamined - {id};
      }
      assert log[|old(log)|..] == entries;
    }

    /**
     * One tick: handle every inbound message in arrival order, then run the quorum sweep.
     * Afterwards no transaction is new and none left pending is decided at `now`.
     */
    method CheckMessages(inbox: seq<Message>, now: int)
      requires Valid()
      modifies this`store, this`log, this`outbox, this`pending
      ensures Valid()
      ensures var d := Drain(address, Handled(old(store), old(log), old(outbox), old(pending)), inbox);
        && store == d.store && outbox == d.outbox
        && pending == Survivors(d.pending, now)
        && |log| >= |d.log| && log[..|d.log|] == d.log
        && SweepLogged(d.pending, now, log[|d.log|..], {})
      ensures pending.Keys <= old(pending).Keys
      ensures forall id :: id in pending ==> Decide(pending[id], now) == Undecided
    {
      ghost var start := Handled(store, log, outbox, pending);
      var i := 0;
      while i < |inbox|
        invariant 0 <= i <= |inbox|
        invariant Valid()
        invariant Handled(store, log, outbox, pending) == Drain(address, start, inbox[..i])
      {
        HandleMessage(inbox[i]);
        assert inbox[..i + 1][..i] == inbox[..i];
        i := i + 1;
      }
      assert inbox[..i] == inbox;
      AnalyzeQuorumConsistency(now);
    }

    /** Sends the stabilisation CREATE of one stored key to each of its replicas, in replica order. */
    method PushKey(key: string)
      requires key in store
      modifies this`outbox
      ensures outbox == old(outbox) + SendToAll(address, Replicas(ring, Position(key)), PushMessage(address, key, store[key]))
    {
      var value := store[key];
      var replicas := FindNodes(key);
      var msg := PushMessage(address, key, value);
      var i := 0;
      while i < |replicas|
        invariant 0 <= i <= |replicas|
        invariant outbox == old(outbox) + SendToAll(address, replicas[..i], msg)
      {
        SendStep(old(outbox), outbox, address, replicas, i, msg);
        outbox := outbox + [Envelope(address, replicas[i].address, msg)];
        i := i + 1;
      }
      assert replicas[..i] == replicas;
    }

    /**
     * Re-sends every stored key with its value to each of its replicas on the current ring, as a
     * CREATE without transaction; the store itself is left unchanged.
     */
    method StabilizationProtocol() returns (ghost order: seq<string>)
      modifies this`outbox
      ensures Enumerates(order, store.Keys)
      ensures outbox == old(outbox) + PushAll(address, ring, keyHash, store, order)
    {
      var rest := store.Keys;
      order := [];
      while rest != {}
        invariant rest <= store.Keys
        invariant forall k :: k in order <==> k in store && k !in rest
        invariant forall a, b :: 0 <= a < b < |order| ==> order[a] != order[b]
        invariant outbox == old(outbox) + PushAll(address, ring, keyHash, store, order)
        decreases rest
      {
        var key := AnyOf(rest);
        ghost var before := outbox;
        PushKey(key);
        PushStep(old(outbox), before, address, ring, keyHash, store, order, key);
        EnumerateStep(order, rest, store.Keys, key);
        order := order + [key];
        rest := rest - {key};
      }
    }
  }
}
