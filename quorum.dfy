/**
 * The coordinator's pending transactions: how replies update their counters, the
 * literal decision rule of the quorum sweep, and what the sweep logs.
 */
module Quorum {
  import opened Messages

  /** Replies expected per transaction (one per replica). */
  const EXPECTED_REPLIES: int := 3

  /** Successful replies needed for a quorum. */
  const QUORUM: int := 2

  /** Age, in logical time units, beyond which a pending transaction fails. */
  const TIMEOUT: int := 10

  /** One pending client operation; both counters start at 0. */
  datatype Transaction = Transaction(
    id: int, timestamp: int, msgType: MessageType, key: string, value: string,
    replyCount: int, successCount: int)

  /** A transaction as a client operation opens it. */
  function Open(id: int, timestamp: int, kind: MessageType, key: string, value: string): (t: Transaction)
    ensures t.id == id && t.timestamp == timestamp && t.msgType == kind && t.key == key && t.value == value
    ensures t.replyCount == 0 && t.successCount == 0
  {
    Transaction(id, timestamp, kind, key, value, 0, 0)
  }

  /** A freshly opened client transaction is a well-formed pending entry that no sweep at its own start time decides. */
  lemma OpenIsPending(id: int, timestamp: int, kind: MessageType, key: string, value: string)
    requires IsClientOp(kind)
    ensures WellFormed(map[id := Open(id, timestamp, kind, key, value)])
    ensures Decide(Open(id, timestamp, kind, key, value), timestamp) == Undecided
  {
  }

  /** The pending table is keyed by transaction id, holds client operations only, and 0 <= S <= R. */
  ghost predicate WellFormed(pending: map<int, Transaction>)
  {
    forall id :: id in pending ==>
      && pending[id].id == id
      && IsClientOp(pending[id].msgType)
      && 0 <= pending[id].successCount <= pending[id].replyCount
  }

  /** Reply intake for a REPLY: unknown ids are ignored; otherwise one more reply, and one more success iff the flag is set. */
  function IntakeReply(pending: map<int, Transaction>, m: Message): (p: map<int, Transaction>)
    ensures m.transID !in pending ==> p == pending
    ensures p.Keys == pending.Keys
    ensures forall id :: id in pending && id != m.transID ==> p[id] == pending[id]
    ensures m.transID in pending ==>
      var t, t' := pending[m.transID], p[m.transID];
      && t'.replyCount == t.replyCount + 1
      && t'.successCount == t.successCount + (if m.success then 1 else 0)
      && t'.(replyCount := 0, successCount := 0) == t.(replyCount := 0, successCount := 0)
  {
    if m.transID !in pending then pending
    else
      var t := pending[m.transID];
      pending[m.transID := t.(replyCount := t.replyCount + 1,
                              successCount := t.successCount + if m.success then 1 else 0)]
  }

  /**
   * Reply intake for a READREPLY: unknown ids are ignored; otherwise one more reply, the
   * returned value replaces the stored one, and one more success iff that value is non-empty.
   */
  function IntakeReadReply(pending: map<int, Transaction>, m: Message): (p: map<int, Transaction>)
    ensures m.transID !in pending ==> p == pending
    ensures p.Keys == pending.Keys
    ensures forall id :: id in pending && id != m.transID ==> p[id] == pending[id]
    ensures m.transID in pending ==>
      var t, t' := pending[m.transID], p[m.transID];
      && t'.replyCount == t.replyCount + 1
      && t'.successCount == t.successCount + (if m.value != "" then 1 else 0)
      && t'.value == m.value
      && t'.(replyCount := 0, successCount := 0, value := "") == t.(replyCount := 0, successCount := 0, value := "")
  {
    if m.transID !in pending then pending
    else
      var t := pending[m.transID];
      pending[m.transID := t.(replyCount := t.replyCount + 1,
                              value := m.value,
                              successCount := t.successCount + if m.value != "" then 1 else 0)]
  }

  /** Opening a client operation under a fresh id keeps the pending table well formed. */
  lemma OpenKeepsWellFormed(pending: map<int, Transaction>, t: Transaction)
    requires WellFormed(pending) && t.id !in pending
    requires IsClientOp(t.msgType) && t.replyCount == 0 && t.successCount == 0
    ensures WellFormed(pending[t.id := t])
  {
  }

  /** Opening a transaction under the newest id keeps every id of the table below the next one to allocate. */
  lemma IdsBelowAfterOpen(pending: map<int, Transaction>, t: Transaction, added: map<int, Transaction>, next: int)
    requires t.id >= 0 && next == t.id + 1 && added == pending[t.id := t]
    requires forall x :: x in pending ==> 0 <= x < t.id
    ensures forall x :: x in added ==> 0 <= x < next
  {
  }

  /** Reply intake keeps the pending table well formed. */
  lemma IntakeKeepsWellFormed(pending: map<int, Transaction>, m: Message)
    requires WellFormed(pending)
    ensures WellFormed(IntakeReply(pending, m))
    ensures WellFormed(IntakeReadReply(pending, m))
  {
  }

  datatype Verdict = Succeeded | Failed | Undecided

  /** The decision rule of one sweep, branch by branch as the coordinator evaluates it. */
  function Decide(t: Transaction, now: int): (v: Verdict)
    ensures v == Succeeded ==> t.successCount >= QUORUM
    ensures v == Failed ==> t.successCount < QUORUM || t.replyCount - t.successCount == 2 || now - t.timestamp > TIMEOUT
    ensures v == Undecided ==> t.replyCount != EXPECTED_REPLIES && t.successCount != QUORUM && t.replyCount - t.successCount != 2 && now - t.timestamp <= TIMEOUT
  {
    var r, s := t.replyCount, t.successCount;
    if r == EXPECTED_REPLIES && s > 1 then Succeeded
    else if r != EXPECTED_REPLIES && s == QUORUM then Succeeded
    else if r == EXPECTED_REPLIES && s < 2 then Failed
    else if r - s == 2 then Failed
    else if now - t.timestamp > TIMEOUT then Failed
    else Undecided
  }

  /** The five branches, summed up: which counter states succeed, which fail, which stay pending. */
  lemma DecideCases(t: Transaction, now: int)
    ensures var r, s := t.replyCount, t.successCount;
      && (Decide(t, now) == Succeeded <==> (r == 3 && s > 1) || (r != 3 && s == 2))
      && (Decide(t, now) == Failed <==>
            !((r == 3 && s > 1) || (r != 3 && s == 2)) && (r == 3 || r - s == 2 || now - t.timestamp > 10))
  {
  }

  /**
   * The quorum rule stated by thresholds alone: success once S >= 2, failure once
   * two replies were failures, failure on timeout, otherwise pending.
   */
  function ThresholdVerdict(t: Transaction, now: int): (v: Verdict)
  {
    if t.successCount >= QUORUM then Succeeded
    else if t.replyCount - t.successCount >= EXPECTED_REPLIES - QUORUM + 1 then Failed
    else if now - t.timestamp > TIMEOUT then Failed
    else Undecided
  }

  /** As long as no more than three replies were counted, the literal branches decide exactly as the threshold rule. */
  lemma DecideAgreesWithThreshold(t: Transaction, now: int)
    requires 0 <= t.successCount <= t.replyCount <= EXPECTED_REPLIES
    ensures Decide(t, now) == ThresholdVerdict(t, now)
  {
  }

  /** Duplicate replies that push R past 3 with S > 2 leave a transaction pending although a quorum succeeded. */
  lemma DuplicateRepliesDelaySuccess(t: Transaction, now: int)
    requires t.replyCount > EXPECTED_REPLIES && t.successCount > QUORUM
    requires t.replyCount - t.successCount != 2 && now - t.timestamp <= TIMEOUT
    ensures ThresholdVerdict(t, now) == Succeeded
    ensures Decide(t, now) == Undecided
    ensures Decide(t, t.timestamp + TIMEOUT + 1) == Failed
  {
  }

  /** Duplicate replies that push R past 3 with exactly two failures fail a transaction that reached a quorum. */
  lemma DuplicateRepliesFailQuorum(t: Transaction, now: int)
    requires t.replyCount > EXPECTED_REPLIES && t.successCount > QUORUM
    requires t.replyCount - t.successCount == 2
    ensures ThresholdVerdict(t, now) == Succeeded
    ensures Decide(t, now) == Failed
  {
  }

  /** A transaction short of replies and of successes fails once it is older than the timeout. */
  lemma TimeoutFails(t: Transaction, now: int)
    requires 0 <= t.successCount <= t.replyCount < EXPECTED_REPLIES && t.successCount < QUORUM
    requires now - t.timestamp > TIMEOUT
    ensures Decide(t, now) == Failed
  {
  }

  /** The transactions a sweep at time `now` keeps: those still undecided, unchanged. */
  function Survivors(pending: map<int, Transaction>, now: int): (p: map<int, Transaction>)
    ensures p.Keys <= pending.Keys
    ensures forall id :: id in pending ==> (id in p <==> Decide(pending[id], now) == Undecided)
    ensures forall id :: id in p ==> p[id] == pending[id]
  {
    map id | id in pending && Decide(pending[id], now) == Undecided :: pending[id]
  }

  /** The pending table partway through a sweep: the ids still to examine, and the examined ones still undecided. */
  function Remaining(pending: map<int, Transaction>, now: int, unexamined: set<int>): (p: map<int, Transaction>)
    ensures p.Keys <= pending.Keys
    ensures forall id :: id in pending ==> (id in p <==> id in unexamined || Decide(pending[id], now) == Undecided)
    ensures forall id :: id in p ==> p[id] == pending[id]
  {
    map id | id in pending && (id in unexamined || Decide(pending[id], now) == Undecided) :: pending[id]
  }

  /** Before any examination the sweep has dropped nothing; after all of them only the survivors remain. */
  lemma RemainingEnds(pending: map<int, Transaction>, now: int)
    ensures Remaining(pending, now, pending.Keys) == pending
    ensures Remaining(pending, now, {}) == Survivors(pending, now)
  {
  }

  /** Examining one more id drops it from the table exactly when it is decided. */
  lemma RemainingStep(pending: map<int, Transaction>, now: int, unexamined: set<int>, id: int)
    requires id in unexamined && unexamined <= pending.Keys
    ensures Remaining(pending, now, unexamined - {id}) ==
      if Decide(pending[id], now) == Undecided then Remaining(pending, now, unexamined)
      else Remaining(pending, now, unexamined) - {id}
  {
  }

  /** The record the coordinator writes for a finalised transaction; nothing for a kind it does not log. */
  function CoordinatorLog(t: Transaction, success: bool): (entries: seq<LogEntry>)
    ensures IsClientOp(t.msgType) <==> |entries| == 1
    ensures forall e :: e in entries ==> e == LogEntry(t.msgType, true, t.id, success)
  {
    if IsClientOp(t.msgType) then [LogEntry(t.msgType, true, t.id, success)] else []
  }

  /** The sweep finalises transaction `id`: it is pending and its verdict is not Undecided. */
  ghost predicate Finalised(pending: map<int, Transaction>, now: int, id: int)
  {
    id in pending && Decide(pending[id], now) != Undecided
  }

  /** The coordinator record of pending transaction `id` at time `now`. */
  function CoordinatorEntry(pending: map<int, Transaction>, now: int, id: int): LogEntry
    requires id in pending
  {
    LogEntry(pending[id].msgType, true, id, Decide(pending[id], now) == Succeeded)
  }

  /** Every record is the coordinator record of a finalised, already examined transaction. */
  ghost predicate RecordsFinalised(pending: map<int, Transaction>, now: int, entries: seq<LogEntry>, unexamined: set<int>)
  {
    forall k :: 0 <= k < |entries| ==>
      && Finalised(pending, now, entries[k].transID)
      && entries[k].transID !in unexamined
      && entries[k] == CoordinatorEntry(pending, now, entries[k].transID)
  }

  /** Records come in strictly ascending id order. */
  ghost predicate Ascending(entries: seq<LogEntry>)
  {
    forall k, l :: 0 <= k < l < |entries| ==> entries[k].transID < entries[l].transID
  }

  /** Every record's id lies below every id still to examine. */
  ghost predicate Below(entries: seq<LogEntry>, unexamined: set<int>)
  {
    forall k, id :: 0 <= k < |entries| && id in unexamined ==> entries[k].transID < id
  }

  /** Every finalised, already examined transaction has a record. */
  ghost predicate Covers(pending: map<int, Transaction>, now: int, entries: seq<LogEntry>, unexamined: set<int>)
  {
    forall id :: Finalised(pending, now, id) && id !in unexamined ==>
      exists k :: 0 <= k < |entries| && entries[k].transID == id
  }

  /**
   * `entries` is what a sweep at `now` over `pending` has logged once the ids in `unexamined`
   * are all that is left: one coordinator record per finalised, examined transaction, with its
   * outcome, in ascending id order, all below the ids still to examine.
   */
  ghost predicate SweepLogged(pending: map<int, Transaction>, now: int, entries: seq<LogEntry>, unexamined: set<int>)
  {
    && RecordsFinalised(pending, now, entries, unexamined)
    && Ascending(entries)
    && Below(entries, unexamined)
    && Covers(pending, now, entries, unexamined)
  }

  /** What the sweep logs when it examines a transaction: one coordinator record if it is decided, nothing otherwise. */
  function ExamineLog(t: Transaction, now: int): seq<LogEntry>
  {
    if Decide(t, now) == Undecided then [] else CoordinatorLog(t, Decide(t, now) == Succeeded)
  }

  /** Examining the smallest unexamined id extends a sweep log correctly. */
  lemma {:induction false} SweepStep(
    pending: map<int, Transaction>, now: int, entries: seq<LogEntry>, unexamined: set<int>, id: int)
    requires WellFormed(pending) && unexamined <= pending.Keys
    requires SweepLogged(pending, now, entries, unexamined)
    requires id in unexamined && forall x :: x in unexamined ==> id <= x
    ensures SweepLogged(pending, now, entries + ExamineLog(pending[id], now), unexamined - {id})
  {
    var rest := unexamined - {id};
    if Finalised(pending, now, id) {
      var e := CoordinatorEntry(pending, now, id);
      assert ExamineLog(pending[id], now) == [e];
      var entries' := entries + [e];
      assert entries'[|entries|] == e;
      assert RecordsFinalised(pending, now, entries', rest) by {
        forall k | 0 <= k < |entries'|
          ensures Finalised(pending, now, entries'[k].transID) && entries'[k].transID !in rest
          ensures entries'[k] == CoordinatorEntry(pending, now, entries'[k].transID)
        {
          if k < |entries| {
            assert entries'[k] == entries[k];
          }
        }
      }
      assert Ascending(entries') by {
        forall k, l | 0 <= k < l < |entries'|
          ensures entries'[k].transID < entries'[l].transID
        {
          assert entries'[k] == entries[k];
          if l < |entries| {
            assert entries'[l] == entries[l];
          }
        }
      }
      assert Below(entries', rest) by {
        forall k, x | 0 <= k < |entries'| && x in rest
          ensures entries'[k].transID < x
        {
          if k < |entries| {
            assert entries'[k] == entries[k];
          }
        }
      }
      assert Covers(pending, now, entries', rest) by {
        forall id' | Finalised(pending, now, id') && id' !in rest
          ensures exists k :: 0 <= k < |entries'| && entries'[k].transID == id'
        {
          if id' != id {
            var k :| 0 <= k < |entries| && entries[k].transID == id';
            assert entries'[k].transID == id';
          } else {
            assert entries'[|entries|].transID == id';
          }
        }
      }
    } else {
      assert ExamineLog(pending[id], now) == [];
      assert entries + [] == entries;
      assert Covers(pending, now, entries, rest) by {
        forall id' | Finalised(pending, now, id') && id' !in rest
          ensures exists k :: 0 <= k < |entries| && entries[k].transID == id'
        {
          assert id' != id;
        }
      }
    }
  }

  /** A complete sweep log names every finalised transaction exactly once. */
  lemma {:induction false} SweepLogCountsFinalised(pending: map<int, Transaction>, now: int, entries: seq<LogEntry>)
    requires SweepLogged(pending, now, entries, {})
    ensures forall k, l :: 0 <= k < |entries| && 0 <= l < |entries| && entries[k].transID == entries[l].transID ==> k == l
    ensures |entries| == |pending.Keys - Survivors(pending, now).Keys|
  {
    var ids := set k | 0 <= k < |entries| :: entries[k].transID;
    var gone := pending.Keys - Survivors(pending, now).Keys;
    forall id | id in gone
      ensures id in ids
    {
      assert Finalised(pending, now, id);
      var k :| 0 <= k < |entries| && entries[k].transID == id;
    }
    forall id | id in ids
      ensures id in gone
    {
      var k :| 0 <= k < |entries| && entries[k].transID == id;
      assert Finalised(pending, now, id);
    }
    assert ids == gone;
    IdsOfIncreasing(entries);
  }

  /** Strictly increasing ids are as many as the entries. */
  lemma {:induction false} IdsOfIncreasing(entries: seq<LogEntry>)
    requires forall k, l :: 0 <= k < l < |entries| ==> entries[k].transID < entries[l].transID
    ensures |set k | 0 <= k < |entries| :: entries[k].transID| == |entries|
  {
    if entries != [] {
      var init := entries[..|entries| - 1];
      IdsOfIncreasing(init);
      var last := entries[|entries| - 1].transID;
      var ids := set k | 0 <= k < |entries| :: entries[k].transID;
      var initIds := set k | 0 <= k < |init| :: init[k].transID;
      forall x | x in ids
        ensures x in initIds + {last}
      {
        var k :| 0 <= k < |entries| && entries[k].transID == x;
        if k < |init| {
          assert init[k] == entries[k];
        }
      }
      forall x | x in initIds
        ensures x in ids && x < last
      {
        var k :| 0 <= k < |init| && init[k].transID == x;
        assert entries[k] == init[k];
      }
      assert entries[|entries| - 1].transID == last;
      assert ids == initIds + {last};
    }
  }

  /** Scenario: a fresh transaction that receives two successful REPLYs is decided a success. */
  lemma TwoSuccessesSucceed(t: Transaction, m1: Message, m2: Message, now: int)
    requires t.replyCount == 0 && t.successCount == 0
    requires m1.transID == t.id && m2.transID == t.id && m1.success && m2.success
    ensures var p := IntakeReply(IntakeReply(map[t.id := t], m1), m2);
      t.id in p && Decide(p[t.id], now) == Succeeded
  {
  }

  /** Scenario: a fresh transaction that receives two failed REPLYs is decided a failure. */
  lemma TwoFailuresFail(t: Transaction, m1: Message, m2: Message, now: int)
    requires t.replyCount == 0 && t.successCount == 0
    requires m1.transID == t.id && m2.transID == t.id && !m1.success && !m2.success
    ensures var p := IntakeReply(IntakeReply(map[t.id := t], m1), m2);
      t.id in p && Decide(p[t.id], now) == Failed
  {
  }
}
