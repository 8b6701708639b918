/**
 * Consistent-hash ring of one MP2Node: node identities, the hash of a key onto the
 * ring, the ring's sort order, and the choice of the three replicas of a key.
 */
module Ring {

  /** Number of positions of the hash space; its value lives in a header that is not part of this model. */
  const RING_SIZE: nat := 512

  /** Number of replicas of every key. */
  const REPLICAS: nat := 3

  /** A node address (a member's id and port). */
  datatype Address = Address(id: int, port: int)

  /** A ring member: its address and the hash code of that address. */
  datatype Node = Node(address: Address, hashCode: nat)

  /** Position of a key on the ring: the library hash of the key reduced modulo RING_SIZE. */
  function HashFunction(stdHash: string -> nat, key: string): (pos: nat)
    ensures pos < RING_SIZE
    ensures stdHash(key) < RING_SIZE ==> pos == stdHash(key)
  {
    stdHash(key) % RING_SIZE
  }

  /** The ring order: hash codes never decrease along the sequence. */
  ghost predicate Sorted(ring: seq<Node>)
  {
    forall i, j :: 0 <= i < j < |ring| ==> ring[i].hashCode <= ring[j].hashCode
  }

  /** Prepending a member whose hash is at most every hash of a sorted ring keeps it sorted. */
  lemma SortedCons(n: Node, ring: seq<Node>)
    requires Sorted(ring)
    requires forall k :: 0 <= k < |ring| ==> n.hashCode <= ring[k].hashCode
    ensures Sorted([n] + ring)
  {
    var r := [n] + ring;
    forall i, j | 0 <= i < j < |r|
      ensures r[i].hashCode <= r[j].hashCode
    {
      assert r[j] == ring[j - 1];
      if i > 0 {
        assert r[i] == ring[i - 1];
      }
    }
  }

  /** A lower bound on every hash code of a sequence holds for any rearrangement of it. */
  lemma BoundByMultiset(b: int, s: seq<Node>, t: seq<Node>)
    requires multiset(t) == multiset(s)
    requires forall k :: 0 <= k < |s| ==> b <= s[k].hashCode
    ensures forall k :: 0 <= k < |t| ==> b <= t[k].hashCode
  {
    forall k | 0 <= k < |t|
      ensures b <= t[k].hashCode
    {
      assert t[k] in multiset(s);
      var j :| 0 <= j < |s| && s[j] == t[k];
    }
  }

  /** Putting the head of a sorted ring back in front of the ring's tail with `n` inserted gives a sorted ring holding `n` as well. */
  lemma InsertBehindHead(n: Node, ring: seq<Node>, tail: seq<Node>)
    requires Sorted(ring) && ring != [] && ring[0].hashCode < n.hashCode
    requires Sorted(tail) && multiset(tail) == multiset(ring[1..]) + multiset{n}
    ensures Sorted([ring[0]] + tail)
    ensures multiset([ring[0]] + tail) == multiset(ring) + multiset{n}
  {
    assert ring == [ring[0]] + ring[1..];
    var members := ring[1..] + [n];
    assert multiset(members) == multiset(ring[1..]) + multiset{n};
    forall k | 0 <= k < |members|
      ensures ring[0].hashCode <= members[k].hashCode
    {
      if k < |ring| - 1 {
        assert members[k] == ring[k + 1];
      }
    }
    BoundByMultiset(ring[0].hashCode, members, tail);
    SortedCons(ring[0], tail);
    assert multiset([ring[0]] + tail) == multiset{ring[0]} + multiset(tail);
  }

  /** Inserts `n` into a ring sorted by hash code, before the first member whose hash is not smaller. */
  function InsertByHash(n: Node, ring: seq<Node>): (r: seq<Node>)
    requires Sorted(ring)
    ensures Sorted(r)
    ensures multiset(r) == multiset(ring) + multiset{n}
  {
    if ring == [] || n.hashCode <= ring[0].hashCode then
      assert forall k :: 0 <= k < |ring| ==> ring[0].hashCode <= ring[k].hashCode;
      SortedCons(n, ring);
      [n] + ring
    else
      var tail := InsertByHash(n, ring[1..]);
      InsertBehindHead(n, ring, tail);
      [ring[0]] + tail
  }

  /** Sorts a list of nodes by hash code (the sort of the membership list). */
  function SortByHash(nodes: seq<Node>): (r: seq<Node>)
    ensures Sorted(r)
    ensures multiset(r) == multiset(nodes)
  {
    if nodes == [] then []
    else
      assert nodes == [nodes[0]] + nodes[1..];
      InsertByHash(nodes[0], SortByHash(nodes[1..]))
  }

  /**
   * The search loop of the replica lookup: the first index at or after `i` whose hash code
   * is at least `pos`. The search always succeeds when the last member's hash is at least `pos`.
   */
  function FirstAtOrAbove(ring: seq<Node>, pos: nat, i: nat): (k: nat)
    requires i < |ring| && pos <= ring[|ring| - 1].hashCode
    ensures i <= k < |ring| && pos <= ring[k].hashCode
    ensures forall j :: i <= j < k ==> ring[j].hashCode < pos
    decreases |ring| - i
  {
    if pos <= ring[i].hashCode then i else FirstAtOrAbove(ring, pos, i + 1)
  }

  /**
   * Index of the primary replica of position `pos`: member 0 when `pos` wraps around
   * (at or below the smallest hash, or above the largest), otherwise the first member
   * from index 1 on whose hash is at least `pos`.
   */
  function PrimaryIndex(ring: seq<Node>, pos: nat): (i: nat)
    requires |ring| >= REPLICAS
    ensures i < |ring|
    ensures (pos <= ring[0].hashCode || pos > ring[|ring| - 1].hashCode) <==> i == 0
  {
    if pos <= ring[0].hashCode || pos > ring[|ring| - 1].hashCode then 0
    else FirstAtOrAbove(ring, pos, 1)
  }

  /** The ordered replica set of position `pos`: the primary and its two successors on the ring. */
  function Replicas(ring: seq<Node>, pos: nat): (r: seq<Node>)
    ensures |ring| < REPLICAS <==> r == []
    ensures |ring| >= REPLICAS ==> |r| == REPLICAS
    ensures forall k :: 0 <= k < |r| ==> r[k] in ring
  {
    if |ring| < REPLICAS then []
    else
      var i, n := PrimaryIndex(ring, pos), |ring|;
      [ring[i], ring[(i + 1) % n], ring[(i + 2) % n]]
  }

  /** `i` is the successor of `pos`: the first member whose hash is at least `pos`, or member 0 if there is none. */
  ghost predicate IsSuccessor(ring: seq<Node>, pos: nat, i: nat)
  {
    && i < |ring|
    && if exists j :: 0 <= j < |ring| && pos <= ring[j].hashCode
       then pos <= ring[i].hashCode && forall j :: 0 <= j < i ==> ring[j].hashCode < pos
       else i == 0
  }

  /** On a sorted ring the primary replica is the successor of the key's position. */
  lemma PrimaryIsSuccessor(ring: seq<Node>, pos: nat)
    requires |ring| >= REPLICAS && Sorted(ring)
    ensures IsSuccessor(ring, pos, PrimaryIndex(ring, pos))
    ensures Replicas(ring, pos)[0] == ring[PrimaryIndex(ring, pos)]
  {
    var n := |ring|;
    if pos > ring[n - 1].hashCode {
      forall j | 0 <= j < n
        ensures ring[j].hashCode < pos
      {
        assert ring[j].hashCode <= ring[n - 1].hashCode;
      }
    } else {
      assert pos <= ring[n - 1].hashCode;
    }
  }

  /** An index below the ring size is its own remainder. */
  lemma ModBelow(a: int, n: int)
    requires 0 <= a < n
    ensures a % n == a
  {
  }

  /** An index that passed the end by less than the ring size wraps to its distance past the end. */
  lemma ModWrap(a: int, n: int)
    requires 0 < n <= a < 2 * n
    ensures a % n == a - n
  {
    assert a == n + (a - n);
  }

  /** The three replicas sit at three distinct ring indices, consecutive modulo the ring size. */
  lemma {:induction false} ReplicaIndicesDistinct(ring: seq<Node>, pos: nat)
    requires |ring| >= REPLICAS
    ensures var i, n := PrimaryIndex(ring, pos), |ring|;
      && Replicas(ring, pos) == [ring[i], ring[(i + 1) % n], ring[(i + 2) % n]]
      && (i + 1) % n == (if i + 1 < n then i + 1 else 0)
      && (i + 2) % n == (if i + 2 < n then i + 2 else i + 2 - n)
      && i != (i + 1) % n && i != (i + 2) % n && (i + 1) % n != (i + 2) % n
  {
    var i, n := PrimaryIndex(ring, pos), |ring|;
    if i + 1 < n {
      ModBelow(i + 1, n);
    } else {
      ModWrap(i + 1, n);
    }
    if i + 2 < n {
      ModBelow(i + 2, n);
    } else {
      ModWrap(i + 2, n);
    }
  }

  /** A ring without repeated members yields three distinct replicas. */
  lemma ReplicasDistinct(ring: seq<Node>, pos: nat)
    requires |ring| >= REPLICAS
    requires forall a, b :: 0 <= a < b < |ring| ==> ring[a] != ring[b]
    ensures var r := Replicas(ring, pos); r[0] != r[1] && r[0] != r[2] && r[1] != r[2]
  {
    ReplicaIndicesDistinct(ring, pos);
    var i, n := PrimaryIndex(ring, pos), |ring|;
    var a, b, c := i, (i + 1) % n, (i + 2) % n;
    assert ring[a] != ring[b] by {
      if a < b { } else { assert b < a; }
    }
    assert ring[a] != ring[c] by {
      if a < c { } else { assert c < a; }
    }
    assert ring[b] != ring[c] by {
      if b < c { } else { assert c < b; }
    }
  }
}
