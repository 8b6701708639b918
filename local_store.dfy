/**
 * The node's local key/value shard (the HashTable collaborator). Its code is not part of
 * this model; these functions state the semantics the replication engine relies on:
 * create refuses a key that is already present, read answers the empty string for a
 * missing key, update and delete refuse a missing key.
 */
module LocalStore {

  type Store = map<string, string>

  /** Inserts `key` unless it is present; the flag says whether it was inserted. */
  function Create(s: Store, key: string, value: string): (r: (Store, bool))
    ensures r.1 <==> key !in s
    ensures r.0.Keys == s.Keys + {key} && r.0[key] == if r.1 then value else s[key]
    ensures forall k :: k in s && k != key ==> r.0[k] == s[k]
  {
    if key in s then (s, false) else (s[key := value], true)
  }

  /** The stored value, or the empty string when the key is absent. */
  function Read(s: Store, key: string): (v: string)
    ensures key !in s ==> v == ""
    ensures key in s ==> v == s[key]
  {
    if key in s then s[key] else ""
  }

  /** Overwrites the value of a present key; the flag says whether the key was present. */
  function Update(s: Store, key: string, value: string): (r: (Store, bool))
    ensures r.1 <==> key in s
    ensures r.0.Keys == s.Keys
    ensures r.1 ==> r.0[key] == value
    ensures forall k :: k in s && k != key ==> r.0[k] == s[k]
  {
    if key in s then (s[key := value], true) else (s, false)
  }

  /** Removes a present key; the flag says whether the key was present. */
  function Delete(s: Store, key: string): (r: (Store, bool))
    ensures r.1 <==> key in s
    ensures r.0.Keys == s.Keys - {key}
    ensures forall k :: k in r.0 ==> r.0[k] == s[k]
  {
    if key in s then (s - {key}, true) else (s, false)
  }

  /** Applying the same create twice leaves the store as one create does; the second reports failure. */
  lemma CreateIdempotent(s: Store, key: string, value: string)
    ensures Create(Create(s, key, value).0, key, value) == (Create(s, key, value).0, false)
  {
  }

  /** A create followed by a read returns the created value when the key was new. */
  lemma ReadAfterCreate(s: Store, key: string, value: string)
    requires key !in s
    ensures Read(Create(s, key, value).0, key) == value
  {
  }
}
