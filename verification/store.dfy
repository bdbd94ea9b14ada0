/** A reference model of the `Store` contract: the store is a finite map
    from key to (value, index) together with the version counter that
    issues indexes. Each operation is one indivisible transition: a pure
    function from the current store to a result and the next store.

    Modelling choices, where the contract's comments leave a point open:
    - a single counter serves every key, and each write takes the next
      number, so an index is never issued twice, not even to a key that
      was deleted and created again;
    - an atomic operation whose `previous` is given but whose key is
      absent fails with `KeyNotFound`;
    - `List` of a prefix that matches no key fails with `KeyNotFound`
      rather than returning an empty list, and a key equal to the prefix
      itself is listed;
    - `Delete` of an absent key fails with `KeyNotFound`;
    - only the `lastIndex` of `previous` is compared with the store. */
module KVStore {
  import opened KVTypes

  /** What the store keeps per key. */
  datatype Entry = Entry(value: Bytes, index: nat)

  /** `counter` is the last index the store has issued (0 before any). */
  datatype Store = Store(entries: map<string, Entry>, counter: nat)

  /** The result of one operation together with the store it leaves. */
  datatype Outcome<+T> = Outcome(result: Result<T>, next: Store)

  /** Representation invariant: every stored index was issued, so it is
      positive and at most the counter. */
  predicate Valid(s: Store) {
    forall k :: k in s.entries ==> 0 < s.entries[k].index <= s.counter
  }

  /** A store holding nothing, before any index has been issued. */
  function Empty(): (s: Store)
    ensures Valid(s)
    ensures forall k :: !Exists(s, k)
  {
    Store(map[], 0)
  }

  /** The pair a backend reports for `key`, if any. */
  function Lookup(s: Store, key: string): Option<KVPair> {
    if key in s.entries then
      Some(KVPair(key, s.entries[key].value, s.entries[key].index))
    else
      None
  }

  /** `Exists`: whether a value is currently stored under `key`. It is a
      pure predicate: it holds exactly when a pair can be read back for the
      key, and it changes nothing. */
  predicate Exists(s: Store, key: string)
    ensures Exists(s, key) <==> Lookup(s, key).Some?
    ensures Exists(s, key) ==> Lookup(s, key).value.key == key
  {
    key in s.entries
  }

  /** Index `i` is larger than every index the store has issued so far. */
  ghost predicate Fresh(s: Store, i: nat) {
    s.counter < i
  }

  /** Every key other than `key` reads the same in `s` and `t`. */
  ghost predicate AgreeExcept(s: Store, t: Store, key: string) {
    forall k :: k != key ==> Lookup(s, k) == Lookup(t, k)
  }

  /** `previous` names the version of `key` that is stored now. */
  ghost predicate Matches(s: Store, key: string, previous: KVPair) {
    key in s.entries && s.entries[key].index == previous.lastIndex
  }

  /** When an atomic put is allowed: create-only on an absent key, or a
      compare-and-swap whose index is the stored one. */
  ghost predicate AdmitsPut(s: Store, key: string, previous: Option<KVPair>) {
    match previous
    case None => !Exists(s, key)
    case Some(p) => Matches(s, key, p)
  }

  /** Stores `value` under `key` with a newly issued index and reports the
      pair as written. Shared by `Put` and a successful `AtomicPut`. */
  function Write(s: Store, key: string, value: Bytes): (o: Outcome<KVPair>)
    requires Valid(s)
    ensures Valid(o.next)
    ensures o.result.Ok?
    ensures o.result.value.key == key && o.result.value.value == value
    ensures Fresh(s, o.result.value.lastIndex)
    ensures Lookup(o.next, key) == Some(o.result.value)
    ensures AgreeExcept(s, o.next, key)
    ensures o.next.counter == o.result.value.lastIndex
  {
    var i := s.counter + 1;
    Outcome(Ok(KVPair(key, value, i)), Store(s.entries[key := Entry(value, i)], i))
  }

  /** Removes `key`, issuing no index. Shared by both deletes. */
  function Remove(s: Store, key: string): (t: Store)
    requires Valid(s)
    ensures Valid(t)
    ensures !Exists(t, key)
    ensures AgreeExcept(s, t, key)
    ensures t.counter == s.counter
  {
    Store(s.entries - {key}, s.counter)
  }

  /** `Put`: unconditional upsert. It always succeeds, the key then holds
      `value` under a fresh index, and no other key changes. */
  function Put(s: Store, key: string, value: Bytes): (o: Outcome<()>)
    requires Valid(s)
    ensures Valid(o.next)
    ensures o.result.Ok?
    ensures Exists(o.next, key)
    ensures Lookup(o.next, key).value.value == value
    ensures Fresh(s, Lookup(o.next, key).value.lastIndex)
    ensures AgreeExcept(s, o.next, key)
  {
    Outcome(Ok(()), Write(s, key, value).next)
  }

  /** `AtomicPut`: create-only when `previous` is `None`, otherwise a
      compare-and-swap on the index. On success the key holds `value`
      under a fresh index and the written pair is returned; on failure
      the error names the reason and the store is left as it was. */
  function AtomicPut(s: Store, key: string, value: Bytes, previous: Option<KVPair>): (o: Outcome<KVPair>)
    requires Valid(s)
    ensures Valid(o.next)
    ensures o.result.Ok? <==> AdmitsPut(s, key, previous)
    ensures o.result.Err? ==> o.next == s
    ensures previous.None? && Exists(s, key) ==> o.result == Err(KeyExists)
    ensures previous.Some? && !Exists(s, key) ==> o.result == Err(KeyNotFound)
    ensures previous.Some? && Exists(s, key) && !Matches(s, key, previous.value) ==>
              o.result == Err(KeyModified)
    ensures o.result.Ok? ==>
              && o.result.value.key == key
              && o.result.value.value == value
              && Fresh(s, o.result.value.lastIndex)
              && Lookup(o.next, key) == Some(o.result.value)
              && AgreeExcept(s, o.next, key)
  {
    match previous
    case None =>
      if key in s.entries then Outcome(Err(KeyExists), s)
      else Write(s, key, value)
    case Some(p) =>
      if key !in s.entries then Outcome(Err(KeyNotFound), s)
      else if s.entries[key].index != p.lastIndex then Outcome(Err(KeyModified), s)
      else Write(s, key, value)
  }

  /** `AtomicDelete`: requires `previous`, then deletes only the version it
      names. On failure the store is left as it was. */
  function AtomicDelete(s: Store, key: string, previous: Option<KVPair>): (o: Outcome<()>)
    requires Valid(s)
    ensures Valid(o.next)
    ensures o.result.Ok? <==> previous.Some? && Matches(s, key, previous.value)
    ensures o.result.Err? ==> o.next == s
    ensures previous.None? ==> o.result == Err(PreviousNotSpecified)
    ensures previous.Some? && !Exists(s, key) ==> o.result == Err(KeyNotFound)
    ensures previous.Some? && Exists(s, key) && !Matches(s, key, previous.value) ==>
              o.result == Err(KeyModified)
    ensures o.result.Ok? ==> !Exists(o.next, key) && AgreeExcept(s, o.next, key)
  {
    match previous
    case None => Outcome(Err(PreviousNotSpecified), s)
    case Some(p) =>
      if key !in s.entries then Outcome(Err(KeyNotFound), s)
      else if s.entries[key].index != p.lastIndex then Outcome(Err(KeyModified), s)
      else Outcome(Ok(()), Remove(s, key))
  }

  /** `Delete`: removes the key whatever its index; afterwards the key is
      absent and every other key reads as before. */
  function Delete(s: Store, key: string): (o: Outcome<()>)
    requires Valid(s)
    ensures Valid(o.next)
    ensures o.result.Ok? <==> Exists(s, key)
    ensures o.result.Err? ==> o.result.error == KeyNotFound && o.next == s
    ensures !Exists(o.next, key)
    ensures AgreeExcept(s, o.next, key)
  {
    if key in s.entries then Outcome(Ok(()), Remove(s, key))
    else Outcome(Err(KeyNotFound), s)
  }

  /** The pair stored under an existing key. */
  function PairAt(s: Store, key: string): (p: KVPair)
    requires key in s.entries
    ensures Lookup(s, key) == Some(p)
  {
    KVPair(key, s.entries[key].value, s.entries[key].index)
  }

  /** `p` is what a listing of `directory` must report: the stored pair of
      a key that starts with `directory`. */
  ghost predicate Listed(s: Store, directory: string, p: KVPair) {
    directory <= p.key && Lookup(s, p.key) == Some(p)
  }

  /** `List`: every stored pair whose key starts with `directory`, and
      nothing else; `KeyNotFound` exactly when no key has that prefix. */
  function List(s: Store, directory: string): (r: Result<set<KVPair>>)
    ensures r.Ok? ==> forall p :: p in r.value <==> Listed(s, directory, p)
    ensures r.Ok? ==> r.value != {}
    ensures r.Err? ==> r.error == KeyNotFound
    ensures r.Err? ==> forall k :: k in s.entries ==> !(directory <= k)
  {
    var found := set k | k in s.entries && directory <= k :: PairAt(s, k);
    if found == {} then
      assert forall k :: k in s.entries && directory <= k ==> PairAt(s, k) in found;
      Err(KeyNotFound)
    else
      Ok(found)
  }
}
