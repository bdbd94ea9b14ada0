/** Properties of the contract that relate two or more calls: the
    optimistic-concurrency retry loop, delete-then-recreate, and how the
    writes and deletes are seen by `Exists` and `List`. */
module StoreProperties {
  import opened KVTypes
  import opened KVStore

  /** Retrying a successful `AtomicPut` with the same stale `previous`
      fails and changes nothing: `KeyExists` after a create, `KeyModified`
      after a compare-and-swap, whatever value the retry carries. */
  lemma StaleRetryFails(s: Store, key: string, value: Bytes, retry: Bytes, previous: Option<KVPair>)
    requires Valid(s)
    requires AtomicPut(s, key, value, previous).result.Ok?
    ensures var s1 := AtomicPut(s, key, value, previous).next;
            var o := AtomicPut(s1, key, retry, previous);
            && o.next == s1
            && o.result == (if previous.None? then Err(KeyExists) else Err(KeyModified))
  {
  }

  /** The same for a delete: once an `AtomicPut` has replaced the version
      that `previous` names, an `AtomicDelete` with it fails with
      `KeyModified` and deletes nothing. */
  lemma StaleDeleteFails(s: Store, key: string, value: Bytes, previous: KVPair)
    requires Valid(s)
    requires AtomicPut(s, key, value, Some(previous)).result.Ok?
    ensures var s1 := AtomicPut(s, key, value, Some(previous)).next;
            AtomicDelete(s1, key, Some(previous)) == Outcome(Err(KeyModified), s1)
  {
  }

  /** The pair a successful `AtomicPut` returns is itself an up-to-date
      `previous`: the next compare-and-swap or atomic delete with it
      succeeds, which is what makes the re-read-and-retry loop progress. */
  lemma ReturnedPairIsCurrent(s: Store, key: string, value: Bytes, next: Bytes, previous: Option<KVPair>)
    requires Valid(s)
    requires AtomicPut(s, key, value, previous).result.Ok?
    ensures var o1 := AtomicPut(s, key, value, previous);
            && AtomicPut(o1.next, key, next, Some(o1.result.value)).result.Ok?
            && AtomicDelete(o1.next, key, Some(o1.result.value)).result.Ok?
  {
  }

  /** A key deleted unconditionally can be created again with a
      create-only `AtomicPut`, and the new index is larger than every index
      the store had issued before, in particular the one the key had. */
  lemma DeleteThenRecreate(s: Store, key: string, value: Bytes)
    requires Valid(s)
    requires Exists(s, key)
    ensures var s1 := Delete(s, key).next;
            var o := AtomicPut(s1, key, value, None);
            && o.result.Ok?
            && o.result.value.lastIndex > s.counter
            && o.result.value.lastIndex > s.entries[key].index
  {
  }

  /** A `Put` is read back exactly: the key exists, holds `value` under an
      index of at least 1, and every listing of a prefix of the key
      succeeds and includes that pair. */
  lemma PutThenRead(s: Store, key: string, value: Bytes, directory: string)
    requires Valid(s)
    requires directory <= key
    ensures var s1 := Put(s, key, value).next;
            && Exists(s1, key)
            && Lookup(s1, key).value.value == value
            && Lookup(s1, key).value.lastIndex >= 1
            && List(s1, directory).Ok?
            && Lookup(s1, key).value in List(s1, directory).value
  {
  }

  /** On a store that has never been written, no key exists and a
      create-only `AtomicPut` of any key succeeds with an index above 0. */
  lemma CreateOnEmpty(key: string, value: Bytes)
    ensures !Exists(Empty(), key)
    ensures var o := AtomicPut(Empty(), key, value, None);
            && o.result.Ok?
            && o.result.value.lastIndex > 0
            && Lookup(o.next, key) == Some(o.result.value)
  {
  }

  /** `Exists` and `List` agree: a key exists exactly when listing it as a
      prefix succeeds and reports a pair with that very key. */
  lemma ExistsMatchesList(s: Store, key: string)
    ensures Exists(s, key) <==>
              && List(s, key).Ok?
              && exists p :: p in List(s, key).value && p.key == key
  {
  }
}
