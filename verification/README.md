# Versioned key/value store contract

This project models the `Store` contract of libnetwork's internal key/value
store package (`libnetwork/internal/kvstore/kvstore.go`). That file declares
no implementation. It declares three things: the operations every backend
must offer (`Put`, `Exists`, `List`, `AtomicPut`, `AtomicDelete`, `Delete`,
`Close`), the `KVPair {Key, Value, LastIndex}` tuple, and the errors the
atomic operations report.

The model is a reference state machine for that contract:

- **State** (`KVStore.Store`): a finite map from key to `(value, index)`, and
  the counter that issues indexes.
- **Operations** (`KVStore.Put`, `Exists`, `List`, `AtomicPut`, `AtomicDelete`,
  `Delete`): pure functions from a store to a result and the next store.
  Each call is one indivisible step. A failing call returns one named error
  and leaves the store exactly as it was.
- **Errors** (`KVTypes.Error`): `KeyModified`, `KeyNotFound`,
  `PreviousNotSpecified` and `KeyExists`, as constructors.
- **Traces** (`Trace`): any interleaving of concurrent callers is a sequence
  of such steps. The lemmas there hold for every sequence.

Files:

- `kvtypes.dfy`: `Bytes`, `Error`, `KVPair`, `Option`, `Result`.
- `store.dfy`: the store, its invariant and the operations.
- `list_scan.dfy`: `List` computed as one scan over all keys, returning a sequence.
- `properties.dfy`: properties that relate two calls.
- `trace.dfy`: sequences of calls, the no-reuse property of indexes, and
  racing `AtomicPut`s.

## Modelling choices

The contract's comments leave these points open. The model fixes each one
as stated here; none of them is behaviour the source file prescribes.

1. `AtomicPut` and `AtomicDelete` with a non-nil `previous` on an absent key
   fail with `KeyNotFound`.
2. `List` of a prefix that matches no key fails with `KeyNotFound`; it never
   succeeds with an empty result. A key equal to the prefix is listed.
   The prefix test is plain string prefix, with no special treatment of `/`.
3. The version counter is global: one counter serves all keys. Every write
   (`Put` or successful `AtomicPut`) takes the next number, starting at 1.
   Deletes issue no index.
4. `Delete` of an absent key fails with `KeyNotFound`.
5. Of `previous`, only `LastIndex` is compared with the store. The doc
   comment of `ErrKeyModified` (kvstore.go:16) speaks only of the index.

## Model

| member | source | states |
|---|---|---|
| KVStore.Write | libnetwork/internal/kvstore/kvstore.go:55-60 | the `KVPair` a write returns carries the given key and value and an index never issued before; that pair is what the store now reports for the key; no other key changes |
| KVStore.Put | libnetwork/internal/kvstore/kvstore.go:31-32 | `Put` always succeeds; afterwards the key exists, holds the value under a fresh index, and every other key reads as before |
| KVStore.AtomicPut | libnetwork/internal/kvstore/kvstore.go:40-42 | succeeds exactly when `previous` is nil and the key is absent, or `previous.LastIndex` is the stored index. Failures: `KeyExists` for a create on a present key, `KeyModified` for an index mismatch, `KeyNotFound` (choice 1) for an absent key. Every failure leaves the store unchanged. On success it returns the pair with the given key, value and a fresh index, and that pair is now stored |
| KVStore.AtomicDelete | libnetwork/internal/kvstore/kvstore.go:44-45 | a nil `previous` always fails with `PreviousNotSpecified`, whatever the store holds. Otherwise it succeeds exactly when the index matches, and then the key is gone and other keys are untouched. A mismatch fails with `KeyModified`, an absent key with `KeyNotFound` (choice 1). Failures change nothing |
| KVStore.Exists | libnetwork/internal/kvstore/kvstore.go:34-35 | holds exactly when a value is stored under the key, that is, exactly when a pair with that key can be read back |
| KVStore.Delete | libnetwork/internal/kvstore/kvstore.go:47-49 | removes the key whatever its index; afterwards the key does not exist and every other key reads as before. An absent key gives `KeyNotFound` (choice 4) |
| KVStore.List | libnetwork/internal/kvstore/kvstore.go:37-38 | the result holds exactly the stored pairs whose key starts with the prefix. It fails with `KeyNotFound` exactly when no stored key has that prefix (choice 2) |
| ListScan.ListByScan | libnetwork/internal/kvstore/kvstore.go:37-38 | a scan over all keys gives a slice with exactly the pairs `List` specifies, each key once, and fails exactly when `List` does |
| StoreProperties.StaleRetryFails | libnetwork/internal/kvstore/kvstore.go:16-23 | after a successful `AtomicPut`, a retry with the same `previous` fails and changes nothing: `KeyModified` after a compare-and-swap, `KeyExists` after a create |
| StoreProperties.StaleDeleteFails | libnetwork/internal/kvstore/kvstore.go:44-45 | once an `AtomicPut` replaced the version `previous` names, `AtomicDelete` with it fails with `KeyModified` and deletes nothing |
| StoreProperties.ReturnedPairIsCurrent | libnetwork/internal/kvstore/kvstore.go:40-42 | the pair returned by a successful `AtomicPut` is an up-to-date `previous`: the next compare-and-swap or atomic delete with it succeeds |
| StoreProperties.DeleteThenRecreate | libnetwork/internal/kvstore/kvstore.go:47-49 | after `Delete`, a create-only `AtomicPut` of the same key succeeds, and its index is larger than every index the store had issued before, in particular the key's index before the delete |
| StoreProperties.PutThenRead | libnetwork/internal/kvstore/kvstore.go:31-38 | after `Put(k, v)` the key exists and holds `v` with index at least 1; listing any prefix of `k` succeeds and includes that pair |
| StoreProperties.CreateOnEmpty | libnetwork/internal/kvstore/kvstore.go:40-42 | on a never-written store (`KVStore.Empty`) no key exists, and a create-only `AtomicPut` of any key succeeds with an index above 0 that is then stored |
| StoreProperties.ExistsMatchesList | libnetwork/internal/kvstore/kvstore.go:34-38 | `Exists(k)` holds exactly when `List(k)` succeeds and reports a pair whose key is `k` |
| Trace.Apply | libnetwork/internal/kvstore/kvstore.go:30-49 | any single call keeps the store invariant, never moves the counter back, and leaves every entry either unchanged or re-written with a newly issued index |
| Trace.Run | libnetwork/internal/kvstore/kvstore.go:30-49 | any sequence of calls keeps the store invariant and never moves the counter back |
| Trace.RunKeptOrRenewed | libnetwork/internal/kvstore/kvstore.go:55-60 | after any sequence of calls, each entry is either untouched or carries an index newer than every index issued at the start |
| Trace.IndexIdentifiesContent | libnetwork/internal/kvstore/kvstore.go:40-42 | if a key carries the same `LastIndex` after any sequence of calls, it also carries the same value, even across delete-and-recreate. So a compare-and-swap that matches an index it read cannot overwrite a value it has not seen |
| Trace.StalePreviousNeverWins | libnetwork/internal/kvstore/kvstore.go:40-45 | once a successful `AtomicPut` has consumed a `previous`, every later `AtomicPut` or `AtomicDelete` with it fails, after any sequence of calls in between, including delete and recreate of the key. With `Trace.StaleAfterDelete`, callers sharing one `previous` have at most one winner under any interleaving |
| Trace.StaleAfterDelete | libnetwork/internal/kvstore/kvstore.go:44-45 | once a successful `AtomicDelete` has consumed a `previous`, every later `AtomicPut` or `AtomicDelete` with it fails, after any sequence of calls in between, including a re-create of the key |
| Trace.IndexNeverGoesBack | libnetwork/internal/kvstore/kvstore.go:55-60 | once `AtomicPut` has returned index V for a key, every later read of the key, after any sequence of calls, shows an index of at least V |
| Trace.Race | libnetwork/internal/kvstore/kvstore.go:40-42 | the `AtomicPut` calls of n callers sharing one `previous`, taking effect one after another; one result per caller |
| Trace.AllLose | libnetwork/internal/kvstore/kvstore.go:16-23 | if the store does not admit an `AtomicPut`, every caller in a race of them gets the same error and none succeeds |
| Trace.AtMostOneWinner | libnetwork/internal/kvstore/kvstore.go:40-42 | of any number of `AtomicPut`s racing with the same `previous`, at most one succeeds. There is a winner exactly when the store admitted the put at the start, and then every other caller gets `KeyModified` (compare-and-swap) or `KeyExists` (create) |

## Left out

- `Close` (kvstore.go:51-52): connection lifecycle, with no effect on the stored data.
- The `Backend` type, the `BOLTDB` constant and `ErrBackendNotSupported` (kvstore.go:7-15). They concern choosing a backend, and the code that uses them is not part of this model.
- Concurrency. Each call is one indivisible step, and concurrent callers are modelled as some order of those steps (`Trace`). Locks and threads are not modelled.
- Error message strings. Errors are datatype constructors only.
- Transport and connectivity errors of real backends. In the model, `Put` and `Exists` never fail.
- Ordering of `List` results. It is backend-defined; `KVStore.List` returns a set and `ListScan.ListByScan` is specified up to membership.
- KVStore.Write: `LastIndex` is a `uint64` in the source, but the model uses an unbounded `nat`. Counter exhaustion after 2^64 writes is not modelled.
- Validation of keys, such as refusing an empty key. The contract declares no error for it.
- Keys that are not valid UTF-8. Go strings are arbitrary byte strings, but keys here are `string` (Unicode scalar values). For valid UTF-8 the byte-prefix and character-prefix tests agree, so nothing else in the model changes.
- `Get`. The `Store` interface here does not declare it. `KVStore.Lookup` is the read used to state properties.
