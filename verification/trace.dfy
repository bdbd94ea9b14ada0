/** Sequences of operations. Every operation is one indivisible step, so
    any interleaving of concurrent callers is some sequence of steps; the
    lemmas here hold for every such sequence. */
module Trace {
  import opened KVTypes
  import opened KVStore

  /** One call of the contract, with its arguments. */
  datatype Op =
    | PutOp(key: string, value: Bytes)
    | ExistsOp(key: string)
    | ListOp(directory: string)
    | AtomicPutOp(key: string, value: Bytes, previous: Option<KVPair>)
    | AtomicDeleteOp(key: string, previous: Option<KVPair>)
    | DeleteOp(key: string)

  /** Every entry of `t` is either the entry of `s` unchanged or was
      written with an index that `s` had not yet issued. */
  ghost predicate KeptOrRenewed(s: Store, t: Store) {
    forall k :: k in t.entries ==>
      (k in s.entries && t.entries[k] == s.entries[k]) || t.entries[k].index > s.counter
  }

  /** The store after one call. */
  function Apply(s: Store, op: Op): (t: Store)
    requires Valid(s)
    ensures Valid(t)
    ensures s.counter <= t.counter
    ensures KeptOrRenewed(s, t)
  {
    match op
    case PutOp(k, v) => Put(s, k, v).next
    case ExistsOp(_) => s
    case ListOp(_) => s
    case AtomicPutOp(k, v, p) => AtomicPut(s, k, v, p).next
    case AtomicDeleteOp(k, p) => AtomicDelete(s, k, p).next
    case DeleteOp(k) => Delete(s, k).next
  }

  /** The store after the calls of `ops`, in order. The counter never goes
      back, so an index, once issued, is never issued again. */
  function Run(s: Store, ops: seq<Op>): (t: Store)
    requires Valid(s)
    ensures Valid(t)
    ensures s.counter <= t.counter
    decreases |ops|
  {
    if ops == [] then s else Run(Apply(s, ops[0]), ops[1..])
  }

  /** Over any sequence of calls, each entry is either untouched or carries
      an index newer than any the store had issued at the start. */
  lemma {:induction false} RunKeptOrRenewed(s: Store, ops: seq<Op>)
    requires Valid(s)
    ensures KeptOrRenewed(s, Run(s, ops))
    decreases |ops|
  {
    if ops != [] {
      var s1 := Apply(s, ops[0]);
      RunKeptOrRenewed(s1, ops[1..]);
      var t := Run(s, ops);
      assert t == Run(s1, ops[1..]);
      forall k | k in t.entries
        ensures (k in s.entries && t.entries[k] == s.entries[k]) || t.entries[k].index > s.counter
      {
        if !(k in s1.entries && t.entries[k] == s1.entries[k]) {
          assert t.entries[k].index > s1.counter;
        }
      }
    }
  }

  /** The index identifies the content: if, after any sequence of calls,
      a key carries the same index it carried at the start, it also
      carries the same value. So a compare-and-swap that matches an index
      it read earlier cannot overwrite a value it has not seen, even when
      the key was deleted and written again in between. */
  lemma IndexIdentifiesContent(s: Store, ops: seq<Op>, key: string)
    requires Valid(s)
    requires key in s.entries && key in Run(s, ops).entries
    requires Run(s, ops).entries[key].index == s.entries[key].index
    ensures Run(s, ops).entries[key] == s.entries[key]
  {
    RunKeptOrRenewed(s, ops);
  }

  /** A `previous` consumed by a successful `AtomicPut` never works again:
      whatever sequence of calls follows, including deletes and re-creates
      of the key, a compare-and-swap or an atomic delete with it fails.
      The lemma below does the same for a winning atomic delete; together
      they give at most one winner among the callers holding one
      `previous`, under any interleaving of calls. */
  lemma StalePreviousNeverWins(s: Store, key: string, value: Bytes, previous: KVPair,
                               ops: seq<Op>, retry: Bytes)
    requires Valid(s)
    requires Matches(s, key, previous)  // so the first AtomicPut succeeds
    ensures AtomicPut(s, key, value, Some(previous)).result.Ok?
    ensures var t := Run(AtomicPut(s, key, value, Some(previous)).next, ops);
            && AtomicPut(t, key, retry, Some(previous)).result.Err?
            && AtomicDelete(t, key, Some(previous)).result.Err?
  {
    var s1 := AtomicPut(s, key, value, Some(previous)).next;
    assert previous.lastIndex <= s.counter < s1.counter;
    RunKeptOrRenewed(s1, ops);
  }

  /** A `previous` consumed by a successful `AtomicDelete` never works
      again either: after any sequence of calls, including a re-create of
      the key, a compare-and-swap or an atomic delete with it fails. */
  lemma StaleAfterDelete(s: Store, key: string, previous: KVPair, ops: seq<Op>, retry: Bytes)
    requires Valid(s)
    requires AtomicDelete(s, key, Some(previous)).result.Ok?
    ensures var t := Run(AtomicDelete(s, key, Some(previous)).next, ops);
            && AtomicPut(t, key, retry, Some(previous)).result.Err?
            && AtomicDelete(t, key, Some(previous)).result.Err?
  {
    var s1 := AtomicDelete(s, key, Some(previous)).next;
    assert previous.lastIndex <= s1.counter;
    RunKeptOrRenewed(s1, ops);
  }

  /** Per-key ordering: once `AtomicPut` has returned index `v` for a key,
      every later read of that key, after any sequence of calls, shows an
      index of at least `v`. */
  lemma IndexNeverGoesBack(s: Store, key: string, value: Bytes, previous: Option<KVPair>, ops: seq<Op>)
    requires Valid(s)
    requires AtomicPut(s, key, value, previous).result.Ok?
    ensures var o := AtomicPut(s, key, value, previous);
            var t := Run(o.next, ops);
            key in t.entries ==> t.entries[key].index >= o.result.value.lastIndex
  {
    var o := AtomicPut(s, key, value, previous);
    RunKeptOrRenewed(o.next, ops);
  }

  /** `n` callers issue `AtomicPut(key, values[i], previous)` with the same
      `previous`; the calls take effect one after another. Returns what
      each caller is told. */
  function Race(s: Store, key: string, values: seq<Bytes>, previous: Option<KVPair>): (rs: seq<Result<KVPair>>)
    requires Valid(s)
    ensures |rs| == |values|
    decreases |values|
  {
    if values == [] then []
    else
      var o := AtomicPut(s, key, values[0], previous);
      [o.result] + Race(o.next, key, values[1..], previous)
  }

  /** How many callers were told they succeeded. */
  function Wins(rs: seq<Result<KVPair>>): nat {
    if rs == [] then 0 else (if rs[0].Ok? then 1 else 0) + Wins(rs[1..])
  }

  /** When the store does not admit the put, every caller of the race gets
      the same error and nobody wins. */
  lemma {:induction false} AllLose(s: Store, key: string, values: seq<Bytes>, previous: Option<KVPair>)
    requires Valid(s)
    requires !AdmitsPut(s, key, previous)
    ensures var rs := Race(s, key, values, previous);
            && Wins(rs) == 0
            && forall i :: 0 <= i < |rs| ==> rs[i] == (if previous.None? then Err(KeyExists)
                                                      else if !Exists(s, key) then Err(KeyNotFound)
                                                      else Err(KeyModified))
    decreases |values|
  {
    if values != [] {
      AllLose(s, key, values[1..], previous);
    }
  }

  /** At most one of the racing callers succeeds. The race has a winner
      exactly when the store admitted the put at the start, and then it is
      the first caller, and every later one fails — with `KeyModified`
      for a compare-and-swap and with `KeyExists` for a create. */
  lemma AtMostOneWinner(s: Store, key: string, values: seq<Bytes>, previous: Option<KVPair>)
    requires Valid(s)
    ensures var rs := Race(s, key, values, previous);
            && Wins(rs) <= 1
            && (Wins(rs) == 1 <==> |values| > 0 && AdmitsPut(s, key, previous))
            && (forall i :: 1 <= i < |rs| ==> rs[i].Err?)
            && (|values| > 0 && AdmitsPut(s, key, previous) ==>
                  && rs[0].Ok?
                  && forall i :: 1 <= i < |rs| ==>
                       rs[i] == (if previous.None? then Err(KeyExists) else Err(KeyModified)))
  {
    var rs := Race(s, key, values, previous);
    if values == [] {
    } else if AdmitsPut(s, key, previous) {
      var o := AtomicPut(s, key, values[0], previous);
      if previous.Some? {
        assert previous.value.lastIndex <= s.counter < o.result.value.lastIndex;
      }
      AllLose(o.next, key, values[1..], previous);
      assert rs == [o.result] + Race(o.next, key, values[1..], previous);
      assert rs[1..] == Race(o.next, key, values[1..], previous);
    } else {
      AllLose(s, key, values, previous);
    }
  }
}
