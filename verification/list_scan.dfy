/** `List` as a backend computes it: one pass over every stored key,
    keeping the pairs whose key starts with the directory. The result is a
    sequence, as the contract returns a slice; its order is whatever order
    the scan visits the keys in, so it is specified only up to membership. */
module ListScan {
  import opened KVTypes
  import opened KVStore

  /** No key is reported twice. */
  predicate DistinctKeys(ps: seq<KVPair>) {
    forall i, j :: 0 <= i < j < |ps| ==> ps[i].key != ps[j].key
  }

  /** Scans the store and agrees with the set-level `List`: it fails with
      `KeyNotFound` exactly when `List` does, and otherwise reports exactly
      the listed pairs, each key once. */
  method ListByScan(s: Store, directory: string) returns (r: Result<seq<KVPair>>)
    ensures r.Ok? <==> List(s, directory).Ok?
    ensures r.Err? ==> r.error == KeyNotFound
    ensures r.Ok? ==> forall p :: p in r.value <==> Listed(s, directory, p)
    ensures r.Ok? ==> DistinctKeys(r.value)
  {
    var remaining := s.entries.Keys;
    var acc: seq<KVPair> := [];
    while remaining != {}
      invariant remaining <= s.entries.Keys
      invariant forall p :: p in acc <==> p.key !in remaining && Listed(s, directory, p)
      invariant DistinctKeys(acc)
      decreases |remaining|
    {
      var k :| k in remaining;
      if directory <= k {
        assert forall i :: 0 <= i < |acc| ==> acc[i].key != k by {
          forall i | 0 <= i < |acc|
            ensures acc[i].key != k
          {
            assert acc[i] in acc;
          }
        }
        acc := acc + [PairAt(s, k)];
      }
      remaining := remaining - {k};
    }
    if acc == [] {
      r := Err(KeyNotFound);
    } else {
      assert acc[0] in acc;
      r := Ok(acc);
    }
  }
}
