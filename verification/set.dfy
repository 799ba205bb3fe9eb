/** The generic map-backed `Set[T]` of datastruct/set.go: the keys of the
    backing map are the members, so the model keeps just that key set. */
module DataStruct {

  datatype Set<T> = Set(keys: set<T>)

  /** `NewSet`: a set with no members. */
  function NewSet<T(!new)>(): (s: Set<T>)
    ensures forall k :: !Has(s, k)
    ensures |s.keys| == 0
  {
    Set({})
  }

  /** `Has`: is `key` a member. */
  predicate Has<T>(s: Set<T>, key: T) {
    key in s.keys
  }

  /** `Add`: the set with `key` in it, and whether `key` was missing before. */
  function Add<T(!new)>(s: Set<T>, key: T): (r: (Set<T>, bool))
    ensures r.1 <==> !Has(s, key)
    ensures Has(r.0, key)
    ensures forall k :: k != key ==> (Has(r.0, k) <==> Has(s, k))
    ensures !r.1 ==> r.0 == s
    ensures |r.0.keys| == |s.keys| + (if r.1 then 1 else 0)
  {
    if Has(s, key) then (s, false) else (Set(s.keys + {key}), true)
  }

  /** `CopyKeys`: every member exactly once, in an unspecified order (Go's map
      iteration order is modelled by an arbitrary choice). */
  method CopyKeys<T(==)>(s: Set<T>) returns (keys: seq<T>)
    ensures |keys| == |s.keys|
    ensures forall k :: k in keys <==> Has(s, k)
    ensures forall i, j :: 0 <= i < j < |keys| ==> keys[i] != keys[j]
  {
    keys := [];
    var rest := s.keys;
    while rest != {}
      invariant rest <= s.keys
      invariant forall k :: k in keys <==> k in s.keys - rest
      invariant forall i, j :: 0 <= i < j < |keys| ==> keys[i] != keys[j]
      invariant |keys| + |rest| == |s.keys|
      decreases |rest|
    {
      var k :| k in rest;
      assert k !in keys;
      keys := keys + [k];
      rest := rest - {k};
    }
  }
}
