/**
  The integer map used as an archetype's column lookup. The original is a
  fixed-population hash map built once from a complete list of
  (key, value) pairs; only its observable behaviour is modelled: `exists(k)`
  is membership in the keys and `m[k]` (only meaningful when `exists(k)`)
  is the stored value.
 */
module IntegerMap {
  datatype IntegerMapPair = IntegerMapPair(key: nat, value: nat)

  /** The set of keys a construction input mentions. */
  function KeysOf(pairs: seq<IntegerMapPair>): set<nat>
  {
    set p | p in pairs :: p.key
  }

  /** No number occurs twice. */
  predicate Distinct(cs: seq<nat>)
  {
    forall i, j :: 0 <= i < j < |cs| ==> cs[i] != cs[j]
  }

  /** The keys of a construction input, in input order. */
  function KeySeq(pairs: seq<IntegerMapPair>): (ks: seq<nat>)
    ensures |ks| == |pairs|
    ensures forall i :: 0 <= i < |pairs| ==> ks[i] == pairs[i].key
  {
    seq(|pairs|, i requires 0 <= i < |pairs| => pairs[i].key)
  }

  /** No key is paired twice. */
  predicate DistinctKeys(pairs: seq<IntegerMapPair>)
  {
    Distinct(KeySeq(pairs))
  }

  /**
    One-shot construction. The map holds exactly the keys of the input,
    every entry is one of the input pairs, and when the keys are distinct
    each key yields the value it was paired with. Which of two pairs with the
    same key wins is left open, as in the original.
   */
  function Build(pairs: seq<IntegerMapPair>): (m: map<nat, nat>)
    ensures m.Keys == KeysOf(pairs)
    ensures forall k :: k in m ==> IntegerMapPair(k, m[k]) in pairs
    ensures DistinctKeys(pairs) ==> forall i :: 0 <= i < |pairs| ==> m[pairs[i].key] == pairs[i].value
    decreases |pairs|
  {
    if pairs == [] then map[]
    else
      var init := pairs[..|pairs| - 1];
      var last := pairs[|pairs| - 1];
      var m0 := Build(init);
      assert pairs == init + [last];
      assert KeysOf(pairs) == KeysOf(init) + {last.key};
      DistinctPrefix(pairs);
      m0[last.key := last.value]
  }

  /** Dropping the last pair of a key-distinct input keeps it key-distinct, and that key occurs nowhere else. */
  lemma DistinctPrefix(pairs: seq<IntegerMapPair>)
    requires |pairs| > 0
    ensures DistinctKeys(pairs) ==> DistinctKeys(pairs[..|pairs| - 1])
    ensures DistinctKeys(pairs) ==>
      forall i :: 0 <= i < |pairs| - 1 ==> pairs[i].key != pairs[|pairs| - 1].key
  {
    var init := pairs[..|pairs| - 1];
    if DistinctKeys(pairs) {
      forall i, j | 0 <= i < j < |init| ensures KeySeq(init)[i] != KeySeq(init)[j] {
        assert KeySeq(pairs)[i] != KeySeq(pairs)[j];
      }
      forall i | 0 <= i < |pairs| - 1 ensures pairs[i].key != pairs[|pairs| - 1].key {
        assert KeySeq(pairs)[i] != KeySeq(pairs)[|pairs| - 1];
      }
    }
  }

  /** `IntegerMap::exists`. */
  predicate Exists(m: map<nat, nat>, key: nat)
  {
    key in m
  }

  /** `IntegerMap::operator[]`: the caller must know the key is present. */
  function Lookup(m: map<nat, nat>, key: nat): nat
    requires Exists(m, key)
  {
    m[key]
  }

  /** `exists(k)` on a built map holds exactly for the keys of the input. */
  lemma ExistsOfBuild(pairs: seq<IntegerMapPair>, key: nat)
    ensures Exists(Build(pairs), key) <==> key in KeysOf(pairs)
  {
  }

  /**
    `m[k]` on a built map, for a key that exists, returns a value the input
    paired with that key; with distinct keys, every input key exists and
    yields its own value.
   */
  lemma LookupOfBuild(pairs: seq<IntegerMapPair>, key: nat)
    requires Exists(Build(pairs), key)
    ensures IntegerMapPair(key, Lookup(Build(pairs), key)) in pairs
    ensures DistinctKeys(pairs) ==>
      forall i :: 0 <= i < |pairs| && pairs[i].key == key ==> Lookup(Build(pairs), key) == pairs[i].value
  {
  }
}
