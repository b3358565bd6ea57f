/**
  What a query means, independently of the scanning loop that computes it:
  which archetype slots match a requested component list, in which order,
  and how the matches are encoded into the query buffer (one record of
  stride `1 + |q|` per match: the archetype index, then the column of each
  requested component in request order).
 */
module QuerySpec {
  import opened Wrappers
  import opened Schema

  /** Every registry slot holds a store (the query loop dereferences each one unchecked). */
  predicate AllPresent(slots: seq<Option<ArchetypeStore>>)
  {
    forall i :: 0 <= i < |slots| ==> slots[i].Some?
  }

  /** An archetype matches when its lookup contains every requested component. */
  predicate Matches(s: ArchetypeStore, q: seq<nat>)
  {
    forall j :: 0 <= j < |q| ==> q[j] in s.columnLookup
  }

  /** The columns of the first `k` requested components, in request order. */
  function Columns(s: ArchetypeStore, q: seq<nat>, k: nat): (cols: seq<nat>)
    requires k <= |q| && Matches(s, q)
    ensures |cols| == k
    ensures forall j :: 0 <= j < k ==> cols[j] == s.columnLookup[q[j]]
  {
    if k == 0 then [] else Columns(s, q, k - 1) + [s.columnLookup[q[k - 1]]]
  }

  /**
    The record a matching archetype contributes to a query run: its index,
    then the column of each requested component in request order.
   */
  function Record(idx: nat, s: ArchetypeStore, q: seq<nat>): seq<nat>
    requires Matches(s, q)
  {
    [idx] + Columns(s, q, |q|)
  }

  /** Number of matching archetypes among slots `0 .. n - 1`. */
  function MatchCount(slots: seq<Option<ArchetypeStore>>, q: seq<nat>, n: nat): nat
    requires n <= |slots| && AllPresent(slots)
  {
    if n == 0 then 0
    else MatchCount(slots, q, n - 1) + (if Matches(slots[n - 1].value, q) then 1 else 0)
  }

  /** The run a scan of slots `0 .. n - 1` emits. */
  function QueryRun(slots: seq<Option<ArchetypeStore>>, q: seq<nat>, n: nat): seq<nat>
    requires n <= |slots| && AllPresent(slots)
  {
    if n == 0 then []
    else
      var s := slots[n - 1].value;
      QueryRun(slots, q, n - 1) + (if Matches(s, q) then Record(n - 1, s, q) else [])
  }

  /** The set of matching slot indices below `n`. */
  ghost function MatchingSet(slots: seq<Option<ArchetypeStore>>, q: seq<nat>, n: nat): set<nat>
    requires n <= |slots| && AllPresent(slots)
  {
    set i | 0 <= i < n && Matches(slots[i].value, q)
  }

  /** The match count is the number of archetypes that contain every requested component. */
  lemma {:induction false} MatchCountIsSetSize(slots: seq<Option<ArchetypeStore>>, q: seq<nat>, n: nat)
    requires n <= |slots| && AllPresent(slots)
    ensures MatchCount(slots, q, n) == |MatchingSet(slots, q, n)|
  {
    if n == 0 {
      assert MatchingSet(slots, q, n) == {};
    } else {
      MatchCountIsSetSize(slots, q, n - 1);
      var prev := MatchingSet(slots, q, n - 1);
      assert n - 1 !in prev;
      if Matches(slots[n - 1].value, q) {
        assert MatchingSet(slots, q, n) == prev + {n - 1};
      } else {
        assert MatchingSet(slots, q, n) == prev;
      }
    }
  }

  /**
    For a store registered against the flat component list, the lookup test
    is the schema test: the store matches iff its window in the flat list
    contains every requested component.
   */
  lemma MatchesIffInSchema(s: ArchetypeStore, flat: seq<nat>, q: seq<nat>)
    requires StoreWellFormed(s, flat)
    ensures Matches(s, q) <==> forall j :: 0 <= j < |q| ==> q[j] in SchemaOf(s, flat)
  {
    ColumnLookupKeys(SchemaOf(s, flat));
  }

  /** The slots below `n` whose registered schema contains every requested component. */
  ghost function SchemaMatchingSet(slots: seq<Option<ArchetypeStore>>, flat: seq<nat>, q: seq<nat>, n: nat): set<nat>
    requires n <= |slots| && AllPresent(slots) && RegistryWellFormed(slots, flat)
  {
    set i | 0 <= i < n && forall j :: 0 <= j < |q| ==> q[j] in SchemaOf(slots[i].value, flat)
  }

  /**
    In a well-formed registry the match count is the number of archetypes
    whose registered component set is a superset of the request.
   */
  lemma MatchCountBySchema(slots: seq<Option<ArchetypeStore>>, flat: seq<nat>, q: seq<nat>, n: nat)
    requires n <= |slots| && AllPresent(slots) && RegistryWellFormed(slots, flat)
    ensures MatchCount(slots, q, n) == |SchemaMatchingSet(slots, flat, q, n)|
  {
    MatchCountIsSetSize(slots, q, n);
    forall i | 0 <= i < n
      ensures Matches(slots[i].value, q) <==> forall j :: 0 <= j < |q| ==> q[j] in SchemaOf(slots[i].value, flat)
    {
      MatchesIffInSchema(slots[i].value, flat, q);
    }
    assert MatchingSet(slots, q, n) == SchemaMatchingSet(slots, flat, q, n);
  }

  /** One more match adds one stride to the run length. */
  lemma MulSucc(m: nat, s: nat)
    ensures (m + 1) * s == m * s + s
  {
  }

  /** A run holds `1 + |q|` numbers per match. */
  lemma {:induction false} QueryRunLength(slots: seq<Option<ArchetypeStore>>, q: seq<nat>, n: nat)
    requires n <= |slots| && AllPresent(slots)
    ensures |QueryRun(slots, q, n)| == MatchCount(slots, q, n) * (1 + |q|)
  {
    if n > 0 {
      QueryRunLength(slots, q, n - 1);
      if Matches(slots[n - 1].value, q) {
        MulSucc(MatchCount(slots, q, n - 1), 1 + |q|);
      }
    }
  }

  /** One record of a query run: an archetype index and the requested columns. */
  datatype MatchRecord = MatchRecord(archetypeIdx: nat, columns: seq<nat>)

  /** The numbers a record occupies in the query buffer. */
  function EncodeRecord(r: MatchRecord): seq<nat>
  {
    [r.archetypeIdx] + r.columns
  }

  /** A sequence of records laid out back to back. */
  function Encode(recs: seq<MatchRecord>): seq<nat>
  {
    if recs == [] then [] else EncodeRecord(recs[0]) + Encode(recs[1..])
  }

  /**
    How a consumer that knows the number of requested components reads a
    run back: records of stride `1 + numComponents`, front to back. `None`
    when the run does not split into whole records.
   */
  function Decode(run: seq<nat>, numComponents: nat): Option<seq<MatchRecord>>
    decreases |run|
  {
    if run == [] then Some([])
    else if |run| < 1 + numComponents then None
    else
      var rest := Decode(run[1 + numComponents..], numComponents);
      if rest.None? then None
      else Some([MatchRecord(run[0], run[1..1 + numComponents])] + rest.value)
  }

  lemma {:induction false} EncodeAppend(recs: seq<MatchRecord>, r: MatchRecord)
    ensures Encode(recs + [r]) == Encode(recs) + EncodeRecord(r)
  {
    if recs == [] {
      assert recs + [r] == [r];
      assert [r][1..] == [];
    } else {
      var rest := recs[1..];
      assert (recs + [r])[0] == recs[0];
      assert (recs + [r])[1..] == rest + [r];
      EncodeAppend(rest, r);
      calc {
        Encode(recs + [r]);
        EncodeRecord(recs[0]) + Encode(rest + [r]);
        EncodeRecord(recs[0]) + (Encode(rest) + EncodeRecord(r));
        (EncodeRecord(recs[0]) + Encode(rest)) + EncodeRecord(r);
        Encode(recs) + EncodeRecord(r);
      }
    }
  }

  /** Reading back records of a uniform column count gives the records that were laid out. */
  lemma {:induction false} DecodeEncode(recs: seq<MatchRecord>, numComponents: nat)
    requires forall k :: 0 <= k < |recs| ==> |recs[k].columns| == numComponents
    ensures Decode(Encode(recs), numComponents) == Some(recs)
  {
    if recs != [] {
      var run := Encode(recs);
      var stride := 1 + numComponents;
      DecodeEncode(recs[1..], numComponents);
      assert run == [recs[0].archetypeIdx] + recs[0].columns + Encode(recs[1..]);
      assert run[stride..] == Encode(recs[1..]);
      assert run[1..stride] == recs[0].columns;
      assert [recs[0]] + recs[1..] == recs;
    }
  }

  /** The records of the matching archetypes among slots `0 .. n - 1`, in ascending index order. */
  ghost function Matched(slots: seq<Option<ArchetypeStore>>, q: seq<nat>, n: nat): seq<MatchRecord>
    requires n <= |slots| && AllPresent(slots)
  {
    if n == 0 then []
    else
      var s := slots[n - 1].value;
      Matched(slots, q, n - 1) + (if Matches(s, q) then [MatchRecord(n - 1, Columns(s, q, |q|))] else [])
  }

  /** There is one matched record per matching archetype. */
  lemma {:induction false} MatchedCount(slots: seq<Option<ArchetypeStore>>, q: seq<nat>, n: nat)
    requires n <= |slots| && AllPresent(slots)
    ensures |Matched(slots, q, n)| == MatchCount(slots, q, n)
  {
    if n > 0 {
      MatchedCount(slots, q, n - 1);
    }
  }

  /**
    Every matched record names a matching archetype below `n` and carries
    the column of each requested component, in request order; the records
    are in strictly ascending archetype order.
   */
  lemma {:induction false} MatchedSound(slots: seq<Option<ArchetypeStore>>, q: seq<nat>, n: nat)
    requires n <= |slots| && AllPresent(slots)
    ensures forall k :: 0 <= k < |Matched(slots, q, n)| ==>
      && Matched(slots, q, n)[k].archetypeIdx < n
      && Matches(slots[Matched(slots, q, n)[k].archetypeIdx].value, q)
      && Matched(slots, q, n)[k].columns == Columns(slots[Matched(slots, q, n)[k].archetypeIdx].value, q, |q|)
    ensures forall k, l :: 0 <= k < l < |Matched(slots, q, n)| ==>
      Matched(slots, q, n)[k].archetypeIdx < Matched(slots, q, n)[l].archetypeIdx
  {
    if n > 0 {
      MatchedSound(slots, q, n - 1);
      var prev := Matched(slots, q, n - 1);
      var s := slots[n - 1].value;
      var cur := Matched(slots, q, n);
      if Matches(s, q) {
        assert cur == prev + [MatchRecord(n - 1, Columns(s, q, |q|))];
      } else {
        assert cur == prev;
      }
    }
  }

  /** The archetype indices the records name. */
  ghost function Indices(recs: seq<MatchRecord>): set<nat>
  {
    set k | 0 <= k < |recs| :: recs[k].archetypeIdx
  }

  /** The matched records name exactly the matching archetypes below `n`: none is missed. */
  lemma {:induction false} MatchedComplete(slots: seq<Option<ArchetypeStore>>, q: seq<nat>, n: nat)
    requires n <= |slots| && AllPresent(slots)
    ensures Indices(Matched(slots, q, n)) == MatchingSet(slots, q, n)
  {
    if n > 0 {
      MatchedComplete(slots, q, n - 1);
      var prev := Matched(slots, q, n - 1);
      var s := slots[n - 1].value;
      var cur := Matched(slots, q, n);
      if Matches(s, q) {
        var r := MatchRecord(n - 1, Columns(s, q, |q|));
        assert cur == prev + [r];
        assert Indices(cur) == Indices(prev) + {n - 1} by {
          forall x | x in Indices(cur) ensures x in Indices(prev) + {n - 1} {
            var k :| 0 <= k < |cur| && cur[k].archetypeIdx == x;
            if k < |prev| {
              assert prev[k] == cur[k];
            }
          }
          forall x | x in Indices(prev) ensures x in Indices(cur) {
            var k :| 0 <= k < |prev| && prev[k].archetypeIdx == x;
            assert cur[k] == prev[k];
          }
          assert cur[|prev|] == r;
        }
        assert MatchingSet(slots, q, n) == MatchingSet(slots, q, n - 1) + {n - 1};
      } else {
        assert cur == prev;
        assert MatchingSet(slots, q, n) == MatchingSet(slots, q, n - 1);
      }
    } else {
      assert MatchingSet(slots, q, n) == {};
    }
  }

  /** The run of a query is the back-to-back layout of the matched records. */
  lemma {:induction false} QueryRunIsEncoding(slots: seq<Option<ArchetypeStore>>, q: seq<nat>, n: nat)
    requires n <= |slots| && AllPresent(slots)
    ensures QueryRun(slots, q, n) == Encode(Matched(slots, q, n))
  {
    if n > 0 {
      QueryRunIsEncoding(slots, q, n - 1);
      var s := slots[n - 1].value;
      var prevRun := QueryRun(slots, q, n - 1);
      var prev := Matched(slots, q, n - 1);
      if Matches(s, q) {
        var r := MatchRecord(n - 1, Columns(s, q, |q|));
        assert QueryRun(slots, q, n) == prevRun + Record(n - 1, s, q);
        assert Record(n - 1, s, q) == EncodeRecord(r);
        assert Matched(slots, q, n) == prev + [r];
        EncodeAppend(prev, r);
      } else {
        assert QueryRun(slots, q, n) == prevRun + [];
        assert Matched(slots, q, n) == prev + [];
        assert prevRun + [] == prevRun && prev + [] == prev;
      }
    }
  }

  /**
    Decoding the run of a query with the stride `1 + |q|` gives back exactly
    the matched records: the encoding loses nothing and invents nothing.
   */
  lemma QueryRunDecodes(slots: seq<Option<ArchetypeStore>>, q: seq<nat>, n: nat)
    requires n <= |slots| && AllPresent(slots)
    ensures Decode(QueryRun(slots, q, n), |q|) == Some(Matched(slots, q, n))
  {
    QueryRunIsEncoding(slots, q, n);
    MatchedSound(slots, q, n);
    DecodeEncode(Matched(slots, q, n), |q|);
  }

  /** With no requested components every archetype matches, each as a one-number record. */
  lemma {:induction false} EmptyQueryMatchesAll(slots: seq<Option<ArchetypeStore>>, n: nat)
    requires n <= |slots| && AllPresent(slots)
    ensures MatchCount(slots, [], n) == n
    ensures QueryRun(slots, [], n) == seq(n, i => i)
  {
    if n > 0 {
      EmptyQueryMatchesAll(slots, n - 1);
      assert Matches(slots[n - 1].value, []);
      assert Record(n - 1, slots[n - 1].value, []) == [n - 1];
    }
  }
}
