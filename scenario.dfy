/**
  The registry driven the way engine setup code drives it: components and
  archetypes registered first, queries compiled afterwards.
 */
module Scenario {
  import opened Wrappers
  import opened Schema
  import opened QuerySpec
  import opened State

  /**
    Issuing the same query twice with no registration in between emits two
    runs of identical content, the second directly after the first; there
    is no deduplication, and the buffer before the first run is untouched.
   */
  method QueryTwice(sm: StateManager, components: seq<nat>)
    returns (count1: nat, offset1: nat, count2: nat, offset2: nat)
    requires sm.Valid() && AllPresent(sm.archetypeStores)
    modifies sm
    ensures count1 == count2
    ensures offset1 == |old(sm.queryData)|
    ensures offset2 == offset1 + count1 * (1 + |components|) && offset2 <= |sm.queryData|
    ensures sm.queryData[..offset1] == old(sm.queryData)
    ensures sm.queryData[offset1..offset2] == sm.queryData[offset2..]
  {
    count1, offset1 := sm.MakeQuery(components);
    count2, offset2 := sm.MakeQuery(components);
    QueryRunLength(sm.archetypeStores, components, |sm.archetypeStores|);
  }

  /** The lookup of a one-component schema `[c]`. */
  lemma SingleLookup(c: nat)
    ensures ColumnLookup([c]) == map[c := 0]
  {
    ColumnLookupKeys([c]);
    ColumnLookupOfDistinct([c]);
  }

  /** The lookup of a two-component schema `[c, d]` with `c != d`. */
  lemma PairLookup(c: nat, d: nat)
    requires c != d
    ensures ColumnLookup([c, d]) == map[c := 0, d := 1]
  {
    ColumnLookupKeys([c, d]);
    ColumnLookupOfDistinct([c, d]);
  }

  /** Two registered archetypes: slot 0 with schema {A}, slot 1 with schema {A, B}, A = 0 and B = 1. */
  predicate TwoArchetypes(stores: seq<Option<ArchetypeStore>>)
  {
    && |stores| == 2 && stores[0].Some? && stores[1].Some?
    && stores[0].value.columnLookup == map[0 := 0]
    && stores[1].value.columnLookup == map[0 := 0, 1 := 1]
  }

  /** Querying {B} matches archetype 1 only: its index and B's column. */
  lemma QueryB(stores: seq<Option<ArchetypeStore>>)
    requires TwoArchetypes(stores)
    ensures AllPresent(stores)
    ensures MatchCount(stores, [1], 2) == 1 && QueryRun(stores, [1], 2) == [1, 1]
  {
    var q := [1];
    assert q[0] !in stores[0].value.columnLookup;
    assert Matches(stores[1].value, q);
    assert Columns(stores[1].value, q, 1) == [1];
    assert MatchCount(stores, q, 1) == 0 && QueryRun(stores, q, 1) == [];
    assert Record(1, stores[1].value, q) == [1, 1];
  }

  /** Scanning only slot 0 for {A} emits its record [0, 0]. */
  lemma QueryAFirstSlot(stores: seq<Option<ArchetypeStore>>)
    requires TwoArchetypes(stores)
    ensures AllPresent(stores)
    ensures MatchCount(stores, [0], 1) == 1 && QueryRun(stores, [0], 1) == [0, 0]
  {
    var q := [0];
    assert Matches(stores[0].value, q);
    assert Columns(stores[0].value, q, 1) == [0];
    assert Record(0, stores[0].value, q) == [0, 0];
    assert QueryRun(stores, q, 0) == [];
  }

  /** Querying {A} matches both archetypes, each with A in column 0. */
  lemma QueryA(stores: seq<Option<ArchetypeStore>>)
    requires TwoArchetypes(stores)
    ensures AllPresent(stores)
    ensures MatchCount(stores, [0], 2) == 2 && QueryRun(stores, [0], 2) == [0, 0, 1, 0]
  {
    var q := [0];
    QueryAFirstSlot(stores);
    assert Matches(stores[1].value, q);
    assert Columns(stores[1].value, q, 1) == [0];
    assert Record(1, stores[1].value, q) == [1, 0];
  }

  /** Querying {A, B} matches archetype 1 only, with the columns in request order. */
  lemma QueryAB(stores: seq<Option<ArchetypeStore>>)
    requires TwoArchetypes(stores)
    ensures AllPresent(stores)
    ensures MatchCount(stores, [0, 1], 2) == 1 && QueryRun(stores, [0, 1], 2) == [1, 0, 1]
  {
    var q := [0, 1];
    assert q[1] !in stores[0].value.columnLookup;
    assert Matches(stores[1].value, q);
    assert Columns(stores[1].value, q, 2) == [0, 1];
    assert MatchCount(stores, q, 1) == 0 && QueryRun(stores, q, 1) == [];
    assert Record(1, stores[1].value, q) == [1, 0, 1];
  }

  /**
    Components A (id 0) and B (id 1), both 4-byte aligned and 4 bytes long;
    archetype 0 has schema {A}, archetype 1 has schema {A, B}. Querying {B}
    matches archetype 1 only and emits [1, 1]; querying {A} matches both and
    emits [0, 0, 1, 0]; querying {A, B} emits [1, 0, 1].
   */
  method TwoArchetypeScenario() returns (countB: nat, runB: seq<nat>, countA: nat, runA: seq<nat>,
                                         countAB: nat, runAB: seq<nat>)
    ensures countB == 1 && runB == [1, 1]
    ensures countA == 2 && runA == [0, 0, 1, 0]
    ensures countAB == 1 && runAB == [1, 0, 1]
  {
    var sm := new StateManager();
    sm.RegisterComponent(0, 4, 4);
    sm.RegisterComponent(1, 4, 4);
    sm.RegisterArchetype(0, [0]);
    sm.RegisterArchetype(1, [0, 1]);

    SingleLookup(0);
    PairLookup(0, 1);
    var stores := sm.archetypeStores;
    assert TwoArchetypes(stores);
    QueryB(stores);
    QueryA(stores);
    QueryAB(stores);

    var offset;
    countB, offset := sm.MakeQuery([1]);
    runB := sm.queryData[offset..];

    countA, offset := sm.MakeQuery([0]);
    runA := sm.queryData[offset..];

    countAB, offset := sm.MakeQuery([0, 1]);
    runAB := sm.queryData[offset..];
  }
}
