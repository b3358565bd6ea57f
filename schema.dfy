/**
  The entities of the entity-component registry: per-component type
  metadata, the construction record of an archetype store, and the store
  itself with its column lookup and its (opaque) table.
 */
module Schema {
  import opened Wrappers
  import opened IntegerMap

  /** Memory layout of one component kind. */
  datatype TypeInfo = TypeInfo(alignment: nat, numBytes: nat)

  /**
    Handle on an archetype's columnar table. The table's storage is a
    collaborator; the handle records what it was created from: one
    `TypeInfo` per column, and the archetype id.
   */
  datatype Table = Table(types: seq<TypeInfo>, archetypeId: nat)

  /** `ArchetypeStore::Init`: everything a store is built from. */
  datatype StoreInit = StoreInit(
    componentOffset: nat,
    numComponents: nat,
    id: nat,
    types: seq<TypeInfo>,
    lookupInputs: seq<IntegerMapPair>)

  /**
    One registered archetype: its window `[componentOffset,
    componentOffset + numComponents)` into the registry's flat component
    list, its table, and the map from component id to column index.
   */
  datatype ArchetypeStore = ArchetypeStore(
    componentOffset: nat,
    numComponents: nat,
    tbl: Table,
    columnLookup: map<nat, nat>)

  /**
    The `ArchetypeStore(Init &&)` constructor: the window is copied, the
    table is created over the type list, and the column lookup holds exactly
    the keys of the lookup inputs, each (for distinct keys) with its value.
   */
  function NewStore(init: StoreInit): (s: ArchetypeStore)
    ensures s.componentOffset == init.componentOffset && s.numComponents == init.numComponents
    ensures s.tbl.types == init.types && s.tbl.archetypeId == init.id
    ensures s.columnLookup.Keys == KeysOf(init.lookupInputs)
    ensures DistinctKeys(init.lookupInputs) ==>
      forall i :: 0 <= i < |init.lookupInputs| ==>
        s.columnLookup[init.lookupInputs[i].key] == init.lookupInputs[i].value
  {
    ArchetypeStore(
      init.componentOffset,
      init.numComponents,
      Table(init.types, init.id),
      Build(init.lookupInputs))
  }

  /** The lookup input of an archetype: component `components[i]` sits in column `i`. */
  function ColumnPairs(components: seq<nat>): (pairs: seq<IntegerMapPair>)
    ensures |pairs| == |components|
    ensures forall i :: 0 <= i < |pairs| ==> pairs[i] == IntegerMapPair(components[i], i)
  {
    seq(|components|, i requires 0 <= i < |components| => IntegerMapPair(components[i], i))
  }

  /** The column lookup an archetype with this ordered schema gets. */
  function ColumnLookup(components: seq<nat>): map<nat, nat>
  {
    Build(ColumnPairs(components))
  }

  /**
    The column lookup of a schema contains a component iff the component is
    in the schema, and every column is below the schema's size.
   */
  lemma ColumnLookupKeys(components: seq<nat>)
    ensures ColumnLookup(components).Keys == set c | c in components
    ensures forall c :: c in ColumnLookup(components) ==> ColumnLookup(components)[c] < |components|
  {
    var pairs := ColumnPairs(components);
    forall c | c in components ensures c in KeysOf(pairs) {
      var i :| 0 <= i < |components| && components[i] == c;
      assert pairs[i].key == c;
    }
  }

  /**
    For a schema without duplicates, column `i` belongs to `components[i]`,
    different components get different columns, and the columns used are
    exactly `0 .. |components| - 1`.
   */
  lemma ColumnLookupOfDistinct(components: seq<nat>)
    requires Distinct(components)
    ensures forall i :: 0 <= i < |components| ==> ColumnLookup(components)[components[i]] == i
    ensures forall c, d :: c in ColumnLookup(components) && d in ColumnLookup(components) && c != d ==>
      ColumnLookup(components)[c] != ColumnLookup(components)[d]
    ensures forall v :: v in ColumnLookup(components).Values <==> 0 <= v < |components|
  {
    var pairs := ColumnPairs(components);
    var m := ColumnLookup(components);
    assert DistinctKeys(pairs);
    forall c, d | c in m && d in m && c != d ensures m[c] != m[d] {
      assert IntegerMapPair(c, m[c]) in pairs && IntegerMapPair(d, m[d]) in pairs;
    }
    forall v | 0 <= v < |components| ensures v in m.Values {
      assert m[components[v]] == v;
    }
    forall v | v in m.Values ensures 0 <= v < |components| {
      var c :| c in m && m[c] == v;
      assert IntegerMapPair(c, v) in pairs;
    }
  }

  /**
    A store registered with the flat component list `flat`: its window lies
    inside the list, its table has one type per column, and its lookup is the
    one built from the window.
   */
  ghost predicate StoreWellFormed(s: ArchetypeStore, flat: seq<nat>)
  {
    && s.componentOffset + s.numComponents <= |flat|
    && |s.tbl.types| == s.numComponents
    && s.columnLookup == ColumnLookup(flat[s.componentOffset .. s.componentOffset + s.numComponents])
  }

  /** A store's schema as recovered from its window into the flat list. */
  function SchemaOf(s: ArchetypeStore, flat: seq<nat>): seq<nat>
    requires s.componentOffset + s.numComponents <= |flat|
  {
    flat[s.componentOffset .. s.componentOffset + s.numComponents]
  }

  /** Appending to the flat list never disturbs an existing store's window. */
  lemma WellFormedUnderAppend(s: ArchetypeStore, flat: seq<nat>, more: seq<nat>)
    requires StoreWellFormed(s, flat)
    ensures StoreWellFormed(s, flat + more)
    ensures SchemaOf(s, flat + more) == SchemaOf(s, flat)
  {
    assert (flat + more)[s.componentOffset .. s.componentOffset + s.numComponents]
        == flat[s.componentOffset .. s.componentOffset + s.numComponents];
  }

  /** The window just past the old end of the flat list is the appended run. */
  lemma AppendedWindow(flat: seq<nat>, more: seq<nat>)
    ensures (flat + more)[|flat| .. |flat| + |more|] == more
  {
  }

  /**
    A store whose window is a schema just appended to the flat list, with
    one type per component and that schema's column lookup, is well formed
    against the extended list.
   */
  lemma AppendedStoreWellFormed(s: ArchetypeStore, flat: seq<nat>, components: seq<nat>)
    requires s.componentOffset == |flat| && s.numComponents == |components|
    requires |s.tbl.types| == |components|
    requires s.columnLookup == ColumnLookup(components)
    ensures StoreWellFormed(s, flat + components)
  {
    var window := (flat + components)[s.componentOffset .. s.componentOffset + s.numComponents];
    AppendedWindow(flat, components);
    assert window == components;
    assert ColumnLookup(window) == ColumnLookup(components);
  }

  /** Every occupied slot of an archetype registry is well formed against the flat list. */
  ghost predicate RegistryWellFormed(stores: seq<Option<ArchetypeStore>>, flat: seq<nat>)
  {
    forall i :: 0 <= i < |stores| && stores[i].Some? ==> StoreWellFormed(stores[i].value, flat)
  }

  /**
    Installing a store well formed against the extended flat list into slot
    `id` of a well-formed registry (grown with empty slots when too short)
    keeps the registry well formed.
   */
  lemma RegistryInstall(stores: seq<Option<ArchetypeStore>>, flat: seq<nat>, more: seq<nat>,
                        id: nat, store: ArchetypeStore, stores': seq<Option<ArchetypeStore>>)
    requires RegistryWellFormed(stores, flat)
    requires StoreWellFormed(store, flat + more)
    requires id < |stores'| && stores'[id] == Some(store)
    requires forall j :: 0 <= j < |stores'| && j != id ==>
      stores'[j] == if j < |stores| then stores[j] else None
    ensures RegistryWellFormed(stores', flat + more)
  {
    forall j | 0 <= j < |stores'| && stores'[j].Some?
      ensures StoreWellFormed(stores'[j].value, flat + more)
    {
      if j != id {
        WellFormedUnderAppend(stores[j].value, flat, more);
      }
    }
  }
}
