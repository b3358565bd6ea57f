/**
  The registry and query compiler: `StateManager` holds the component
  registry, the flat list of every archetype's components, the archetype
  registry and the append-only query buffer, all updated in place.
 */
module State {
  import opened Wrappers
  import opened IntegerMap
  import opened Schema
  import opened QuerySpec

  /**
    The membership test of the query scan: true iff the archetype's lookup
    contains every requested component; the scan stops at the first miss.
   */
  method HasComponents(archetype: ArchetypeStore, components: seq<nat>) returns (hasComponents: bool)
    ensures hasComponents == Matches(archetype, components)
  {
    hasComponents := true;
    var componentIdx := 0;
    while componentIdx < |components|
      invariant 0 <= componentIdx <= |components|
      invariant forall j :: 0 <= j < componentIdx ==> components[j] in archetype.columnLookup
    {
      if !Exists(archetype.columnLookup, components[componentIdx]) {
        hasComponents := false;
        break;
      }
      componentIdx := componentIdx + 1;
    }
  }

  /**
    The scan of query compilation: visits every archetype slot in ascending
    order, counts those holding every requested component and collects, for
    each of them, its index followed by the column of each requested
    component.
   */
  method ScanArchetypes(stores: seq<Option<ArchetypeStore>>, components: seq<nat>)
    returns (matchingArchetypes: nat, queryIndices: seq<nat>)
    requires AllPresent(stores)
    ensures matchingArchetypes == MatchCount(stores, components, |stores|)
    ensures queryIndices == QueryRun(stores, components, |stores|)
  {
    queryIndices := [];
    matchingArchetypes := 0;
    var archetypeIdx := 0;
    var numArchetypes := |stores|;
    while archetypeIdx < numArchetypes
      invariant 0 <= archetypeIdx <= numArchetypes
      invariant matchingArchetypes == MatchCount(stores, components, archetypeIdx)
      invariant queryIndices == QueryRun(stores, components, archetypeIdx)
    {
      var archetype := stores[archetypeIdx].value;

      var hasComponents := HasComponents(archetype, components);

      if hasComponents {
        matchingArchetypes := matchingArchetypes + 1;
        ghost var before := queryIndices;
        queryIndices := queryIndices + [archetypeIdx];
        var componentIdx := 0;
        while componentIdx < |components|
          invariant 0 <= componentIdx <= |components|
          invariant queryIndices == before + [archetypeIdx] + Columns(archetype, components, componentIdx)
        {
          queryIndices := queryIndices + [Lookup(archetype.columnLookup, components[componentIdx])];
          componentIdx := componentIdx + 1;
        }
        assert queryIndices == before + Record(archetypeIdx, archetype, components);
      }
      archetypeIdx := archetypeIdx + 1;
    }
  }

  class StateManager {
    /** `component_infos_`: type metadata indexed by component id. */
    var componentInfos: seq<TypeInfo>
    /** `archetype_components_`: every registered archetype's components, back to back. */
    var archetypeComponents: seq<nat>
    /** `archetype_stores_`: one optional store per archetype id. */
    var archetypeStores: seq<Option<ArchetypeStore>>
    /** `query_data_`: the shared, append-only query buffer. */
    var queryData: seq<nat>

    /** Every registered store is well formed with respect to the flat component list. */
    ghost predicate Valid()
      reads this
    {
      RegistryWellFormed(archetypeStores, archetypeComponents)
    }

    constructor ()
      ensures Valid()
      ensures componentInfos == [] && archetypeComponents == []
      ensures archetypeStores == [] && queryData == []
    {
      componentInfos := [];
      archetypeComponents := [];
      archetypeStores := [];
      queryData := [];
    }

    /**
      Records the layout of component `id`, growing the registry to `id + 1`
      entries when it is too short. Slots created by the growth hold
      unspecified values; every other existing entry is kept, and an
      earlier entry for `id` is overwritten.
     */
    method RegisterComponent(id: nat, alignment: nat, numBytes: nat)
      requires Valid()
      modifies this
      ensures Valid()
      ensures |componentInfos| == if id < |old(componentInfos)| then |old(componentInfos)| else id + 1
      ensures componentInfos[id] == TypeInfo(alignment, numBytes)
      ensures forall j :: 0 <= j < |old(componentInfos)| && j != id ==> componentInfos[j] == old(componentInfos)[j]
      ensures archetypeComponents == old(archetypeComponents)
      ensures archetypeStores == old(archetypeStores) && queryData == old(queryData)
    {
      if id >= |componentInfos| {
        componentInfos := componentInfos + seq(id + 1 - |componentInfos|, _ => TypeInfo(0, 0));
      }
      componentInfos := componentInfos[id := TypeInfo(alignment, numBytes)];
    }

    /**
      Registers archetype `id` with the ordered schema `components`: the
      schema is appended to the flat list, and slot `id` (created, with empty
      slots before it, if the registry is too short) receives a store whose
      window is the appended run, whose table has the registered layout of
      each component in order, and whose lookup maps each component to its
      position in the schema.
     */
    method RegisterArchetype(id: nat, components: seq<nat>)
      requires Valid()
      requires forall i :: 0 <= i < |components| ==> components[i] < |componentInfos|
      modifies this
      ensures Valid()
      ensures archetypeComponents == old(archetypeComponents) + components
      ensures componentInfos == old(componentInfos) && queryData == old(queryData)
      ensures |archetypeStores| == if id < |old(archetypeStores)| then |old(archetypeStores)| else id + 1
      ensures forall j :: 0 <= j < |archetypeStores| && j != id ==>
        archetypeStores[j] == if j < |old(archetypeStores)| then old(archetypeStores)[j] else None
      ensures archetypeStores[id].Some?
      ensures archetypeStores[id].value.componentOffset == |old(archetypeComponents)|
      ensures archetypeStores[id].value.numComponents == |components|
      ensures archetypeStores[id].value.tbl.archetypeId == id
      ensures |archetypeStores[id].value.tbl.types| == |components|
      ensures forall i :: 0 <= i < |components| ==>
        archetypeStores[id].value.tbl.types[i] == componentInfos[components[i]]
      ensures archetypeStores[id].value.columnLookup == ColumnLookup(components)
    {
      var offset := |archetypeComponents|;
      var typeInfos, lookupInput := AppendSchema(components);

      if id >= |archetypeStores| {
        archetypeStores := archetypeStores + seq(id + 1 - |archetypeStores|, _ => None);
      }

      var store := NewStore(StoreInit(offset, |components|, id, typeInfos, lookupInput));
      archetypeStores := archetypeStores[id := Some(store)];

      AppendedStoreWellFormed(store, old(archetypeComponents), components);
      RegistryInstall(old(archetypeStores), old(archetypeComponents), components, id, store, archetypeStores);
    }

    /**
      The gathering loop of archetype registration: appends each component
      of the schema to the flat list, in order, and collects its registered
      layout and its lookup pair (component, position).
     */
    method AppendSchema(components: seq<nat>) returns (typeInfos: seq<TypeInfo>, lookupInput: seq<IntegerMapPair>)
      requires forall i :: 0 <= i < |components| ==> components[i] < |componentInfos|
      modifies this
      ensures archetypeComponents == old(archetypeComponents) + components
      ensures componentInfos == old(componentInfos)
      ensures archetypeStores == old(archetypeStores) && queryData == old(queryData)
      ensures |typeInfos| == |components|
      ensures forall k :: 0 <= k < |components| ==> typeInfos[k] == componentInfos[components[k]]
      ensures lookupInput == ColumnPairs(components)
    {
      typeInfos := [];
      lookupInput := [];
      var i := 0;
      while i < |components|
        invariant 0 <= i <= |components|
        invariant archetypeComponents == old(archetypeComponents) + components[..i]
        invariant componentInfos == old(componentInfos)
        invariant archetypeStores == old(archetypeStores) && queryData == old(queryData)
        invariant |typeInfos| == i
        invariant forall k :: 0 <= k < i ==> typeInfos[k] == componentInfos[components[k]]
        invariant lookupInput == ColumnPairs(components[..i])
      {
        var componentId := components[i];
        archetypeComponents := archetypeComponents + [componentId];
        typeInfos := typeInfos + [componentInfos[componentId]];
        lookupInput := lookupInput + [IntegerMapPair(componentId, i)];
        i := i + 1;
      }
      assert components[..i] == components;
    }

    /**
      Compiles the query `components`: scans every archetype slot in
      ascending order, counts those whose lookup contains every requested
      component and, for each of them, appends its index and the column of
      each requested component to the query buffer. Returns the match count
      and the buffer offset of the appended run; nothing else changes.
     */
    method MakeQuery(components: seq<nat>) returns (matchingArchetypes: nat, offset: nat)
      requires Valid()
      requires AllPresent(archetypeStores)
      modifies this
      ensures Valid()
      ensures componentInfos == old(componentInfos) && archetypeComponents == old(archetypeComponents)
      ensures archetypeStores == old(archetypeStores)
      ensures offset == |old(queryData)|
      ensures matchingArchetypes == MatchCount(archetypeStores, components, |archetypeStores|)
      ensures queryData == old(queryData) + QueryRun(archetypeStores, components, |archetypeStores|)
      ensures matchingArchetypes ==
        |SchemaMatchingSet(archetypeStores, archetypeComponents, components, |archetypeStores|)|
    {
      var queryIndices;
      matchingArchetypes, queryIndices := ScanArchetypes(archetypeStores, components);

      offset := |queryData|;
      queryData := queryData + queryIndices;
      MatchCountBySchema(archetypeStores, archetypeComponents, components, |archetypeStores|);
    }
  }
}
