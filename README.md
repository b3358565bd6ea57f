# Entity-component registry and GPU launch helpers, modelled in Dafny

This project models the core of an entity-component-system runtime in Dafny.

The **state manager** (`src/core/state.cpp`) has three parts:

- a component registry that records the memory layout of each component
  kind;
- an archetype registry, in which every archetype gets a store with its
  window into a flat list of component ids, a table handle and a column
  lookup (component id to column index);
- a query compiler that scans the archetypes, and for each one holding
  every requested component appends `[archetype index, column of each
  requested component…]` to a shared, append-only query buffer.

The state manager is a `class` whose fields the methods update in place.
Query results are specified by functions (`QuerySpec`) whose properties are
proved separately: the count, the layout, and that the records decode back
with the stride `1 + |q|`.

Two pieces of the GPU launcher (`src/mw_gpu/entry.cpp`) are modelled too:

- **Name building** for the user entry class. A qualified name `a::b::C`
  becomes a forward declaration `namespace a { namespace b { class C; } } `
  plus a mangling stub and two template name expressions. The builder is
  a method with the source's separator-scanning loop. It is proved equal to
  a declarative definition, and that definition is proved to invert
  qualification.
- **The kernel argument buffer.** The method runs the size pass and the
  copy pass over the argument types. Its layout is proved:
  - arguments are aligned and do not overlap;
  - the buffer covers the whole layout;
  - the two passes agree.

Modules:

- `Wrappers`: `Option` and `Result`.
- `IntegerMap`: the column lookup map, modelled by its observable behaviour.
- `Schema`: `TypeInfo`, the table handle, `ArchetypeStore::Init`, the store,
  and the well-formedness of a store against the flat list.
- `QuerySpec`: what a query means, and its encoding and decoding.
- `State`: the `StateManager` class.
- `Scenario`: a two-archetype walk-through and the "no deduplication"
  property.
- `EntryNames`: entry name building.
- `KernelArgs`: the launch-parameter buffer.

## Model

| member | source | states |
|---|---|---|
| State.StateManager.constructor | src/core/state.cpp:12-17 | All four containers start empty and the (empty) registry is well formed |
| Schema.NewStore | src/core/state.cpp:19-33 | The store copies the window and the table inputs; its lookup holds exactly the input keys, each with its paired value when the keys are distinct |
| IntegerMap.ExistsOfBuild | src/core/state.cpp:105 | `exists(k)` on a built lookup holds exactly for the keys of its input pairs |
| IntegerMap.LookupOfBuild | src/core/state.cpp:122 | `m[k]` is only applied to a present key and returns a value the input paired with `k`; with distinct keys, the key's own value |
| IntegerMap.Build | src/core/state.cpp:31 | The built map has exactly the input keys; every entry is an input pair; with distinct keys every key maps to its own value |
| State.StateManager.RegisterComponent | src/core/state.cpp:35-51 | The registry grows to `id + 1` only when too short; entry `id` becomes the new layout; every other old entry and every other field is unchanged; the registry stays well formed |
| State.StateManager.RegisterArchetype | src/core/state.cpp:53-88 | The schema is appended to the flat list. Slot `id` (the registry grown with empty slots when short) gets a store whose window is the appended run, whose table has each component's registered layout in order, and whose lookup is the schema's column lookup. Other slots and fields are unchanged and the registry stays well formed |
| State.StateManager.AppendSchema | src/core/state.cpp:61-71 | The gathering loop appends the schema to the flat list and collects the layouts in order and the (component, position) pairs |
| Schema.ColumnPairs | src/core/state.cpp:67-70 | Pair `i` of the lookup input is (component `i`, column `i`) |
| Schema.ColumnLookupKeys | src/core/state.cpp:67-70 | The lookup holds a component iff it is in the schema, and every column is below the schema size |
| Schema.ColumnLookupOfDistinct | src/core/state.cpp:67-70 | Without duplicates, component `i` maps to column `i`, columns are pairwise different and are exactly `0 .. n-1` |
| Schema.WellFormedUnderAppend | src/core/state.cpp:64 | Appending to the flat list leaves every registered store well formed, with the same schema |
| Schema.AppendedStoreWellFormed | src/core/state.cpp:55-87 | A store whose window is the just-appended schema, with one type per component and that schema's lookup, is well formed |
| Schema.RegistryInstall | src/core/state.cpp:75-87 | Installing such a store at `id`, with gap slots empty, keeps the whole registry well formed |
| State.HasComponents | src/core/state.cpp:101-109 | The short-circuit loop returns true iff every requested component is in the archetype's lookup |
| State.StateManager.MakeQuery | src/core/state.cpp:90-132 | Returns the number of matching archetypes, which is the number of archetypes whose registered schema contains every requested component, and the old buffer length as offset. The buffer becomes the old buffer followed by the query run; nothing else changes and the registry stays well formed |
| State.ScanArchetypes | src/core/state.cpp:94-124 | The scan over all slots returns the match count and the query run |
| QuerySpec.MatchesIffInSchema | src/core/state.cpp:101-109 | For a registered store, the lookup test holds iff the store's schema window in the flat list contains every requested component |
| QuerySpec.MatchCountBySchema | src/core/state.cpp:96-115 | In a well-formed registry the match count is the number of archetypes whose registered components are a superset of the request |
| QuerySpec.Columns | src/core/state.cpp:119-123 | Column `j` of a matching archetype's record is the lookup of requested component `j` |
| QuerySpec.MatchCountIsSetSize | src/core/state.cpp:111-115 | The count is the number of archetype indices that hold every requested component |
| QuerySpec.QueryRunLength | src/core/state.cpp:115-123 | A run holds `1 + |q|` numbers per match |
| QuerySpec.EncodeAppend | src/core/state.cpp:117-123 | Laying out one more record appends exactly its numbers |
| QuerySpec.DecodeEncode | src/core/state.cpp:117-123 | Reading back records with a uniform column count gives the records that were laid out |
| QuerySpec.MatchedCount | src/core/state.cpp:111-117 | There is one record per matching archetype |
| QuerySpec.MatchedSound | src/core/state.cpp:97-123 | Every record names a matching archetype and carries its columns in request order; records are in strictly ascending archetype order |
| QuerySpec.MatchedComplete | src/core/state.cpp:97-117 | The records name exactly the matching archetypes; none is missed |
| QuerySpec.QueryRunIsEncoding | src/core/state.cpp:115-123 | The run is the back-to-back layout of the matched records |
| QuerySpec.QueryRunDecodes | src/core/state.cpp:115-129 | Decoding the run with stride `1 + |q|` gives exactly the matched records |
| QuerySpec.EmptyQueryMatchesAll | src/core/state.cpp:101-117 | With no requested components every archetype matches, each emitting only its index |
| Scenario.QueryTwice | src/core/state.cpp:126-129 | The same query issued twice appends two identical runs back to back, with no deduplication, and the buffer before them is untouched |
| Scenario.SingleLookup | src/core/state.cpp:67-70 | A one-component schema maps its component to column 0 |
| Scenario.PairLookup | src/core/state.cpp:67-70 | A two-component schema maps its components to columns 0 and 1 |
| Scenario.QueryB | src/core/state.cpp:97-123 | With {A} and {A, B} registered, querying {B} matches archetype 1 only and emits [1, 1] |
| Scenario.QueryAFirstSlot | src/core/state.cpp:97-123 | Scanning slot 0 for {A} emits [0, 0] |
| Scenario.QueryA | src/core/state.cpp:97-123 | Querying {A} matches both archetypes and emits [0, 0, 1, 0] |
| Scenario.QueryAB | src/core/state.cpp:97-123 | Querying {A, B} emits [1, 0, 1], with columns in request order |
| Scenario.TwoArchetypeScenario | src/core/state.cpp:35-132 | Registering A, B, {A} and {A, B} and then issuing the three queries returns those counts and runs |
| EntryNames.TrimLeadingSep | src/mw_gpu/entry.cpp:80-83 | One leading `::` is removed, and the name is left alone when it does not start with one |
| EntryNames.Find | src/mw_gpu/entry.cpp:90 | A found position is a separator at or after the start |
| EntryNames.FindIsFirst | src/mw_gpu/entry.cpp:90 | The found separator is the leftmost one, and none is found only when there is none |
| EntryNames.GetUserEntries | src/mw_gpu/entry.cpp:78-123 | The builder returns exactly the declarative result `UserEntriesOf`, including the fatal error for an empty class name |
| EntryNames.OpenNamespaces | src/mw_gpu/entry.cpp:85-101 | The scan opens one namespace per separator, in order, counts them, and stops where the class name starts |
| EntryNames.CloseNamespaces | src/mw_gpu/entry.cpp:110-112 | One closing brace is appended per opened namespace |
| EntryNames.SplitDone | src/mw_gpu/entry.cpp:90-101 | With no separator left, the rest of the name is the class name |
| EntryNames.OpensSnoc | src/mw_gpu/entry.cpp:93-95 | Opening one more namespace appends `namespace X { ` |
| EntryNames.SplitRejoins | src/mw_gpu/entry.cpp:86-101 | Joining the cut namespaces and the class with `::` gives back the name |
| EntryNames.SplitSegments | src/mw_gpu/entry.cpp:86-101 | No cut segment contains a separator, and no namespace ends in a colon |
| EntryNames.FindAfterSegment | src/mw_gpu/entry.cpp:90 | In `seg::tail`, with a segment that is separator-free and not ending in `:`, the first separator is right after the segment |
| EntryNames.FindFrom | src/mw_gpu/entry.cpp:90 | A separator with none before it is the one found |
| EntryNames.FindNone | src/mw_gpu/entry.cpp:90 | A string without separators has none to find |
| EntryNames.SplitOfQualified | src/mw_gpu/entry.cpp:86-101 | Cutting a well-formed qualified name gives back its namespaces and class |
| EntryNames.SplitSuffix | src/mw_gpu/entry.cpp:86-101 | Scanning from an offset cuts exactly as scanning the suffix from its start |
| EntryNames.FindSuffix | src/mw_gpu/entry.cpp:90 | A search in a suffix finds the same separator, shifted by the offset |
| EntryNames.EntriesOfQualifiedName | src/mw_gpu/entry.cpp:85-123 | A well-formed qualified name with a class and not starting with `::` yields its namespace openings, the class, one brace per namespace, the stub, and both names built from the name |
| EntryNames.LeadingSeparatorIgnored | src/mw_gpu/entry.cpp:80-83 | `::X` builds exactly what `X` builds when `X` does not itself start with `::` |
| EntryNames.EmptyClassIsFatal | src/mw_gpu/entry.cpp:101-104 | A name whose scan leaves no class name is rejected with the fatal message |
| EntryNames.SucceedsIffClassNamed | src/mw_gpu/entry.cpp:101-104 | The builder succeeds iff the class name after the scan is non-empty, and then the cuts rejoin to the trimmed name |
| EntryNames.NestedClassParts | src/mw_gpu/entry.cpp:86-101 | `a::b::C` is cut into namespaces `a`, `b` and the class `C` |
| EntryNames.NestedClassExample | src/mw_gpu/entry.cpp:78-123 | `a::b::C` declares `C` inside `a` and `b`, and the names are the two templates applied to `a::b::C` |
| EntryNames.NestedClassLeadingSeparator | src/mw_gpu/entry.cpp:80-83 | `::a::b::C` builds what `a::b::C` builds |
| EntryNames.TrailingSeparatorExample | src/mw_gpu/entry.cpp:101-104 | `a::`, the empty name and `::` are all rejected |
| KernelArgs.RoundUp | src/mw_gpu/entry.cpp:339-340 | The result is the least multiple of the alignment that is at least the input |
| KernelArgs.DivideRoundUp | src/mw_gpu/entry.cpp:363-364 | The result is the least number of units covering the input |
| KernelArgs.SizeArgs | src/mw_gpu/entry.cpp:336-344 | The size pass returns the packed end of all arguments |
| KernelArgs.CopyArgs | src/mw_gpu/entry.cpp:371-385 | The copy pass places each argument at its placement past the argument start and ends at the packed end |
| KernelArgs.MakeKernelArgBuffer | src/mw_gpu/entry.cpp:322-395 | With no arguments: six slots holding byte count 0, the tags, a null pointer and the size pointer addressing slot 0. Otherwise: the launch words in slots 0-4, the byte count in slot 5, each argument at its aligned offset, and the last argument ending exactly at the declared byte count |
| KernelArgs.HeaderLayout | src/mw_gpu/entry.cpp:352-359 | The byte count sits right after the five launch words. The argument region starts after it, aligned for the first argument and less than one alignment step later |
| KernelArgs.PackedEndMonotone | src/mw_gpu/entry.cpp:336-344 | The running offset never decreases |
| KernelArgs.PlacementAligned | src/mw_gpu/entry.cpp:377-378 | Each argument starts aligned for its type, at or after the previous end and less than one alignment step later |
| KernelArgs.PlacementsDisjoint | src/mw_gpu/entry.cpp:374-385 | Each argument ends before any later one starts |
| KernelArgs.PlacementWithinPacked | src/mw_gpu/entry.cpp:336-385 | Every argument lies inside the packed region the byte count declares |
| KernelArgs.BufferHoldsArguments | src/mw_gpu/entry.cpp:352-369 | The slots cover the whole layout, with less than one slot of slack. The launch words, the byte count and the arguments occupy disjoint ranges, and there are more than five slots |
| KernelArgs.UnpaddedPacking | src/mw_gpu/entry.cpp:336-344 | Byte-aligned arguments pack with no gaps: the byte count is the sum of the sizes |
| KernelArgs.PackedAtLeastSizes | src/mw_gpu/entry.cpp:336-344 | Padding never shrinks the packing |
| KernelArgs.CountAndPointerExample | src/mw_gpu/entry.cpp:336-364 | A 4-byte count then an 8-byte pointer: 16 bytes, the pointer at 8, the arguments from byte 48, eight slots |

## Left out

- `include/madrona/geo.hpp`, and everything in `entry.cpp` outside name building and argument-buffer layout, are not part of this model. That includes compiling the stub with NVRTC, looking up the mangled names, loading modules, launching kernels and the driver calls.
- The table's storage, allocation, `TmpAlloc`, `memcpy` and the static id counters (`state.cpp:134-135`) are not modelled. The table is a handle that records its column types and archetype id.
- `utils.hpp` is not part of this model. `roundUp` and `divideRoundUp` are modelled as the least multiple at or above the input and the ceiling quotient.
- Integer widths: ids, offsets and counts are unbounded naturals. `uint32_t` wrap-around in the query buffer, the flat list and the argument sizes is not modelled. The `(uint32_t)i` casts are the identity here.
- Pointers and `size_t` are 8 bytes wide (a 64-bit target). Argument values are not modelled, only their sizes and alignments, so the slots holding argument bytes are `Untracked`. Launch-parameter tags are symbolic values.
- `makeQuery`'s `num_components` parameter is the length of the component sequence, and its `offset` out-pointer is a return value.
- Concurrency: none of the modelled code synchronises, and the model is sequential.
- IntegerMap.Build: the construction takes the last pair for a repeated key. The contract leaves open which value a repeated key gets, because the original hash map's behaviour on duplicate keys is not part of this model.
- State.StateManager.RegisterComponent: slots created by growing the registry are left unconstrained. The comment at `state.cpp:39-42` asks for default initialization, but the no-op initializer at `state.cpp:44` leaves the new `TypeInfo` slots indeterminate. The model follows the code.
- State.StateManager.RegisterArchetype: it requires every component id to be inside the component registry, because `state.cpp:65` reads the entry unchecked. A duplicate component in the schema is allowed. What its lookup then holds is given by `Schema.ColumnLookupKeys`, and the column of each component is stated only for duplicate-free schemas (`Schema.ColumnLookupOfDistinct`).
- State.StateManager.MakeQuery: it requires every archetype slot to hold a store, because `state.cpp:99` dereferences each slot unchecked. Slots left empty by an id gap (`state.cpp:73-78`) are dereferenced like any other slot, not skipped.
- EntryNames.GetUserEntries: the fatal error is modelled as a `Failure` result carrying its message, and the process abort is not modelled. For names shorter than two characters, the reads of `entry_view[0]` and `entry_view[1]` are modelled as "not a separator".
