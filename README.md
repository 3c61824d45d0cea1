# The object model of the AMD code object manager, in Dafny

This project models the core of the code object manager's (comgr) object
model, as declared in `lib/comgr/src/comgr.h`:

- `setCStr`: the owned, zero-terminated copy of a byte string (`cstr.dfy`).
- The opaque handles (`amd_comgr_data_t`, `amd_comgr_data_set_t`,
  `amd_comgr_action_info_t`, `amd_comgr_metadata_node_t`,
  `amd_comgr_symbol_t`) that the C interface hands out for the five kinds of
  object, and the `convert` pairs that translate them (`handles.dfy`). The
  C++ code reinterprets an address as a `uint64`. Here each kind of object
  has an arena that maps every live object to a distinct nonzero handle and
  back. The handle 0 stands for the null pointer.
- The reference-counted `DataObject`, `ScopedDataObjectReleaser`, `DataSet`,
  `DataAction`, `DataMeta` and `DataSymbol` (`comgr.dfy`). They are classes
  whose methods update their fields in place. A `Store` holds the C heap and
  the five arenas.
- The `SmallSetVector` behind `DataSet::DataObjects`, as a sequence without
  duplicates that keeps insertion order (`set_vector.dfy`).
- `parseTargetIdentifier` (`target_id.dfy`). It parses the
  `Arch-Vendor-OS-Environ-Processor[:Feature...]` string of the "Code Object
  Target Identification" section of the AMDGPU backend user guide of LLVM.
  The result holds borrowed slices, written as index pairs into the input.

The C heap is a set of live byte blocks (`CStr.CHeap`). `malloc` adds a
block and `free` removes one, so "the old buffer is freed" is a statement
about that set.

A data object is created only by `Comgr.DataObject.Allocate`, the only
`Comgr` method that registers a data object. It is destroyed only by
`Comgr.DataObject.Release`, the only `Comgr` method that unregisters one.
The other `Comgr` methods whose `modifies` clause names the data arena
(the releaser, the data set's destructor and the shared-object scenario)
change it only by calling `Release`. Dafny has no private
constructors, so this is where the model states the header's "allocate only,
destroy only by release" rule.

The bodies of the header's functions are in `comgr.cpp`, which is not part
of this model. The model states the contracts the header documents and
follows its inline bodies. Where the header shows no body, the model takes
the library's documented design:
- The destructor of a data set releases each member once.
- Adding an object to a set takes one reference when, and only when, the
  object was not yet in it.
- An object shared by two sets lives until both are destroyed.
- A parse error reports `InvalidInput`.

## Model

| member | source | states |
|---|---|---|
| CStr.SetCStr | lib/comgr/src/comgr.h:52-60 | the destination becomes a fresh buffer holding exactly `src` followed by one zero byte (embedded zeros kept); the reported size is `|src|`, one less than the buffer length; the heap loses the old buffer (if any) and gains the new one |
| Handles.Arena.ToHandle | lib/comgr/src/comgr.h:103-113 | `convert(T *)`: the handle is 0 exactly for null, and the handle of a live object denotes that object |
| Handles.Arena.FromHandle | lib/comgr/src/comgr.h:115-117 | `convert(handle)`: null exactly for handle 0, otherwise the live object whose handle it is |
| Handles.Arena.ObjectRoundTrip | lib/comgr/src/comgr.h:103-117 | converting a live object (or null) to its handle and back gives it back; one arena per kind covers the pairs at 161-175, 188-202, 216-230 and 242-256 too |
| Handles.Arena.HandleRoundTrip | lib/comgr/src/comgr.h:103-117 | converting a valid handle to its object and back gives the same handle |
| Handles.Arena.HandlesDistinct | lib/comgr/src/comgr.h:103-107 | two distinct live objects of one kind never share a handle |
| Handles.Arena.Register | lib/comgr/src/comgr.h:97-98 | a new object receives a handle never given out before, and the arena keeps its invariant; when the handle space is used up nothing changes and 0 comes back |
| Handles.Arena.Unregister | lib/comgr/src/comgr.h:100-101 | a destroyed object loses its handle; no other object or handle changes, and the counter is untouched, so the handle is never reused |
| SetVector.Inserted | lib/comgr/src/comgr.h:177 | `insert(x)`: the old elements stay in front in order; `x` is present afterwards; the multiset grows by `x` exactly when `x` was absent; no duplicates are introduced |
| SetVector.InsertionOrder | lib/comgr/src/comgr.h:177 | inserting a sequence of elements gives each distinct element once, ordered by its first occurrence in the input |
| SetVector.InsertDistinct | lib/comgr/src/comgr.h:177 | inserting distinct elements gives them back in the order inserted |
| SetVector.InsertIdempotent | lib/comgr/src/comgr.h:177 | inserting an element already present changes nothing |
| TargetId.ParseTargetIdentifier | lib/comgr/src/comgr.h:75-83 | the only failure status is `InvalidInput` |
| TargetId.FindFirst | lib/comgr/src/comgr.h:75-83 | the search for a separator stops at its first occurrence |
| TargetId.SplitJoin | lib/comgr/src/comgr.h:75-83 | the `:`-pieces of the fifth component are slices of the input and join back with `:` to exactly that component |
| TargetId.ParseRender | lib/comgr/src/comgr.h:62-83 | every component of a successful parse is a slice of the input, and joining `Arch-Vendor-OS-Environ-Processor` followed by `:Feature` for each feature reproduces the input |
| TargetId.ParseFailsIff | lib/comgr/src/comgr.h:75-83 | parsing fails exactly when the input holds fewer than four `-` (fewer than five components) |
| TargetId.FormatParse | lib/comgr/src/comgr.h:62-83 | a string built from components free of their delimiters parses to the slices where each component was placed, features in order |
| TargetId.FormatTexts | lib/comgr/src/comgr.h:62-73 | those slices read back exactly the components they were built from |
| TargetId.ExampleWithFeatures | lib/comgr/src/comgr.h:62-83 | `amdgcn-amd-amdhsa--gfx908:sramecc+:xnack-` parses with an empty environment, processor `gfx908` and two features |
| TargetId.ExampleWithoutFeatures | lib/comgr/src/comgr.h:62-83 | without a `:` the fifth component is all processor and there are no features |
| TargetId.ExampleTooFewComponents | lib/comgr/src/comgr.h:75-83 | `a-b-c` is rejected with `InvalidInput` |
| Comgr.KindValue | lib/comgr/src/comgr.h:125 | every named data kind lies strictly above the "undefined" sentinel and no further than the last enumerator |
| Comgr.IsDataKindValid | lib/comgr/src/comgr.h:92-93 | `isDataKindValid`: true exactly for the values of the named enumerators (given the contiguous stand-in values; see "Left out") |
| Comgr.ValidKindIsKnown | lib/comgr/src/comgr.h:92-93 | the range test strictly above the "undefined" sentinel and up to the last enumerator holds exactly for the values of the named enumerators |
| Comgr.DataObject.HasValidDataKind | lib/comgr/src/comgr.h:119 | reads the object only, equals `isDataKindValid` of the object's kind, and is true exactly when the kind is one of the named enumerators |
| Comgr.DataObject.constructor | lib/comgr/src/comgr.h:132-139 | a new object holds one reference, the given kind, no data, no name and no symbol |
| Comgr.DataObject.Allocate | lib/comgr/src/comgr.h:97-98 | a fresh object with one reference and the given kind; it receives the next handle, one never given out before, while every object already live keeps its handle and the handle counter advances by one; null, with nothing changed, when no handle is left |
| Comgr.DataObject.Release | lib/comgr/src/comgr.h:100-101 | the count drops by exactly one; the object is destroyed exactly when it was 1: its handle dies and its data and name buffers are freed; otherwise no field, handle or heap block changes; the handle counter never moves back, so later handles are still new |
| Comgr.DataObject.SetName | lib/comgr/src/comgr.h:121 | the name becomes a fresh zero-terminated copy and the old name buffer is freed; every other field is unchanged |
| Comgr.DataObject.SetData | lib/comgr/src/comgr.h:122 | the data becomes a fresh zero-terminated copy with `Size` its length, and the old buffer is freed; every other field is unchanged |
| Comgr.ScopedDataObjectReleaser.constructor | lib/comgr/src/comgr.h:148 | the releaser holds the given object and has not released it yet |
| Comgr.ScopedDataObjectReleaser.FromHandle | lib/comgr/src/comgr.h:150-151 | the releaser holds the object the handle denotes |
| Comgr.ScopedDataObjectReleaser.EndScope | lib/comgr/src/comgr.h:153 | can run only once, and releases the object exactly once, with the effects of `release`: the count drops by one; on destruction the handle dies and both buffers are freed; otherwise no field, handle or heap block changes; the handle counter is untouched |
| Comgr.DataSet.Insert | lib/comgr/src/comgr.h:177 | the members become `Inserted(old members, x)`; reports whether `x` was absent |
| Comgr.DataSet.Add | lib/comgr/src/comgr.h:177 | the set stays duplicate-free over live objects; the object gains one reference exactly when it was not a member; none of its other fields change |
| Comgr.DataSet.constructor | lib/comgr/src/comgr.h:158 | a new set has no members |
| Comgr.DataSet.Destroy | lib/comgr/src/comgr.h:159 | every member loses exactly one reference; those whose last reference it was lose their handles and buffers, and nothing else is freed; every other member stays valid with its kind, data, name, size and symbol unchanged; the set's own handle dies; a live object loses its handle exactly when it is a member held only once; neither the object nor the set handle counter moves back |
| Comgr.DataSet.ReleaseMembers | lib/comgr/src/comgr.h:159 | the loop of the destructor: one release per member, in order, with the same effect on the members, handles, heap and handle counter as stated for `Destroy` |
| Comgr.LastHoldersAre | lib/comgr/src/comgr.h:159 | the objects whose handles a set's destruction removes are exactly the members held only once |
| Comgr.FreedByAre | lib/comgr/src/comgr.h:159 | the buffers a set's destruction frees are exactly the data and name buffers of the members held only once |
| Comgr.DestroySharing | lib/comgr/src/comgr.h:159 | destroying a set whose sole member has another reference leaves that member live with its kind, data, name, size and symbol unchanged, and no data-object handle or heap block goes; only the set's own handle dies |
| Comgr.DestroyLast | lib/comgr/src/comgr.h:159 | destroying a set that holds the last reference to its sole member removes that member's handle and frees its buffers |
| Comgr.SharedObjectLifetime | lib/comgr/src/comgr.h:100-101 | an object added to two sets and released once by its creator survives the destruction of the first set unchanged, and is destroyed, with its buffers freed, only by the destruction of the second |
| Comgr.Store.NewDataSet | lib/comgr/src/comgr.h:156-158 | a fresh empty set with the next handle, one never given out before, while every live one keeps its handle and the counter advances by one, or null with nothing changed when no handle is left |
| Comgr.DataAction.constructor | lib/comgr/src/comgr.h:185 | a new action info has no ISA name, options or path, language none and logging off |
| Comgr.Store.NewDataAction | lib/comgr/src/comgr.h:185 | a fresh action info in that initial state with the next handle, one never given out before, while every live one keeps its handle and the counter advances by one, or null when no handle is left |
| Comgr.DataAction.SetIsaName | lib/comgr/src/comgr.h:204 | the ISA name becomes a fresh zero-terminated copy and the old one is freed; the other fields are unchanged |
| Comgr.DataAction.SetActionOptions | lib/comgr/src/comgr.h:205 | the options become a fresh zero-terminated copy and the old ones are freed; the other fields are unchanged |
| Comgr.DataAction.SetActionPath | lib/comgr/src/comgr.h:206 | the path becomes a fresh zero-terminated copy and the old one is freed; the other fields are unchanged |
| Comgr.DataMeta.constructor | lib/comgr/src/comgr.h:234-235 | a metadata node records which of the two encodings backs it |
| Comgr.Store.NewDataMeta | lib/comgr/src/comgr.h:215-230 | a fresh metadata node with the next handle, one never given out before, while every live one keeps its handle and the counter advances by one, or null when no handle is left |
| Comgr.DataSymbol.constructor | lib/comgr/src/comgr.h:239 | a symbol wraps the given symbol context |
| Comgr.Store.NewDataSymbol | lib/comgr/src/comgr.h:238-256 | a fresh symbol wrapping the context with the next handle, one never given out before, while every live one keeps its handle and the counter advances by one, or null when no handle is left |

## Left out

- `lib/comgr/test/metadata_tp_test.c` is not part of this model. It is a program that prints what the public C interface returns, with no logic of its own.
- `ensureLLVMInitialized` and `clearLLVMOptions` are not modelled. They act on LLVM's process-wide state in a foreign library.
- `DataMeta::getMetadataKind` and the YAML and MessagePack trees are not modelled. They depend on yaml-cpp and the msgpack node types. A node only records which encoding backs it.
- `DataObject::setMetadata` is not modelled. Its body is in `comgr.cpp`, and the header declares no field that would hold the metadata.
- Comgr.DataAction.constructor: starting with language none and logging off is the model's choice. `lib/comgr/src/comgr.h:185` only declares the constructor, and its body is in `comgr.cpp`. The null ISA name, options and path are what the setters need, since `setCStr` frees the old buffer whenever it is not null.
- The contents of `SymbolContext` are not modelled. The destructors of `DataSymbol` and `DataAction` are not modelled either: their bodies are not in the header.
- Comgr.DataObject.Release: does not model the deletion of `DataSym` when the object is destroyed. Its data and name buffers are freed, and the memory of the object itself is not tracked beyond its handle.
- Handles.Arena.Unregister: real addresses can be reused after `delete`; the arena never reuses a handle, which is stronger than the C++ code guarantees.
- Pointer-to-integer reinterpretation is replaced by the arenas. A handle that is neither 0 nor live has undefined behaviour in the C++ code, so `FromHandle` requires a valid one.
- CStr.SetCStr: always returns `Success`. Allocation failure has no documented trigger. The only failure modelled is running out of handles, which stands for a failed `new` in `Allocate` and the other constructors.
- CStr.SetCStr: `src` is a value, so a `Src` that aliases the old `Dest` buffer is not modelled.
- Comgr.DataSet.Add: does not model overflow of the C `int` reference count; counts are unbounded integers.
- The reference count is not atomic in the C++ code, and the model is sequential. Concurrent release is out of scope.
- The values of `amd_comgr_data_kind_t` come from `amd_comgr.h`, which is not part of this model. The model takes the "undefined" sentinel as 0 and the named kinds as 1 to 9.
- Comgr.IsDataKindValid: "valid exactly for the named enumerators" holds because the stand-in values are contiguous. If the real enumeration has a gap, the range test also accepts a value that no enumerator names.
- `Comgr.DataObject.Allocate` accepts any kind. This is the model's choice: the body of `allocate` is in `comgr.cpp`, and its declaration returns a bare pointer, so it cannot report a status. The rejection of an unknown kind with `InvalidArgument` belongs to the C interface functions that call it, which are not part of this model.
- The parser's error status `InvalidInput` is the model's choice. The header documents no failure status for `parseTargetIdentifier`, and `amd_comgr.h` and `comgr.cpp` are not part of this model. The status is the one the library's design names for malformed input.
