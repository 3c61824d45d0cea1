/** The object model of the code object manager (the `COMGR` namespace of
    lib/comgr/src/comgr.h): reference-counted data objects, data sets of
    them, action info, metadata nodes and symbols, each reachable from the C
    interface through an opaque handle. */
module Comgr {
  import opened Types
  import opened CStr
  import opened Handles
  import SetVector

  /** `amd_comgr_data_kind_t` is a C enumeration, so a variable of that type
      may hold any integer; these are its first and last enumerators. */
  const DataKindUndef: int := 0
  const DataKindLast: int := 9

  /** The enumerators of `amd_comgr_data_kind_t` other than the "undefined"
      sentinel. */
  datatype KnownKind =
    | Source | Include | PrecompiledHeader | Diagnostic | Log
    | Bc | Relocatable | Executable | Bytes

  function KindValue(k: KnownKind): (v: int)
    ensures DataKindUndef < v <= DataKindLast
  {
    match k
    case Source => 1
    case Include => 2
    case PrecompiledHeader => 3
    case Diagnostic => 4
    case Log => 5
    case Bc => 6
    case Relocatable => 7
    case Executable => 8
    case Bytes => 9
  }

  /** `isDataKindValid`: strictly above the "undefined" sentinel and no
      further than the last enumerator, which is exactly the values of the
      named enumerators. */
  function IsDataKindValid(kind: int): (b: bool)
    ensures b <==> exists k :: KindValue(k) == kind
  {
    ValidKindIsKnown(kind);
    DataKindUndef < kind <= DataKindLast
  }

  /** The kinds inside the enumeration's bounds are exactly the values of the
      named enumerators. */
  lemma ValidKindIsKnown(kind: int)
    ensures DataKindUndef < kind <= DataKindLast <==> exists k :: KindValue(k) == kind
  {
    if DataKindUndef < kind <= DataKindLast {
      var k :=
        if kind == 1 then Source else if kind == 2 then Include
        else if kind == 3 then PrecompiledHeader else if kind == 4 then Diagnostic
        else if kind == 5 then Log else if kind == 6 then Bc
        else if kind == 7 then Relocatable else if kind == 8 then Executable
        else Bytes;
      assert KindValue(k) == kind;
    }
  }

  /** The handle types of the C interface, one per kind of object. */
  type DataHandle = Handle<DataObject>          // amd_comgr_data_t
  type DataSetHandle = Handle<DataSet>          // amd_comgr_data_set_t
  type ActionInfoHandle = Handle<DataAction>    // amd_comgr_action_info_t
  type MetadataNodeHandle = Handle<DataMeta>    // amd_comgr_metadata_node_t
  type SymbolHandle = Handle<DataSymbol>        // amd_comgr_symbol_t

  /** The state the library shares with its callers: the C heap, and for
      each kind of object the live objects and their handles. */
  class Store {
    const Heap: CHeap
    const DataArena: Arena<DataObject>
    const SetArena: Arena<DataSet>
    const ActionArena: Arena<DataAction>
    const MetaArena: Arena<DataMeta>
    const SymbolArena: Arena<DataSymbol>

    ghost predicate Valid()
      reads DataArena, SetArena, ActionArena, MetaArena, SymbolArena
    {
      DataArena.Valid() && SetArena.Valid() && ActionArena.Valid() && MetaArena.Valid() && SymbolArena.Valid()
    }

    constructor ()
      ensures Valid() && fresh(Heap) && Heap.Blocks == {}
      ensures fresh(DataArena) && fresh(SetArena) && fresh(ActionArena) && fresh(MetaArena) && fresh(SymbolArena)
      ensures DataArena.Handles == map[] && SetArena.Handles == map[] && ActionArena.Handles == map[]
      ensures MetaArena.Handles == map[] && SymbolArena.Handles == map[]
    {
      Heap := new CHeap();
      DataArena := new Arena<DataObject>();
      SetArena := new Arena<DataSet>();
      ActionArena := new Arena<DataAction>();
      MetaArena := new Arena<DataMeta>();
      SymbolArena := new Arena<DataSymbol>();
    }

    /** `new DataSet()`: an empty set with a handle, or null when no handle
        is left. */
    method NewDataSet() returns (s: DataSet?)
      requires Valid()
      modifies SetArena
      ensures Valid()
      ensures s == null <==> old(SetArena.Next) == Uint64Count
      ensures s == null ==> unchanged(SetArena)
      ensures s != null ==> fresh(s) && s.DataObjects == []
      ensures s != null ==> s !in old(SetArena.Handles) && SetArena.Next == old(SetArena.Next) + 1
      ensures s != null ==> SetArena.Handles == old(SetArena.Handles)[s := old(SetArena.Next) as uint64]
      ensures s != null ==> SetArena.Objects == old(SetArena.Objects)[old(SetArena.Next) as uint64 := s]
    {
      var o := new DataSet();
      var h := SetArena.Register(o);
      s := if h == 0 then null else o;
    }

    /** `new DataAction()`: an action info with a handle, or null when no
        handle is left. */
    method NewDataAction() returns (a: DataAction?)
      requires Valid()
      modifies ActionArena
      ensures Valid()
      ensures a == null <==> old(ActionArena.Next) == Uint64Count
      ensures a == null ==> unchanged(ActionArena)
      ensures a != null ==> fresh(a) && a.IsaName == null && a.Options == null && a.Path == null
      ensures a != null ==> a.Language == LanguageNone && !a.Logging
      ensures a != null ==> a !in old(ActionArena.Handles) && ActionArena.Next == old(ActionArena.Next) + 1
      ensures a != null ==> ActionArena.Handles == old(ActionArena.Handles)[a := old(ActionArena.Next) as uint64]
      ensures a != null ==> ActionArena.Objects == old(ActionArena.Objects)[old(ActionArena.Next) as uint64 := a]
    {
      var o := new DataAction();
      var h := ActionArena.Register(o);
      a := if h == 0 then null else o;
    }

    /** A metadata node holding `node`, with a handle, or null when no
        handle is left. */
    method NewDataMeta(node: MetaNode) returns (m: DataMeta?)
      requires Valid()
      modifies MetaArena
      ensures Valid()
      ensures m == null <==> old(MetaArena.Next) == Uint64Count
      ensures m == null ==> unchanged(MetaArena)
      ensures m != null ==> fresh(m) && m.Node == node
      ensures m != null ==> m !in old(MetaArena.Handles) && MetaArena.Next == old(MetaArena.Next) + 1
      ensures m != null ==> MetaArena.Handles == old(MetaArena.Handles)[m := old(MetaArena.Next) as uint64]
      ensures m != null ==> MetaArena.Objects == old(MetaArena.Objects)[old(MetaArena.Next) as uint64 := m]
    {
      var o := new DataMeta(node);
      var h := MetaArena.Register(o);
      m := if h == 0 then null else o;
    }

    /** `new DataSymbol(DataSym)`: a symbol wrapping `sym`, with a handle,
        or null when no handle is left. */
    method NewDataSymbol(sym: SymbolContext) returns (s: DataSymbol?)
      requires Valid()
      modifies SymbolArena
      ensures Valid()
      ensures s == null <==> old(SymbolArena.Next) == Uint64Count
      ensures s == null ==> unchanged(SymbolArena)
      ensures s != null ==> fresh(s) && s.DataSym == sym
      ensures s != null ==> s !in old(SymbolArena.Handles) && SymbolArena.Next == old(SymbolArena.Next) + 1
      ensures s != null ==> SymbolArena.Handles == old(SymbolArena.Handles)[s := old(SymbolArena.Next) as uint64]
      ensures s != null ==> SymbolArena.Objects == old(SymbolArena.Objects)[old(SymbolArena.Next) as uint64 := s]
    {
      var o := new DataSymbol(sym);
      var h := SymbolArena.Register(o);
      s := if h == 0 then null else o;
    }
  }

  /** A reference-counted buffer of some kind, with a name. */
  class DataObject {
    var DataKind: int
    var Data: array?<byte>
    var Name: array?<byte>
    /** The length of `Data` without its terminating zero. */
    var Size: nat
    var RefCount: int
    var DataSym: DataSymbol?

    /** A live object holds at least one reference, and `Size` describes
        `Data`. */
    ghost predicate Valid()
      reads this
    {
      && RefCount >= 1
      && (Data == null ==> Size == 0)
      && (Data != null ==> Data.Length == Size + 1)
    }

    /** The private constructor: only `Allocate` calls it. */
    constructor (kind: int)
      ensures Valid() && DataKind == kind && Data == null && Name == null && Size == 0
      ensures RefCount == 1 && DataSym == null
    {
      DataKind, Data, Name, Size, RefCount, DataSym := kind, null, null, 0, 1, null;
    }

    /** `allocate(DataKind)`: the only way to create a data object. The new
        object holds one reference and receives a handle; null when no
        handle is left. */
    static method Allocate(store: Store, kind: int) returns (p: DataObject?)
      requires store.Valid()
      modifies store.DataArena
      ensures store.Valid()
      ensures p == null <==> old(store.DataArena.Next) == Uint64Count
      ensures p == null ==> unchanged(store.DataArena)
      ensures p != null ==> fresh(p) && p.Valid() && p.DataKind == kind && p.RefCount == 1
      ensures p != null ==> p.Data == null && p.Name == null && p.Size == 0 && p.DataSym == null
      ensures p != null ==> p !in old(store.DataArena.Handles) && store.DataArena.Next == old(store.DataArena.Next) + 1
      ensures p != null ==> store.DataArena.Handles == old(store.DataArena.Handles)[p := old(store.DataArena.Next) as uint64]
      ensures p != null ==> store.DataArena.Objects == old(store.DataArena.Objects)[old(store.DataArena.Next) as uint64 := p]
    {
      var o := new DataObject(kind);
      var h := store.DataArena.Register(o);
      p := if h == 0 then null else o;
    }

    /** `release()`: gives up one reference. At zero the object is
        destroyed: its buffers are freed and its handle dies. Otherwise
        nothing else changes. This is the only way to destroy a data object. */
    method Release(store: Store) returns (destroyed: bool)
      requires store.Valid() && Valid() && this in store.DataArena.Handles
      modifies this, store.DataArena, store.Heap
      ensures store.Valid()
      ensures RefCount == old(RefCount) - 1
      ensures destroyed <==> old(RefCount) == 1
      ensures !destroyed ==> Valid() && unchanged(store.DataArena, store.Heap)
      ensures !destroyed ==> DataKind == old(DataKind) && Data == old(Data) && Name == old(Name)
      ensures !destroyed ==> Size == old(Size) && DataSym == old(DataSym)
      ensures destroyed ==> store.DataArena.Handles == old(store.DataArena.Handles) - {this}
      ensures destroyed ==> store.Heap.Blocks == old(store.Heap.Blocks) - Owned(old(Data)) - Owned(old(Name))
      ensures store.DataArena.Next == old(store.DataArena.Next)
    {
      RefCount := RefCount - 1;
      destroyed := RefCount == 0;
      if destroyed {
        store.Heap.Blocks := store.Heap.Blocks - Owned(Data) - Owned(Name);
        Data, Name, Size := null, null, 0;
        store.DataArena.Unregister(this);
      }
    }

    /** `hasValidDataKind()`: whether the kind is one of the named
        enumerators. */
    function HasValidDataKind(): (b: bool)
      reads this
      ensures b == IsDataKindValid(DataKind)
      ensures b <==> exists k :: KindValue(k) == DataKind
    {
      IsDataKindValid(DataKind)
    }

    /** `setName(Name)`: the name becomes a fresh zero-terminated copy of
        `name`; the old one is freed. */
    method SetName(heap: CHeap, name: seq<byte>) returns (status: Status)
      requires Valid()
      modifies this, heap
      ensures Valid() && status == Success
      ensures Name != null && fresh(Name) && Name[..] == name + [0]
      ensures heap.Blocks == old(heap.Blocks) - Owned(old(Name)) + {Name}
      ensures DataKind == old(DataKind) && Data == old(Data) && Size == old(Size)
      ensures RefCount == old(RefCount) && DataSym == old(DataSym)
    {
      var buf, size;
      status, buf, size := SetCStr(heap, Name, name);
      Name := buf;
    }

    /** `setData(Data)`: the data becomes a fresh zero-terminated copy of
        `data` and `Size` its length; the old buffer is freed. */
    method SetData(heap: CHeap, data: seq<byte>) returns (status: Status)
      requires Valid()
      modifies this, heap
      ensures Valid() && status == Success
      ensures Data != null && fresh(Data) && Data[..] == data + [0] && Size == |data|
      ensures heap.Blocks == old(heap.Blocks) - Owned(old(Data)) + {Data}
      ensures DataKind == old(DataKind) && Name == old(Name)
      ensures RefCount == old(RefCount) && DataSym == old(DataSym)
    {
      var buf, size;
      status, buf, size := SetCStr(heap, Data, data);
      Data, Size := buf, size;
    }
  }

  /** Releases one reference to a data object when its scope ends. */
  class ScopedDataObjectReleaser {
    const Obj: DataObject
    /** Whether the scope has ended (the C++ destructor has run). */
    ghost var Ended: bool

    constructor (obj: DataObject)
      ensures Obj == obj && !Ended
    {
      Obj := obj;
      Ended := false;
    }

    /** The releaser built from a handle, which must denote a live object. */
    constructor FromHandle(store: Store, h: DataHandle)
      requires store.Valid() && h.handle in store.DataArena.Objects
      ensures Obj == store.DataArena.Objects[h.handle] && !Ended
    {
      Obj := store.DataArena.FromHandle(h).value;
      Ended := false;
    }

    /** `~ScopedDataObjectReleaser()`: runs once and releases once. */
    method EndScope(store: Store) returns (destroyed: bool)
      requires !Ended && store.Valid() && Obj.Valid() && Obj in store.DataArena.Handles
      modifies this, Obj, store.DataArena, store.Heap
      ensures Ended && store.Valid()
      ensures Obj.RefCount == old(Obj.RefCount) - 1
      ensures destroyed <==> old(Obj.RefCount) == 1
      ensures !destroyed ==> Obj.Valid() && unchanged(store.DataArena, store.Heap)
      ensures !destroyed ==> Obj.DataKind == old(Obj.DataKind) && Obj.Data == old(Obj.Data) && Obj.Name == old(Obj.Name)
      ensures !destroyed ==> Obj.Size == old(Obj.Size) && Obj.DataSym == old(Obj.DataSym)
      ensures destroyed ==> store.DataArena.Handles == old(store.DataArena.Handles) - {Obj}
      ensures destroyed ==> store.Heap.Blocks == old(store.Heap.Blocks) - Owned(old(Obj.Data)) - Owned(old(Obj.Name))
      ensures store.DataArena.Next == old(store.DataArena.Next)
    {
      destroyed := Obj.Release(store);
      Ended := true;
    }
  }

  /** A snapshot of an object's fields: what releasing it once depends on,
      and what a release that does not destroy it keeps. */
  datatype Holding = Holding(Obj: DataObject, RefCount: int, DataKind: int, Data: array?<byte>,
                             Name: array?<byte>, Size: nat, DataSym: DataSymbol?)

  /** The snapshot of `o`. */
  ghost function Snapshot(o: DataObject): (h: Holding)
    reads o
    ensures h.Obj == o && h.RefCount == o.RefCount
  {
    Holding(o, o.RefCount, o.DataKind, o.Data, o.Name, o.Size, o.DataSym)
  }

  /** `o` is live-shaped and, apart from its count, as `h` recorded it. */
  ghost predicate Keeps(o: DataObject, h: Holding)
    reads o
  {
    && o.Valid() && o.DataKind == h.DataKind && o.Data == h.Data && o.Name == h.Name
    && o.Size == h.Size && o.DataSym == h.DataSym
  }

  /** The current holdings of `os`, in order. */
  ghost function Holdings(os: seq<DataObject>): (hs: seq<Holding>)
    reads set o | o in os
    ensures |hs| == |os|
    ensures forall k :: 0 <= k < |os| ==> hs[k] == Snapshot(os[k])
    decreases |os|
  {
    if os == [] then []
    else [Snapshot(os[0])] + Holdings(os[1..])
  }

  /** The objects whose last reference a release of each of `hs` gives up. */
  function LastHolders(hs: seq<Holding>): set<DataObject>
    decreases |hs|
  {
    if hs == [] then {}
    else
      var h := hs[|hs| - 1];
      LastHolders(hs[..|hs| - 1]) + (if h.RefCount == 1 then {h.Obj} else {})
  }

  /** The buffers that a release of each of `hs` frees. */
  function FreedBy(hs: seq<Holding>): set<array<byte>>
    decreases |hs|
  {
    if hs == [] then {}
    else
      var h := hs[|hs| - 1];
      FreedBy(hs[..|hs| - 1]) + (if h.RefCount == 1 then Owned(h.Data) + Owned(h.Name) else {})
  }

  /** Closed form of `LastHolders`: exactly the objects held once. */
  lemma {:induction false} LastHoldersAre(hs: seq<Holding>)
    ensures LastHolders(hs) == set k | 0 <= k < |hs| && hs[k].RefCount == 1 :: hs[k].Obj
    decreases |hs|
  {
    if hs != [] {
      var n := |hs| - 1;
      var front := hs[..n];
      LastHoldersAre(front);
      assert forall k :: 0 <= k < n ==> front[k] == hs[k];
    }
  }

  /** Closed form of `FreedBy`: exactly the buffers of the objects held
      once. */
  lemma {:induction false} FreedByAre(hs: seq<Holding>)
    ensures FreedBy(hs) == set k, b | 0 <= k < |hs| && hs[k].RefCount == 1
                                      && b in Owned(hs[k].Data) + Owned(hs[k].Name) :: b
    decreases |hs|
  {
    if hs != [] {
      var n := |hs| - 1;
      var front := hs[..n];
      FreedByAre(front);
      assert forall k :: 0 <= k < n ==> front[k] == hs[k];
    }
  }

  lemma MinusUnion(m: map<DataObject, uint64>, a: set<DataObject>, b: set<DataObject>)
    ensures m - (a + b) == m - a - b
  {
  }

  /** One more release, at position `i`. */
  lemma ReleaseStep(hs: seq<Holding>, i: nat)
    requires i < |hs|
    ensures LastHolders(hs[..i + 1])
         == LastHolders(hs[..i]) + (if hs[i].RefCount == 1 then {hs[i].Obj} else {})
    ensures FreedBy(hs[..i + 1])
         == FreedBy(hs[..i]) + (if hs[i].RefCount == 1 then Owned(hs[i].Data) + Owned(hs[i].Name) else {})
  {
    assert hs[..i + 1] == hs[..i] + [hs[i]];
    assert hs[..i + 1][..i] == hs[..i];
  }

  /** A collection of data objects that keeps insertion order and holds
      each object once. */
  class DataSet {
    /** The `SmallSetVector` of object pointers. */
    var DataObjects: seq<DataObject>

    constructor ()
      ensures DataObjects == []
    {
      DataObjects := [];
    }

    /** No object twice, and each one live. */
    ghost predicate Valid(store: Store)
      reads this, store.DataArena, set o | o in DataObjects
    {
      && SetVector.NoDuplicates(DataObjects)
      && forall o :: o in DataObjects ==> o in store.DataArena.Handles && o.Valid()
    }

    /** `DataObjects.insert(x)`: appends `x` unless it is already there,
        and says whether it did. */
    method Insert(x: DataObject) returns (inserted: bool)
      modifies this
      ensures inserted <==> x !in old(DataObjects)
      ensures DataObjects == SetVector.Inserted(old(DataObjects), x)
    {
      inserted := x !in DataObjects;
      DataObjects := SetVector.Inserted(DataObjects, x);
    }

    /** Adding a live object to the set: the set takes a reference when,
        and only when, the object was not in it yet. */
    method Add(store: Store, x: DataObject) returns (inserted: bool)
      requires store.Valid() && Valid(store) && x.Valid() && x in store.DataArena.Handles
      modifies this, x
      ensures Valid(store)
      ensures inserted <==> x !in old(DataObjects)
      ensures DataObjects == SetVector.Inserted(old(DataObjects), x)
      ensures x.RefCount == if inserted then old(x.RefCount) + 1 else old(x.RefCount)
      ensures x.DataKind == old(x.DataKind) && x.Data == old(x.Data) && x.Name == old(x.Name)
      ensures x.Size == old(x.Size) && x.DataSym == old(x.DataSym)
    {
      inserted := Insert(x);
      if inserted {
        x.RefCount := x.RefCount + 1;
      }
    }

    /** `~DataSet()`: gives up the set's reference to each object and the
        set's own handle. */
    method Destroy(store: Store)
      requires store.Valid() && Valid(store) && this in store.SetArena.Handles
      modifies (set o | o in DataObjects), store.DataArena, store.Heap, store.SetArena
      ensures store.Valid()
      ensures forall o :: o in DataObjects ==> o.RefCount == old(o.RefCount) - 1
      ensures forall o :: o in DataObjects && old(o.RefCount) > 1 ==>
                && o.Valid() && o.DataKind == old(o.DataKind) && o.Data == old(o.Data)
                && o.Name == old(o.Name) && o.Size == old(o.Size) && o.DataSym == old(o.DataSym)
      ensures store.DataArena.Handles == old(store.DataArena.Handles) - LastHolders(old(Holdings(DataObjects)))
      ensures store.Heap.Blocks == old(store.Heap.Blocks) - FreedBy(old(Holdings(DataObjects)))
      ensures store.SetArena.Handles == old(store.SetArena.Handles) - {this}
      ensures store.DataArena.Next == old(store.DataArena.Next)
      ensures store.SetArena.Next == old(store.SetArena.Next)
      ensures forall o :: o in old(store.DataArena.Handles) ==>
                (o in store.DataArena.Handles <==> !(o in DataObjects && old(o.RefCount) == 1))
    {
      ghost var hs := Holdings(DataObjects);
      ReleaseMembers(store);
      store.SetArena.Unregister(this);
      LastHoldersAre(hs);
    }

    /** Releases each object of the set once, in order. */
    method ReleaseMembers(store: Store)
      requires store.Valid() && Valid(store)
      modifies (set o | o in DataObjects), store.DataArena, store.Heap
      ensures store.Valid()
      ensures forall o :: o in DataObjects ==> o.RefCount == old(o.RefCount) - 1
      ensures forall o :: o in DataObjects && old(o.RefCount) > 1 ==>
                && o.Valid() && o.DataKind == old(o.DataKind) && o.Data == old(o.Data)
                && o.Name == old(o.Name) && o.Size == old(o.Size) && o.DataSym == old(o.DataSym)
      ensures store.DataArena.Handles == old(store.DataArena.Handles) - LastHolders(old(Holdings(DataObjects)))
      ensures store.Heap.Blocks == old(store.Heap.Blocks) - FreedBy(old(Holdings(DataObjects)))
      ensures store.DataArena.Next == old(store.DataArena.Next)
    {
      ghost var hs := Holdings(DataObjects);
      ghost var handles0, blocks0 := store.DataArena.Handles, store.Heap.Blocks;
      StartRelease(store);
      var i := 0;
      while i < |DataObjects|
        invariant 0 <= i <= |DataObjects|
        invariant ReleasedUpTo(store, hs, i, handles0, blocks0)
        invariant store.DataArena.Next == old(store.DataArena.Next)
      {
        ReleaseNext(store, hs, i, handles0, blocks0);
        i := i + 1;
      }
      FinishRelease(store, hs, handles0, blocks0);
    }

    /** Before any release, nothing has changed. */
    lemma StartRelease(store: Store)
      requires store.Valid() && Valid(store)
      ensures ReleasedUpTo(store, Holdings(DataObjects), 0, store.DataArena.Handles, store.Heap.Blocks)
    {
      assert Holdings(DataObjects)[..0] == [];
    }

    /** Once every object is released, each has lost one reference, and the
        handles and buffers of those that reached zero are gone. */
    lemma FinishRelease(store: Store, hs: seq<Holding>,
                        handles0: map<DataObject, uint64>, blocks0: set<array<byte>>)
      requires ReleasedUpTo(store, hs, |DataObjects|, handles0, blocks0)
      ensures store.Valid()
      ensures forall k :: 0 <= k < |DataObjects| ==> DataObjects[k].RefCount == hs[k].RefCount - 1
      ensures forall k :: 0 <= k < |DataObjects| && hs[k].RefCount > 1 ==> Keeps(DataObjects[k], hs[k])
      ensures store.DataArena.Handles == handles0 - LastHolders(hs)
      ensures store.Heap.Blocks == blocks0 - FreedBy(hs)
    {
      assert hs[..|DataObjects|] == hs;
    }

    /** The state after releasing the first `i` objects, each once, from
        the holdings `hs` and the handles and heap blocks they started with. */
    ghost predicate ReleasedUpTo(store: Store, hs: seq<Holding>, i: nat,
                                 handles0: map<DataObject, uint64>, blocks0: set<array<byte>>)
      reads this, store.DataArena, store.SetArena, store.ActionArena, store.MetaArena, store.SymbolArena
      reads store.Heap, set o | o in DataObjects
    {
      && |hs| == |DataObjects| && i <= |DataObjects| && store.Valid()
      && SetVector.NoDuplicates(DataObjects)
      && (forall k :: 0 <= k < |hs| ==> hs[k].Obj == DataObjects[k])
      && (forall k :: 0 <= k < i ==> DataObjects[k].RefCount == hs[k].RefCount - 1)
      && (forall k :: 0 <= k < i && hs[k].RefCount > 1 ==> Keeps(DataObjects[k], hs[k]))
      && (forall k :: i <= k < |DataObjects| ==>
            var o := DataObjects[k];
            o in store.DataArena.Handles && o.RefCount == hs[k].RefCount && Keeps(o, hs[k]))
      && store.DataArena.Handles == handles0 - LastHolders(hs[..i])
      && store.Heap.Blocks == blocks0 - FreedBy(hs[..i])
    }

    /** Releases the object at position `i`. */
    method ReleaseNext(store: Store, ghost hs: seq<Holding>, i: nat,
                       ghost handles0: map<DataObject, uint64>, ghost blocks0: set<array<byte>>)
      requires i < |DataObjects| && ReleasedUpTo(store, hs, i, handles0, blocks0)
      modifies DataObjects[i], store.DataArena, store.Heap
      ensures ReleasedUpTo(store, hs, i + 1, handles0, blocks0)
      ensures store.DataArena.Next == old(store.DataArena.Next)
    {
      var o := DataObjects[i];
      ReleaseStep(hs, i);
      var destroyed := o.Release(store);
      if destroyed {
        MinusUnion(handles0, LastHolders(hs[..i]), {o});
      }
    }
  }

  /** An object added to two sets and released once by its creator lives
      until both sets are destroyed: the first destruction leaves it alive
      and unchanged, the second destroys it and frees its buffers. */
  method SharedObjectLifetime(store: Store, o: DataObject, s1: DataSet, s2: DataSet)
    requires store.Valid() && s1 != s2
    requires o.Valid() && o.RefCount == 1 && o in store.DataArena.Handles
    requires s1.DataObjects == [] && s2.DataObjects == []
    requires s1 in store.SetArena.Handles && s2 in store.SetArena.Handles
    modifies o, s1, s2, store.DataArena, store.Heap, store.SetArena
    ensures store.Valid() && o.RefCount == 0
    ensures store.DataArena.Handles == old(store.DataArena.Handles) - {o}
    ensures store.Heap.Blocks == old(store.Heap.Blocks) - Owned(old(o.Data)) - Owned(old(o.Name))
    ensures store.SetArena.Handles == old(store.SetArena.Handles) - {s1} - {s2}
    ensures store.DataArena.Next == old(store.DataArena.Next)
    ensures store.SetArena.Next == old(store.SetArena.Next)
  {
    ShareTwice(store, o, s1, s2);
    DestroySharing(store, s1, o);
    DestroyLast(store, s2, o);
  }

  /** Adds `o` to two empty sets, then gives up the creator's reference. */
  method ShareTwice(store: Store, o: DataObject, s1: DataSet, s2: DataSet)
    requires store.Valid() && s1 != s2
    requires o.Valid() && o.RefCount == 1 && o in store.DataArena.Handles
    requires s1.DataObjects == [] && s2.DataObjects == []
    modifies o, s1, s2, store.DataArena, store.Heap
    ensures store.Valid() && unchanged(store.DataArena, store.Heap)
    ensures s1.DataObjects == [o] && s2.DataObjects == [o]
    ensures o.RefCount == 2 && o.Valid()
    ensures o.DataKind == old(o.DataKind) && o.Data == old(o.Data) && o.Name == old(o.Name)
    ensures o.Size == old(o.Size) && o.DataSym == old(o.DataSym)
  {
    var inserted1 := s1.Add(store, o);
    var inserted2 := s2.Add(store, o);
    var destroyed := o.Release(store);
  }

  /** Destroys a set whose only member is `o`, while another reference to
      `o` remains: `o` stays live and unchanged. */
  method DestroySharing(store: Store, s: DataSet, o: DataObject)
    requires store.Valid() && s.DataObjects == [o] && s in store.SetArena.Handles
    requires o.Valid() && o in store.DataArena.Handles && o.RefCount > 1
    modifies o, store.DataArena, store.Heap, store.SetArena
    ensures store.Valid() && o.RefCount == old(o.RefCount) - 1
    ensures o.Valid() && o.Data == old(o.Data) && o.Name == old(o.Name)
    ensures o.DataKind == old(o.DataKind) && o.Size == old(o.Size) && o.DataSym == old(o.DataSym)
    ensures store.DataArena.Handles == old(store.DataArena.Handles)
    ensures store.Heap.Blocks == old(store.Heap.Blocks)
    ensures store.SetArena.Handles == old(store.SetArena.Handles) - {s}
    ensures store.DataArena.Next == old(store.DataArena.Next)
    ensures store.SetArena.Next == old(store.SetArena.Next)
  {
    SoleHolding(o);
    s.Destroy(store);
  }

  /** Destroys a set that holds the last reference to `o`: `o`'s handle
      and buffers go. */
  method DestroyLast(store: Store, s: DataSet, o: DataObject)
    requires store.Valid() && s.DataObjects == [o] && s in store.SetArena.Handles
    requires o.Valid() && o in store.DataArena.Handles && o.RefCount == 1
    modifies o, store.DataArena, store.Heap, store.SetArena
    ensures store.Valid() && o.RefCount == 0
    ensures store.DataArena.Handles == old(store.DataArena.Handles) - {o}
    ensures store.Heap.Blocks == old(store.Heap.Blocks) - Owned(old(o.Data)) - Owned(old(o.Name))
    ensures store.SetArena.Handles == old(store.SetArena.Handles) - {s}
    ensures store.DataArena.Next == old(store.DataArena.Next)
    ensures store.SetArena.Next == old(store.SetArena.Next)
  {
    SoleHolding(o);
    s.Destroy(store);
  }

  /** What releasing the sole member `o` of a set gives up. */
  lemma SoleHolding(o: DataObject)
    ensures LastHolders(Holdings([o])) == if o.RefCount == 1 then {o} else {}
    ensures FreedBy(Holdings([o])) == if o.RefCount == 1 then Owned(o.Data) + Owned(o.Name) else {}
  {
    assert Holdings([o]) == [Snapshot(o)];
    SingleRelease(Snapshot(o));
  }

  lemma SingleRelease(h: Holding)
    ensures LastHolders([h]) == if h.RefCount == 1 then {h.Obj} else {}
    ensures FreedBy([h]) == if h.RefCount == 1 then Owned(h.Data) + Owned(h.Name) else {}
  {
    assert [h][..0] == [];
  }

  /** `AMD_COMGR_LANGUAGE_NONE`. */
  const LanguageNone: int := 0

  /** The options of an action. */
  class DataAction {
    var IsaName: array?<byte>
    var Options: array?<byte>
    var Path: array?<byte>
    var Language: int
    var Logging: bool

    constructor ()
      ensures IsaName == null && Options == null && Path == null
      ensures Language == LanguageNone && !Logging
    {
      IsaName, Options, Path, Language, Logging := null, null, null, LanguageNone, false;
    }

    /** `setIsaName(IsaName)`. */
    method SetIsaName(heap: CHeap, isaName: seq<byte>) returns (status: Status)
      modifies this, heap
      ensures status == Success
      ensures IsaName != null && fresh(IsaName) && IsaName[..] == isaName + [0]
      ensures heap.Blocks == old(heap.Blocks) - Owned(old(IsaName)) + {IsaName}
      ensures Options == old(Options) && Path == old(Path)
      ensures Language == old(Language) && Logging == old(Logging)
    {
      var buf, size;
      status, buf, size := SetCStr(heap, IsaName, isaName);
      IsaName := buf;
    }

    /** `setActionOptions(ActionOptions)`. */
    method SetActionOptions(heap: CHeap, options: seq<byte>) returns (status: Status)
      modifies this, heap
      ensures status == Success
      ensures Options != null && fresh(Options) && Options[..] == options + [0]
      ensures heap.Blocks == old(heap.Blocks) - Owned(old(Options)) + {Options}
      ensures IsaName == old(IsaName) && Path == old(Path)
      ensures Language == old(Language) && Logging == old(Logging)
    {
      var buf, size;
      status, buf, size := SetCStr(heap, Options, options);
      Options := buf;
    }

    /** `setActionPath(ActionPath)`. */
    method SetActionPath(heap: CHeap, path: seq<byte>) returns (status: Status)
      modifies this, heap
      ensures status == Success
      ensures Path != null && fresh(Path) && Path[..] == path + [0]
      ensures heap.Blocks == old(heap.Blocks) - Owned(old(Path)) + {Path}
      ensures IsaName == old(IsaName) && Options == old(Options)
      ensures Language == old(Language) && Logging == old(Logging)
    {
      var buf, size;
      status, buf, size := SetCStr(heap, Path, path);
      Path := buf;
    }
  }

  /** Which of the two tree encodings backs a metadata node; the trees
      themselves are not modelled. */
  datatype MetaNode = YAMLNode | MsgPackNode

  /** A metadata node. */
  class DataMeta {
    var Node: MetaNode

    constructor (node: MetaNode)
      ensures Node == node
    {
      Node := node;
    }
  }

  /** The symbol-table entry a `DataSymbol` owns; its contents are not
      modelled. */
  class SymbolContext {
  }

  /** A symbol. */
  class DataSymbol {
    const DataSym: SymbolContext

    constructor (sym: SymbolContext)
      ensures DataSym == sym
    {
      DataSym := sym;
    }
  }
}
