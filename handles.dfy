/** The handle codec. The C++ code turns an object pointer into a `uint64`
    handle and back by reinterpreting the address. Here an arena stands for
    the address space of one kind of object: it maps every live object to a
    distinct nonzero handle and back, and it never hands out the same handle
    twice. The handle 0 plays the part of the null pointer. */
module Handles {
  import opened Types

  /** One of the `amd_comgr_*_t` structs: a `uint64` wrapped in a type of
      its own for each kind of object `T`. */
  datatype Handle<T> = Handle(handle: uint64)

  class Arena<T(==)> {
    /** Handle -> object, for the objects currently alive. */
    var Objects: map<uint64, T>
    /** Object -> handle, the inverse of `Objects`; its keys are the live objects. */
    var Handles: map<T, uint64>
    /** The next handle to give out; every handle ever given out is below it. */
    var Next: nat

    ghost predicate Valid()
      reads this
    {
      && 0 < Next <= Uint64Count
      && (forall h :: h in Objects ==> 0 < h as int < Next && Objects[h] in Handles && Handles[Objects[h]] == h)
      && (forall p :: p in Handles ==> Handles[p] in Objects && Objects[Handles[p]] == p)
    }

    constructor ()
      ensures Valid() && Objects == map[] && Handles == map[] && Next == 1
    {
      Objects, Handles, Next := map[], map[], 1;
    }

    /** `convert(T *)`: the handle of a live object, and 0 for null. */
    function ToHandle(p: Option<T>): (h: Handle<T>)
      reads this
      requires Valid() && (p.Some? ==> p.value in Handles)
      ensures h.handle == 0 <==> p.None?
      ensures p.Some? ==> h.handle in Objects && Objects[h.handle] == p.value
    {
      if p.None? then Handle(0) else Handle(Handles[p.value])
    }

    /** `convert(amd_comgr_*_t)`: the object a handle denotes, and null for 0.
        Decoding a stale handle is undefined in the C API, so the handle must
        be 0 or belong to a live object. */
    function FromHandle(h: Handle<T>): (p: Option<T>)
      reads this
      requires Valid() && (h.handle == 0 || h.handle in Objects)
      ensures p.None? <==> h.handle == 0
      ensures p.Some? ==> p.value in Handles && Handles[p.value] == h.handle
    {
      if h.handle == 0 then None else Some(Objects[h.handle])
    }

    /** Decoding the handle of an object gives the object back. */
    lemma ObjectRoundTrip(p: Option<T>)
      requires Valid() && (p.Some? ==> p.value in Handles)
      ensures FromHandle(ToHandle(p)) == p
    {
    }

    /** Encoding the object a handle denotes gives the handle back. */
    lemma HandleRoundTrip(h: Handle<T>)
      requires Valid() && (h.handle == 0 || h.handle in Objects)
      ensures ToHandle(FromHandle(h)) == h
    {
    }

    /** Distinct live objects have distinct handles. */
    lemma HandlesDistinct(p: T, q: T)
      requires Valid() && p in Handles && q in Handles && p != q
      ensures ToHandle(Some(p)) != ToHandle(Some(q))
    {
    }

    /** Gives a new object a handle never given out before; 0 when the
        handle space is used up (the arena's counterpart of a failed
        allocation). */
    method Register(p: T) returns (h: uint64)
      requires Valid() && p !in Handles
      modifies this
      ensures Valid()
      ensures h == 0 <==> old(Next) == Uint64Count
      ensures h == 0 ==> unchanged(this)
      ensures h != 0 ==> h as int == old(Next) && Next == old(Next) + 1
      ensures h != 0 ==> Objects == old(Objects)[h := p] && Handles == old(Handles)[p := h]
    {
      if Next == Uint64Count {
        h := 0;
      } else {
        h := Next as uint64;
        Objects := Objects[h := p];
        Handles := Handles[p := h];
        Next := Next + 1;
      }
    }

    /** Forgets a destroyed object; its handle is stale from now on and is
        never given to another object. */
    method Unregister(p: T)
      requires Valid() && p in Handles
      modifies this
      ensures Valid()
      ensures Handles == old(Handles) - {p}
      ensures Objects == old(Objects) - {old(Handles[p])}
      ensures Next == old(Next)
    {
      var h := Handles[p];
      Objects := Objects - {h};
      Handles := Handles - {p};
    }
  }
}
