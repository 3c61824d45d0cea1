/** Owned, null-terminated copies of byte strings (`setCStr`). */
module CStr {
  import opened Types

  /** The C allocator's view of the heap: the byte blocks obtained from
      `malloc` and not yet given back with `free`. */
  class CHeap {
    var Blocks: set<array<byte>>

    constructor ()
      ensures Blocks == {}
    {
      Blocks := {};
    }
  }

  /** The block a possibly null buffer pointer owns. */
  function Owned(p: array?<byte>): (r: set<array<byte>>)
    ensures p == null ==> r == {}
    ensures p != null ==> r == {p}
  {
    if p == null then {} else {p}
  }

  /** `setCStr(Dest, Src, Size)`. The caller passes its current buffer `dest`
      (or null) and stores the returned `newDest` back into the field `Dest`
      refers to; `size` is what the call writes through `Size` when the
      caller supplies it. The old buffer is freed, a new one of |src| + 1
      bytes is allocated, `src` is copied into it verbatim (embedded zero
      bytes included) and a terminating zero is appended. */
  method SetCStr(heap: CHeap, dest: array?<byte>, src: seq<byte>)
    returns (status: Status, newDest: array<byte>, size: nat)
    modifies heap
    ensures status == Success
    ensures fresh(newDest)
    ensures newDest[..] == src + [0]
    ensures size == |src| && newDest.Length == size + 1
    ensures heap.Blocks == old(heap.Blocks) - Owned(dest) + {newDest}
  {
    heap.Blocks := heap.Blocks - Owned(dest);
    newDest := new byte[|src| + 1];
    var i := 0;
    while i < |src|
      invariant 0 <= i <= |src|
      invariant newDest[..i] == src[..i]
      modifies newDest
    {
      newDest[i] := src[i];
      i := i + 1;
    }
    newDest[|src|] := 0;
    heap.Blocks := heap.Blocks + {newDest};
    status, size := Success, |src|;
  }
}
