/**
 * iresman_tiledmemory.c: a resource is two heap blocks, the memory itself and a handle that points to it. It is
 * released through the handle and the hidden headers; the dimensions passed in at that time play no part.
 */
module TiledMemory {
  import opened Arithmetic
  import opened Words
  import opened Heap
  import opened PersistentAlloc

  /** The handle's words, in the order in which getHandles fills them. */
  const PROPERTIES_AT: nat := 0
  const PERSISTENT_AT: nat := 4
  const MEMORY_BASE_AT: nat := 8
  const SYSTEM_BASE_AT: nat := 12
  const IS_TILED_AT: nat := 16
  const ACCESS_UNIT_AT: nat := 20
  const TILER_BASE_AT: nat := 24
  const HANDLE_SIZE: Word := 28

  const RES_ALIGNMENT: Word := 4

  /** sizeDim0, times sizeDim1 unless that is zero, in 32 bits. */
  function ResourceSize(dim0: Word, dim1: Word): Word {
    var d0: int, d1: int := dim0, dim1;
    if d1 == 0 then d0 else (d0 * d1) % WORD_MODULUS
  }

  /** One dimension, or the product of two as long as that fits a word, and its low 32 bits otherwise. */
  lemma ResourceSizeIs(dim0: Word, dim1: Word)
    ensures dim1 == 0 ==> ResourceSize(dim0, dim1) == dim0
    ensures dim1 != 0 && dim0 as int * dim1 as int < 0x1_0000_0000 ==> ResourceSize(dim0, dim1) == dim0 as int * dim1 as int
    ensures dim1 != 0 ==> ResourceSize(dim0, dim1) == dim0 as int * dim1 as int % 0x1_0000_0000
  {
  }

  /** Byte c of row r of a two-dimensional area is a byte of its block, which `live` lists with its padding. */
  lemma AreaInside(dim0: Word, dim1: Word, ptr: nat, r: nat, c: nat, mem: seq<Byte>, live: map<nat, nat>)
    requires dim0 as int * dim1 as int < 0x1_0000_0000 && r < dim1 && c < dim0
    requires Placed(MemRec(dim0 as int * dim1 as int, 4, ptr), mem, live)
    ensures ptr >= 8 && ptr - 8 in live
    ensures ptr <= ptr + r * dim0 as int + c < ptr - 8 + live[ptr - 8] && ptr - 8 + live[ptr - 8] <= |mem|
  {
    RowInside(dim0 as int, dim1 as int, r, c);
  }

  lemma RowInside(width: nat, rows: nat, r: nat, c: nat)
    requires r < rows && c < width
    ensures 0 <= r * width + c < width * rows
  {
    assert width * rows == r * width + (rows - r) * width;
    AtLeastOnce(rows - r, width);
  }

  function Rec(size: Word, base: nat): MemRec {
    MemRec(size, RES_ALIGNMENT, base)
  }

  /** A size within a header of the address space may lead astray (see AllocFxn); no other does. */
  method AllocRes(h: MemoryHeap, size: Word) returns (base: nat, strayed: bool)
    requires h.Valid()
    modifies h`live, h`denied, h.mem
    ensures h.Valid()
    ensures strayed ==> size + HEADER >= WORD_MODULUS
    ensures h.denied == old(h.denied) + if !strayed && base == 0 then 1 else 0
    ensures !strayed && base == 0 ==> h.live == old(h.live)
    ensures KeepsBlocks(old(h.live), old(h.mem[..]), h.mem[..])
    ensures !strayed && base != 0 ==>
      && Allocated([Rec(size, base)], old(h.mem[..]), old(h.live), h.mem[..], h.live)
      && Placed(Rec(size, base), h.mem[..], h.live)
  {
    var recs := new MemRec[1](_ => Rec(size, 0));
    var outcome := AllocFxn(h, recs, 1);
    if !outcome.Done? {
      return 0, outcome.Strayed?;
    }
    strayed := false;
    base := recs[0].base;
    assert recs[..1] == [Rec(size, base)];
    assert Placed([Rec(size, base)][0], h.mem[..], h.live);
  }

  /** The size is passed on, and not used. */
  method FreeRes(h: MemoryHeap, base: nat, size: Word)
    requires h.Valid() && base != 0 && Freeable(Rec(size, base), h.mem[..], h.live)
    modifies h`live
    ensures h.Valid()
    ensures h.live == old(h.live) - {HeaderPtr(h.mem[..], base) as nat}
  {
    var recs := new MemRec[1](_ => Rec(size, base));
    assert recs[..1] == [Rec(size, base)];
    ghost var ps := Pointers(recs[..1], h.mem[..]);
    assert HeaderPtr(h.mem[..], recs[..1][0].base) as nat in ps;
    FreeFxn(h, recs, 1);
    assert ps == {HeaderPtr(h.mem[..], base) as nat};
  }

  function Both(size: Word, ptr: nat, handle: nat): seq<MemRec> {
    [Rec(size, ptr), Rec(HANDLE_SIZE, handle)]
  }

  /** A live resource: two blocks of their own, and a handle that leads to the memory. */
  ghost predicate Resource(handle: nat, ptr: nat, size: Word, mem: seq<Byte>, live: map<nat, nat>) {
    && AllPlaced(Both(size, ptr, handle), mem, live)
    && handle + HANDLE_SIZE <= |mem|
    && GetWord(mem, handle + MEMORY_BASE_AT) == ptr
    && GetWord(mem, handle + SYSTEM_BASE_AT) == ptr
  }

  lemma PlacedTogether(size: Word, ptr: nat, handle: nat, mem: seq<Byte>, live: map<nat, nat>,
                       mem': seq<Byte>, live': map<nat, nat>)
    requires AllPlaced([Rec(size, ptr)], mem, live)
    requires Allocated([Rec(HANDLE_SIZE, handle)], mem, live, mem', live')
    ensures AllPlaced(Both(size, ptr, handle), mem', live')
  {
    var r, q := Rec(size, ptr), Rec(HANDLE_SIZE, handle);
    PlacedAmongOthers([r], mem, live, mem', live');
    assert Placed([r][0], mem, live) && Placed([r][0], mem', live') && Placed([q][0], mem', live');
    assert BlockOf([q][0]) in Blocks([q]);
  }

  lemma GrownTogether(size: Word, ptr: nat, handle: nat, was: map<nat, nat>, live: map<nat, nat>, live': map<nat, nat>)
    requires Grown(was, live, [Rec(size, ptr)]) && Grown(live, live', [Rec(HANDLE_SIZE, handle)])
    ensures Grown(was, live', Both(size, ptr, handle))
  {
    var r, q := Rec(size, ptr), Rec(HANDLE_SIZE, handle);
    BlocksOfOne(r);
    BlocksOfOne(q);
    BlocksOfTwo(r, q);
  }

  lemma BlocksOfOne(r: MemRec)
    ensures Blocks([r]) == {BlockOf(r)}
  {
    assert BlockOf([r][0]) in Blocks([r]);
  }

  lemma BlocksOfTwo(r: MemRec, q: MemRec)
    ensures Blocks([r, q]) == {BlockOf(r), BlockOf(q)}
  {
    assert BlockOf([r, q][0]) in Blocks([r, q]);
    assert BlockOf([r, q][1]) in Blocks([r, q]);
  }

  /** The fields of the handle; only words of the handle itself are written. */
  method FillHandle(mem: array<Byte>, handle: nat, ptr: Word)
    requires handle + HANDLE_SIZE <= mem.Length
    modifies mem
    ensures GetWord(mem[..], handle + PROPERTIES_AT) == GetWord(mem[..], handle + PERSISTENT_AT) == 0
    ensures GetWord(mem[..], handle + MEMORY_BASE_AT) == GetWord(mem[..], handle + SYSTEM_BASE_AT) == ptr
    ensures GetWord(mem[..], handle + IS_TILED_AT) == GetWord(mem[..], handle + ACCESS_UNIT_AT) == 0
    ensures GetWord(mem[..], handle + TILER_BASE_AT) == 0
    ensures forall a :: 0 <= a < mem.Length && !(handle <= a < handle + HANDLE_SIZE) ==> mem[a] == old(mem[a])
  {
    StoreWord(mem, handle + PROPERTIES_AT, 0);
    StoreWord(mem, handle + PERSISTENT_AT, 0);
    StoreWord(mem, handle + MEMORY_BASE_AT, ptr);
    StoreWord(mem, handle + SYSTEM_BASE_AT, ptr);
    StoreWord(mem, handle + IS_TILED_AT, 0);
    StoreWord(mem, handle + ACCESS_UNIT_AT, 0);
    StoreWord(mem, handle + TILER_BASE_AT, 0);
  }

  lemma FilledIsResource(size: Word, ptr: nat, handle: nat, mem: seq<Byte>, live: map<nat, nat>, mem': seq<Byte>)
    requires Disjoint(live, |mem|) && AllPlaced(Both(size, ptr, handle), mem, live)
    requires |mem'| == |mem| && handle + HANDLE_SIZE <= |mem|
    requires GetWord(mem', handle + MEMORY_BASE_AT) == ptr && GetWord(mem', handle + SYSTEM_BASE_AT) == ptr
    requires forall a :: 0 <= a < |mem| && !(handle <= a < handle + HANDLE_SIZE) ==> mem'[a] == mem[a]
    ensures Resource(handle, ptr, size, mem', live)
  {
    var recs := Both(size, ptr, handle);
    forall a | 0 <= a < |mem| && mem'[a] != mem[a] ensures InUserRegion(recs, a) {
      assert recs[1].base <= a < recs[1].base + recs[1].size;
    }
    HeadersSurvive(recs, mem, mem', live);
  }

  /** What was live before is not touched: the handle's words lie in a block that was free. */
  lemma FillingKeepsBlocks(was: map<nat, nat>, before: seq<Byte>, size: Word, ptr: nat, handle: nat,
                           mem: seq<Byte>, live: map<nat, nat>, mem': seq<Byte>)
    requires Disjoint(live, |mem|) && AllPlaced(Both(size, ptr, handle), mem, live)
    requires Grown(was, live, Both(size, ptr, handle)) && KeepsBlocks(was, before, mem)
    requires |mem'| == |mem|
    requires forall a :: 0 <= a < |mem| && !(handle <= a < handle + HANDLE_SIZE) ==> mem'[a] == mem[a]
    ensures KeepsBlocks(was, before, mem')
  {
    var q := Both(size, ptr, handle)[1];
    assert Placed(q, mem, live);
    assert BlockOf(q) in Blocks(Both(size, ptr, handle));
    forall b, a | b in was && b <= a < b + was[b] && a < |mem| ensures mem'[a] == before[a] {
      assert b in live && b != BlockOf(q);
      assert !(handle <= a < handle + HANDLE_SIZE);
    }
  }

  /** The way out when there is no room for the handle: the first block goes back. */
  method ReleaseFirst(h: MemoryHeap, ptr: nat, size: Word, ghost was: map<nat, nat>, ghost mem: seq<Byte>, ghost live: map<nat, nat>)
    requires h.Valid() && h.live == live && ptr != 0
    requires AllPlaced([Rec(size, ptr)], mem, live) && Grown(was, live, [Rec(size, ptr)])
    requires KeepsBlocks(live, mem, h.mem[..])
    modifies h`live
    ensures h.Valid() && h.live == was
  {
    var r := Rec(size, ptr);
    PlacedAmongOthers([r], mem, live, h.mem[..], live);
    assert Placed([r][0], h.mem[..], live);
    BlocksOfOne(r);
    GrownUndone(was, live, [r]);
    FreeRes(h, ptr, size);
  }

  /** Filling the handle makes a resource of the two blocks. */
  method Publish(h: MemoryHeap, ptr: nat, handle: nat, ghost size: Word, ghost was: map<nat, nat>, ghost before: seq<Byte>)
    requires h.Valid() && ptr < WORD_MODULUS
    requires AllPlaced(Both(size, ptr, handle), h.mem[..], h.live)
    requires Grown(was, h.live, Both(size, ptr, handle)) && KeepsBlocks(was, before, h.mem[..])
    modifies h.mem
    ensures Resource(handle, ptr, size, h.mem[..], h.live)
    ensures KeepsBlocks(was, before, h.mem[..])
  {
    ghost var mem := h.mem[..];
    assert Placed(Both(size, ptr, handle)[1], mem, h.live);
    FillHandle(h.mem, handle, ptr);
    FilledIsResource(size, ptr, handle, mem, h.live, h.mem[..]);
    FillingKeepsBlocks(was, before, size, ptr, handle, mem, h.live, h.mem[..]);
  }

  lemma KeepsBlocksTwice(was: map<nat, nat>, live: map<nat, nat>, r: MemRec, m0: seq<Byte>, m1: seq<Byte>, m2: seq<Byte>)
    requires KeepsBlocks(was, m0, m1) && KeepsBlocks(live, m1, m2) && Grown(was, live, [r])
    ensures KeepsBlocks(was, m0, m2)
  {
    forall b, a | b in was && b <= a < b + was[b] && a < |m0| ensures m2[a] == m0[a] {
      assert b in live && live[b] == was[b];
    }
  }

  /** Memory of the given size and a handle for it, or neither. */
  method GetSized(h: MemoryHeap, size: Word) returns (handle: nat, strayed: bool, ghost ptr: nat)
    requires h.Valid()
    modifies h`live, h`denied, h.mem
    ensures h.Valid()
    ensures strayed ==> size + HEADER >= WORD_MODULUS
    ensures h.denied == old(h.denied) + if !strayed && handle == 0 then 1 else 0
    ensures !strayed && handle == 0 ==> h.live == old(h.live)
    ensures !strayed && handle != 0 ==>
      && Resource(handle, ptr, size, h.mem[..], h.live)
      && Grown(old(h.live), h.live, Both(size, ptr, handle))
    ensures KeepsBlocks(old(h.live), old(h.mem[..]), h.mem[..])
  {
    var memory;
    memory, strayed := AllocRes(h, size);
    ptr := memory;
    if strayed || memory == 0 {
      return 0, strayed, 0;
    }
    ghost var mem1, live1 := h.mem[..], h.live;
    handle, strayed := AllocRes(h, HANDLE_SIZE);
    KeepsBlocksTwice(old(h.live), live1, Rec(size, memory), old(h.mem[..]), mem1, h.mem[..]);
    if handle == 0 {
      ReleaseFirst(h, memory, size, old(h.live), mem1, live1);
      return 0, false, 0;
    }
    PlacedTogether(size, memory, handle, mem1, live1, h.mem[..], h.live);
    GrownTogether(size, memory, handle, old(h.live), live1, h.live);
    Publish(h, memory, handle, size, old(h.live), old(h.mem[..]));
  }

  lemma ResourceIsPlaced(handle: nat, ptr: nat, size: Word, mem: seq<Byte>, live: map<nat, nat>)
    requires Resource(handle, ptr, size, mem, live)
    ensures Placed(MemRec(size, 4, ptr), mem, live)
  {
    assert Both(size, ptr, handle)[0] == MemRec(size, 4, ptr);
  }

  /**
   * getHandles: null, with the heap as before, exactly when an allocation is denied, or a handle of a new resource of
   * exactly two new blocks. `ptr` names the memory it leads to, which is as large as the dimensions say.
   */
  method GetHandles(h: MemoryHeap, dim0: Word, dim1: Word) returns (handle: nat, strayed: bool, ghost ptr: nat)
    requires h.Valid()
    modifies h`live, h`denied, h.mem
    ensures h.Valid()
    ensures strayed ==> ResourceSize(dim0, dim1) + HEADER >= WORD_MODULUS
    ensures h.denied == old(h.denied) + if !strayed && handle == 0 then 1 else 0
    ensures !strayed && handle == 0 ==> h.live == old(h.live)
    ensures !strayed && handle != 0 ==> var size := ResourceSize(dim0, dim1);
      && Resource(handle, ptr, size, h.mem[..], h.live)
      && Grown(old(h.live), h.live, Both(size, ptr, handle))
    ensures !strayed && handle != 0 && dim1 == 0 ==> Placed(MemRec(dim0, 4, ptr), h.mem[..], h.live)
    ensures !strayed && handle != 0 && dim1 != 0 && dim0 as int * dim1 as int < 0x1_0000_0000 ==>
      Placed(MemRec(dim0 as int * dim1 as int, 4, ptr), h.mem[..], h.live)
    ensures !strayed && handle != 0 && dim1 != 0 ==>
      Placed(MemRec(dim0 as int * dim1 as int % 0x1_0000_0000, 4, ptr), h.mem[..], h.live)
    ensures KeepsBlocks(old(h.live), old(h.mem[..]), h.mem[..])
  {
    var size: int := dim0;
    if dim1 != 0 {
      var d1: int := dim1;
      size := (size * d1) % WORD_MODULUS;
    }
    handle, strayed, ptr := GetSized(h, size);
    if !strayed && handle != 0 {
      ResourceIsPlaced(handle, ptr, size, h.mem[..], h.live);
    }
    ResourceSizeIs(dim0, dim1);
  }

  /**
   * freeHandles: both blocks go, whatever the dimensions now say. The first release must not disturb the
   * handle, from which the memory's address is still being read.
   */
  method FreeHandles(h: MemoryHeap, handle: nat, dim0: Word, dim1: Word, ghost ptr: nat, ghost size: Word)
    requires h.Valid() && Resource(handle, ptr, size, h.mem[..], h.live)
    modifies h`live
    ensures h.Valid() && h.live == old(h.live) - Blocks(Both(size, ptr, handle))
  {
    ghost var recs, mem := Both(size, ptr, handle), h.mem[..];
    assert Placed(recs[0], mem, h.live) && Placed(recs[1], mem, h.live);
    assert BlockOf(recs[0]) != BlockOf(recs[1]);
    BlocksOfTwo(recs[0], recs[1]);
    var given := ResourceSize(dim0, dim1);
    var memory := LoadWord(h.mem, handle + MEMORY_BASE_AT);
    FreeRes(h, memory, given);
    FreeRes(h, handle, HANDLE_SIZE);
  }

  /**
   * A resource is got, its memory written at will, and released under other dimensions: the heap ends as it
   * began. `used` is the memory when its user is done.
   */
  method GetUseFree(h: MemoryHeap, dim0: Word, dim1: Word, writes: seq<(nat, Byte)>, later0: Word, later1: Word)
    returns (ok: bool, strayed: bool, used: seq<Byte>, ghost ptr: nat)
    requires h.Valid()
    requires forall w :: w in writes ==> w.0 < ResourceSize(dim0, dim1)
    modifies h`live, h`denied, h.mem
    ensures h.Valid()
    ensures h.denied == old(h.denied) + if !strayed && !ok then 1 else 0
    ensures ok && writes != [] ==>
      var w := writes[|writes| - 1];
      ptr + w.0 < |used| && used[ptr + w.0] == w.1
    ensures if strayed then ResourceSize(dim0, dim1) + HEADER >= WORD_MODULUS else h.live == old(h.live)
  {
    ghost var was := h.live;
    var handle: nat;
    handle, strayed, ptr := GetHandles(h, dim0, dim1);
    used := h.mem[..];
    ok := !strayed && handle != 0;
    if ok {
      ghost var size := ResourceSize(dim0, dim1);
      WriteMemory(h, handle, writes, ptr, size);
      used := h.mem[..];
      GrownUndone(was, h.live, Both(size, ptr, handle));
      FreeHandles(h, handle, later0, later1, ptr, size);
    }
  }

  method WriteArea(mem: array<Byte>, at: nat, ghost size: Word, writes: seq<(nat, Byte)>)
    requires at + size <= mem.Length && forall w :: w in writes ==> w.0 < size
    modifies mem
    ensures forall a :: 0 <= a < mem.Length && !(at <= a < at + size) ==> mem[a] == old(mem[a])
    ensures writes != [] ==>
      var w := writes[|writes| - 1];
      w in writes && mem[at + w.0] == w.1
  {
    var i := 0;
    while i < |writes|
      invariant i <= |writes|
      invariant forall a :: 0 <= a < mem.Length && !(at <= a < at + size) ==> mem[a] == old(mem[a])
      invariant i > 0 ==> writes[i - 1] in writes && mem[at + writes[i - 1].0] == writes[i - 1].1
    {
      assert writes[i] in writes;
      mem[at + writes[i].0] := writes[i].1;
      i := i + 1;
    }
  }

  /** The user's writes go through the handle, and leave it and both headers alone. */
  method WriteMemory(h: MemoryHeap, handle: nat, writes: seq<(nat, Byte)>, ghost ptr: nat, ghost size: Word)
    requires h.Valid() && Resource(handle, ptr, size, h.mem[..], h.live)
    requires forall w :: w in writes ==> w.0 < size
    modifies h.mem
    ensures Resource(handle, ptr, size, h.mem[..], h.live)
    ensures writes != [] ==>
      var w := writes[|writes| - 1];
      ptr + w.0 < h.mem.Length && h.mem[ptr + w.0] == w.1
  {
    ghost var recs, mem := Both(size, ptr, handle), h.mem[..];
    assert Placed(recs[0], mem, h.live) && Placed(recs[1], mem, h.live);
    RegionsApart(recs[0], recs[1], mem, h.live);
    var memory := LoadWord(h.mem, handle + MEMORY_BASE_AT);
    WriteArea(h.mem, memory, size, writes);
    forall a | 0 <= a < |mem| && h.mem[..][a] != mem[a] ensures InUserRegion(recs, a) {
      assert recs[0].base <= a < recs[0].base + recs[0].size;
    }
    HeadersSurvive(recs, mem, h.mem[..], h.live);
    forall a | handle <= a < handle + HANDLE_SIZE ensures h.mem[..][a] == mem[a] {
    }
  }
}
