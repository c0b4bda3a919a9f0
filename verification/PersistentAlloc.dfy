/**
 * baseimage_ivahd_frwkconfig.c: allocation of an algorithm's memory records. Each block carries, right below the
 * address handed out, a hidden header with the block's real address and padded size.
 */
module PersistentAlloc {
  import opened Words
  import opened Heap

  /** IALG_MemRec; space and attributes play no part here. */
  datatype MemRec = MemRec(size: Word, alignment: Word, base: nat)

  /** sizeof(MemHeader): the padded size, then the block's address. */
  const HEADER: nat := 8

  function Pad(alignment: nat): nat {
    if alignment > HEADER then alignment else HEADER
  }

  function PaddedSize(r: MemRec): nat {
    r.size + Pad(r.alignment)
  }

  /** Where the block of an allocated record starts. */
  function BlockOf(r: MemRec): nat {
    if r.base < Pad(r.alignment) then 0 else r.base - Pad(r.alignment)
  }

  predicate HasHeader(mem: seq<Byte>, base: nat) {
    HEADER <= base <= |mem|
  }

  function HeaderSize(mem: seq<Byte>, base: nat): Word
    requires HasHeader(mem, base)
  {
    GetWord(mem, base - HEADER)
  }

  function HeaderPtr(mem: seq<Byte>, base: nat): Word
    requires HasHeader(mem, base)
  {
    GetWord(mem, base - HEADER + 4)
  }

  /** The record's header leads to a live block of the size it states. */
  ghost predicate Freeable(r: MemRec, mem: seq<Byte>, live: map<nat, nat>) {
    && HasHeader(mem, r.base)
    && HeaderPtr(mem, r.base) as nat in live
    && live[HeaderPtr(mem, r.base) as nat] == HeaderSize(mem, r.base)
  }

  /** The blocks freeFxn is to release: records without a base are passed over. */
  ghost predicate AllFreeable(recs: seq<MemRec>, mem: seq<Byte>, live: map<nat, nat>) {
    && (forall i :: 0 <= i < |recs| && recs[i].base != 0 ==> Freeable(recs[i], mem, live))
    && (forall i, j :: 0 <= i < j < |recs| && recs[i].base != 0 && recs[j].base != 0 ==>
          HeaderPtr(mem, recs[i].base) != HeaderPtr(mem, recs[j].base))
  }

  ghost function Pointers(recs: seq<MemRec>, mem: seq<Byte>): set<nat>
    requires forall i :: 0 <= i < |recs| && recs[i].base != 0 ==> HasHeader(mem, recs[i].base)
  {
    set i | 0 <= i < |recs| && recs[i].base != 0 :: HeaderPtr(mem, recs[i].base) as nat
  }

  /** The record has a block of its own: its padding holds the header, its rest is the user's. */
  ghost predicate Placed(r: MemRec, mem: seq<Byte>, live: map<nat, nat>) {
    && 0 < BlockOf(r) && r.base + r.size <= |mem|
    && BlockOf(r) in live && live[BlockOf(r)] == PaddedSize(r)
    && HeaderSize(mem, r.base) == PaddedSize(r)
    && HeaderPtr(mem, r.base) == BlockOf(r)
  }

  /** In plain terms: where the block is, how large, and what stands in its header. */
  lemma PlacedMeans(r: MemRec, mem: seq<Byte>, live: map<nat, nat>)
    requires Placed(r, mem, live)
    ensures var pad := if r.alignment > 8 then r.alignment as int else 8;
      && 0 < r.base - pad && r.base - pad in live && live[r.base - pad] == r.size + pad
      && r.base + r.size <= |mem|
      && GetWord(mem, r.base - 8) == r.size + pad && GetWord(mem, r.base - 4) == r.base - pad
  {
  }

  ghost predicate AllPlaced(recs: seq<MemRec>, mem: seq<Byte>, live: map<nat, nat>) {
    && (forall i :: 0 <= i < |recs| ==> Placed(recs[i], mem, live))
    && (forall i, j :: 0 <= i < j < |recs| ==> BlockOf(recs[i]) != BlockOf(recs[j]))
  }

  ghost function Blocks(recs: seq<MemRec>): set<nat> {
    set i | 0 <= i < |recs| :: BlockOf(recs[i])
  }

  /** Two records with blocks of their own: header and user region of one touch neither of the other. */
  lemma RegionsApart(r: MemRec, q: MemRec, mem: seq<Byte>, live: map<nat, nat>)
    requires Disjoint(live, |mem|)
    requires Placed(r, mem, live) && Placed(q, mem, live) && BlockOf(r) != BlockOf(q)
    ensures r.base + r.size <= q.base - HEADER || q.base + q.size <= r.base - HEADER
  {
    var a: nat, b: nat := BlockOf(r), BlockOf(q);
    assert a + live[a] <= b || b + live[b] <= a;
  }

  /** Did the owners write only inside their own regions? */
  ghost predicate OnlyUserBytesChanged(recs: seq<MemRec>, mem: seq<Byte>, mem': seq<Byte>) {
    && |mem'| == |mem|
    && forall a :: 0 <= a < |mem| && mem'[a] != mem[a] ==> InUserRegion(recs, a)
  }

  ghost predicate InUserRegion(recs: seq<MemRec>, a: nat) {
    exists i :: 0 <= i < |recs| && recs[i].base <= a < recs[i].base + recs[i].size
  }

  lemma HeaderOutsideUserRegions(recs: seq<MemRec>, mem: seq<Byte>, live: map<nat, nat>, i: nat, a: nat)
    requires Disjoint(live, |mem|) && AllPlaced(recs, mem, live)
    requires i < |recs| && recs[i].base - HEADER <= a < recs[i].base
    ensures !InUserRegion(recs, a)
  {
    forall j | 0 <= j < |recs| ensures !(recs[j].base <= a < recs[j].base + recs[j].size) {
      if j != i {
        RegionsApart(recs[i], recs[j], mem, live);
      }
    }
  }

  /** A record keeps its place while its header's bytes stay. */
  lemma PlacedStable(r: MemRec, mem: seq<Byte>, mem': seq<Byte>, live: map<nat, nat>)
    requires Placed(r, mem, live) && |mem'| == |mem|
    requires forall a :: r.base - HEADER <= a < r.base ==> mem'[a] == mem[a]
    ensures Placed(r, mem', live)
  {
  }

  /** However the owners use their memory, every header survives. */
  lemma HeadersSurvive(recs: seq<MemRec>, mem: seq<Byte>, mem': seq<Byte>, live: map<nat, nat>)
    requires Disjoint(live, |mem|) && AllPlaced(recs, mem, live)
    requires OnlyUserBytesChanged(recs, mem, mem')
    ensures AllPlaced(recs, mem', live)
  {
    forall i | 0 <= i < |recs| ensures Placed(recs[i], mem', live) {
      assert Placed(recs[i], mem, live);
      forall a | recs[i].base - HEADER <= a < recs[i].base ensures mem'[a] == mem[a] {
        HeaderOutsideUserRegions(recs, mem, live, i, a);
      }
      PlacedStable(recs[i], mem, mem', live);
    }
  }

  lemma PlacedIsFreeable(recs: seq<MemRec>, mem: seq<Byte>, live: map<nat, nat>)
    requires AllPlaced(recs, mem, live)
    ensures AllFreeable(recs, mem, live)
    ensures Pointers(recs, mem) == Blocks(recs)
  {
    forall i | 0 <= i < |recs| ensures Freeable(recs[i], mem, live) {
      assert Placed(recs[i], mem, live);
    }
  }

  // ----- alignment and width -----

  /** An aligned block gives an aligned base exactly when the padding is a multiple of the alignment. */
  lemma BaseAlignedIff(blk: nat, alignment: nat)
    requires IsMultiple(blk, alignment)
    ensures IsMultiple(blk + Pad(alignment), alignment) <==> alignment > HEADER || IsMultiple(HEADER, alignment)
  {
    MultiplePlus(blk, Pad(alignment), alignment);
    assert IsMultiple(0, alignment);
  }

  /** Alignment 3 is above zero, below the header size, and missed. */
  lemma MisalignedBase()
    ensures IsMultiple(3, 3) && !IsMultiple(3 + Pad(3), 3)
  {
    BaseAlignedIff(3, 3);
    MultipleIffNoRemainder(HEADER, 3);
  }

  /** Zero and every power of two meet that condition. */
  lemma {:induction false} PowersOfTwoAlign(e: nat)
    ensures Pow2(e) > HEADER || IsMultiple(HEADER, Pow2(e))
    ensures IsMultiple(HEADER, 0)
  {
    MultipleIffNoRemainder(HEADER, Pow2(e));
    if e > 3 {
      Pow2Grows(e);
    }
  }

  function Pow2(e: nat): (p: nat)
    ensures p > 0
  {
    if e == 0 then 1 else 2 * Pow2(e - 1)
  }

  lemma {:induction false} Pow2Grows(e: nat)
    requires e > 3
    ensures Pow2(e) > HEADER
  {
    if e > 4 { Pow2Grows(e - 1); } else { assert Pow2(3) == 8; }
  }

  /** The sum of size and padding as it is computed, in 32 bits. */
  function RequestSize(r: MemRec): Word {
    PaddedSize(r) % WORD_MODULUS
  }

  /** And the address handed out. */
  function BaseIn(blk: nat, r: MemRec): Word {
    (blk + Pad(r.alignment)) % WORD_MODULUS
  }

  /** Header and user region lie inside the block. */
  predicate Inside(r: MemRec, blk: nat, len: nat) {
    blk + HEADER <= r.base && r.base + r.size <= blk + len
  }

  /** The block that is asked for holds header and user region if and only if the sum does not wrap around. */
  lemma CoversIffNoWrap(r: MemRec, blk: nat)
    requires 0 < blk && blk + RequestSize(r) < WORD_MODULUS
    ensures Inside(r.(base := BaseIn(blk, r)), blk, RequestSize(r)) <==> PaddedSize(r) < WORD_MODULUS
  {
    var pad, size: int := Pad(r.alignment), r.size;
    WrapsOnce(size + pad);
    WrapsOnce(blk + pad);
  }

  lemma WrapsOnce(x: nat)
    requires x < 2 * WORD_MODULUS
    ensures x % WORD_MODULUS == if x < WORD_MODULUS then x else x - WORD_MODULUS
  {
  }

  /** Four bytes short of the address space, at the smallest padding: a block of four bytes is asked for. */
  lemma WrappedRequest(blk: nat)
    requires 0 < blk < WORD_MODULUS - 8
    ensures var r := MemRec(0xffff_fffc, 4, 0);
      RequestSize(r) == 4 && !Inside(r.(base := BaseIn(blk, r)), blk, 4)
  {
    CoversIffNoWrap(MemRec(0xffff_fffc, 4, 0), blk);
  }

  // ----- the two functions -----

  predicate SameShape(r: MemRec, q: MemRec) {
    r.size == q.size && r.alignment == q.alignment
  }

  /** One turn of the loop of freeFxn: the i-th record's block goes, unless it has none. */
  method FreeTurn(h: MemoryHeap, base: nat, ghost recs: seq<MemRec>, ghost i: nat, ghost was: map<nat, nat>,
                  ghost img: seq<Byte>)
    requires h.Valid() && i < |recs| && recs[i].base == base && h.mem[..] == img
    requires AllFreeable(recs, img, was) && h.live == was - Pointers(recs[..i], img)
    modifies h`live
    ensures h.Valid() && h.live == was - Pointers(recs[..i + 1], img)
  {
    PointersStep(recs, img, i);
    if base != 0 {
      StillToFree(recs, img, was, i);
      var size := LoadWord(h.mem, base - HEADER);
      var ptr := LoadWord(h.mem, base - HEADER + 4);
      h.Release(ptr, size);
    }
  }

  /** freeFxn: the blocks are found, and their sizes read, through the headers alone. */
  method FreeFxn(h: MemoryHeap, memTab: array<MemRec>, n: nat)
    requires h.Valid() && n <= memTab.Length
    requires AllFreeable(memTab[..n], h.mem[..], h.live)
    modifies h`live
    ensures h.Valid()
    ensures h.live == old(h.live) - Pointers(memTab[..n], h.mem[..])
  {
    ghost var recs, img, was := memTab[..n], h.mem[..], h.live;
    NothingToFree(img, was);
    assert recs[..0] == [];
    var i := 0;
    while i < n
      invariant i <= n && h.Valid()
      invariant h.live == was - Pointers(recs[..i], img)
    {
      FreeTurn(h, memTab[i].base, recs, i, was, img);
      i := i + 1;
    }
    assert recs[..n] == recs;
  }

  lemma NothingToFree(mem: seq<Byte>, live: map<nat, nat>)
    ensures live - Pointers([], mem) == live
  {
    assert Pointers([], mem) == {};
  }

  /** The next block to free is live, of the size its header states, and not among those already freed. */
  lemma StillToFree(recs: seq<MemRec>, mem: seq<Byte>, live: map<nat, nat>, i: nat)
    requires AllFreeable(recs, mem, live) && i < |recs| && recs[i].base != 0
    ensures Freeable(recs[i], mem, live)
    ensures var ptr: nat, freed := HeaderPtr(mem, recs[i].base), Pointers(recs[..i], mem);
      && ptr in live - freed && (live - freed)[ptr] == HeaderSize(mem, recs[i].base)
      && live - freed - {ptr} == live - (freed + {ptr})
  {
    assert HeaderPtr(mem, recs[i].base) as nat !in Pointers(recs[..i], mem);
  }

  lemma PointersStep(recs: seq<MemRec>, mem: seq<Byte>, i: nat)
    requires i < |recs|
    requires forall k :: 0 <= k < |recs| && recs[k].base != 0 ==> HasHeader(mem, recs[k].base)
    ensures Pointers(recs[..i + 1], mem)
      == Pointers(recs[..i], mem) + if recs[i].base == 0 then {} else {HeaderPtr(mem, recs[i].base) as nat}
  {
    var a, b := recs[..i], recs[..i + 1];
    forall p | p in Pointers(a, mem) ensures p in Pointers(b, mem) {
      var k :| 0 <= k < i && a[k].base != 0 && HeaderPtr(mem, a[k].base) as nat == p;
      assert b[k] == a[k];
    }
    forall p | p in Pointers(b, mem)
      ensures p in Pointers(a, mem) || (recs[i].base != 0 && p == HeaderPtr(mem, recs[i].base) as nat) {
      var k :| 0 <= k < i + 1 && b[k].base != 0 && HeaderPtr(mem, b[k].base) as nat == p;
      if k < i { assert a[k] == b[k]; }
    }
    if recs[i].base != 0 {
      assert b[i].base != 0;
    }
  }

  /** Blocks of others are not touched by writes inside a block that was free. */
  lemma OthersStayPlaced(recs: seq<MemRec>, mem: seq<Byte>, mem': seq<Byte>, live: map<nat, nat>, blk: nat, size: nat)
    requires Disjoint(live, |mem|) && AllPlaced(recs, mem, live) && Free(live, |mem|, blk, size) && size > 0
    requires |mem'| == |mem| && forall a :: 0 <= a < |mem| && !(blk <= a < blk + size) ==> mem'[a] == mem[a]
    ensures blk !in live && AllPlaced(recs, mem', live[blk := size])
  {
    forall i | 0 <= i < |recs| ensures Placed(recs[i], mem', live[blk := size]) {
      var r := recs[i];
      assert Placed(r, mem, live);
      assert forall a :: r.base - HEADER <= a < r.base ==> mem'[a] == mem[a];
    }
  }

  /** The bytes of every block in `live` are the same in both memories. */
  ghost predicate KeepsBlocks(live: map<nat, nat>, mem: seq<Byte>, mem': seq<Byte>) {
    && |mem'| == |mem|
    && forall b, a :: b in live && b <= a < b + live[b] && a < |mem| ==> mem'[a] == mem[a]
  }

  /** From one memory and live set to the next, record q has obtained a block that was free. */
  ghost predicate Obtained(q: MemRec, mem: seq<Byte>, live: map<nat, nat>, mem': seq<Byte>, live': map<nat, nat>) {
    && |mem'| == |mem|
    && Free(live, |mem|, BlockOf(q), PaddedSize(q))
    && live' == live[BlockOf(q) := PaddedSize(q)]
    && Placed(q, mem', live')
    && (forall a :: 0 <= a < |mem| && !(BlockOf(q) <= a < BlockOf(q) + PaddedSize(q)) ==> mem'[a] == mem[a])
  }

  ghost predicate MeetsAlignment(q: MemRec) {
    q.alignment > HEADER || IsMultiple(HEADER, q.alignment) ==> IsMultiple(q.base, q.alignment)
  }

  /** hdr->size = size; hdr->ptr = blk. */
  method WriteHeader(mem: array<Byte>, base: nat, size: Word, blk: Word)
    requires HEADER <= base <= mem.Length
    modifies mem
    ensures HeaderSize(mem[..], base) == size && HeaderPtr(mem[..], base) == blk
    ensures forall a :: 0 <= a < mem.Length && !(base - HEADER <= a < base) ==> mem[a] == old(mem[a])
  {
    StoreWord(mem, base - HEADER, size);
    ghost var m := mem[..];
    StoreWord(mem, base - HEADER + 4, blk);
    assert forall a :: base - HEADER <= a < base - HEADER + 4 ==> mem[..][a] == m[a];
  }

  /** A header written into a free block gives the record its place. */
  lemma HeaderMakesPlace(q: MemRec, blk: nat, mem: seq<Byte>, live: map<nat, nat>, mem': seq<Byte>)
    requires q.base == blk + Pad(q.alignment) && Free(live, |mem|, blk, PaddedSize(q))
    requires |mem'| == |mem| && HeaderSize(mem', q.base) == PaddedSize(q) && HeaderPtr(mem', q.base) == blk
    requires forall a :: 0 <= a < |mem| && !(q.base - HEADER <= a < q.base) ==> mem'[a] == mem[a]
    ensures Obtained(q, mem, live, mem', live[blk := PaddedSize(q)])
  {
  }

  /** The block for a record: Memory_alloc with the size as it is computed. */
  method Reserve(h: MemoryHeap, r: MemRec) returns (blk: nat, size: Word)
    requires h.Valid()
    modifies h`live, h`denied
    ensures h.Valid() && size == RequestSize(r)
    ensures blk == 0 ==> h.live == old(h.live) && h.denied == old(h.denied) + 1
    ensures blk != 0 ==> h.denied == old(h.denied)
    ensures blk != 0 ==> Free(old(h.live), h.mem.Length, blk, size) && h.live == old(h.live)[blk := size]
    ensures blk != 0 ==> IsMultiple(blk, r.alignment)
  {
    var pad := if r.alignment > HEADER then r.alignment else HEADER;
    size := (r.size + pad) % WORD_MODULUS;
    blk := h.Alloc(size, r.alignment);
  }

  /** Once the block is there and holds the record. */
  method PutHeader(h: MemoryHeap, r: MemRec, blk: Word, ghost live: map<nat, nat>)
    requires h.mem.Length < WORD_MODULUS && PaddedSize(r) < WORD_MODULUS && r.base == blk + Pad(r.alignment)
    requires Free(live, h.mem.Length, blk, PaddedSize(r)) && IsMultiple(blk, r.alignment)
    modifies h.mem
    ensures Obtained(r, old(h.mem[..]), live, h.mem[..], live[blk as nat := PaddedSize(r)]) && MeetsAlignment(r)
  {
    WriteHeader(h.mem, r.base, PaddedSize(r), blk);
    HeaderMakesPlace(r, blk, old(h.mem[..]), live, h.mem[..]);
    BaseAlignedIff(blk, r.alignment);
  }

  /**
   * One turn of the loop: a block with its header, or nothing (base 0). When the block does not hold what is about to be
   * written the program has strayed outside its memory, and the model follows it no further.
   */
  method AllocOne(h: MemoryHeap, r: MemRec) returns (base: nat, strayed: bool)
    requires h.Valid()
    modifies h`live, h`denied, h.mem
    ensures h.Valid()
    ensures h.denied == old(h.denied) + if !strayed && base == 0 then 1 else 0
    ensures strayed ==> PaddedSize(r) >= WORD_MODULUS && h.mem[..] == old(h.mem[..])
    ensures !strayed && base == 0 ==> h.live == old(h.live) && h.mem[..] == old(h.mem[..])
    ensures !strayed && base != 0 ==>
      Obtained(r.(base := base), old(h.mem[..]), old(h.live), h.mem[..], h.live) && MeetsAlignment(r.(base := base))
  {
    var blk, size := Reserve(h, r);
    if blk == 0 {
      return 0, false;
    }
    base := BaseIn(blk, r);
    CoversIffNoWrap(r, blk);
    strayed := !Inside(r.(base := base), blk, size);
    if !strayed {
      NoWrap(r, blk);
      PutHeader(h, r.(base := base), blk, old(h.live));
    }
  }

  lemma NoWrap(r: MemRec, blk: nat)
    requires PaddedSize(r) < WORD_MODULUS && blk + RequestSize(r) < WORD_MODULUS
    ensures RequestSize(r) == PaddedSize(r) && BaseIn(blk, r) == blk + Pad(r.alignment)
  {
    WrapsOnce(PaddedSize(r));
    WrapsOnce(blk + Pad(r.alignment));
  }

  /** Every alignment is met that is zero or a power of two (see PowersOfTwoAlign), and any above the header size. */
  ghost predicate Aligned(recs: seq<MemRec>) {
    forall i :: 0 <= i < |recs| ==> MeetsAlignment(recs[i])
  }

  /** live is `was` together with the blocks of recs, none of which were live. */
  ghost predicate Grown(was: map<nat, nat>, live: map<nat, nat>, recs: seq<MemRec>) {
    && Blocks(recs) !! was.Keys
    && live.Keys == was.Keys + Blocks(recs)
    && forall b :: b in was ==> live[b] == was[b]
  }

  lemma GrownStep(was: map<nat, nat>, live: map<nat, nat>, recs: seq<MemRec>, r: MemRec)
    requires Grown(was, live, recs) && BlockOf(r) !in live
    ensures Grown(was, live[BlockOf(r) := PaddedSize(r)], recs + [r])
  {
    var recs' := recs + [r];
    assert recs'[|recs|] == r;
    forall b | b in Blocks(recs) ensures b in Blocks(recs') {
      var i :| 0 <= i < |recs| && BlockOf(recs[i]) == b;
      assert recs'[i] == recs[i];
    }
    assert Blocks(recs') == Blocks(recs) + {BlockOf(r)};
  }

  lemma GrownUndone(was: map<nat, nat>, live: map<nat, nat>, recs: seq<MemRec>)
    requires Grown(was, live, recs)
    ensures live - Blocks(recs) == was
  {
  }

  /** What holds once recs have been allocated, starting from memory `before` and live set `was`. */
  ghost predicate Allocated(recs: seq<MemRec>, before: seq<Byte>, was: map<nat, nat>, mem: seq<Byte>, live: map<nat, nat>) {
    && AllPlaced(recs, mem, live)
    && Aligned(recs)
    && Grown(was, live, recs)
    && KeepsBlocks(was, before, mem)
  }

  lemma AllPlacedStep(recs: seq<MemRec>, q: MemRec, mem: seq<Byte>, live: map<nat, nat>, mem': seq<Byte>, live': map<nat, nat>)
    requires Disjoint(live, |mem|)
    requires AllPlaced(recs, mem, live) && Obtained(q, mem, live, mem', live')
    ensures AllPlaced(recs + [q], mem', live')
  {
    OthersStayPlaced(recs, mem, mem', live, BlockOf(q), PaddedSize(q));
    var recs' := recs + [q];
    forall i | 0 <= i < |recs'| ensures Placed(recs'[i], mem', live') {
      if i < |recs| { assert recs'[i] == recs[i]; }
    }
    forall i, j | 0 <= i < j < |recs'| ensures BlockOf(recs'[i]) != BlockOf(recs'[j]) {
      assert recs'[i] == recs[i] && Placed(recs[i], mem, live);
    }
  }

  lemma KeepsBlocksStep(q: MemRec, before: seq<Byte>, was: map<nat, nat>, recs: seq<MemRec>,
                        mem: seq<Byte>, live: map<nat, nat>, mem': seq<Byte>, live': map<nat, nat>)
    requires KeepsBlocks(was, before, mem) && Grown(was, live, recs)
    requires Obtained(q, mem, live, mem', live')
    ensures KeepsBlocks(was, before, mem')
  {
    forall b, a | b in was && b <= a < b + was[b] && a < |mem| ensures mem'[a] == before[a] {
      assert b in live && live[b] == was[b];
    }
  }

  lemma AllocatedStep(recs: seq<MemRec>, q: MemRec, before: seq<Byte>, was: map<nat, nat>,
                      mem: seq<Byte>, live: map<nat, nat>, mem': seq<Byte>, live': map<nat, nat>)
    requires Disjoint(live, |mem|)
    requires Allocated(recs, before, was, mem, live)
    requires Obtained(q, mem, live, mem', live') && MeetsAlignment(q)
    ensures Allocated(recs + [q], before, was, mem', live')
  {
    AllPlacedStep(recs, q, mem, live, mem', live');
    KeepsBlocksStep(q, before, was, recs, mem, live, mem', live');
    OthersStayPlaced(recs, mem, mem', live, BlockOf(q), PaddedSize(q));
    GrownStep(was, live, recs, q);
  }

  /** The record behind recs. */
  method AllocNext(h: MemoryHeap, r: MemRec, ghost recs: seq<MemRec>, ghost before: seq<Byte>, ghost was: map<nat, nat>)
    returns (base: nat, strayed: bool)
    requires h.Valid() && Allocated(recs, before, was, h.mem[..], h.live)
    modifies h`live, h`denied, h.mem
    ensures h.Valid()
    ensures h.denied == old(h.denied) + if !strayed && base == 0 then 1 else 0
    ensures strayed ==> PaddedSize(r) >= WORD_MODULUS && h.mem[..] == old(h.mem[..])
    ensures !strayed && base == 0 ==> Allocated(recs, before, was, h.mem[..], h.live)
    ensures !strayed && base != 0 ==> Allocated(recs + [r.(base := base)], before, was, h.mem[..], h.live)
  {
    ghost var mem, live := h.mem[..], h.live;
    base, strayed := AllocOne(h, r);
    if !strayed && base != 0 {
      AllocatedStep(recs, r.(base := base), before, was, mem, live, h.mem[..], h.live);
    }
  }

  datatype Outcome = Done | Failed | Strayed(record: nat)

  /** The first i records may have a new base; nothing else has changed. */
  ghost predicate BasesSet(was: seq<MemRec>, now: seq<MemRec>, i: nat) {
    && |now| == |was|
    && forall j :: 0 <= j < |was| ==> if j < i then SameShape(now[j], was[j]) else now[j] == was[j]
  }

  lemma BaseSet(was: seq<MemRec>, now: seq<MemRec>, i: nat, base: nat)
    requires BasesSet(was, now, i) && i < |was|
    ensures BasesSet(was, now[i := now[i].(base := base)], i + 1)
  {
  }

  /** Freeing what has just been allocated restores the live set. */
  method GiveBack(h: MemoryHeap, memTab: array<MemRec>, n: nat, ghost recs: seq<MemRec>, ghost before: seq<Byte>,
                  ghost was: map<nat, nat>)
    requires h.Valid() && n <= memTab.Length && recs == memTab[..n]
    requires Allocated(recs, before, was, h.mem[..], h.live)
    modifies h`live
    ensures h.Valid() && h.live == was
  {
    PlacedIsFreeable(recs, h.mem[..], h.live);
    GrownUndone(was, h.live, recs);
    FreeFxn(h, memTab, n);
  }

  /**
   * allocFxn. On success every record has a block of its own, placed and aligned, and the heap has grown by exactly
   * these blocks; when some allocation is denied, and only then, it fails: the blocks obtained so far are given back and
   * the heap is as before. Only a record whose padded size wraps around can lead the program astray.
   */
  method AllocFxn(h: MemoryHeap, memTab: array<MemRec>, n: nat) returns (outcome: Outcome)
    requires h.Valid() && n <= memTab.Length
    modifies h`live, h`denied, h.mem, memTab
    ensures h.Valid()
    ensures h.denied == old(h.denied) + if outcome.Failed? then 1 else 0
    ensures KeepsBlocks(old(h.live), old(h.mem[..]), h.mem[..])
    ensures BasesSet(old(memTab[..]), memTab[..], n)
    ensures outcome.Done? ==> Allocated(memTab[..n], old(h.mem[..]), old(h.live), h.mem[..], h.live)
    ensures outcome.Failed? ==> h.live == old(h.live)
    ensures outcome.Strayed? ==> outcome.record < n && PaddedSize(memTab[outcome.record]) >= WORD_MODULUS
  {
    ghost var was, before, table, recs := h.live, h.mem[..], memTab[..], [];
    var i := 0;
    while i < n
      invariant i <= n && h.Valid() && h.denied == old(h.denied)
      invariant BasesSet(table, memTab[..], i)
      invariant recs == memTab[..i] && Allocated(recs, before, was, h.mem[..], h.live)
    {
      var base, strayed := AllocNext(h, memTab[i], recs, before, was);
      if strayed {
        return Strayed(i);
      }
      if base == 0 {
        GiveBack(h, memTab, i, recs, before, was);
        return Failed;
      }
      ghost var now := memTab[..];
      memTab[i] := memTab[i].(base := base);
      BaseSet(table, now, i, base);
      assert memTab[..] == now[i := now[i].(base := base)];
      assert memTab[..i + 1] == now[..i] + [memTab[i]];
      recs := recs + [memTab[i]];
      i := i + 1;
    }
    outcome := Done;
  }

  /** In plain terms: blocks of their own, aligned, apart from each other, besides those there were, which are intact. */
  lemma AllocatedMeans(recs: seq<MemRec>, before: seq<Byte>, was: map<nat, nat>, mem: seq<Byte>, live: map<nat, nat>, i: nat)
    requires Disjoint(live, |mem|) && Allocated(recs, before, was, mem, live) && i < |recs|
    ensures Placed(recs[i], mem, live)
    ensures recs[i].alignment > 8 || recs[i].alignment in {1, 2, 4, 8} ==> recs[i].base % recs[i].alignment as int == 0
    ensures forall j :: 0 <= j < |recs| && j != i ==>
      recs[i].base + recs[i].size <= recs[j].base - 8 || recs[j].base + recs[j].size <= recs[i].base - 8
    ensures forall b :: b in was ==> b in live && live[b] == was[b]
    ensures forall b :: b in live && b !in was ==> exists j :: 0 <= j < |recs| && BlockOf(recs[j]) == b
    ensures BlockOf(recs[i]) !in was
    ensures |mem| == |before| && forall b, a :: b in was && b <= a < b + was[b] && a < |mem| ==> mem[a] == before[a]
  {
    assert Placed(recs[i], mem, live);
    assert BlockOf(recs[i]) in Blocks(recs);
    assert MeetsAlignment(recs[i]);
    AlignmentMeans(recs[i]);
    forall j | 0 <= j < |recs| && j != i
      ensures recs[i].base + recs[i].size <= recs[j].base - 8 || recs[j].base + recs[j].size <= recs[i].base - 8 {
      assert Placed(recs[j], mem, live) && BlockOf(recs[i]) != BlockOf(recs[j]);
      RegionsApart(recs[i], recs[j], mem, live);
    }
  }

  lemma AlignmentMeans(r: MemRec)
    requires MeetsAlignment(r)
    ensures r.alignment > 8 || r.alignment in {1, 2, 4, 8} ==> r.base % r.alignment as int == 0
  {
    if r.alignment > 8 || r.alignment in {1, 2, 4, 8} {
      MultipleIffNoRemainder(HEADER, r.alignment);
      MultipleIffNoRemainder(r.base, r.alignment);
    }
  }

  // ----- the owners at work -----

  /** Blocks keep their place while others are allocated. */
  lemma PlacedAmongOthers(recs: seq<MemRec>, mem: seq<Byte>, live: map<nat, nat>, mem': seq<Byte>, live': map<nat, nat>)
    requires AllPlaced(recs, mem, live) && KeepsBlocks(live, mem, mem')
    requires forall b :: b in live ==> b in live' && live'[b] == live[b]
    ensures AllPlaced(recs, mem', live')
  {
    forall i | 0 <= i < |recs| ensures Placed(recs[i], mem', live') {
      var r := recs[i];
      assert Placed(r, mem, live);
      forall a | r.base - HEADER <= a < r.base ensures mem'[a] == mem[a] {
        assert BlockOf(r) <= a < BlockOf(r) + live[BlockOf(r)];
      }
    }
  }

  /** An owner's write: into which record, how far in, what. */
  datatype Write = Write(rec: nat, offset: nat, value: Byte)

  /** The owners write only where their regions are. */
  ghost predicate WritesFit(recs: seq<MemRec>, writes: seq<Write>) {
    forall k :: 0 <= k < |writes| ==> writes[k].rec < |recs| && writes[k].offset < recs[writes[k].rec].size
  }

  method UseMemory(h: MemoryHeap, memTab: array<MemRec>, n: nat, writes: seq<Write>)
    requires n <= memTab.Length && Inbounds(memTab[..n], h.mem[..]) && WritesFit(memTab[..n], writes)
    modifies h.mem
    ensures OnlyUserBytesChanged(memTab[..n], old(h.mem[..]), h.mem[..])
    ensures writes != [] ==>
      var w := writes[|writes| - 1];
      var at := memTab[w.rec].base + w.offset;
      at < h.mem.Length && h.mem[at] == w.value
  {
    ghost var recs, mem := memTab[..n], h.mem[..];
    var i := 0;
    while i < |writes|
      invariant i <= |writes|
      invariant OnlyUserBytesChanged(recs, mem, h.mem[..])
      invariant i > 0 ==> Shows(h.mem[..], recs, writes[i - 1])
    {
      UseByte(h, recs, memTab[writes[i].rec].base, writes[i], mem);
      i := i + 1;
    }
  }

  ghost predicate Inbounds(recs: seq<MemRec>, mem: seq<Byte>) {
    forall i :: 0 <= i < |recs| ==> recs[i].base + recs[i].size <= |mem|
  }

  lemma RegionsInside(recs: seq<MemRec>, mem: seq<Byte>, live: map<nat, nat>)
    requires AllPlaced(recs, mem, live)
    ensures Inbounds(recs, mem)
  {
    forall i | 0 <= i < |recs| ensures recs[i].base + recs[i].size <= |mem| {
      assert Placed(recs[i], mem, live);
    }
  }

  ghost predicate Shows(mem: seq<Byte>, recs: seq<MemRec>, w: Write) {
    && w.rec < |recs| && recs[w.rec].base + w.offset < |mem|
    && mem[recs[w.rec].base + w.offset] == w.value
  }

  method UseByte(h: MemoryHeap, ghost recs: seq<MemRec>, base: nat, w: Write, ghost mem: seq<Byte>)
    requires w.rec < |recs| && w.offset < recs[w.rec].size && base == recs[w.rec].base
    requires Inbounds(recs, mem) && OnlyUserBytesChanged(recs, mem, h.mem[..])
    modifies h.mem
    ensures OnlyUserBytesChanged(recs, mem, h.mem[..]) && Shows(h.mem[..], recs, w)
  {
    var at := base + w.offset;
    assert InUserRegion(recs, at);
    h.mem[at] := w.value;
  }

  /** The owners at work on what has been allocated, and its release. */
  method UseAndFree(h: MemoryHeap, memTab: array<MemRec>, n: nat, writes: seq<Write>, ghost before: seq<Byte>,
                    ghost was: map<nat, nat>)
    returns (used: seq<Byte>)
    requires h.Valid() && n <= memTab.Length && WritesFit(memTab[..n], writes)
    requires Allocated(memTab[..n], before, was, h.mem[..], h.live)
    modifies h`live, h.mem
    ensures h.Valid() && h.live == was
    ensures writes != [] ==>
      var w := writes[|writes| - 1];
      var at := memTab[w.rec].base + w.offset;
      at < |used| && used[at] == w.value
  {
    ghost var recs, mem := memTab[..n], h.mem[..];
    RegionsInside(recs, mem, h.live);
    UseMemory(h, memTab, n, writes);
    used := h.mem[..];
    HeadersSurvive(recs, mem, used, h.live);
    PlacedIsFreeable(recs, used, h.live);
    GrownUndone(was, h.live, recs);
    FreeFxn(h, memTab, n);
  }

  /**
   * The round trip: allocate, let the owners write whatever they like into their own memory, free.
   * The heap ends with exactly the blocks it began with, whether or not allocation succeeded. `used` is the memory when
   * the owners are done.
   */
  method AllocUseFree(h: MemoryHeap, memTab: array<MemRec>, n: nat, writes: seq<Write>)
    returns (outcome: Outcome, used: seq<Byte>)
    requires h.Valid() && n <= memTab.Length
    requires WritesFit(memTab[..n], writes)
    modifies h`live, h`denied, h.mem, memTab
    ensures h.Valid()
    ensures h.denied == old(h.denied) + if outcome.Failed? then 1 else 0
    ensures !outcome.Strayed? ==> h.live == old(h.live)
    ensures outcome.Done? && writes != [] ==>
      var w := writes[|writes| - 1];
      var at := memTab[w.rec].base + w.offset;
      at < |used| && used[at] == w.value
    ensures outcome.Strayed? ==> outcome.record < n && PaddedSize(memTab[outcome.record]) >= WORD_MODULUS
  {
    ghost var was, before, table := h.live, h.mem[..], memTab[..];
    outcome := AllocFxn(h, memTab, n);
    used := h.mem[..];
    if outcome.Done? {
      StillFits(table, memTab[..], n, writes);
      used := UseAndFree(h, memTab, n, writes, before, was);
    }
  }

  lemma StillFits(was: seq<MemRec>, now: seq<MemRec>, n: nat, writes: seq<Write>)
    requires BasesSet(was, now, n) && n <= |was| && WritesFit(was[..n], writes)
    ensures WritesFit(now[..n], writes)
  {
  }
}
