/**
 * Memory that client and coprocessor share (dce_alloc, dce_free, virt2ducati, dce_clean). The client reaches the
 * bytes at its own addresses, the coprocessor at physical ones; each block has a header below the pointer given out.
 */
module SharedBlocks {
  import opened Words

  /** sizeof(MemHeader): the user size, then the user region's address on the coprocessor. */
  const HEADER: nat := 8

  ghost predicate HeaderIn(m: seq<Byte>, d: nat, len: nat) {
    && HEADER <= len && d + len <= |m|
    && GetWord(m, d) == len - HEADER
    && GetWord(m, d + 4) == d + HEADER
  }

  /** A header lives in its eight bytes. */
  lemma HeaderStable(m: seq<Byte>, m': seq<Byte>, d: nat, len: nat)
    requires HeaderIn(m, d, len) && |m'| == |m|
    requires forall k :: d <= k < d + HEADER ==> m'[k] == m[k]
    ensures HeaderIn(m', d, len)
  {
  }

  class SharedMemory {
    /** By physical address. */
    const mem: array<Byte>
    /** TilerMem_VirtToPhys. */
    const phys: nat -> nat
    /** The client's blocks by address, with their full length. */
    var live: map<nat, nat>

    constructor (size: nat, phys: nat -> nat)
      requires size < WORD_MODULUS
      ensures Valid() && live == map[] && mem.Length == size && this.phys == phys
    {
      mem := new Byte[size](_ => 0);
      this.phys := phys;
      live := map[];
    }

    /** Translation is affine within the block, which lies in memory, and at the address given out even if nothing follows it. */
    ghost predicate Mapped(h: nat, len: nat) {
      && 0 < h && HEADER <= len && phys(h) + len <= mem.Length
      && forall a :: h <= a < h + len || a == h + HEADER ==> phys(a) == phys(h) + (a - h)
    }

    /** Physically apart. */
    predicate Apart(h: nat, len: nat, g: nat, glen: nat) {
      phys(h) + len <= phys(g) || phys(g) + glen <= phys(h)
    }

    /** Blocks apart from each other. */
    ghost predicate Laid(blocks: map<nat, nat>) {
      && (forall h :: h in blocks ==> Mapped(h, blocks[h]))
      && (forall h, g :: h in blocks && g in blocks && h != g ==> Apart(h, blocks[h], g, blocks[g]))
    }

    /** Each with its header: its user size, and where its user region is. */
    ghost predicate Headed(blocks: map<nat, nat>, m: seq<Byte>)
      requires Laid(blocks)
    {
      forall h :: h in blocks ==> HeaderIn(m, phys(h), blocks[h])
    }

    ghost predicate Valid()
      reads this, mem
    {
      mem.Length < WORD_MODULUS && Laid(live) && Headed(live, mem[..])
    }

    ghost predicate AvailableIn(blocks: map<nat, nat>, h: nat, len: nat) {
      h !in blocks && Mapped(h, len) && forall g :: g in blocks ==> Apart(h, len, g, blocks[g])
    }

    /** Can MemMgr_Alloc answer with this block? */
    ghost predicate Available(h: nat, len: nat)
      reads this
    {
      AvailableIn(live, h, len)
    }

    /** A pointer that dce_alloc gave out and that has not been freed. */
    predicate Given(p: nat)
      reads this
    {
      p >= HEADER && p - HEADER in live
    }

    function UserSize(p: nat): nat
      requires Given(p)
      reads this
    {
      if live[p - HEADER] < HEADER then 0 else live[p - HEADER] - HEADER
    }

    /** Bytes of a block that was available hold nobody's header. */
    lemma OtherHeadersKept(blocks: map<nat, nat>, m: seq<Byte>, m': seq<Byte>, h: nat, len: nat)
      requires Laid(blocks) && Headed(blocks, m) && AvailableIn(blocks, h, len) && |m'| == |m| == mem.Length
      requires forall d :: 0 <= d < |m| && !(phys(h) <= d < phys(h) + len) ==> m'[d] == m[d]
      ensures Headed(blocks, m')
    {
      forall g | g in blocks ensures HeaderIn(m', phys(g), blocks[g]) {
        assert HeaderIn(m, phys(g), blocks[g]) && Apart(h, len, g, blocks[g]);
        HeaderStable(m, m', phys(g), blocks[g]);
      }
    }

    /** One block more, with its header. */
    lemma BlockAdded(blocks: map<nat, nat>, m: seq<Byte>, h: nat, len: nat)
      requires Laid(blocks) && Headed(blocks, m) && AvailableIn(blocks, h, len) && HeaderIn(m, phys(h), len)
      ensures Laid(blocks[h := len]) && Headed(blocks[h := len], m)
    {
    }

    /** dce_alloc, when MemMgr_Alloc answers h. */
    method Alloc(sz: nat, h: nat) returns (p: nat)
      requires Valid() && Available(h, sz + 8)
      modifies this`live, mem
      ensures Valid() && live == old(live)[h := sz + 8]
      ensures p == h + 8
      ensures forall d :: phys(p) <= d < phys(p) + sz ==> d < mem.Length && mem[d] == 0
      ensures forall d :: 0 <= d < mem.Length && !(phys(h) <= d < phys(h) + sz + 8) ==> mem[d] == old(mem[d])
    {
      p := h + HEADER;
      ghost var m := mem[..];
      Fill(h, sz);
      OtherHeadersKept(live, m, mem[..], h, sz + HEADER);
      BlockAdded(live, mem[..], h, sz + HEADER);
      live := live[h := sz + HEADER];
    }

    /** The new block's contents: header, then zeros. */
    method Fill(h: nat, sz: nat)
      requires Mapped(h, sz + HEADER) && mem.Length < WORD_MODULUS
      modifies mem
      ensures HeaderIn(mem[..], phys(h), sz + HEADER)
      ensures forall d :: phys(h) + HEADER <= d < phys(h) + HEADER + sz ==> mem[d] == 0
      ensures forall d :: 0 <= d < mem.Length && !(phys(h) <= d < phys(h) + sz + HEADER) ==> mem[d] == old(mem[d])
    {
      WriteHeader(phys(h), sz, phys(h + HEADER));
      ghost var m := mem[..];
      ZeroUser(h, sz);
      HeaderStable(m, mem[..], phys(h), sz + HEADER);
    }

    /** memset(H2P(h), 0, sz) */
    method ZeroUser(h: nat, sz: nat)
      requires Mapped(h, sz + HEADER)
      modifies mem
      ensures forall d :: phys(h) + HEADER <= d < phys(h) + HEADER + sz ==> mem[d] == 0
      ensures forall d :: 0 <= d < mem.Length && !(phys(h) + HEADER <= d < phys(h) + HEADER + sz) ==> mem[d] == old(mem[d])
    {
      var i := 0;
      while i < sz
        invariant i <= sz
        invariant forall d :: 0 <= d < mem.Length ==>
          mem[d] == if phys(h) + HEADER <= d < phys(h) + HEADER + i then 0 else old(mem[d])
      {
        mem[phys(h + HEADER + i)] := 0;
        i := i + 1;
      }
    }

    method WriteHeader(at: nat, size: Word, address: Word)
      requires at + HEADER <= mem.Length
      modifies mem
      ensures GetWord(mem[..], at) == size && GetWord(mem[..], at + 4) == address
      ensures forall d :: 0 <= d < mem.Length && !(at <= d < at + HEADER) ==> mem[d] == old(mem[d])
    {
      StoreWord(mem, at, size);
      ghost var m := mem[..];
      StoreWord(mem, at + 4, address);
      assert forall d :: at <= d < at + 4 ==> mem[..][d] == m[d];
    }

    /** The client writes a byte of its own; no header changes. */
    method WriteUser(p: nat, offset: nat, value: Byte)
      requires Valid() && Given(p) && offset < UserSize(p)
      modifies mem
      ensures Valid()
      ensures phys(p) + offset < mem.Length && mem[phys(p) + offset] == value
      ensures forall d :: 0 <= d < mem.Length && d != phys(p) + offset ==> mem[d] == old(mem[d])
    {
      ghost var h, m := p - HEADER, mem[..];
      mem[phys(p + offset)] := value;
      forall g | g in live ensures HeaderIn(mem[..], phys(g), live[g]) {
        assert HeaderIn(m, phys(g), live[g]) && (g == h || Apart(h, live[h], g, live[g]));
        HeaderStable(m, mem[..], phys(g), live[g]);
      }
    }

    /** virt2ducati: what the header says is the physical address of the pointer. */
    method Virt2Ducati(p: nat) returns (d: Word)
      requires Valid() && (p == 0 || Given(p))
      ensures d == if p == 0 then 0 else phys(p)
    {
      if p == 0 {
        return 0;
      }
      d := LoadWord(mem, phys(p - HEADER) + 4);
    }

    /**
     * dce_clean on the coprocessor, which has only the translated address: the bytes it writes back, from..to, are
     * the user's bytes of that block, all of them, and none of any other block.
     */
    method Clean(d: Word, ghost p: nat) returns (from: nat, to: nat)
      requires Valid() && Given(p) && d == phys(p)
      ensures from == phys(p) && to == from + UserSize(p) && UserSize(p) == live[p - 8] - 8
      ensures forall a :: p <= a < p + UserSize(p) ==> phys(a) == from + (a - p)
      ensures forall g, a :: g in live && g != p - HEADER && g <= a < g + live[g] ==> !(from <= phys(a) < to)
    {
      ghost var h := p - HEADER;
      assert HeaderIn(mem[..], phys(h), live[h]);
      var at: nat := d;
      var size := LoadWord(mem, at - HEADER);
      from, to := at, at + size;
      forall g, a | g in live && g != h && g <= a < g + live[g] ensures !(from <= phys(a) < to) {
        assert Apart(h, live[h], g, live[g]);
        assert Mapped(g, live[g]);
      }
    }

    /** In plain terms: below the user's bytes stand their number and their address. */
    lemma HeaderMeans(p: nat)
      requires Valid() && Given(p)
      ensures p >= 8 && p - 8 in live && live[p - 8] >= 8 && phys(p) >= 8 && phys(p) + (live[p - 8] - 8) <= mem.Length
      ensures GetWord(mem[..], phys(p) - 8) == live[p - 8] - 8 && GetWord(mem[..], phys(p) - 4) == phys(p)
    {
      assert HeaderIn(mem[..], phys(p - HEADER), live[p - HEADER]) && Mapped(p - HEADER, live[p - HEADER]);
    }

    /** MemMgr_Free: wants the address that MemMgr_Alloc answered. */
    method MemMgrFree(h: nat)
      requires Valid() && h in live
      modifies this`live
      ensures Valid() && live == old(live) - {h}
    {
      live := live - {h};
    }

    /** dce_free gives back exactly the block, of which its caller knows only the user's pointer. */
    method Release(p: nat)
      requires Valid() && Given(p)
      modifies this`live
      ensures Valid() && live.Keys == old(live.Keys) - {p - 8}
      ensures forall h :: h in live ==> live[h] == old(live[h])
    {
      MemMgrFree(p - HEADER);
    }
  }
}
