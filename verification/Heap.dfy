/** The coprocessor heap as allocFxn sees it: a byte memory, and the blocks handed out so far. */
module Heap {
  import opened Arithmetic
  import opened Words

  /** Live blocks by address. They lie in memory, none at address 0, and do not overlap. */
  ghost predicate Disjoint(live: map<nat, nat>, limit: nat) {
    && (forall b :: b in live ==> 0 < b && 0 < live[b] && b + live[b] <= limit)
    && (forall a, b :: a in live && b in live && a < b ==> a + live[a] <= b)
  }

  predicate Free(live: map<nat, nat>, limit: nat, blk: nat, size: nat) {
    && 0 < blk && blk + size <= limit
    && forall b :: b in live ==> b + live[b] <= blk || blk + size <= b
  }

  /** x is a multiple of m; every x is one of 0, which stands for no alignment. */
  predicate IsMultiple(x: nat, m: nat) {
    m == 0 || x == 0 || (x >= m && IsMultiple(x - m, m))
  }

  lemma {:induction false} MultipleIffNoRemainder(x: nat, m: nat)
    requires m > 0
    ensures IsMultiple(x, m) <==> x % m == 0
  {
    if x >= m {
      MultipleIffNoRemainder(x - m, m);
      var q := (x - m) / m;
      assert x - m == q * m + (x - m) % m;
      RemainderUnique(x, m, q + 1, (x - m) % m);
    }
  }

  lemma {:induction false} MultiplePlus(x: nat, y: nat, m: nat)
    requires IsMultiple(x, m)
    ensures IsMultiple(x + y, m) <==> IsMultiple(y, m)
  {
    if x >= m > 0 {
      MultiplePlus(x - m, y, m);
    }
  }

  class MemoryHeap {
    const mem: array<Byte>
    var live: map<nat, nat>
    /** How often Memory_alloc has answered null. */
    var denied: nat

    ghost predicate Valid()
      reads this
    {
      mem.Length < WORD_MODULUS && Disjoint(live, mem.Length)
    }

    constructor (size: nat)
      requires size < WORD_MODULUS
      ensures Valid() && live == map[] && mem.Length == size
    {
      mem := new Byte[size](_ => 0);
      live := map[];
      denied := 0;
    }

    /** Memory_alloc: any block that is free and aligned, or 0. There is no block of no bytes. */
    method Alloc(size: nat, align: nat) returns (blk: nat)
      requires Valid()
      modifies this`live, this`denied
      ensures Valid()
      ensures blk == 0 ==> live == old(live) && denied == old(denied) + 1
      ensures blk != 0 ==> denied == old(denied)
      ensures blk != 0 ==> size > 0 && Free(old(live), mem.Length, blk, size) && live == old(live)[blk := size]
      ensures blk != 0 ==> IsMultiple(blk, align)
    {
      if b: nat :| size > 0 && 0 < b < mem.Length && Free(live, mem.Length, b, size) && IsMultiple(b, align) {
        blk := b;
        live := live[blk := size];
      } else {
        blk := 0;
        denied := denied + 1;
      }
    }

    /** Memory_free: wants the address and the size the block was allocated with. */
    method Release(blk: nat, size: nat)
      requires Valid() && blk in live && live[blk] == size
      modifies this`live
      ensures Valid() && live == old(live) - {blk}
    {
      live := live - {blk};
    }
  }
}
