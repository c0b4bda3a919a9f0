/**
 * The decoder's output buffers (test.c): an intrusive list of free buffers, relinked in place, and a codec
 * that keeps the buffers it is given until it reports them unlocked.
 */
module BufferPool {
  /** A buffer's address, which is also the ID that travels through the codec. Zero is no buffer. */
  type Id = int

  const NO_ID: Id := 0

  /** IVIDEO2_MAX_IO_BUFFERS */
  const MAX_IO_BUFFERS: nat := 20

  class OutputBuffer {
    const id: Id
    var next: OutputBuffer?

    constructor (id: Id)
      ensures this.id == id
    {
      this.id := id;
      next := null;
    }
  }

  ghost function Ids(bufs: seq<OutputBuffer>): set<Id> {
    set i | 0 <= i < |bufs| :: bufs[i].id
  }

  ghost predicate Distinct<T>(s: seq<T>) {
    forall i, j :: 0 <= i < j < |s| ==> s[i] != s[j]
  }

  function Elements(s: seq<Id>): set<Id> {
    set i | 0 <= i < |s| :: s[i]
  }

  lemma ElementsStep(s: seq<Id>, n: nat)
    requires n < |s|
    ensures Elements(s[..n + 1]) == Elements(s[..n]) + {s[n]}
    ensures Distinct(s) ==> s[n] !in Elements(s[..n])
  {
    var a, b := s[..n], s[..n + 1];
    forall x | x in Elements(a) ensures x in Elements(b) {
      var i :| 0 <= i < n && a[i] == x;
      assert b[i] == x;
    }
    assert b[n] in Elements(b);
    forall x | x in Elements(b) ensures x in Elements(a) || x == s[n] {
      var i :| 0 <= i < n + 1 && b[i] == x;
      if i < n { assert a[i] == x; }
    }
  }

  /** As many different IDs as buffers, when no two buffers share one. */
  lemma {:induction false} IdsCardinality(bufs: seq<OutputBuffer>)
    requires forall i, j :: 0 <= i < j < |bufs| ==> bufs[i].id != bufs[j].id
    ensures |Ids(bufs)| == |bufs|
  {
    if bufs != [] {
      var n := |bufs| - 1;
      IdsCardinality(bufs[..n]);
      IdsSplit(bufs);
    }
  }

  lemma IdsSplit(bufs: seq<OutputBuffer>)
    requires bufs != []
    ensures Ids(bufs) == Ids(bufs[..|bufs| - 1]) + {bufs[|bufs| - 1].id}
  {
    var n := |bufs| - 1;
    forall x | x in Ids(bufs[..n]) ensures x in Ids(bufs) {
      var i :| 0 <= i < n && bufs[..n][i].id == x;
      assert bufs[i].id == x;
    }
    assert bufs[n].id in Ids(bufs);
    forall x | x in Ids(bufs) ensures x in Ids(bufs[..n]) || x == bufs[n].id {
      var i :| 0 <= i < |bufs| && bufs[i].id == x;
      if i < n { assert bufs[..n][i].id == x; }
    }
  }

  lemma IdsOfCons(b: OutputBuffer, bufs: seq<OutputBuffer>)
    ensures Ids([b] + bufs) == {b.id} + Ids(bufs)
  {
    var all := [b] + bufs;
    assert all[0] == b;
    assert b.id in Ids(all);
    forall x | x in Ids(bufs) ensures x in Ids(all) {
      var i :| 0 <= i < |bufs| && bufs[i].id == x;
      assert all[i + 1].id == x;
    }
    forall x | x in Ids(all) ensures x == b.id || x in Ids(bufs) {
      var i :| 0 <= i < |all| && all[i].id == x;
      if i > 0 { assert bufs[i - 1].id == x; }
    }
  }

  /** The IDs of a list of buffers, in order. */
  ghost function OrderOf(bufs: seq<OutputBuffer>): seq<Id> {
    seq(|bufs|, i requires 0 <= i < |bufs| => bufs[i].id)
  }

  lemma OrderOfCons(b: OutputBuffer, bufs: seq<OutputBuffer>)
    ensures OrderOf([b] + bufs) == [b.id] + OrderOf(bufs)
  {
  }

  /** IDs put one by one in front of the free ones. */
  function Pushed(ids: seq<Id>, free: seq<Id>): seq<Id> {
    if ids == [] then free else [ids[|ids| - 1]] + Pushed(ids[..|ids| - 1], free)
  }

  lemma PushedStep(ids: seq<Id>, i: nat, free: seq<Id>)
    requires i < |ids|
    ensures Pushed(ids[..i + 1], free) == [ids[i]] + Pushed(ids[..i], free)
  {
    assert ids[..i + 1][..i] == ids[..i];
  }

  /** From head, the links lead through bufs in order to null. */
  ghost predicate Chain(head: OutputBuffer?, bufs: seq<OutputBuffer>)
    reads bufs
  {
    && head == First(bufs)
    && forall i :: 0 <= i < |bufs| ==> bufs[i].next == First(bufs[i + 1..])
  }

  ghost function First(bufs: seq<OutputBuffer>): OutputBuffer? {
    if bufs == [] then null else bufs[0]
  }

  lemma ChainCons(b: OutputBuffer, bufs: seq<OutputBuffer>)
    requires Chain(b.next, bufs)
    ensures Chain(b, [b] + bufs)
  {
    var all := [b] + bufs;
    forall i | 0 <= i < |all| ensures all[i].next == First(all[i + 1..]) {
      if i == 0 {
        assert all[1..] == bufs;
      } else {
        assert all[i + 1..] == bufs[i..];
        assert all[i] == bufs[i - 1];
      }
    }
  }

  lemma ChainTail(bufs: seq<OutputBuffer>)
    requires bufs != [] && Chain(bufs[0], bufs)
    ensures Chain(bufs[0].next, bufs[1..])
  {
    forall i | 0 <= i < |bufs| - 1 ensures bufs[1..][i].next == First(bufs[1..][i + 1..]) {
      assert bufs[1..][i + 1..] == bufs[i + 2..];
      assert bufs[1..][i] == bufs[i + 1];
    }
  }

  /** The free list when a buffer has been put in front of it for each of the first n addresses. */
  ghost predicate FilledTo(n: nat, free: seq<OutputBuffer>, keys: set<Id>, addresses: seq<Id>)
    requires n <= |addresses|
  {
    |free| == n && OrderOf(free) == Pushed(addresses[..n], []) && keys == Ids(free) == Elements(addresses[..n])
  }

  lemma FilledNone(addresses: seq<Id>)
    ensures FilledTo(0, [], {}, addresses)
  {
  }

  lemma FilledAll(free: seq<OutputBuffer>, keys: set<Id>, addresses: seq<Id>)
    requires FilledTo(|addresses|, free, keys, addresses)
    ensures |free| == |addresses| && OrderOf(free) == Pushed(addresses, [])
    ensures keys == Ids(free) == Elements(addresses)
  {
    assert addresses[..|addresses|] == addresses;
  }

  lemma FilledNext(n: nat, free: seq<OutputBuffer>, keys: set<Id>, addresses: seq<Id>, buf: OutputBuffer)
    requires n < |addresses| && FilledTo(n, free, keys, addresses) && buf.id == addresses[n]
    ensures FilledTo(n + 1, [buf] + free, keys + {addresses[n]}, addresses)
  {
    ElementsStep(addresses, n);
    IdsOfCons(buf, free);
    OrderOfCons(buf, free);
    PushedStep(addresses, n, []);
  }

  class Pool {
    var head: OutputBuffer?
    ghost var free: seq<OutputBuffer>
    /** The buffers that have been allocated and not freed, by address. */
    var cells: map<Id, OutputBuffer>

    /** From head, the links lead through the free buffers, each once, to null. */
    ghost predicate Linked()
      reads this, free
    {
      Chain(head, free) && Distinct(free)
    }

    ghost predicate Valid()
      reads this, free
    {
      && Linked()
      && (forall a :: a in cells ==> a != NO_ID && cells[a].id == a)
      && (forall i :: 0 <= i < |free| ==> free[i].id in cells && cells[free[i].id] == free[i])
    }

    constructor ()
      ensures Valid() && free == [] && cells == map[]
    {
      head, free, cells := null, [], map[];
    }

    /** A new buffer at the address calloc returned goes to the head of the list. */
    method AddNew(address: Id)
      requires Valid() && address != NO_ID && address !in cells
      modifies this
      ensures Valid() && cells.Keys == old(cells.Keys) + {address}
      ensures |free| == |old(free)| + 1 && fresh(free[0]) && free[0].id == address && free[1..] == old(free)
    {
      var buf := new OutputBuffer(address);
      buf.next := head;
      ChainCons(buf, free);
      head := buf;
      cells := cells[address := buf];
      free := [buf] + free;
    }

    /** output_allocate on an empty pool: one buffer at each of the addresses, all of them free. */
    method Allocate(addresses: seq<Id>)
      requires Valid() && free == [] && cells == map[] && Distinct(addresses) && NO_ID !in addresses
      modifies this
      ensures Valid() && |free| == |addresses|
      ensures OrderOf(free) == Pushed(addresses, [])
      ensures cells.Keys == Ids(free) == Elements(addresses)
      ensures forall b :: b in free ==> fresh(b)
    {
      FilledNone(addresses);
      var done := 0;
      while done < |addresses|
        invariant done <= |addresses| && FilledTo(done, free, cells.Keys, addresses)
        invariant Valid()
        invariant forall b :: b in free ==> fresh(b)
      {
        AllocateNext(addresses, done);
        done := done + 1;
      }
      FilledAll(free, cells.Keys, addresses);
    }

    /** One turn of the loop of output_allocate. */
    method AllocateNext(addresses: seq<Id>, n: nat)
      requires Valid() && n < |addresses| && Distinct(addresses) && NO_ID !in addresses
      requires FilledTo(n, free, cells.Keys, addresses)
      modifies this
      ensures Valid() && FilledTo(n + 1, free, cells.Keys, addresses)
      ensures forall b :: b in free ==> b in old(free) || fresh(b)
    {
      ghost var was, keys := free, cells.Keys;
      ElementsStep(addresses, n);
      AddNew(addresses[n]);
      assert free == [free[0]] + was;
      FilledNext(n, was, keys, addresses, free[0]);
    }

    /** output_get: the first free buffer, or null when there is none. */
    method Get() returns (buf: OutputBuffer?)
      requires Valid()
      modifies this`head, this`free
      ensures Valid()
      ensures buf == null <==> old(free) == []
      ensures buf == null ==> free == []
      ensures buf != null ==> old(free) == [buf] + free && buf !in free
    {
      buf := head;
      if buf != null {
        ChainTail(free);
        head := buf.next;
        free := free[1..];
      }
    }

    /** output_release: the buffer becomes the first free one. */
    method Release(buf: OutputBuffer)
      requires Valid() && buf !in free && buf.id in cells && cells[buf.id] == buf
      modifies this`head, this`free, buf`next
      ensures Valid() && free == [buf] + old(free)
    {
      buf.next := head;
      ChainCons(buf, free);
      head := buf;
      free := [buf] + free;
    }

    /** buf->next, which may be read only until the buffer is freed. */
    method NextOf(buf: OutputBuffer) returns (next: OutputBuffer?)
      requires buf.id in cells && cells[buf.id] == buf
      ensures next == buf.next
    {
      next := buf.next;
    }

    /** free(buf), once. */
    method FreeCell(buf: OutputBuffer)
      requires buf.id in cells && cells[buf.id] == buf
      modifies this`cells
      ensures cells == old(cells) - {buf.id}
    {
      cells := cells - {buf.id};
    }

    /** output_free: every buffer on the list is freed, each once; `freed` has their addresses in order. */
    method FreeAll() returns (freed: seq<Id>)
      requires Valid()
      modifies this
      ensures Valid() && free == []
      ensures freed == OrderOf(old(free))
      ensures cells == old(cells) - Ids(old(free))
    {
      ghost var all := free;
      freed := [];
      assert all[..0] == [] && cells - Ids([]) == cells;
      while head != null
        invariant Valid()
        invariant |freed| <= |all| && free == all[|freed|..]
        invariant forall i :: 0 <= i < |freed| ==> freed[i] == all[i].id
        invariant cells == old(cells) - Ids(all[..|freed|])
        decreases |free|
      {
        FreeStep(all, |freed|);
        var id := FreeHead();
        freed := freed + [id];
      }
      assert all[..|freed|] == all;
    }

    /** One turn of the loop: NextOf asks that the link is read before the buffer goes. */
    method FreeHead() returns (id: Id)
      requires Valid() && head != null
      modifies this
      ensures Valid() && id == old(free)[0].id
      ensures free == old(free)[1..] && cells == old(cells) - {id}
    {
      var buf := head;
      ChainTail(free);
      head := NextOf(buf);
      free := free[1..];
      id := buf.id;
      FreeCell(buf);
    }
  }

  lemma FreeStep(all: seq<OutputBuffer>, n: nat)
    requires n < |all|
    ensures Ids(all[..n + 1]) == Ids(all[..n]) + {all[n].id}
  {
    IdsSplit(all[..n + 1]);
    assert all[..n + 1][..n] == all[..n];
  }
}
