/**
 * Calls that pass structures: the client translates their addresses (virt2ducati), the server writes them back
 * (dce_clean). What is cleaned is exactly the user's bytes of the very blocks the client passed.
 */
module RemoteCalls {
  import opened Words
  import opened CodecEngine
  import Registry
  import opened Server
  import opened SharedBlocks
  import Runs
  import Stubs

  /** The addresses an event log cleans, in order. */
  function CleanedIn(log: seq<Event>): seq<Word> {
    if log == [] then []
    else (if log[0].Cleaned? then [log[0].address] else []) + CleanedIn(log[1..])
  }

  /** What is to be cleaned after a call: each structure that it was passed, in order. */
  function Passed(r: Runs.Request): seq<Word> {
    match r
    case Create(_, _, _, params, _) => [params]
    case Control(_, _, _, dynParams, status, _) => [dynParams, status]
    case Process(_, _, inBufs, outBufs, inArgs, outArgs, _) => [inBufs, outBufs, inArgs, outArgs]
    case _ => []
  }

  lemma CleanedAre(a: seq<Event>, addresses: seq<Word>)
    requires forall e :: e in a ==> !e.Cleaned?
    ensures CleanedIn(a + seq(|addresses|, i requires 0 <= i < |addresses| => Cleaned(addresses[i]))) == addresses
    decreases |a| + |addresses|
  {
    var es := a + seq(|addresses|, i requires 0 <= i < |addresses| => Cleaned(addresses[i]));
    if a != [] {
      CleanedAre(a[1..], addresses);
      assert es[1..] == a[1..] + seq(|addresses|, i requires 0 <= i < |addresses| => Cleaned(addresses[i]));
    } else if addresses != [] {
      CleanedAre([], addresses[1..]);
      assert es[1..] == [] + seq(|addresses[1..]|, i requires 0 <= i < |addresses[1..]| => Cleaned(addresses[1..][i]));
    }
  }

  /** The server cleans what the call was passed. */
  lemma PassedIsCleaned(t: Registry.Table, r: Runs.Request)
    requires !r.Obituary?
    ensures CleanedIn(Runs.Events(t, r)) == Passed(r)
  {
    var es, p := Runs.Events(t, r), Passed(r);
    var n := |es| - |p|;
    assert es[n..] == seq(|p|, i requires 0 <= i < |p| => Cleaned(p[i]));
    assert es == es[..n] + es[n..];
    CleanedAre(es[..n], p);
  }

  datatype Range = Range(from: nat, to: nat)

  /** Where the user's bytes of a block are in physical memory. */
  ghost function UserRange(m: SharedMemory, p: nat): Range
    requires m.Given(p)
    reads m
  {
    Range(m.phys(p), m.phys(p) + m.UserSize(p))
  }

  ghost predicate AllGiven(m: SharedMemory, ps: seq<nat>)
    reads m
  {
    forall i :: 0 <= i < |ps| ==> m.Given(ps[i])
  }

  /** The addresses are those of the structures as the server sees them. */
  ghost predicate Translated(m: SharedMemory, ps: seq<nat>, addresses: seq<Word>) {
    |addresses| == |ps| && forall i :: 0 <= i < |ps| ==> addresses[i] == m.phys(ps[i])
  }

  /** The ranges are the user's bytes of the structures. */
  ghost predicate Covers(m: SharedMemory, ps: seq<nat>, ranges: seq<Range>)
    requires AllGiven(m, ps)
    reads m
  {
    |ranges| == |ps| && forall i :: 0 <= i < |ps| ==> ranges[i] == UserRange(m, ps[i])
  }

  method TranslateAll(m: SharedMemory, ps: seq<nat>) returns (addresses: seq<Word>)
    requires m.Valid() && AllGiven(m, ps)
    ensures Translated(m, ps, addresses)
  {
    addresses := [];
    var i := 0;
    while i < |ps|
      invariant i == |addresses| <= |ps|
      invariant forall j :: 0 <= j < i ==> addresses[j] == m.phys(ps[j])
    {
      var d := m.Virt2Ducati(ps[i]);
      addresses := addresses + [d];
      i := i + 1;
    }
  }

  /** The ranges that dce_clean writes back for translated addresses. */
  method CleanAll(m: SharedMemory, addresses: seq<Word>, ghost ps: seq<nat>) returns (ranges: seq<Range>)
    requires m.Valid() && AllGiven(m, ps) && Translated(m, ps, addresses)
    ensures Covers(m, ps, ranges)
  {
    ranges := [];
    var i := 0;
    while i < |addresses|
      invariant i == |ranges| <= |ps|
      invariant forall j :: 0 <= j < i ==> ranges[j] == UserRange(m, ps[j])
    {
      var from, to := m.Clean(addresses[i], ps[i]);
      ranges := ranges + [Range(from, to)];
      i := i + 1;
    }
  }

  /** A byte that the codec writes: into which structure, how far in, what. */
  datatype Write = Write(structure: nat, offset: nat, value: Byte)

  ghost predicate Fits(m: SharedMemory, ps: seq<nat>, w: Write)
    requires AllGiven(m, ps)
    reads m
  {
    w.structure < |ps| && w.offset < m.UserSize(ps[w.structure])
  }

  /** The codec writes into the structures it was passed. */
  ghost predicate InStructures(m: SharedMemory, ps: seq<nat>, writes: seq<Write>)
    requires AllGiven(m, ps)
    reads m
  {
    forall k :: 0 <= k < |writes| ==> Fits(m, ps, writes[k])
  }

  method UseOne(m: SharedMemory, ps: seq<nat>, w: Write) returns (ghost at: nat)
    requires m.Valid() && AllGiven(m, ps) && Fits(m, ps, w)
    modifies m.mem
    ensures m.Valid() && at == m.phys(ps[w.structure]) + w.offset
    ensures at < m.mem.Length && m.mem[at] == w.value
  {
    m.WriteUser(ps[w.structure], w.offset, w.value);
    at := m.phys(ps[w.structure]) + w.offset;
  }

  method UseStructures(m: SharedMemory, ps: seq<nat>, writes: seq<Write>)
    requires m.Valid() && AllGiven(m, ps) && InStructures(m, ps, writes)
    modifies m.mem
    ensures m.Valid()
    ensures writes != [] ==>
      var w := writes[|writes| - 1];
      w.structure < |ps| && var at := m.phys(ps[w.structure]) + w.offset;
      at < m.mem.Length && m.mem[at] == w.value
  {
    if writes == [] {
      return;
    }
    var i := 0;
    ghost var at := 0;
    while i < |writes| - 1
      invariant i <= |writes| - 1 && m.Valid()
    {
      at := UseOne(m, ps, writes[i]);
      i := i + 1;
    }
    at := UseOne(m, ps, writes[i]);
  }

  /** VIDDEC3_create with its structure translated on one side and cleaned on the other. */
  method Create(m: SharedMemory, server: DceServer, pid: Pid, engine: Handle, name: seq<Byte>, params: nat,
                stale: seq<Byte>, beyond: seq<Byte>, answer: Handle, writes: seq<Write>)
    returns (ret: Handle, at: seq<Word>, ranges: seq<Range>, ghost arrived: seq<Byte>)
    requires m.Valid() && AllGiven(m, [params])
    requires InStructures(m, [params], writes)
    requires server.Valid() && |stale| == 40 && 0 !in name
    modifies m.mem, server, server.clients
    ensures m.Valid() && server.Valid() && ret == answer
    ensures Translated(m, [params], at) && Covers(m, [params], ranges)
    ensures Stubs.SystemOf(server)
      == Runs.Serve(old(Stubs.SystemOf(server)), Runs.Create(pid, engine, arrived, at[0], answer), server.slots)
    ensures |name| <= 23 ==> arrived == name
    ensures |name| >= 24 ==> arrived == CString(StrNCpy(PutWord(stale, 36, at[0]) + beyond, 8, name, 24), 8)
  {
    at := TranslateAll(m, [params]);
    ret, arrived := Stubs.Create(server, pid, engine, name, at[0], stale, beyond, answer);
    UseStructures(m, [params], writes);
    ranges := CleanAll(m, at, [params]);
  }

  method Control(m: SharedMemory, server: DceServer, pid: Pid, codec: Handle, id: Word, dynParams: nat, status: nat,
                 stale: seq<Byte>, answer: Word, writes: seq<Write>)
    returns (ret: Word, at: seq<Word>, ranges: seq<Range>)
    requires m.Valid() && AllGiven(m, [dynParams, status])
    requires InStructures(m, [dynParams, status], writes)
    requires server.Valid() && |stale| == 20
    modifies m.mem, server
    ensures m.Valid() && server.Valid() && ret == answer
    ensures Translated(m, [dynParams, status], at) && Covers(m, [dynParams, status], ranges)
    ensures Stubs.SystemOf(server)
      == Runs.Serve(old(Stubs.SystemOf(server)), Runs.Control(pid, codec, id, at[0], at[1], answer), server.slots)
  {
    at := TranslateAll(m, [dynParams, status]);
    ret := Stubs.Control(server, pid, codec, id, at[0], at[1], stale, answer);
    UseStructures(m, [dynParams, status], writes);
    ranges := CleanAll(m, at, [dynParams, status]);
  }

  method Process(m: SharedMemory, server: DceServer, pid: Pid, codec: Handle, inBufs: nat, outBufs: nat, inArgs: nat,
                 outArgs: nat, stale: seq<Byte>, answer: Word, writes: seq<Write>)
    returns (ret: Word, at: seq<Word>, ranges: seq<Range>)
    requires m.Valid() && AllGiven(m, [inBufs, outBufs, inArgs, outArgs])
    requires InStructures(m, [inBufs, outBufs, inArgs, outArgs], writes)
    requires server.Valid() && |stale| == 24
    modifies m.mem, server
    ensures m.Valid() && server.Valid() && ret == answer
    ensures Translated(m, [inBufs, outBufs, inArgs, outArgs], at)
    ensures Covers(m, [inBufs, outBufs, inArgs, outArgs], ranges)
    ensures Stubs.SystemOf(server) == Runs.Serve(
      old(Stubs.SystemOf(server)), Runs.Process(pid, codec, at[0], at[1], at[2], at[3], answer), server.slots)
  {
    ghost var ps := [inBufs, outBufs, inArgs, outArgs];
    at := TranslateAll(m, [inBufs, outBufs, inArgs, outArgs]);
    ret := Stubs.Process(server, pid, codec, at[0], at[1], at[2], at[3], stale, answer);
    UseStructures(m, [inBufs, outBufs, inArgs, outArgs], writes);
    ranges := CleanAll(m, at, ps);
  }
}
