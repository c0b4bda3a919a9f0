/**
 * Whole runs of the server. A run is a sequence of client requests and process obituaries. It is played
 * on the table and, side by side, on a world that records which process owns which live handle.
 */
module Runs {
  import opened Words
  import opened CodecEngine
  import opened Registry
  import opened Cleanup

  datatype Codec = Codec(pid: Pid, engine: Handle)

  /** The live handles with their owners; a codec also has the engine it was created on. */
  datatype World = World(engines: map<Handle, Pid>, codecs: map<Handle, Codec>)

  const EMPTY := World(map[], map[])

  function EnginesOf(w: World, pid: Pid): set<Handle> {
    set h | h in w.engines && w.engines[h] == pid
  }

  function CodecsOf(w: World, pid: Pid): set<Handle> {
    set h | h in w.codecs && w.codecs[h].pid == pid
  }

  function Owners(w: World): set<Pid> {
    set h | h in w.engines :: w.engines[h]
  }

  /** A request, together with the handle the codec engine answers with. */
  datatype Request =
    | Open(pid: Pid, name: seq<Byte>, engine: Handle)
    | Close(pid: Pid, engine: Handle)
    | Create(pid: Pid, engine: Handle, name: seq<Byte>, params: Word, codec: Handle)
    | Control(pid: Pid, codec: Handle, id: Word, dynParams: Word, status: Word, ret: Word)
    | Process(pid: Pid, codec: Handle, inBufs: Word, outBufs: Word, inArgs: Word, outArgs: Word, ret: Word)
    | Delete(pid: Pid, codec: Handle)
    | Obituary(pid: Pid)

  /** Clients use only what is theirs and delete codecs before the engine; handles given out are new. */
  predicate Legal(w: World, r: Request) {
    && r.pid != NULL
    && match r
       case Open(_, _, engine) => engine !in w.engines
       case Close(pid, engine) =>
         engine in w.engines && w.engines[engine] == pid
         && forall c :: c in w.codecs ==> w.codecs[c].engine != engine
       case Create(pid, engine, _, _, codec) =>
         engine in w.engines && w.engines[engine] == pid && codec !in w.codecs
       case Obituary(_) => true
       case _ => r.codec in w.codecs && w.codecs[r.codec].pid == r.pid
  }

  /** What the request means: an obituary takes everything the process owned. */
  function WorldAfter(w: World, r: Request): World {
    match r
    case Open(pid, _, engine) => if engine == NULL then w else w.(engines := w.engines[engine := pid])
    case Close(_, engine) => w.(engines := w.engines - {engine})
    case Create(pid, engine, _, _, codec) =>
      if codec == NULL then w else w.(codecs := w.codecs[codec := Codec(pid, engine)])
    case Delete(_, codec) => w.(codecs := w.codecs - {codec})
    case Obituary(pid) => World(w.engines - EnginesOf(w, pid), w.codecs - CodecsOf(w, pid))
    case _ => w
  }

  /** At most n processes and k handles of each kind for a process. */
  predicate Fits(w: World, r: Request, n: nat, k: nat) {
    match r
    case Open(pid, _, engine) =>
      engine != NULL ==> |EnginesOf(w, pid)| < k && (pid in Owners(w) || |Owners(w)| < n)
    case Create(pid, _, _, _, codec) => codec != NULL ==> |CodecsOf(w, pid)| < k
    case _ => true
  }

  // ----- the server -----

  datatype System = System(table: Table, log: seq<Event>)

  predicate Ready(t: Table, k: nat) {
    k > 0 && Shaped(t, k)
  }

  /** What the handler for r sends to the codec engine and the cache, as the methods of DceServer ensure. */
  function Events(t: Table, r: Request): seq<Event> {
    match r
    case Open(pid, name, engine) => [Opened(pid, name, engine)]
    case Close(pid, engine) => [Closed(pid, engine)]
    case Create(pid, engine, name, params, codec) => [Created(pid, engine, name, params, codec), Cleaned(params)]
    case Control(pid, codec, id, dynParams, status, ret) =>
      [Controlled(pid, codec, id, dynParams, status, ret), Cleaned(dynParams), Cleaned(status)]
    case Process(pid, codec, inBufs, outBufs, inArgs, outArgs, ret) =>
      [IvaAcquired, Processed(pid, codec, inBufs, outBufs, inArgs, outArgs, ret), IvaReleased,
       Cleaned(inBufs), Cleaned(outBufs), Cleaned(inArgs), Cleaned(outArgs)]
    case Delete(pid, codec) => [Deleted(pid, codec)]
    case Obituary(pid) => CleanupEvents(t, pid)
  }

  /** What it does to the table. */
  function Update(t: Table, r: Request, k: nat): Table
    requires Ready(t, k)
  {
    match r
    case Open(pid, _, engine) => if engine == NULL then t else RegisterEngine(t, pid, engine)
    case Close(pid, engine) => UnregisterEngine(t, pid, engine)
    case Create(pid, _, _, _, codec) => if codec == NULL then t else RegisterCodec(t, pid, codec)
    case Delete(pid, codec) => UnregisterCodec(t, pid, codec)
    case Obituary(pid) => CleanupTable(t, pid)
    case _ => t
  }

  function Serve(s: System, r: Request, k: nat): System
    requires Ready(s.table, k)
  {
    System(Update(s.table, r, k), s.log + Events(s.table, r))
  }

  /** The table knows every owner; its counts are exact; what it tracks is live and the owner's. */
  ghost predicate Represents(t: Table, w: World, k: nat) {
    && Ready(t, k) && WellFormed(t)
    && CountsRight(t, w)
    && KnowsOwners(t, w)
  }

  ghost predicate CountsRight(t: Table, w: World) {
    forall i :: 0 <= i < |t| && t[i].pid != NULL ==>
      Holds(t[i], EnginesOf(w, t[i].pid), CodecsOf(w, t[i].pid))
  }

  ghost predicate KnowsOwners(t: Table, w: World) {
    && (forall h :: h in w.engines ==> h != NULL && w.engines[h] in Residents(t))
    && (forall h :: h in w.codecs ==> h != NULL && w.codecs[h].pid in Residents(t))
  }

  ghost predicate Holds(c: Client, engines: set<Handle>, codecs: set<Handle>) {
    && c.refs == |engines| + |codecs|
    && Tracks(c.engines, engines)
    && Tracks(c.codecs, codecs)
  }

  /** Nothing live is missing from the table. */
  ghost predicate Complete(t: Table, w: World) {
    forall i :: 0 <= i < |t| && t[i].pid != NULL ==>
      Items(t[i].engines) == EnginesOf(w, t[i].pid) && Items(t[i].codecs) == CodecsOf(w, t[i].pid)
  }

  // ----- one slot changes -----

  ghost predicate SameForOthers(w: World, w': World, pid: Pid) {
    forall q: Pid :: q != pid ==> EnginesOf(w', q) == EnginesOf(w, q) && CodecsOf(w', q) == CodecsOf(w, q)
  }

  /** Slot i may be rewritten for process pid: it is the process's own, or unused while the process has none. */
  ghost predicate MayTake(t: Table, pid: Pid, i: nat) {
    && DistinctPids(t) && pid != NULL && i < |t|
    && (t[i].pid == pid || (t[i].pid == NULL && pid !in Residents(t)))
  }

  lemma OwnerOfEngine(w: World, h: Handle)
    requires h in w.engines
    ensures h in EnginesOf(w, w.engines[h])
  {
  }

  lemma OthersElsewhere(t: Table, pid: Pid, i: nat, j: nat)
    requires MayTake(t, pid, i) && j < |t| && j != i
    ensures t[j].pid != pid
  {
    forall m | 0 <= m < |t| && t[m].pid != NULL ensures t[m].pid in Residents(t) {
    }
  }

  lemma ResidentsChange(t: Table, pid: Pid, i: nat, c: Client, q: Pid)
    requires MayTake(t, pid, i)
    requires if q == pid then c.pid == pid else q in Residents(t)
    ensures q in Residents(t[i := c])
  {
    var t' := t[i := c];
    if q == pid {
      assert t'[i].pid == q;
    } else {
      var j :| 0 <= j < |t| && t[j].pid != NULL && t[j].pid == q;
      assert t'[j].pid == q;
    }
  }

  lemma StaysReady(t: Table, i: nat, c: Client, k: nat)
    requires Ready(t, k) && i < |t| && |c.engines| == |c.codecs| == k
    ensures Ready(t[i := c], k)
  {
  }

  lemma StaysWellFormed(t: Table, pid: Pid, i: nat, c: Client)
    requires WellFormed(t) && MayTake(t, pid, i)
    requires c.pid == pid || Vacant(c)
    ensures WellFormed(t[i := c])
  {
    var t' := t[i := c];
    forall a, b | 0 <= a < b < |t'| && t'[a].pid == t'[b].pid ensures t'[a].pid == NULL {
      if a == i {
        OthersElsewhere(t, pid, i, b);
      } else if b == i {
        OthersElsewhere(t, pid, i, a);
      }
    }
  }

  /** What a slot is to contain after a change that leaves process pid with these handles. */
  ghost predicate Suits(c: Client, pid: Pid, w: World) {
    if c.pid == pid then Holds(c, EnginesOf(w, pid), CodecsOf(w, pid))
    else Vacant(c) && EnginesOf(w, pid) == {} == CodecsOf(w, pid)
  }

  lemma StillKnowsOwners(t: Table, w: World, w': World, pid: Pid, i: nat, c: Client)
    requires KnowsOwners(t, w) && MayTake(t, pid, i)
    requires SameForOthers(w, w', pid) && Suits(c, pid, w')
    requires NULL !in w'.engines && NULL !in w'.codecs
    ensures KnowsOwners(t[i := c], w')
  {
    forall h | h in w'.engines ensures w'.engines[h] in Residents(t[i := c]) {
      var q := w'.engines[h];
      assert h in EnginesOf(w', q);
      if q != pid { assert h in EnginesOf(w, q); }
      ResidentsChange(t, pid, i, c, q);
    }
    forall h | h in w'.codecs ensures w'.codecs[h].pid in Residents(t[i := c]) {
      var q := w'.codecs[h].pid;
      assert h in CodecsOf(w', q);
      if q != pid { assert h in CodecsOf(w, q); }
      ResidentsChange(t, pid, i, c, q);
    }
  }

  lemma CountsStayRight(t: Table, w: World, w': World, pid: Pid, i: nat, c: Client)
    requires CountsRight(t, w) && MayTake(t, pid, i)
    requires SameForOthers(w, w', pid) && Suits(c, pid, w')
    ensures CountsRight(t[i := c], w')
  {
    var t' := t[i := c];
    forall j | 0 <= j < |t'| && t'[j].pid != NULL
      ensures Holds(t'[j], EnginesOf(w', t'[j].pid), CodecsOf(w', t'[j].pid)) {
      if j != i {
        OthersElsewhere(t, pid, i, j);
        var q := t[j].pid;
        assert EnginesOf(w', q) == EnginesOf(w, q) && CodecsOf(w', q) == CodecsOf(w, q);
        assert Holds(t[j], EnginesOf(w, q), CodecsOf(w, q));
      }
    }
  }

  /** A client's slot (or the unused slot it claims) gets new contents that fit what it now owns. */
  lemma SlotChange(t: Table, w: World, w': World, pid: Pid, i: nat, c: Client, k: nat)
    requires Represents(t, w, k) && MayTake(t, pid, i)
    requires |c.engines| == |c.codecs| == k
    requires SameForOthers(w, w', pid) && Suits(c, pid, w')
    requires NULL !in w'.engines && NULL !in w'.codecs
    ensures Represents(t[i := c], w', k)
  {
    StaysReady(t, i, c, k);
    StaysWellFormed(t, pid, i, c);
    StillKnowsOwners(t, w, w', pid, i, c);
    CountsStayRight(t, w, w', pid, i, c);
  }

  lemma SlotChangeComplete(t: Table, w: World, w': World, pid: Pid, i: nat, c: Client)
    requires Complete(t, w) && MayTake(t, pid, i) && SameForOthers(w, w', pid)
    requires c.pid != NULL ==>
      c.pid == pid && Items(c.engines) == EnginesOf(w', pid) && Items(c.codecs) == CodecsOf(w', pid)
    ensures Complete(t[i := c], w')
  {
    forall j | 0 <= j < |t| && j != i && t[j].pid != NULL
      ensures Items(t[j].engines) == EnginesOf(w', t[j].pid) && Items(t[j].codecs) == CodecsOf(w', t[j].pid) {
      OthersElsewhere(t, pid, i, j);
    }
  }

  // ----- what a request does to the world -----

  lemma OpenWorld(w: World, pid: Pid, h: Handle)
    requires h !in w.engines
    ensures var w' := w.(engines := w.engines[h := pid]);
      && EnginesOf(w', pid) == EnginesOf(w, pid) + {h} && CodecsOf(w', pid) == CodecsOf(w, pid)
      && SameForOthers(w, w', pid)
  {
  }

  lemma CloseWorld(w: World, pid: Pid, h: Handle)
    requires h in w.engines && w.engines[h] == pid
    ensures var w' := w.(engines := w.engines - {h});
      && EnginesOf(w', pid) == EnginesOf(w, pid) - {h} && CodecsOf(w', pid) == CodecsOf(w, pid)
      && SameForOthers(w, w', pid)
  {
  }

  lemma CreateWorld(w: World, pid: Pid, e: Handle, h: Handle)
    requires h !in w.codecs
    ensures var w' := w.(codecs := w.codecs[h := Codec(pid, e)]);
      && CodecsOf(w', pid) == CodecsOf(w, pid) + {h} && EnginesOf(w', pid) == EnginesOf(w, pid)
      && SameForOthers(w, w', pid)
  {
  }

  lemma DeleteWorld(w: World, pid: Pid, h: Handle)
    requires h in w.codecs && w.codecs[h].pid == pid
    ensures var w' := w.(codecs := w.codecs - {h});
      && CodecsOf(w', pid) == CodecsOf(w, pid) - {h} && EnginesOf(w', pid) == EnginesOf(w, pid)
      && SameForOthers(w, w', pid)
  {
  }

  /** The world after some of a process's handles are released for it. */
  function Without(w: World, engines: set<Handle>, codecs: set<Handle>): World {
    World(w.engines - engines, w.codecs - codecs)
  }

  lemma WithoutWorld(w: World, pid: Pid, engines: set<Handle>, codecs: set<Handle>)
    requires engines <= EnginesOf(w, pid) && codecs <= CodecsOf(w, pid)
    ensures var w' := Without(w, engines, codecs);
      && EnginesOf(w', pid) == EnginesOf(w, pid) - engines && CodecsOf(w', pid) == CodecsOf(w, pid) - codecs
      && SameForOthers(w, w', pid)
  {
  }

  // ----- one request keeps the table in step with the world -----

  lemma FirstNotResident(t: Table, pid: Pid)
    ensures pid != NULL ==> (Slot(t, pid) < |t| <==> pid in Residents(t))
  {
    var i := Slot(t, pid);
    forall m | 0 <= m < |t| && t[m].pid != NULL ensures t[m].pid in Residents(t) {
    }
    if i < |t| && pid != NULL {
      assert t[i].pid in Residents(t);
    }
  }

  /** A process without a slot owns nothing. */
  lemma StrangerOwnsNothing(t: Table, w: World, pid: Pid)
    requires KnowsOwners(t, w) && pid !in Residents(t)
    ensures EnginesOf(w, pid) == {} == CodecsOf(w, pid)
  {
  }

  /** A row that has taken in a handle: it is there if there was room, and otherwise nothing has changed. */
  ghost predicate TookIn(s: seq<Handle>, s': seq<Handle>, h: Handle) {
    if Used(s) < |s| then Items(s') == Items(s) + {h} else s' == s
  }

  /** Only the slot of pid has changed; it counts one handle more and has taken it in. */
  ghost predicate EngineAdded(t: Table, t': Table, pid: Pid, h: Handle) {
    var i := Slot(t, pid);
    && i < |t| == |t'| && t' == t[i := t'[i]]
    && t'[i] == t[i].(refs := t[i].refs + 1, engines := t'[i].engines)
    && TookIn(t[i].engines, t'[i].engines, h)
  }

  ghost predicate CodecAdded(t: Table, t': Table, pid: Pid, h: Handle) {
    var i := Slot(t, pid);
    && i < |t| == |t'| && t' == t[i := t'[i]]
    && t'[i] == t[i].(refs := t[i].refs + 1, codecs := t'[i].codecs)
    && TookIn(t[i].codecs, t'[i].codecs, h)
  }

  /** A further engine is always counted, and tracked if there is room. */
  lemma FurtherEngineAdded(t: Table, w: World, pid: Pid, h: Handle, k: nat)
    requires Represents(t, w, k) && pid in Residents(t) && h != NULL && h !in w.engines
    ensures EngineAdded(t, RegisterEngine(t, pid, h), pid, h)
  {
    FirstNotResident(t, pid);
    var c := t[Slot(t, pid)];
    assert Holds(c, EnginesOf(w, pid), CodecsOf(w, pid));
    PlaceTracks(c.engines, EnginesOf(w, pid), h);
  }

  /** So is a codec. */
  lemma FurtherCodecAdded(t: Table, w: World, pid: Pid, h: Handle, k: nat)
    requires Represents(t, w, k) && pid in Residents(t) && h != NULL && h !in w.codecs
    ensures CodecAdded(t, RegisterCodec(t, pid, h), pid, h)
  {
    FirstNotResident(t, pid);
    var c := t[Slot(t, pid)];
    assert Holds(c, EnginesOf(w, pid), CodecsOf(w, pid));
    PlaceTracks(c.codecs, CodecsOf(w, pid), h);
  }

  lemma EngineGainHolds(c: Client, engines: set<Handle>, codecs: set<Handle>, h: Handle)
    requires Holds(c, engines, codecs) && h != NULL && h !in engines
    ensures Holds(GainEngine(c, h), engines + {h}, codecs)
    ensures Items(c.engines) == engines && |engines| < |c.engines| ==> Items(GainEngine(c, h).engines) == engines + {h}
  {
    PlaceTracks(c.engines, engines, h);
  }

  lemma CodecGainHolds(c: Client, engines: set<Handle>, codecs: set<Handle>, h: Handle)
    requires Holds(c, engines, codecs) && h != NULL && h !in codecs
    ensures Holds(GainCodec(c, h), engines, codecs + {h})
    ensures Items(c.codecs) == codecs && |codecs| < |c.codecs| ==> Items(GainCodec(c, h).codecs) == codecs + {h}
  {
    PlaceTracks(c.codecs, codecs, h);
  }

  lemma KeptByNextOpen(t: Table, w: World, pid: Pid, h: Handle, k: nat)
    requires Represents(t, w, k) && pid in Residents(t) && h != NULL && h !in w.engines
    ensures var t', w' := RegisterEngine(t, pid, h), w.(engines := w.engines[h := pid]);
      && Represents(t', w', k)
      && (Complete(t, w) && |EnginesOf(w, pid)| < k ==> Complete(t', w'))
  {
    var w' := w.(engines := w.engines[h := pid]);
    OpenWorld(w, pid, h);
    FirstNotResident(t, pid);
    var i := Slot(t, pid);
    var c := GainEngine(t[i], h);
    EngineGainHolds(t[i], EnginesOf(w, pid), CodecsOf(w, pid), h);
    SlotChange(t, w, w', pid, i, c, k);
    if Complete(t, w) && |EnginesOf(w, pid)| < k {
      SlotChangeComplete(t, w, w', pid, i, c);
    }
  }

  lemma KeptByFirstOpen(t: Table, w: World, pid: Pid, h: Handle, k: nat)
    requires Represents(t, w, k) && pid != NULL && pid !in Residents(t) && Slot(t, NULL) < |t|
    requires h != NULL && h !in w.engines
    ensures var t', w' := RegisterEngine(t, pid, h), w.(engines := w.engines[h := pid]);
      && Represents(t', w', k)
      && (Complete(t, w) ==> Complete(t', w'))
  {
    var w' := w.(engines := w.engines[h := pid]);
    OpenWorld(w, pid, h);
    FirstNotResident(t, pid);
    StrangerOwnsNothing(t, w, pid);
    var i := Slot(t, NULL);
    assert Vacant(t[i]);
    var c := t[i].(pid := pid, refs := 1, engines := t[i].engines[0 := h]);
    FirstHandle(k, h);
    assert Items(c.codecs) == {};
    SlotChange(t, w, w', pid, i, c, k);
    if Complete(t, w) {
      SlotChangeComplete(t, w, w', pid, i, c);
    }
  }

  lemma FirstHandle(k: nat, h: Handle)
    requires k > 0 && h != NULL
    ensures Items(Nulls(k)[0 := h]) == {h} && NoRepeats(Nulls(k)[0 := h])
  {
    var s := Nulls(k)[0 := h];
    assert s[0] in Items(s);
  }

  lemma KeptByClose(t: Table, w: World, pid: Pid, h: Handle, k: nat)
    requires Represents(t, w, k) && h in w.engines && w.engines[h] == pid
    ensures var t', w' := UnregisterEngine(t, pid, h), w.(engines := w.engines - {h});
      && Represents(t', w', k)
      && (Complete(t, w) ==> Complete(t', w'))
  {
    var w' := w.(engines := w.engines - {h});
    CloseWorld(w, pid, h);
    FirstNotResident(t, pid);
    var i := Slot(t, pid);
    var c := LoseEngine(t[i], h);
    ItemsOfClear(t[i].engines, h);
    assert |EnginesOf(w', pid)| == |EnginesOf(w, pid)| - 1;
    if c.pid != pid {
      assert EnginesOf(w', pid) == {} == CodecsOf(w', pid);
      EmptyRow(c.engines);
      EmptyRow(c.codecs);
    }
    SlotChange(t, w, w', pid, i, c, k);
    if Complete(t, w) {
      SlotChangeComplete(t, w, w', pid, i, c);
    }
  }

  lemma EmptyRow(s: seq<Handle>)
    requires Items(s) == {}
    ensures s == Nulls(|s|)
  {
    forall i | 0 <= i < |s| && s[i] != NULL ensures s[i] in Items(s) {
    }
  }

  lemma KeptByCreate(t: Table, w: World, pid: Pid, e: Handle, h: Handle, k: nat)
    requires Represents(t, w, k) && pid in Residents(t) && h != NULL && h !in w.codecs
    ensures var t', w' := RegisterCodec(t, pid, h), w.(codecs := w.codecs[h := Codec(pid, e)]);
      && Represents(t', w', k)
      && (Complete(t, w) && |CodecsOf(w, pid)| < k ==> Complete(t', w'))
  {
    var w' := w.(codecs := w.codecs[h := Codec(pid, e)]);
    CreateWorld(w, pid, e, h);
    FirstNotResident(t, pid);
    var i := Slot(t, pid);
    var c := GainCodec(t[i], h);
    CodecGainHolds(t[i], EnginesOf(w, pid), CodecsOf(w, pid), h);
    SlotChange(t, w, w', pid, i, c, k);
    if Complete(t, w) && |CodecsOf(w, pid)| < k {
      SlotChangeComplete(t, w, w', pid, i, c);
    }
  }

  lemma KeptByDelete(t: Table, w: World, pid: Pid, h: Handle, k: nat)
    requires Represents(t, w, k) && h in w.codecs && w.codecs[h].pid == pid
    ensures var t', w' := UnregisterCodec(t, pid, h), w.(codecs := w.codecs - {h});
      && Represents(t', w', k)
      && (Complete(t, w) ==> Complete(t', w'))
  {
    var w' := w.(codecs := w.codecs - {h});
    DeleteWorld(w, pid, h);
    FirstNotResident(t, pid);
    var i := Slot(t, pid);
    var c := LoseCodec(t[i], h);
    ItemsOfClear(t[i].codecs, h);
    SlotChange(t, w, w', pid, i, c, k);
    if Complete(t, w) {
      SlotChangeComplete(t, w, w', pid, i, c);
    }
  }

  // ----- obituaries -----

  /** What is live after cleanup: the handles that had not fitted into the slot stay. */
  function AfterCleanup(t: Table, w: World, pid: Pid): World {
    var i := Slot(t, pid);
    if i < |t| then Without(w, Items(t[i].engines), Items(t[i].codecs)) else w
  }

  lemma Remainder(S: set<Handle>, s: seq<Handle>)
    requires Tracks(s, S)
    ensures |S - Items(s)| == |S| - Used(s)
    ensures Used(s) == |S| <==> Items(s) == S
  {
    UsedIsCardinality(s);
    assert S == Items(s) + (S - Items(s));
  }

  /** What is to become of slot c on the obituary of a process that had these handles. */
  ghost predicate Settled(c: Client, r: Client, engines: set<Handle>, codecs: set<Handle>) {
    if Items(c.engines) == engines && Items(c.codecs) == codecs && engines != {} then Vacant(r)
    else
      && r.pid == c.pid && r.engines == Nulls(|c.engines|) && r.codecs == Nulls(|c.codecs|)
      && r.refs == |engines - Items(c.engines)| + |codecs - Items(c.codecs)|
  }

  /**
   * A slot after cleanup. It is free and empty if there was an engine and every handle had fitted; otherwise its
   * arrays are empty and the reference count is exactly the number of handles that never fitted.
   */
  lemma LeftoversCounted(c: Client, engines: set<Handle>, codecs: set<Handle>)
    requires c.pid != NULL && Holds(c, engines, codecs)
    ensures Settled(c, CleanedUp(c), engines, codecs)
    ensures CleanedUp(c).pid != NULL && engines != {} ==> CleanedUp(c).refs > 0
  {
    Remainder(engines, c.engines);
    Remainder(codecs, c.codecs);
    CleanupFreesIff(c);
  }

  lemma CleanedUpSuits(c: Client, w: World, pid: Pid)
    requires c.pid == pid != NULL && Holds(c, EnginesOf(w, pid), CodecsOf(w, pid))
    ensures Suits(CleanedUp(c), pid, Without(w, Items(c.engines), Items(c.codecs)))
  {
    LeftoversCounted(c, EnginesOf(w, pid), CodecsOf(w, pid));
    WithoutWorld(w, pid, Items(c.engines), Items(c.codecs));
    assert Items(Nulls(|c.engines|)) == {} && Items(Nulls(|c.codecs|)) == {};
  }

  lemma KeptByCleanup(t: Table, w: World, pid: Pid, k: nat)
    requires Represents(t, w, k) && pid != NULL
    ensures Represents(CleanupTable(t, pid), AfterCleanup(t, w, pid), k)
    ensures Complete(t, w) ==> Complete(CleanupTable(t, pid), AfterCleanup(t, w, pid))
  {
    FirstNotResident(t, pid);
    var i := Slot(t, pid);
    if i < |t| {
      var w', c := AfterCleanup(t, w, pid), CleanedUp(t[i]);
      assert Holds(t[i], EnginesOf(w, pid), CodecsOf(w, pid));
      CleanedUpSuits(t[i], w, pid);
      WithoutWorld(w, pid, Items(t[i].engines), Items(t[i].codecs));
      SlotChange(t, w, w', pid, i, c, k);
      if Complete(t, w) {
        SlotChangeComplete(t, w, w', pid, i, c);
      }
    }
  }

  // ----- runs -----

  function Start(n: nat, k: nat): (s: System)
    ensures Shaped(s.table, k) && |s.table| == n
  {
    System(seq(n, _ => Client(NULL, 0, Nulls(k), Nulls(k))), [])
  }

  lemma UpdateKeepsReady(t: Table, r: Request, k: nat)
    requires Ready(t, k)
    ensures Ready(Update(t, r, k), k) && |Update(t, r, k)| == |t|
  {
  }

  function ServerAfter(rs: seq<Request>, n: nat, k: nat): (s: System)
    requires k > 0
    ensures Ready(s.table, k) && |s.table| == n
  {
    if rs == [] then Start(n, k)
    else
      var s := ServerAfter(rs[..|rs| - 1], n, k);
      UpdateKeepsReady(s.table, rs[|rs| - 1], k);
      Serve(s, rs[|rs| - 1], k)
  }

  lemma ServerAfterOneMore(rs: seq<Request>, r: Request, n: nat, k: nat)
    requires k > 0
    ensures ServerAfter(rs + [r], n, k) == Serve(ServerAfter(rs, n, k), r, k)
  {
    var run := rs + [r];
    assert run[..|run| - 1] == rs;
  }

  /** Rogue clients, too, leave each process at most one slot, so that its obituary cleans up all there is. */
  lemma {:induction false} OneSlotPerProcess(rs: seq<Request>, n: nat, k: nat)
    requires k > 0
    ensures DistinctPids(ServerAfter(rs, n, k).table)
  {
    if rs != [] {
      var front, r := rs[..|rs| - 1], rs[|rs| - 1];
      OneSlotPerProcess(front, n, k);
      var h := match r
        case Open(_, _, engine) => engine
        case Close(_, engine) => engine
        case Obituary(_) => NULL
        case _ => r.codec;
      StaysDistinct(ServerAfter(front, n, k).table, r.pid, h);
    }
  }

  // ----- books over any run: clients turned away, slots outgrown, handles released in any order -----

  /**
   * The live handles: those that were registered when they were given out, and the loose ones, given to a process
   * that had no slot and got none.
   */
  datatype Ledger = Ledger(known: World, loose: World)

  function All(l: Ledger): World {
    World(l.known.engines + l.loose.engines, l.known.codecs + l.loose.codecs)
  }

  predicate OwnsEngine(w: World, pid: Pid, h: Handle) {
    h in w.engines && w.engines[h] == pid
  }

  predicate OwnsCodec(w: World, pid: Pid, h: Handle) {
    h in w.codecs && w.codecs[h].pid == pid
  }

  /**
   * Pids are not zero, handles given out are new, and a process releases only what it owns, in any order. A process
   * with a slot does not release a loose handle, which the slot never counted.
   */
  predicate Proper(t: Table, l: Ledger, r: Request) {
    && r.pid != NULL
    && match r
       case Open(_, _, engine) => engine !in All(l).engines
       case Create(_, _, _, _, codec) => codec !in All(l).codecs
       case Close(pid, engine) =>
         OwnsEngine(l.known, pid, engine) || (OwnsEngine(l.loose, pid, engine) && Slot(t, pid) == |t|)
       case Delete(pid, codec) =>
         OwnsCodec(l.known, pid, codec) || (OwnsCodec(l.loose, pid, codec) && Slot(t, pid) == |t|)
       case _ => true
  }

  /** Does the process have a slot once it has opened an engine? */
  predicate FindsSlot(t: Table, pid: Pid) {
    Slot(t, pid) < |t| || Slot(t, NULL) < |t|
  }

  /** Is the request about a registered handle? */
  predicate Concerns(t: Table, l: Ledger, r: Request) {
    match r
    case Open(pid, _, _) => FindsSlot(t, pid)
    case Create(pid, _, _, _, _) => Slot(t, pid) < |t|
    case Close(pid, engine) => OwnsEngine(l.known, pid, engine)
    case Delete(pid, codec) => OwnsCodec(l.known, pid, codec)
    case _ => true
  }

  function LedgerAfter(t: Table, l: Ledger, r: Request): Ledger {
    if r.Obituary? then l.(known := AfterCleanup(t, l.known, r.pid))
    else if Concerns(t, l, r) then l.(known := WorldAfter(l.known, r))
    else l.(loose := WorldAfter(l.loose, r))
  }

  function LedgerAt(rs: seq<Request>, n: nat, k: nat): Ledger
    requires k > 0
  {
    if rs == [] then Ledger(EMPTY, EMPTY)
    else
      var front := rs[..|rs| - 1];
      LedgerAfter(ServerAfter(front, n, k).table, LedgerAt(front, n, k), rs[|rs| - 1])
  }

  predicate AllProper(rs: seq<Request>, n: nat, k: nat)
    requires k > 0
  {
    rs != [] ==>
      var front := rs[..|rs| - 1];
      AllProper(front, n, k) && Proper(ServerAfter(front, n, k).table, LedgerAt(front, n, k), rs[|rs| - 1])
  }

  /** A process without a slot leaves no trace, except when its open finds an unused one. */
  lemma StrangersLeaveNoTrace(t: Table, r: Request, k: nat)
    requires Ready(t, k) && r.pid != NULL && Slot(t, r.pid) == |t|
    ensures (r.Open? && r.engine != NULL && Slot(t, NULL) < |t|) || Update(t, r, k) == t
  {
  }

  lemma BooksStep(t: Table, l: Ledger, r: Request, k: nat)
    requires Represents(t, l.known, k) && Proper(t, l, r)
    ensures Represents(Update(t, r, k), LedgerAfter(t, l, r).known, k)
  {
    var w := l.known;
    FirstNotResident(t, r.pid);
    if !Concerns(t, l, r) {
      StrangersLeaveNoTrace(t, r, k);
    } else {
      match r
      case Open(pid, _, engine) =>
        if engine != NULL {
          if pid in Residents(t) {
            KeptByNextOpen(t, w, pid, engine, k);
          } else {
            KeptByFirstOpen(t, w, pid, engine, k);
          }
        }
      case Close(pid, engine) => KeptByClose(t, w, pid, engine, k);
      case Create(pid, engine, _, _, codec) =>
        if codec != NULL {
          KeptByCreate(t, w, pid, engine, codec, k);
        }
      case Delete(pid, codec) => KeptByDelete(t, w, pid, codec, k);
      case Obituary(pid) => KeptByCleanup(t, w, pid, k);
      case _ =>
    }
  }

  lemma StartRepresents(n: nat, k: nat)
    requires k > 0
    ensures Represents(Start(n, k).table, EMPTY, k) && Complete(Start(n, k).table, EMPTY)
  {
  }

  /**
   * At every moment of every such run: resident pids differ, an unused slot is empty, each reference count is the
   * number of its process's registered handles, and what is tracked is live and the process's own.
   */
  lemma {:induction false} RunKeepsBooks(rs: seq<Request>, n: nat, k: nat)
    requires k > 0 && AllProper(rs, n, k)
    ensures Represents(ServerAfter(rs, n, k).table, LedgerAt(rs, n, k).known, k)
  {
    if rs == [] {
      StartRepresents(n, k);
    } else {
      var front := rs[..|rs| - 1];
      RunKeepsBooks(front, n, k);
      BooksStep(ServerAfter(front, n, k).table, LedgerAt(front, n, k), rs[|rs| - 1], k);
    }
  }

  /**
   * The slot laws at every moment, also after clients have been turned away: an unused slot is empty, and a
   * stranger is refused exactly when n processes are resident, which then changes nothing.
   */
  lemma SlotLaws(rs: seq<Request>, n: nat, k: nat, pid: Pid, engine: Handle)
    requires k > 0 && AllProper(rs, n, k)
    requires pid != NULL && pid !in Residents(ServerAfter(rs, n, k).table)
    ensures var t := ServerAfter(rs, n, k).table;
      && (forall i, j :: 0 <= i < j < n && t[i].pid == t[j].pid ==> t[i].pid == 0)
      && (forall i :: 0 <= i < n && t[i].pid == 0 ==>
            t[i].refs == 0 && (forall h :: h in t[i].engines || h in t[i].codecs ==> h == 0))
      && (Slot(RegisterEngine(t, pid, engine), pid) == n <==> |Residents(t)| == n)
      && (|Residents(t)| == n ==> RegisterEngine(t, pid, engine) == t)
  {
    RunKeepsBooks(rs, n, k);
    RefusedIff(ServerAfter(rs, n, k).table, pid, engine);
  }

  /** A process that is given an engine has a slot or finds one, and one that is given a codec has one. */
  predicate Seats(t: Table, r: Request) {
    match r
    case Open(pid, _, engine) => engine != NULL ==> FindsSlot(t, pid)
    case Create(pid, _, _, _, codec) => codec != NULL ==> Slot(t, pid) < |t|
    case _ => true
  }

  predicate AllSeated(rs: seq<Request>, n: nat, k: nat)
    requires k > 0
  {
    rs != [] ==>
      var front := rs[..|rs| - 1];
      AllSeated(front, n, k) && Seats(ServerAfter(front, n, k).table, rs[|rs| - 1])
  }

  lemma {:induction false} SeatedMeansKnown(rs: seq<Request>, n: nat, k: nat)
    requires k > 0 && AllSeated(rs, n, k)
    ensures LedgerAt(rs, n, k).loose == EMPTY
  {
    if rs != [] {
      SeatedMeansKnown(rs[..|rs| - 1], n, k);
      assert forall S: set<Handle> :: EMPTY.engines - S == map[] && EMPTY.codecs - S == map[];
    }
  }

  /** A process that has no loose handles: its count is that of all its live handles, and it tracks only such. */
  lemma CountsAreHandles(rs: seq<Request>, n: nat, k: nat, i: nat)
    requires k > 0 && AllProper(rs, n, k) && i < n
    requires var c := ServerAfter(rs, n, k).table[i]; var loose := LedgerAt(rs, n, k).loose;
      c.pid != NULL && EnginesOf(loose, c.pid) == {} == CodecsOf(loose, c.pid)
    ensures var c := ServerAfter(rs, n, k).table[i]; var w := All(LedgerAt(rs, n, k));
      && c.refs == |EnginesOf(w, c.pid)| + |CodecsOf(w, c.pid)|
      && Items(c.engines) <= EnginesOf(w, c.pid) && Items(c.codecs) <= CodecsOf(w, c.pid)
  {
    RunKeepsBooks(rs, n, k);
    RunStaysApart(rs, n, k);
    var pid, l := ServerAfter(rs, n, k).table[i].pid, LedgerAt(rs, n, k);
    NoneLoose(l, pid);
  }

  /** No handle is in both parts. */
  ghost predicate Apart(l: Ledger) {
    l.known.engines.Keys !! l.loose.engines.Keys && l.known.codecs.Keys !! l.loose.codecs.Keys
  }

  lemma StaysApart(t: Table, l: Ledger, r: Request)
    requires Apart(l) && Proper(t, l, r)
    ensures Apart(LedgerAfter(t, l, r))
  {
  }

  lemma {:induction false} RunStaysApart(rs: seq<Request>, n: nat, k: nat)
    requires k > 0 && AllProper(rs, n, k)
    ensures Apart(LedgerAt(rs, n, k))
  {
    if rs != [] {
      var front := rs[..|rs| - 1];
      RunStaysApart(front, n, k);
      StaysApart(ServerAfter(front, n, k).table, LedgerAt(front, n, k), rs[|rs| - 1]);
    }
  }

  lemma NoneLoose(l: Ledger, pid: Pid)
    requires Apart(l) && EnginesOf(l.loose, pid) == {} == CodecsOf(l.loose, pid)
    ensures EnginesOf(All(l), pid) == EnginesOf(l.known, pid) && CodecsOf(All(l), pid) == CodecsOf(l.known, pid)
  {
    var w := All(l);
    forall h | h in EnginesOf(w, pid) ensures h in EnginesOf(l.known, pid) {
      assert h in l.loose.engines ==> h in EnginesOf(l.loose, pid);
    }
    forall h | h in CodecsOf(w, pid) ensures h in CodecsOf(l.known, pid) {
      assert h in l.loose.codecs ==> h in CodecsOf(l.loose, pid);
    }
    forall h | h in EnginesOf(l.known, pid) ensures h in EnginesOf(w, pid) {
    }
    forall h | h in CodecsOf(l.known, pid) ensures h in CodecsOf(w, pid) {
    }
  }

  lemma ObituarySettles(t: Table, w: World, k: nat, i: nat)
    requires Represents(t, w, k) && i < |t| && t[i].pid != NULL
    ensures Settled(t[i], CleanupTable(t, t[i].pid)[i], EnginesOf(w, t[i].pid), CodecsOf(w, t[i].pid))
  {
    SlotAt(t, t[i].pid, i);
    LeftoversCounted(t[i], EnginesOf(w, t[i].pid), CodecsOf(w, t[i].pid));
  }

  /** When everybody was seated, that is so for every slot at every moment, however many handles did not fit. */
  lemma SeatedCounts(rs: seq<Request>, n: nat, k: nat, i: nat)
    requires k > 0 && AllProper(rs, n, k) && AllSeated(rs, n, k) && i < n
    requires ServerAfter(rs, n, k).table[i].pid != NULL
    ensures var c := ServerAfter(rs, n, k).table[i]; var w := All(LedgerAt(rs, n, k));
      && c.refs == |EnginesOf(w, c.pid)| + |CodecsOf(w, c.pid)|
      && Items(c.engines) <= EnginesOf(w, c.pid) && Items(c.codecs) <= CodecsOf(w, c.pid)
  {
    SeatedMeansKnown(rs, n, k);
    var pid := ServerAfter(rs, n, k).table[i].pid;
    assert EnginesOf(EMPTY, pid) == {} == CodecsOf(EMPTY, pid);
    CountsAreHandles(rs, n, k, i);
  }

  /** In plain terms. */
  lemma SettledMeans(c: Client, r: Client, engines: set<Handle>, codecs: set<Handle>)
    requires Settled(c, r, engines, codecs)
    ensures forall h :: h in r.engines || h in r.codecs ==> h == 0
    ensures Items(c.engines) == engines && Items(c.codecs) == codecs && engines != {} ==> r.pid == 0 && r.refs == 0
    ensures !(Items(c.engines) == engines && Items(c.codecs) == codecs && engines != {}) ==>
      r.pid == c.pid && r.refs == |engines - Items(c.engines)| + |codecs - Items(c.codecs)|
  {
  }

  /** An obituary at any moment: the slot is free and empty, or counts exactly what had never fitted. */
  lemma ObituaryLeavesLeftovers(rs: seq<Request>, n: nat, k: nat, i: nat)
    requires k > 0 && AllProper(rs, n, k) && i < n && ServerAfter(rs, n, k).table[i].pid != NULL
    ensures var c, w := ServerAfter(rs, n, k).table[i], LedgerAt(rs, n, k).known;
      Settled(c, ServerAfter(rs + [Obituary(c.pid)], n, k).table[i], EnginesOf(w, c.pid), CodecsOf(w, c.pid))
  {
    RunKeepsBooks(rs, n, k);
    var t := ServerAfter(rs, n, k).table;
    ServerAfterOneMore(rs, Obituary(t[i].pid), n, k);
    ObituarySettles(t, LedgerAt(rs, n, k).known, k, i);
  }
}
