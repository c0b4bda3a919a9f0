/**
 * Runs of the server judged by the contract of the codec engine: exactly which runs keep to it, and the refinement for
 * clients that keep to the rules and the limits.
 */
module Contract {
  import opened Words
  import opened CodecEngine
  import opened Registry
  import opened Cleanup
  import opened Runs

  /** The live handles with the owners forgotten: what the codec engine itself knows. */
  function Anonymous(w: World): State {
    State(w.engines.Keys, map h | h in w.codecs :: w.codecs[h].engine)
  }

  // ----- one request -----

  /** No live codec that cleanup leaves sits on an engine that cleanup closes. */
  ghost predicate NoneStranded(t: Table, w: World, pid: Pid) {
    var i := Slot(t, pid);
    i < |t| ==> forall h :: h in w.codecs && h !in Items(t[i].codecs) ==> w.codecs[h].engine !in Items(t[i].engines)
  }

  /** What the contract asks of a request, given the live handles. */
  ghost predicate Obeys(t: Table, w: World, r: Request) {
    match r
    case Open(_, _, engine) => engine != NULL ==> engine !in w.engines
    case Close(_, engine) => engine in w.engines && forall c :: c in w.codecs ==> w.codecs[c].engine != engine
    case Create(_, engine, _, _, codec) => engine in w.engines && (codec != NULL ==> codec !in w.codecs)
    case Obituary(pid) => NoneStranded(t, w, pid)
    case _ => r.codec in w.codecs
  }

  /** Deleting the codecs of one row and closing the engines of another. */
  lemma ReleasesAllowedIff(s: State, pid: Pid, codecs: seq<Handle>, engines: seq<Handle>)
    requires NoRepeats(codecs) && Items(codecs) <= s.codecs.Keys
    requires NoRepeats(engines) && Items(engines) <= s.engines
    ensures AllowsAll(s, Deletions(pid, codecs) + Closings(pid, engines))
      <==> (s.codecs - Items(codecs)).Values !! Items(engines)
    ensures AfterAll(s, Deletions(pid, codecs) + Closings(pid, engines))
      == State(s.engines - Items(engines), s.codecs - Items(codecs))
  {
    DeletionsAllowed(s, pid, codecs);
    ClosingsAllowedIff(s.(codecs := s.codecs - Items(codecs)), pid, engines);
    AllowsAllSplit(s, Deletions(pid, codecs), Closings(pid, engines));
  }

  lemma AnonymousWithout(w: World, E: set<Handle>, C: set<Handle>)
    ensures Anonymous(Without(w, E, C)) == State(Anonymous(w).engines - E, Anonymous(w).codecs - C)
  {
    assert Anonymous(Without(w, E, C)).codecs == Anonymous(w).codecs - C;
  }

  lemma StrandedIff(w: World, E: set<Handle>, C: set<Handle>)
    ensures (Anonymous(w).codecs - C).Values !! E
      <==> forall h :: h in w.codecs && h !in C ==> w.codecs[h].engine !in E
  {
    var m := Anonymous(w).codecs - C;
    if exists h :: h in w.codecs && h !in C && w.codecs[h].engine in E {
      var h :| h in w.codecs && h !in C && w.codecs[h].engine in E;
      assert h in m;
      assert m[h] in m.Values;
    }
    if !(m.Values !! E) {
      var e :| e in m.Values && e in E;
      var h :| h in m && m[h] == e;
    }
  }

  /** What pid's slot tracks is live, each handle once. */
  ghost predicate TracksLive(t: Table, w: World, pid: Pid) {
    var i := Slot(t, pid);
    i < |t| ==> && NoRepeats(t[i].engines) && Items(t[i].engines) <= w.engines.Keys
                && NoRepeats(t[i].codecs) && Items(t[i].codecs) <= w.codecs.Keys
  }

  /**
   * Cleanup keeps to the codec engine's contract (everything released is live, no engine is closed under a
   * codec) exactly when no codec that did not fit into the slot sits on an engine that did.
   */
  lemma CleanupAllowedIff(t: Table, w: World, pid: Pid)
    requires TracksLive(t, w, pid)
    ensures AllowsAll(Anonymous(w), CleanupEvents(t, pid)) <==> NoneStranded(t, w, pid)
    ensures AfterAll(Anonymous(w), CleanupEvents(t, pid)) == Anonymous(AfterCleanup(t, w, pid))
  {
    var i := Slot(t, pid);
    if i < |t| {
      ReleasesAllowedIff(Anonymous(w), pid, t[i].codecs, t[i].engines);
      StrandedIff(w, Items(t[i].engines), Items(t[i].codecs));
      AnonymousWithout(w, Items(t[i].engines), Items(t[i].codecs));
    }
  }

  /** Events that change nothing are judged one by one. */
  lemma {:induction false} QuietEvents(s: State, es: seq<Event>)
    requires forall e :: e in es ==> After(s, e) == s
    ensures AllowsAll(s, es) <==> forall e :: e in es ==> Allows(s, e)
    ensures AfterAll(s, es) == s
  {
    if es != [] {
      assert es[0] in es;
      QuietEvents(s, es[1..]);
      assert forall e :: e in es <==> e == es[0] || e in es[1..];
    }
  }

  /** An event followed by ones that are always allowed and change nothing. */
  lemma FirstDecides(s: State, es: seq<Event>)
    requires es != []
    requires forall e :: e in es[1..] ==> e.Cleaned? || e.IvaReleased?
    ensures AllowsAll(s, es) <==> Allows(s, es[0])
    ensures AfterAll(s, es) == After(s, es[0])
  {
    QuietEvents(After(s, es[0]), es[1..]);
  }

  lemma ProcessAllowedIff(t: Table, w: World, r: Request)
    requires r.Process?
    ensures AllowsAll(Anonymous(w), Events(t, r)) <==> Obeys(t, w, r)
    ensures AfterAll(Anonymous(w), Events(t, r)) == Anonymous(w)
  {
    var s, es := Anonymous(w), Events(t, r);
    FirstDecides(s, es[1..]);
    assert AllowsAll(s, es) <==> AllowsAll(s, es[1..]);
  }

  lemma AllowsAsObeys(t: Table, w: World, r: Request)
    requires !r.Obituary? && !r.Process?
    ensures Allows(Anonymous(w), Events(t, r)[0]) <==> Obeys(t, w, r)
  {
    var s := Anonymous(w);
    assert forall c :: c in w.codecs ==> s.codecs[c] == w.codecs[c].engine;
  }

  /** What a request makes the server do is allowed exactly when the request obeys, and means what the request means. */
  lemma EventsAllowedIff(t: Table, w: World, r: Request)
    requires !r.Obituary?
    ensures AllowsAll(Anonymous(w), Events(t, r)) <==> Obeys(t, w, r)
    ensures AfterAll(Anonymous(w), Events(t, r)) == Anonymous(WorldAfter(w, r))
  {
    if r.Process? {
      ProcessAllowedIff(t, w, r);
    } else {
      var s, es := Anonymous(w), Events(t, r);
      FirstDecides(s, es);
      AllowsAsObeys(t, w, r);
      assert After(s, es[0]) == Anonymous(WorldAfter(w, r));
    }
  }

  // ----- any run -----

  lemma MergedWith<V>(a: map<Handle, V>, b: map<Handle, V>, h: Handle, v: V)
    requires h !in a && h !in b
    ensures a[h := v] + b == (a + b)[h := v] == a + b[h := v]
  {
  }

  lemma MergedWithout<V>(a: map<Handle, V>, b: map<Handle, V>, S: set<Handle>)
    ensures S !! b.Keys ==> (a - S) + b == (a + b) - S
    ensures S !! a.Keys ==> a + (b - S) == (a + b) - S
  {
    if S !! b.Keys {
      assert (a - S) + b == (a + b) - S;
    }
    if S !! a.Keys {
      assert a + (b - S) == (a + b) - S;
    }
  }

  /** What a request makes of all the live handles together, registered or not. */
  lemma AllAfter(t: Table, l: Ledger, r: Request)
    requires Apart(l) && Proper(t, l, r) && !r.Obituary?
    ensures All(LedgerAfter(t, l, r)) == WorldAfter(All(l), r)
  {
    match r
    case Open(pid, _, engine) => MergedWith(l.known.engines, l.loose.engines, engine, pid);
    case Create(pid, engine, _, _, codec) =>
      MergedWith(l.known.codecs, l.loose.codecs, codec, Codec.Codec(pid, engine));
    case Close(_, engine) => MergedWithout(l.known.engines, l.loose.engines, {engine});
    case Delete(_, codec) => MergedWithout(l.known.codecs, l.loose.codecs, {codec});
    case _ =>
  }

  lemma TrackedIsKnown(t: Table, w: World, pid: Pid, k: nat)
    requires Represents(t, w, k) && pid != NULL
    ensures TracksLive(t, w, pid)
  {
    var i := Slot(t, pid);
    if i < |t| {
      assert Holds(t[i], EnginesOf(w, pid), CodecsOf(w, pid));
    }
  }

  lemma TrackedIsLive(t: Table, l: Ledger, pid: Pid)
    requires Apart(l) && TracksLive(t, l.known, pid)
    ensures TracksLive(t, All(l), pid)
    ensures All(l.(known := AfterCleanup(t, l.known, pid))) == AfterCleanup(t, All(l), pid)
  {
    var i := Slot(t, pid);
    if i < |t| {
      MergedWithout(l.known.engines, l.loose.engines, Items(t[i].engines));
      MergedWithout(l.known.codecs, l.loose.codecs, Items(t[i].codecs));
    }
  }

  lemma StepMeetsContractIff(t: Table, l: Ledger, r: Request, k: nat)
    requires Represents(t, l.known, k) && Apart(l) && Proper(t, l, r)
    ensures AllowsAll(Anonymous(All(l)), Events(t, r)) <==> Obeys(t, All(l), r)
    ensures AfterAll(Anonymous(All(l)), Events(t, r)) == Anonymous(All(LedgerAfter(t, l, r)))
  {
    if r.Obituary? {
      TrackedIsKnown(t, l.known, r.pid, k);
      TrackedIsLive(t, l, r.pid);
      CleanupAllowedIff(t, All(l), r.pid);
    } else {
      EventsAllowedIff(t, All(l), r);
      AllAfter(t, l, r);
    }
  }

  /** Every request of the run obeys the contract, given what is then live. */
  ghost predicate AllObey(rs: seq<Request>, n: nat, k: nat)
    requires k > 0
  {
    rs != [] ==>
      var front := rs[..|rs| - 1];
      AllObey(front, n, k) && Obeys(ServerAfter(front, n, k).table, All(LedgerAt(front, n, k)), rs[|rs| - 1])
  }

  /**
   * Over every run in which handles given out are new and processes release only what is theirs: the codec engine
   * holds exactly the live handles, and all it was asked to do met its contract if and only if no engine was
   * closed, by a client or by cleanup, under a live codec, and nothing dead was used.
   */
  lemma {:induction false} RunMeetsContractIff(rs: seq<Request>, n: nat, k: nat)
    requires k > 0 && AllProper(rs, n, k)
    ensures var s := ServerAfter(rs, n, k);
      && (AllowsAll(IDLE, s.log) <==> AllObey(rs, n, k))
      && AfterAll(IDLE, s.log) == Anonymous(All(LedgerAt(rs, n, k)))
  {
    if rs == [] {
      assert Anonymous(All(Ledger(EMPTY, EMPTY))) == IDLE;
    } else {
      var front, r := rs[..|rs| - 1], rs[|rs| - 1];
      RunMeetsContractIff(front, n, k);
      RunKeepsBooks(front, n, k);
      RunStaysApart(front, n, k);
      var s, l := ServerAfter(front, n, k), LedgerAt(front, n, k);
      StepMeetsContractIff(s.table, l, r, k);
      AllowsAllSplit(IDLE, s.log, Events(s.table, r));
    }
  }

  // ----- clients within the limits -----

  /** Each codec sits on a live engine of the same process. */
  ghost predicate Sound(w: World) {
    && NULL !in w.engines && NULL !in w.codecs
    && (forall h :: h in w.engines ==> w.engines[h] != NULL)
    && (forall h :: h in w.codecs ==>
          w.codecs[h].engine in w.engines && w.engines[w.codecs[h].engine] == w.codecs[h].pid)
  }

  /** Every slot in use has a reference. */
  ghost predicate NoneIdle(t: Table) {
    forall i :: 0 <= i < |t| && t[i].pid != NULL ==> t[i].refs > 0
  }

  /** Table, contract and meaning agree. */
  ghost predicate InStep(s: System, w: World, k: nat) {
    && Represents(s.table, w, k) && Complete(s.table, w)
    && Sound(w) && NoneIdle(s.table)
    && AllowsAll(IDLE, s.log)
    && AfterAll(IDLE, s.log) == Anonymous(w)
  }

  /** What the requests mean, without any table. */
  function Meaning(rs: seq<Request>): World {
    if rs == [] then EMPTY else WorldAfter(Meaning(rs[..|rs| - 1]), rs[|rs| - 1])
  }

  /** Every request of the run is legal and stays within n processes and k handles of a kind each. */
  predicate WithinLimits(rs: seq<Request>, n: nat, k: nat) {
    rs != [] ==>
      var w, r := Meaning(rs[..|rs| - 1]), rs[|rs| - 1];
      WithinLimits(rs[..|rs| - 1], n, k) && Legal(w, r) && Fits(w, r, n, k)
  }

  lemma CodecsNeedEngines(w: World, pid: Pid)
    requires Sound(w)
    ensures CodecsOf(w, pid) != {} ==> EnginesOf(w, pid) != {}
  {
    forall h | h in CodecsOf(w, pid) ensures w.codecs[h].engine in EnginesOf(w, pid) {
    }
  }

  lemma HoldersAreOwners(w: World, pid: Pid)
    requires Sound(w) && (EnginesOf(w, pid) != {} || CodecsOf(w, pid) != {})
    ensures pid in Owners(w)
  {
    CodecsNeedEngines(w, pid);
    var h :| h in EnginesOf(w, pid);
    assert w.engines[h] == pid;
  }

  lemma ResidentsAreOwners(t: Table, w: World, k: nat)
    requires Represents(t, w, k) && Sound(w) && NoneIdle(t)
    ensures Residents(t) == Owners(w)
  {
    forall p | p in Residents(t) ensures p in Owners(w) {
      var i :| 0 <= i < |t| && t[i].pid != NULL && t[i].pid == p;
      assert Holds(t[i], EnginesOf(w, p), CodecsOf(w, p));
      HoldersAreOwners(w, p);
    }
  }

  /** Fewer owners than slots: a stranger finds an unused one. */
  lemma RoomForStranger(t: Table, w: World, k: nat)
    requires Represents(t, w, k) && Sound(w) && NoneIdle(t) && |Owners(w)| < |t|
    ensures Slot(t, NULL) < |t|
  {
    ResidentsAreOwners(t, w, k);
    ResidentsCardinality(t);
    FullWhenNoneUnused(t);
  }

  lemma NobodyDied(t: Table, w: World, pid: Pid)
    requires KnowsOwners(t, w) && pid != NULL && Slot(t, pid) == |t|
    ensures WorldAfter(w, Obituary(pid)) == w
  {
    FirstNotResident(t, pid);
    StrangerOwnsNothing(t, w, pid);
    assert w.engines - {} == w.engines && w.codecs - {} == w.codecs;
  }

  /** On the engines of a process there are only its own codecs. */
  lemma NobodyElsesCodecs(w: World, pid: Pid)
    requires Sound(w)
    ensures forall h :: h in w.codecs && h !in CodecsOf(w, pid) ==> w.codecs[h].engine !in EnginesOf(w, pid)
  {
  }

  /** When nothing is missing from the table, cleanup means what the obituary means. */
  lemma ObituaryAsMeant(t: Table, w: World, pid: Pid, k: nat)
    requires Represents(t, w, k) && Sound(w) && Complete(t, w) && pid != NULL
    ensures NoneStranded(t, w, pid)
    ensures AfterCleanup(t, w, pid) == WorldAfter(w, Obituary(pid))
  {
    var i := Slot(t, pid);
    if i == |t| {
      NobodyDied(t, w, pid);
    } else {
      assert Items(t[i].engines) == EnginesOf(w, pid) && Items(t[i].codecs) == CodecsOf(w, pid);
      NobodyElsesCodecs(w, pid);
    }
  }

  /** The books of clients that were all seated. */
  function Seated(w: World): Ledger {
    Ledger(w, EMPTY)
  }

  lemma SeatedIsAll(w: World)
    ensures All(Seated(w)) == w && Apart(Seated(w))
  {
    assert w.engines + map[] == w.engines && w.codecs + map[] == w.codecs;
  }

  /** Within the limits every legal request is proper, obeys, concerns a registered handle, and has its plain meaning. */
  lemma FittingIsAsMeant(t: Table, w: World, r: Request, k: nat)
    requires Represents(t, w, k) && Sound(w) && Complete(t, w) && NoneIdle(t)
    requires Legal(w, r) && Fits(w, r, |t|, k)
    ensures Proper(t, Seated(w), r) && Obeys(t, w, r)
    ensures LedgerAfter(t, Seated(w), r) == Seated(WorldAfter(w, r))
  {
    SeatedIsAll(w);
    FirstNotResident(t, r.pid);
    if r.Obituary? {
      ObituaryAsMeant(t, w, r.pid, k);
    } else if r.Open? {
      ResidentsAreOwners(t, w, k);
      if r.engine != NULL && r.pid !in Owners(w) {
        RoomForStranger(t, w, k);
      }
    }
  }

  lemma StaysSound(w: World, r: Request)
    requires Sound(w) && Legal(w, r)
    ensures Sound(WorldAfter(w, r))
  {
  }

  lemma StaysComplete(t: Table, w: World, r: Request, k: nat)
    requires Represents(t, w, k) && Sound(w) && Complete(t, w) && NoneIdle(t)
    requires Legal(w, r) && Fits(w, r, |t|, k)
    ensures Complete(Update(t, r, k), WorldAfter(w, r))
  {
    FirstNotResident(t, r.pid);
    ResidentsAreOwners(t, w, k);
    match r
    case Open(pid, _, engine) =>
      if engine != NULL {
        if pid in Residents(t) {
          KeptByNextOpen(t, w, pid, engine, k);
        } else {
          RoomForStranger(t, w, k);
          KeptByFirstOpen(t, w, pid, engine, k);
        }
      }
    case Close(pid, engine) => KeptByClose(t, w, pid, engine, k);
    case Create(pid, engine, _, _, codec) =>
      if codec != NULL {
        KeptByCreate(t, w, pid, engine, codec, k);
      }
    case Delete(pid, codec) => KeptByDelete(t, w, pid, codec, k);
    case Obituary(pid) =>
      KeptByCleanup(t, w, pid, k);
      ObituaryAsMeant(t, w, pid, k);
    case _ =>
  }

  lemma NoneIdleAfter(t: Table, i: nat, c: Client)
    requires NoneIdle(t) && i < |t| && (c.pid != NULL ==> c.refs > 0)
    ensures NoneIdle(t[i := c])
  {
  }

  lemma StaysBusyAfterDelete(c: Client, w: World, codec: Handle)
    requires Sound(w) && OwnsCodec(w, c.pid, codec) && Holds(c, EnginesOf(w, c.pid), CodecsOf(w, c.pid))
    ensures LoseCodec(c, codec).refs > 0
  {
    assert w.codecs[codec].engine in EnginesOf(w, c.pid) && codec in CodecsOf(w, c.pid);
  }

  lemma StaysBusyAfterCleanup(c: Client, w: World)
    requires Sound(w) && c.pid != NULL && c.refs > 0 && Holds(c, EnginesOf(w, c.pid), CodecsOf(w, c.pid))
    ensures CleanedUp(c).pid != NULL ==> CleanedUp(c).refs > 0
  {
    CodecsNeedEngines(w, c.pid);
    LeftoversCounted(c, EnginesOf(w, c.pid), CodecsOf(w, c.pid));
  }

  /** Deleting codecs first means that the last reference goes with an engine. */
  lemma StaysBusy(t: Table, w: World, r: Request, k: nat)
    requires Represents(t, w, k) && Sound(w) && NoneIdle(t) && Legal(w, r)
    ensures NoneIdle(Update(t, r, k))
  {
    var i := Slot(t, r.pid);
    if i < |t| {
      assert Holds(t[i], EnginesOf(w, r.pid), CodecsOf(w, r.pid));
      if r.Delete? {
        StaysBusyAfterDelete(t[i], w, r.codec);
        NoneIdleAfter(t, i, LoseCodec(t[i], r.codec));
      } else if r.Obituary? {
        StaysBusyAfterCleanup(t[i], w);
        NoneIdleAfter(t, i, CleanedUp(t[i]));
      }
    }
  }

  /** One request within the limits, whichever it is, keeps table, contract and meaning in step. */
  lemma ServeKeepsInStep(s: System, w: World, r: Request, k: nat)
    requires InStep(s, w, k) && Legal(w, r) && Fits(w, r, |s.table|, k)
    ensures InStep(Serve(s, r, k), WorldAfter(w, r), k)
  {
    FittingIsAsMeant(s.table, w, r, k);
    SeatedIsAll(w);
    SeatedIsAll(WorldAfter(w, r));
    BooksStep(s.table, Seated(w), r, k);
    StepMeetsContractIff(s.table, Seated(w), r, k);
    AllowsAllSplit(IDLE, s.log, Events(s.table, r));
    StaysSound(w, r);
    StaysComplete(s.table, w, r, k);
    StaysBusy(s.table, w, r, k);
  }

  lemma StartInStep(n: nat, k: nat)
    requires k > 0
    ensures InStep(Start(n, k), EMPTY, k)
  {
    StartRepresents(n, k);
  }

  /**
   * The refinement: within n processes and k handles of a kind each, the table of n slots represents exactly
   * the meaning of the run, and the codec engine is left with exactly the handles that are owned.
   */
  lemma {:induction false} RunRefinesMeaning(rs: seq<Request>, n: nat, k: nat)
    requires k > 0 && WithinLimits(rs, n, k)
    ensures InStep(ServerAfter(rs, n, k), Meaning(rs), k)
  {
    if rs == [] {
      StartInStep(n, k);
    } else {
      var front := rs[..|rs| - 1];
      RunRefinesMeaning(front, n, k);
      ServeKeepsInStep(ServerAfter(front, n, k), Meaning(front), rs[|rs| - 1], k);
    }
  }

  /** In plain terms: each slot in use lists exactly its process's live handles, each once, and counts them. */
  lemma InStepMeans(s: System, w: World, k: nat, i: nat)
    requires InStep(s, w, k) && i < |s.table|
    ensures var c := s.table[i];
      if c.pid == 0 then c.refs == 0 && forall h :: h in c.engines || h in c.codecs ==> h == 0
      else && (forall h :: h in c.engines && h != 0 <==> h in w.engines && w.engines[h] == c.pid)
           && (forall h :: h in c.codecs && h != 0 <==> h in w.codecs && w.codecs[h].pid == c.pid)
           && c.refs == |EnginesOf(w, c.pid)| + |CodecsOf(w, c.pid)|
           && (forall a, b :: 0 <= a < b < k && c.engines[a] == c.engines[b] ==> c.engines[a] == 0)
           && (forall a, b :: 0 <= a < b < k && c.codecs[a] == c.codecs[b] ==> c.codecs[a] == 0)
    ensures forall h :: h in w.engines ==> exists j :: 0 <= j < |s.table| && s.table[j].pid == w.engines[h]
    ensures AllowsAll(IDLE, s.log) && AfterAll(IDLE, s.log).engines == w.engines.Keys
  {
    var c := s.table[i];
    if c.pid != 0 {
      assert Holds(c, EnginesOf(w, c.pid), CodecsOf(w, c.pid));
      assert forall h :: h in c.engines && h != 0 <==> h in Items(c.engines);
      assert forall h :: h in c.codecs && h != 0 <==> h in Items(c.codecs);
      assert Items(c.engines) == EnginesOf(w, c.pid) && Items(c.codecs) == CodecsOf(w, c.pid);
    }
    forall h | h in w.engines ensures exists j :: 0 <= j < |s.table| && s.table[j].pid == w.engines[h] {
      assert w.engines[h] in Residents(s.table);
    }
  }

  /** Such runs are among those of RunKeepsBooks and RunMeetsContractIff, with nothing loose and all obeying. */
  lemma {:induction false} LimitsAreProper(rs: seq<Request>, n: nat, k: nat)
    requires k > 0 && WithinLimits(rs, n, k)
    ensures AllProper(rs, n, k) && AllObey(rs, n, k) && LedgerAt(rs, n, k) == Seated(Meaning(rs))
  {
    if rs != [] {
      var front, r := rs[..|rs| - 1], rs[|rs| - 1];
      LimitsAreProper(front, n, k);
      RunRefinesMeaning(front, n, k);
      FittingIsAsMeant(ServerAfter(front, n, k).table, Meaning(front), r, k);
      SeatedIsAll(Meaning(front));
    }
  }

  lemma OneMore(rs: seq<Request>, r: Request, n: nat, k: nat)
    ensures WithinLimits(rs + [r], n, k) <==> WithinLimits(rs, n, k) && Legal(Meaning(rs), r) && Fits(Meaning(rs), r, n, k)
    ensures Meaning(rs + [r]) == WorldAfter(Meaning(rs), r)
  {
    assert (rs + [r])[..|rs + [r]| - 1] == rs;
  }

  /** An ordinary session is such a run: open, create, and the process dies. */
  lemma SessionFits(pid: Pid, engine: Handle, codec: Handle, name: seq<Byte>, params: Word, n: nat, k: nat)
    requires pid != 0 && engine != 0 && codec != 0 && n >= 1 && k >= 1
    ensures WithinLimits(
      [] + [Open(pid, name, engine)] + [Create(pid, engine, name, params, codec)] + [Obituary(pid)], n, k)
  {
    var start: seq<Request> := [];
    var open := Open(pid, name, engine);
    OneMore(start, open, n, k);
    assert EnginesOf(EMPTY, pid) == {} && Owners(EMPTY) == {};
    assert Meaning(start + [open]) == World(map[engine := pid], map[]);
    var create := Create(pid, engine, name, params, codec);
    OneMore(start + [open], create, n, k);
    assert CodecsOf(World(map[engine := pid], map[]), pid) == {};
    OneMore(start + [open] + [create], Obituary(pid), n, k);
  }

  /** Whatever the server does on a request, it does in the environment of the process that made it. */
  lemma EventsCarryPid(t: Table, r: Request, e: Event)
    requires e in Events(t, r) && !e.Cleaned? && !e.IvaAcquired? && !e.IvaReleased?
    ensures e.pid == r.pid
  {
    if r.Obituary? && Slot(t, r.pid) < |t| {
      var c := t[Slot(t, r.pid)];
      ReleasesCarryPid(r.pid, c.codecs, e);
      ReleasesCarryPid(r.pid, c.engines, e);
    }
  }

  lemma {:induction false} ReleasesCarryPid(pid: Pid, s: seq<Handle>, e: Event)
    ensures e in Deletions(pid, s) ==> e.Deleted? && e.pid == pid
    ensures e in Closings(pid, s) ==> e.Closed? && e.pid == pid
  {
    if s != [] {
      ReleasesCarryPid(pid, s[..|s| - 1], e);
    }
  }

  /** A dead process owns nothing, has no slot, and every handle it was ever given has been given back. */
  lemma NothingOutlivesItsProcess(rs: seq<Request>, pid: Pid, n: nat, k: nat)
    requires k > 0 && WithinLimits(rs + [Obituary(pid)], n, k)
    ensures var s, w := ServerAfter(rs + [Obituary(pid)], n, k), Meaning(rs + [Obituary(pid)]);
      && EnginesOf(w, pid) == {} == CodecsOf(w, pid)
      && pid !in Residents(s.table)
      && (forall h :: h in EnginesOf(Meaning(rs), pid) ==> Opens(s.log, h) == Closes(s.log, h))
      && (forall h :: h in CodecsOf(Meaning(rs), pid) ==> Creates(s.log, h) == Deletes(s.log, h))
  {
    var run := rs + [Obituary(pid)];
    assert run[..|run| - 1] == rs;
    RunRefinesMeaning(rs, n, k);
    RunRefinesMeaning(run, n, k);
    var s, w := ServerAfter(run, n, k), Meaning(run);
    assert EnginesOf(w, pid) == {} && CodecsOf(w, pid) == {};
    ResidentsAreOwners(s.table, w, k);
    forall h | h in w.engines ensures w.engines[h] != pid {
      OwnerOfEngine(w, h);
    }
    forall h | h in EnginesOf(Meaning(rs), pid) ensures Opens(s.log, h) == Closes(s.log, h) {
      ReleasesBalance(IDLE, s.log, h);
    }
    forall h | h in CodecsOf(Meaning(rs), pid) ensures Creates(s.log, h) == Deletes(s.log, h) {
      ReleasesBalance(IDLE, s.log, h);
    }
  }
}
