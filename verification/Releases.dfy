/**
 * What a client's releases do to its slot, also when their order is unusual or the handles are not the
 * client's: exactly when the slot is given up, and exactly when its owner's obituary still leaves it clean.
 */
module Releases {
  import opened CodecEngine
  import opened Registry
  import opened Contract
  import opened Runs

  // ----- the last reference -----

  datatype Release = OfEngine(handle: Handle) | OfCodec(handle: Handle)

  function Released(t: Table, pid: Pid, rels: seq<Release>): Table {
    if rels == [] then t
    else
      var u, last := Released(t, pid, rels[..|rels| - 1]), rels[|rels| - 1];
      if last.OfEngine? then UnregisterEngine(u, pid, last.handle) else UnregisterCodec(u, pid, last.handle)
  }

  /** Up to the last reference every release just counts, whatever the handle. */
  lemma {:induction false} StillTaken(t: Table, pid: Pid, rels: seq<Release>)
    requires DistinctPids(t) && pid != NULL && Slot(t, pid) < |t| && |rels| < t[Slot(t, pid)].refs
    ensures var i, u := Slot(t, pid), Released(t, pid, rels);
      |u| == |t| && u == t[i := u[i]] && u[i].pid == pid && u[i].refs == t[i].refs - |rels|
  {
    if rels != [] {
      var i, front := Slot(t, pid), rels[..|rels| - 1];
      StillTaken(t, pid, front);
      SlotAt(Released(t, pid, front), pid, i);
    }
  }

  /**
   * As many releases as there are references give the slot up if and only if the last is an engine's;
   * otherwise the slot stays taken without a reference.
   */
  lemma GivenUpIffEngineLast(t: Table, pid: Pid, rels: seq<Release>)
    requires DistinctPids(t) && pid != NULL && Slot(t, pid) < |t| && |rels| == t[Slot(t, pid)].refs > 0
    ensures var i, u := Slot(t, pid), Released(t, pid, rels);
      && |u| == |t| && u[i].refs == 0
      && (u[i].pid == NULL <==> rels[|rels| - 1].OfEngine?)
      && (u[i].pid == pid <==> rels[|rels| - 1].OfCodec?)
  {
    var front := rels[..|rels| - 1];
    StillTaken(t, pid, front);
    SlotAt(Released(t, pid, front), pid, Slot(t, pid));
  }

  /**
   * The shortest case. Codec first: the slot is free. Engine first: the slot stays taken without a reference, not even
   * the process's obituary gives it back, and it takes another engine, opened and closed, to do so.
   */
  lemma OrderMatters(c: Client, engine: Handle, codec: Handle, next: Handle)
    requires c.pid != NULL && Holds(c, {engine}, {codec}) && next != NULL
    requires Items(c.engines) == {engine} && Items(c.codecs) == {codec}
    ensures Vacant(LoseEngine(LoseCodec(c, codec), engine))
    ensures var r := LoseCodec(LoseEngine(c, engine), codec);
      && r.pid == c.pid && r.refs == 0 && CleanedUp(r) == r
      && Vacant(LoseEngine(GainEngine(r, next), next))
  {
    assert engine in Items(c.engines) && codec in Items(c.codecs);
    ItemsOfClear(c.engines, engine);
    ItemsOfClear(c.codecs, codec);
    EmptyRow(Clear(c.engines, engine));
    EmptyRow(Clear(c.codecs, codec));
    var r := LoseCodec(LoseEngine(c, engine), codec);
    UsedIsCardinality(r.engines);
    UsedIsCardinality(r.codecs);
    InAndOut(|c.engines|, next);
  }

  lemma InAndOut(k: nat, h: Handle)
    requires k > 0 && h != NULL
    ensures Clear(Place(Nulls(k), h), h) == Nulls(k)
  {
    assert Place(Nulls(k), h) == Nulls(k)[0 := h];
  }

  // ----- one release, and then the obituary -----

  /** How many of the handles that are counted did not fit (UnfittedIs), when the counts are right. */
  function Unfitted(c: Client): int {
    c.refs - Used(c.engines) - Used(c.codecs)
  }

  lemma UnfittedIs(c: Client, engines: set<Handle>, codecs: set<Handle>)
    requires Holds(c, engines, codecs)
    ensures Unfitted(c) == |engines - Items(c.engines)| + |codecs - Items(c.codecs)|
  {
    Remainder(engines, c.engines);
    Remainder(codecs, c.codecs);
  }

  lemma UsedAfterClear(s: seq<Handle>, h: Handle)
    requires NoRepeats(s) && h != NULL
    ensures Used(Clear(s, h)) == Used(s) - if h in Items(s) then 1 else 0
  {
    ItemsOfClear(s, h);
    UsedIsCardinality(s);
    UsedIsCardinality(Clear(s, h));
  }

  /**
   * Closing a handle leaves a slot that cleanup frees and empties exactly when an engine is still tracked and as many
   * handles had not fitted as this release has miscounted: none if the handle is tracked, one if it is not.
   */
  lemma EngineReleaseCleanIff(c: Client, h: Handle)
    requires c.pid != NULL && NoRepeats(c.engines) && h != NULL && c.refs != 1
    ensures Vacant(CleanedUp(LoseEngine(c, h)))
      <==> if h in Items(c.engines) then Used(c.engines) >= 2 && Unfitted(c) == 0
           else Used(c.engines) >= 1 && Unfitted(c) == 1
  {
    UsedAfterClear(c.engines, h);
    CleanupFreesIff(LoseEngine(c, h));
  }

  /** With the last reference the slot is given up at once; it is empty exactly when nothing else is tracked. */
  lemma LastEngineReleaseCleanIff(c: Client, h: Handle)
    requires c.pid != NULL && NoRepeats(c.engines) && NoRepeats(c.codecs) && h != NULL && c.refs == 1
    ensures LoseEngine(c, h).pid == NULL
    ensures Vacant(LoseEngine(c, h)) <==> Items(c.engines) <= {h} && Items(c.codecs) == {}
  {
    var d := LoseEngine(c, h);
    ItemsOfClear(c.engines, h);
    if Items(c.engines) <= {h} && Items(c.codecs) == {} {
      EmptyRow(d.engines);
      EmptyRow(d.codecs);
    }
    assert Items(Nulls(|c.engines|)) == {} && Items(Nulls(|c.codecs|)) == {};
  }

  /** Deleting a handle does so exactly when an engine is tracked and as many had not fitted as are miscounted. */
  lemma CodecReleaseCleanIff(c: Client, h: Handle)
    requires c.pid != NULL && NoRepeats(c.codecs) && h != NULL
    ensures Vacant(CleanedUp(LoseCodec(c, h)))
      <==> Used(c.engines) >= 1 && Unfitted(c) == if h in Items(c.codecs) then 0 else 1
  {
    UsedAfterClear(c.codecs, h);
    CleanupFreesIff(LoseCodec(c, h));
  }

  /**
   * Closing or deleting what is not the client's costs a reference. With the last one the slot is given up at once, with
   * whatever handle it holds; before, cleanup leaves the slot unclean, unless exactly one handle had not fitted and an
   * engine is tracked: then the reference lost makes up for it.
   */
  lemma UnknownCloseSpoilsSlot(c: Client, engines: set<Handle>, codecs: set<Handle>, unknown: Handle)
    requires c.pid != NULL && Holds(c, engines, codecs) && unknown != NULL
    ensures unknown !in engines ==> var d := LoseEngine(c, unknown);
      if c.refs == 1 then d.pid == NULL && (Vacant(d) <==> Unfitted(c) == 1)
      else Vacant(CleanedUp(d)) <==> Used(c.engines) >= 1 && Unfitted(c) == 1
    ensures unknown !in codecs ==>
      (Vacant(CleanedUp(LoseCodec(c, unknown))) <==> Used(c.engines) >= 1 && Unfitted(c) == 1)
  {
    UnfittedIs(c, engines, codecs);
    if unknown !in engines {
      if c.refs == 1 {
        LastEngineReleaseCleanIff(c, unknown);
        UsedIsCardinality(c.engines);
        UsedIsCardinality(c.codecs);
      } else {
        EngineReleaseCleanIff(c, unknown);
      }
    }
    CodecReleaseCleanIff(c, unknown);
  }

  /** Room for one engine of two: closing what is nobody's lets the obituary free the slot, with one engine still open. */
  lemma OutgrownAndForgotten()
    ensures var c := Client(7, 2, [1], [0]);
      Holds(c, {1, 3}, {}) && Unfitted(c) == 1 && Vacant(CleanedUp(LoseEngine(c, 9)))
  {
    var c := Client(7, 2, [1], [0]);
    SingleItem(1);
    assert Items([0]) == {};
    EngineReleaseCleanIff(c, 9);
  }

  // ----- a codec that did not fit -----

  lemma SingleItem(h: Handle)
    requires h != NULL
    ensures Items([h]) == {h}
  {
    assert [h][0] in Items([h]);
  }

  lemma StrandedBooks(t: Table, w: World)
    requires t == [Client(7, 3, [1], [2])]
    requires w == World(map[1 := 7], map[2 := Codec.Codec(7, 1), 3 := Codec.Codec(7, 1)])
    ensures Represents(t, w, 1) && Sound(w)
  {
    assert EnginesOf(w, 7) == {1} && CodecsOf(w, 7) == {2, 3};
    SingleItem(1);
    SingleItem(2);
    assert t[0].pid in Residents(t);
  }

  /**
   * One engine, two codecs on it, and room for one codec: every count is right, and the owner's obituary
   * nevertheless closes the engine under the codec that had not fitted.
   */
  lemma StrandedCodec(t: Table, w: World)
    requires t == [Client(7, 3, [1], [2])]
    requires w == World(map[1 := 7], map[2 := Codec.Codec(7, 1), 3 := Codec.Codec(7, 1)])
    ensures Represents(t, w, 1) && Sound(w)
    ensures !AllowsAll(Anonymous(w), CleanupEvents(t, 7))
  {
    StrandedBooks(t, w);
    TrackedIsKnown(t, w, 7, 1);
    CleanupAllowedIff(t, w, 7);
    SingleItem(1);
    SingleItem(2);
    assert Slot(t, 7) == 0 && 3 in w.codecs;
  }
}
