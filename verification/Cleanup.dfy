/**
 * Crash cleanup step by step: the state of the client's slot after each entry that the two loops of
 * dce_cleanup_cb have visited. The loops call the ordinary handlers, which change the arrays being scanned.
 */
module Cleanup {
  import opened CodecEngine
  import opened Registry

  /** The slot once the codec loop has passed the first i entries. */
  function CodecsVisited(c: Client, i: nat): Client
    requires i <= |c.codecs|
  {
    c.(refs := c.refs - Used(c.codecs[..i]), codecs := Nulls(i) + c.codecs[i..])
  }

  /** The slot once the engine loop has passed the first i entries; it may have been freed on the way. */
  function EnginesVisited(c: Client, i: nat): Client
    requires i <= |c.engines|
  {
    if 1 <= c.refs <= Used(c.engines[..i]) then
      c.(pid := NULL, refs := 0, engines := ClearFirst(c.engines, c.refs))
    else
      c.(refs := c.refs - Used(c.engines[..i]), engines := Nulls(i) + c.engines[i..])
  }

  /** One turn of the codec loop: the entry is still what it was, and the handler removes just it. */
  lemma CodecStep(c: Client, i: nat)
    requires i < |c.codecs|
    ensures CodecsVisited(c, i).codecs[i] == c.codecs[i]
    ensures CodecsVisited(c, i + 1)
      == if c.codecs[i] == NULL then CodecsVisited(c, i) else LoseCodec(CodecsVisited(c, i), c.codecs[i])
  {
    var here, h := CodecsVisited(c, i), c.codecs[i];
    UsedStep(c.codecs, i);
    if h != NULL {
      IndexAt(here.codecs, h, i);
    }
    assert Nulls(i + 1) + c.codecs[i + 1..] == (Nulls(i) + c.codecs[i..])[i := NULL];
  }

  /** Either loop reads each entry as it was on entry, also after the slot has been freed under it. */
  lemma CodecEntryKept(c: Client, i: nat)
    requires i < |c.codecs|
    ensures CodecsVisited(c, i).codecs[i] == c.codecs[i]
  {
  }

  lemma EngineEntryKept(c: Client, i: nat)
    requires i < |c.engines|
    ensures EnginesVisited(c, i).engines[i] == c.engines[i]
  {
  }

  /** Has the slot been freed before the engine loop reaches entry i? */
  predicate FreedBefore(c: Client, i: nat)
    requires i <= |c.engines|
  {
    1 <= c.refs <= Used(c.engines[..i])
  }

  /** One turn of the engine loop. Once the slot is freed the handler finds no client and changes nothing. */
  lemma EngineStep(c: Client, i: nat)
    requires i < |c.engines|
    ensures EnginesVisited(c, i).engines[i] == c.engines[i]
    ensures EnginesVisited(c, i + 1)
      == if c.engines[i] == NULL || FreedBefore(c, i) then EnginesVisited(c, i)
         else LoseEngine(EnginesVisited(c, i), c.engines[i])
  {
    var here, h := EnginesVisited(c, i), c.engines[i];
    UsedStep(c.engines, i);
    if !FreedBefore(c, i) {
      assert Nulls(i + 1) + c.engines[i + 1..] == (Nulls(i) + c.engines[i..])[i := NULL];
      if h != NULL {
        IndexAt(here.engines, h, i);
        if c.refs == Used(c.engines[..i + 1]) {
          FreedHere(c.engines, i + 1);
        }
      }
    }
  }

  /** The same turns seen on the whole table. */
  lemma CodecTurn(t: Table, c: nat, i: nat)
    requires DistinctPids(t) && c < |t| && i < |t[c].codecs|
    requires t[c].pid != NULL || t[c].codecs[i] == NULL
    ensures t[c := CodecsVisited(t[c], i + 1)]
      == if t[c].codecs[i] == NULL then t[c := CodecsVisited(t[c], i)]
         else UnregisterCodec(t[c := CodecsVisited(t[c], i)], t[c].pid, t[c].codecs[i])
  {
    CodecStep(t[c], i);
    if t[c].codecs[i] != NULL {
      SlotAt(t[c := CodecsVisited(t[c], i)], t[c].pid, c);
    }
  }

  lemma EngineTurn(t: Table, c: nat, i: nat)
    requires DistinctPids(t) && c < |t| && i < |t[c].engines|
    requires t[c].pid != NULL || t[c].engines[i] == NULL
    ensures t[c := EnginesVisited(t[c], i + 1)]
      == if t[c].engines[i] == NULL then t[c := EnginesVisited(t[c], i)]
         else UnregisterEngine(t[c := EnginesVisited(t[c], i)], t[c].pid, t[c].engines[i])
  {
    EngineStep(t[c], i);
    var here := t[c := EnginesVisited(t[c], i)];
    if t[c].engines[i] == NULL {
    } else if FreedBefore(t[c], i) {
      forall j | 0 <= j < |here| ensures here[j].pid != t[c].pid {
      }
    } else {
      SlotAt(here, t[c].pid, c);
    }
  }

  lemma UsedUpTo(s: seq<Handle>, i: nat, j: nat)
    requires i <= j <= |s|
    ensures Used(s[..i]) <= Used(s[..j])
  {
    UsedMonotone(s[..j], i);
    assert s[..j][..i] == s[..i];
  }

  lemma UsedBelow(s: seq<Handle>, j: nat, i: nat)
    requires j < i <= |s| && s[j] != NULL
    ensures Used(s[..j]) < Used(s[..i])
  {
    UsedStep(s, j);
    UsedUpTo(s, j + 1, i);
  }

  /** When the used entries before i are all that is to be freed, freeing them is nulling the first i entries. */
  lemma FreedHere(s: seq<Handle>, i: nat)
    requires i <= |s|
    requires i > 0 && s[i - 1] != NULL
    ensures ClearFirst(s, Used(s[..i])) == Nulls(i) + s[i..]
  {
    var n := Used(s[..i]);
    forall j | 0 <= j < |s| ensures ClearFirst(s, n)[j] == (Nulls(i) + s[i..])[j] {
      if j < i {
        if s[j] != NULL {
          UsedBelow(s, j, i);
        }
      } else {
        UsedUpTo(s, i, j);
      }
    }
  }

  lemma DeletionsStep(log: seq<Event>, pid: Pid, s: seq<Handle>, i: nat)
    requires i < |s|
    ensures log + Deletions(pid, s[..i + 1])
      == log + Deletions(pid, s[..i]) + if s[i] == NULL then [] else [Deleted(pid, s[i])]
  {
    assert s[..i + 1][..i] == s[..i];
  }

  lemma ClosingsStep(log: seq<Event>, pid: Pid, s: seq<Handle>, i: nat)
    requires i < |s|
    ensures log + Closings(pid, s[..i + 1])
      == log + Closings(pid, s[..i]) + if s[i] == NULL then [] else [Closed(pid, s[i])]
  {
    assert s[..i + 1][..i] == s[..i];
  }

  lemma NoneVisited(c: Client)
    ensures CodecsVisited(c, 0) == c && EnginesVisited(c, 0) == c
  {
    assert Nulls(0) + c.codecs == c.codecs;
    assert Nulls(0) + c.engines == c.engines;
  }

  lemma VisitedAll(c: Client)
    ensures EnginesVisited(CodecsVisited(c, |c.codecs|), |c.engines|) == CleanedUp(c)
  {
    assert c.codecs[..|c.codecs|] == c.codecs;
    assert c.engines[..|c.engines|] == c.engines;
    assert Nulls(|c.codecs|) + c.codecs[|c.codecs|..] == Nulls(|c.codecs|);
    assert Nulls(|c.engines|) + c.engines[|c.engines|..] == Nulls(|c.engines|);
  }

  /** The table between the two loops, and what the second makes of it. */
  lemma CleanupInTwo(t: Table, pid: Pid)
    requires DistinctPids(t) && Slot(t, pid) < |t|
    ensures var c := Slot(t, pid);
      var half := t[c := CodecsVisited(t[c], |t[c].codecs|)];
      && DistinctPids(half) && half[c].pid == pid && half[c].engines == t[c].engines
      && half[c := EnginesVisited(half[c], |half[c].engines|)] == CleanupTable(t, pid)
  {
    var c := Slot(t, pid);
    VisitedAll(t[c]);
    var half := t[c := CodecsVisited(t[c], |t[c].codecs|)];
    forall i, j | 0 <= i < j < |half| && half[i].pid == half[j].pid ensures half[i].pid == NULL {
      assert t[i].pid == t[j].pid;
    }
  }

  // ----- cleanup and the contract of the codec engine -----

  /** Deleting live codecs, each once, is allowed, and leaves the others. */
  lemma {:induction false} DeletionsAllowed(s: State, pid: Pid, row: seq<Handle>)
    requires NoRepeats(row) && Items(row) <= s.codecs.Keys
    ensures AllowsAll(s, Deletions(pid, row))
    ensures AfterAll(s, Deletions(pid, row)) == s.(codecs := s.codecs - Items(row))
  {
    if row == [] {
      assert s.codecs - Items(row) == s.codecs;
    } else {
      var front, h := row[..|row| - 1], row[|row| - 1];
      ItemsSplit(row);
      DeletionsAllowed(s, pid, front);
      AllowsAllSplit(s, Deletions(pid, front), if h == NULL then [] else [Deleted(pid, h)]);
      if h != NULL {
        LastIsNew(row);
        assert s.codecs - Items(front) - {h} == s.codecs - Items(row);
      }
    }
  }

  /** Closing open engines, each once, is allowed exactly when no codec is left on any of them. */
  lemma {:induction false} ClosingsAllowedIff(s: State, pid: Pid, row: seq<Handle>)
    requires NoRepeats(row) && Items(row) <= s.engines
    ensures AllowsAll(s, Closings(pid, row)) <==> s.codecs.Values !! Items(row)
    ensures AfterAll(s, Closings(pid, row)) == s.(engines := s.engines - Items(row))
  {
    if row != [] {
      var front, h := row[..|row| - 1], row[|row| - 1];
      ItemsSplit(row);
      ClosingsAllowedIff(s, pid, front);
      AllowsAllSplit(s, Closings(pid, front), if h == NULL then [] else [Closed(pid, h)]);
      if h != NULL {
        LastIsNew(row);
        var s' := s.(engines := s.engines - Items(front));
        assert Allows(s', Closed(pid, h)) <==> h !in s.codecs.Values;
        assert s.engines - Items(front) - {h} == s.engines - Items(row);
      }
    }
  }

  lemma LastIsNew(row: seq<Handle>)
    requires row != [] && NoRepeats(row) && row[|row| - 1] != NULL
    ensures NoRepeats(row[..|row| - 1])
    ensures row[|row| - 1] !in Items(row[..|row| - 1])
  {
  }

  // ----- cleanup in plain terms -----

  lemma {:induction false} DeletionsAre(pid: Pid, s: seq<Handle>)
    requires NoRepeats(s)
    ensures |Deletions(pid, s)| == Used(s)
    ensures forall e :: e in Deletions(pid, s) ==> e.Deleted? && e.pid == pid && e.codec in Items(s)
    ensures forall h :: h in Items(s) ==> multiset(Deletions(pid, s))[Deleted(pid, h)] == 1
  {
    if s != [] {
      var front, h := s[..|s| - 1], s[|s| - 1];
      ItemsSplit(s);
      DeletionsAre(pid, front);
      if h != NULL {
        LastIsNew(s);
        assert multiset(Deletions(pid, s)) == multiset(Deletions(pid, front)) + multiset{Deleted(pid, h)};
        assert Deleted(pid, h) !in Deletions(pid, front);
      }
    }
  }

  lemma {:induction false} ClosingsAre(pid: Pid, s: seq<Handle>)
    requires NoRepeats(s)
    ensures |Closings(pid, s)| == Used(s)
    ensures forall e :: e in Closings(pid, s) ==> e.Closed? && e.pid == pid && e.engine in Items(s)
    ensures forall h :: h in Items(s) ==> multiset(Closings(pid, s))[Closed(pid, h)] == 1
  {
    if s != [] {
      var front, h := s[..|s| - 1], s[|s| - 1];
      ItemsSplit(s);
      ClosingsAre(pid, front);
      if h != NULL {
        LastIsNew(s);
        assert multiset(Closings(pid, s)) == multiset(Closings(pid, front)) + multiset{Closed(pid, h)};
        assert Closed(pid, h) !in Closings(pid, front);
      }
    }
  }

  /**
   * Each tracked codec is deleted once and each tracked engine closed once, for the process that died; nothing else is
   * done, and no engine is closed before a codec is deleted.
   */
  lemma CleanupEventsMean(t: Table, pid: Pid)
    requires Slot(t, pid) < |t| && NoRepeats(t[Slot(t, pid)].engines) && NoRepeats(t[Slot(t, pid)].codecs)
    ensures var c, es := t[Slot(t, pid)], CleanupEvents(t, pid);
      && (forall h :: h in c.codecs && h != 0 ==> multiset(es)[Deleted(pid, h)] == 1)
      && (forall h :: h in c.engines && h != 0 ==> multiset(es)[Closed(pid, h)] == 1)
      && (forall e :: e in es ==>
            || (e.Deleted? && e.pid == pid && e.codec in c.codecs)
            || (e.Closed? && e.pid == pid && e.engine in c.engines))
      && (forall i, j :: 0 <= i < j < |es| && es[i].Closed? ==> es[j].Closed?)
  {
    var c := t[Slot(t, pid)];
    var a, b := Deletions(pid, c.codecs), Closings(pid, c.engines);
    DeletionsAre(pid, c.codecs);
    ClosingsAre(pid, c.engines);
    assert multiset(a + b) == multiset(a) + multiset(b);
    forall h | h in c.codecs && h != 0 ensures multiset(a + b)[Deleted(pid, h)] == 1 {
      assert h in Items(c.codecs) && Deleted(pid, h) !in b;
    }
    forall h | h in c.engines && h != 0 ensures multiset(a + b)[Closed(pid, h)] == 1 {
      assert h in Items(c.engines) && Closed(pid, h) !in a;
    }
    forall i, j | 0 <= i < j < |a + b| && (a + b)[i].Closed? ensures (a + b)[j].Closed? {
      ClosedBehind(a, b, i, j);
    }
  }

  lemma ClosedBehind(a: seq<Event>, b: seq<Event>, i: nat, j: nat)
    requires (forall e :: e in a ==> e.Deleted?) && (forall e :: e in b ==> e.Closed?)
    requires i < j < |a + b| && (a + b)[i].Closed?
    ensures (a + b)[j].Closed?
  {
    assert forall k :: 0 <= k < |a| ==> (a + b)[k] in a;
    assert (a + b)[j] in b;
  }

  /** Other slots stay; that of the process is free and null throughout if it has an engine and all it counts is tracked. */
  lemma CleanupTableMeans(t: Table, pid: Pid)
    requires pid != 0 && Slot(t, pid) < |t|
    ensures var i, u := Slot(t, pid), CleanupTable(t, pid);
      && |u| == |t| && (forall j :: 0 <= j < |t| && j != i ==> u[j] == t[j])
      && (Used(t[i].engines) >= 1 && t[i].refs == Used(t[i].codecs) + Used(t[i].engines) ==>
            u[i].pid == 0 && u[i].refs == 0 && forall h :: h in u[i].engines || h in u[i].codecs ==> h == 0)
  {
    CleanupFreesIff(t[Slot(t, pid)]);
  }
}
