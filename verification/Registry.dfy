/**
 * The server's table of clients (dce.c, SERVER half): one slot for each client process, with its
 * reference count and the engines and codecs it holds. Each function gives the table after one
 * operation; the methods of `Server` are proved to compute them. The number of slots and
 * the number of handles of each kind in a slot are parameters (both 10 in the source).
 */
module Registry {
  import opened CodecEngine

  /** pid NULL means unused. */
  datatype Client = Client(pid: Pid, refs: int, engines: seq<Handle>, codecs: seq<Handle>)

  type Table = seq<Client>

  predicate Shaped(t: Table, k: nat) {
    forall i :: 0 <= i < |t| ==> |t[i].engines| == k && |t[i].codecs| == k
  }

  // ----- handle arrays -----

  /** First index that holds h, or |s|. */
  function IndexOf(s: seq<Handle>, h: Handle): (i: nat)
    ensures i <= |s|
    ensures i < |s| ==> s[i] == h
    ensures forall j :: 0 <= j < i ==> s[j] != h
  {
    if s == [] || s[0] == h then 0 else 1 + IndexOf(s[1..], h)
  }

  lemma IndexAt(s: seq<Handle>, h: Handle, i: nat)
    requires i < |s| && s[i] == h && forall j :: 0 <= j < i ==> s[j] != h
    ensures IndexOf(s, h) == i
  {
  }

  /** Put h in the first free entry; a full array stays as it is. */
  function Place(s: seq<Handle>, h: Handle): seq<Handle> {
    var i := IndexOf(s, NULL);
    if i < |s| then s[i := h] else s
  }

  /** Free the first entry that holds h; an array without h stays as it is. */
  function Clear(s: seq<Handle>, h: Handle): seq<Handle> {
    var i := IndexOf(s, h);
    if i < |s| then s[i := NULL] else s
  }

  /** How many entries are in use. */
  function Used(s: seq<Handle>): (n: nat)
    ensures n <= |s|
  {
    if s == [] then 0 else Used(s[..|s| - 1]) + if s[|s| - 1] == NULL then 0 else 1
  }

  function Items(s: seq<Handle>): set<Handle> {
    set i | 0 <= i < |s| && s[i] != NULL :: s[i]
  }

  /** The handles of S that fitted are in s, each once, and s holds nothing else. */
  ghost predicate Tracks(s: seq<Handle>, S: set<Handle>) {
    && Items(s) <= S
    && NoRepeats(s)
  }

  ghost predicate NoRepeats(s: seq<Handle>) {
    forall i, j :: 0 <= i < j < |s| && s[i] == s[j] ==> s[i] == NULL
  }

  lemma ItemsOfPlace(s: seq<Handle>, h: Handle)
    requires h != NULL
    ensures IndexOf(s, NULL) < |s| ==> Items(Place(s, h)) == Items(s) + {h}
  {
    var i := IndexOf(s, NULL);
    if i < |s| {
      var r := Place(s, h);
      assert r[i] == h;
      forall x | x in Items(s) ensures x in Items(r) {
        var j :| 0 <= j < |s| && s[j] != NULL && s[j] == x;
        assert r[j] == x;
      }
    }
  }

  lemma ItemsOfClear(s: seq<Handle>, h: Handle)
    requires h != NULL && NoRepeats(s)
    ensures Items(Clear(s, h)) == Items(s) - {h}
    ensures NoRepeats(Clear(s, h))
  {
    var i := IndexOf(s, h);
    var r := Clear(s, h);
    if i < |s| {
      forall x | x in Items(s) - {h} ensures x in Items(r) {
        var j :| 0 <= j < |s| && s[j] != NULL && s[j] == x;
        assert r[j] == x;
      }
    }
  }

  lemma ItemsSplit(s: seq<Handle>)
    requires s != []
    ensures Items(s) == Items(s[..|s| - 1]) + if s[|s| - 1] == NULL then {} else {s[|s| - 1]}
  {
    var n := |s| - 1;
    forall x | x in Items(s[..n]) ensures x in Items(s) {
      var j :| 0 <= j < n && s[..n][j] != NULL && s[..n][j] == x;
      assert s[j] == x;
    }
    forall x | x in Items(s) ensures x in Items(s[..n]) || x == s[n] {
      var j :| 0 <= j < |s| && s[j] != NULL && s[j] == x;
      if j < n { assert s[..n][j] == x; }
    }
  }

  /** The number of entries in use is the number of different handles, when none repeats. */
  lemma {:induction false} UsedIsCardinality(s: seq<Handle>)
    requires NoRepeats(s)
    ensures |Items(s)| == Used(s)
  {
    if s != [] {
      ItemsSplit(s);
      UsedIsCardinality(s[..|s| - 1]);
    }
  }

  /** An array with no free entry is in use throughout. */
  lemma {:induction false} UsedWhenFull(s: seq<Handle>)
    ensures Used(s) == |s| <==> IndexOf(s, NULL) == |s|
  {
    if s != [] {
      var n := |s| - 1;
      UsedWhenFull(s[..n]);
      var i := IndexOf(s, NULL);
      var j := IndexOf(s[..n], NULL);
      if i < n { assert s[..n][i] == NULL; }
      if j < n { assert s[j] == NULL; }
    }
  }

  /** A handle that is new to the holder is tracked if there is room, and leaves no trace otherwise. */
  lemma PlaceTracks(s: seq<Handle>, S: set<Handle>, h: Handle)
    requires Tracks(s, S) && h != NULL && h !in S
    ensures Tracks(Place(s, h), S + {h})
    ensures if Used(s) < |s| then Items(Place(s, h)) == Items(s) + {h} else Place(s, h) == s
    ensures Items(s) == S && |S| < |s| ==> Items(Place(s, h)) == S + {h}
  {
    ItemsOfPlace(s, h);
    UsedIsCardinality(s);
    UsedWhenFull(s);
    var i := IndexOf(s, NULL);
    if i < |s| {
      forall j | 0 <= j < |s| && s[j] != NULL ensures s[j] != h {
        assert s[j] in Items(s);
      }
    }
  }

  // ----- the table -----

  /** First slot with this pid, or |t|. */
  function Slot(t: Table, pid: Pid): (i: nat)
    ensures i <= |t|
    ensures i < |t| ==> t[i].pid == pid
    ensures forall j :: 0 <= j < i ==> t[j].pid != pid
  {
    if t == [] || t[0].pid == pid then 0 else 1 + Slot(t[1..], pid)
  }

  function GainEngine(c: Client, engine: Handle): Client {
    c.(refs := c.refs + 1, engines := Place(c.engines, engine))
  }

  /** Only here is a slot given up: when the last reference goes with an engine. */
  function LoseEngine(c: Client, engine: Handle): Client {
    c.(pid := if c.refs == 1 then NULL else c.pid, refs := c.refs - 1, engines := Clear(c.engines, engine))
  }

  function GainCodec(c: Client, codec: Handle): Client {
    c.(refs := c.refs + 1, codecs := Place(c.codecs, codec))
  }

  function LoseCodec(c: Client, codec: Handle): Client {
    c.(refs := c.refs - 1, codecs := Clear(c.codecs, codec))
  }

  /** A first engine claims an unused slot; with none left the engine goes unrecorded. */
  function RegisterEngine(t: Table, pid: Pid, engine: Handle): Table
    requires forall i :: 0 <= i < |t| ==> t[i].engines != []
  {
    var i := Slot(t, pid);
    if i < |t| then
      t[i := GainEngine(t[i], engine)]
    else
      var f := Slot(t, NULL);
      if f < |t| then t[f := t[f].(pid := pid, refs := 1, engines := t[f].engines[0 := engine])] else t
  }

  function UnregisterEngine(t: Table, pid: Pid, engine: Handle): Table {
    var i := Slot(t, pid);
    if i < |t| then t[i := LoseEngine(t[i], engine)] else t
  }

  function RegisterCodec(t: Table, pid: Pid, codec: Handle): Table {
    var i := Slot(t, pid);
    if i < |t| then t[i := GainCodec(t[i], codec)] else t
  }

  function UnregisterCodec(t: Table, pid: Pid, codec: Handle): Table {
    var i := Slot(t, pid);
    if i < |t| then t[i := LoseCodec(t[i], codec)] else t
  }

  // ----- crash cleanup in closed form -----

  /** s with its first n used entries freed. */
  function ClearFirst(s: seq<Handle>, n: int): (r: seq<Handle>)
    ensures |r| == |s|
    ensures forall i :: 0 <= i < |s| ==> r[i] == if Used(s[..i]) < n then NULL else s[i]
  {
    seq(|s|, i requires 0 <= i < |s| => if Used(s[..i]) < n then NULL else s[i])
  }

  function Nulls(n: nat): (r: seq<Handle>)
    ensures |r| == n && forall i :: 0 <= i < n ==> r[i] == NULL
  {
    seq(n, _ => NULL)
  }

  /**
   * What is left of a client after cleanup. Deleting the codecs leaves `due` references. If that count
   * is reached while engines are being closed the slot is freed at that moment, and engines behind
   * that point are closed but never removed from the slot.
   */
  function CleanedUp(c: Client): Client {
    var due := c.refs - Used(c.codecs);
    if 1 <= due <= Used(c.engines) then
      Client(NULL, 0, ClearFirst(c.engines, due), Nulls(|c.codecs|))
    else
      Client(c.pid, due - Used(c.engines), Nulls(|c.engines|), Nulls(|c.codecs|))
  }

  function CleanupTable(t: Table, pid: Pid): Table {
    var i := Slot(t, pid);
    if i < |t| then t[i := CleanedUp(t[i])] else t
  }

  function Deletions(pid: Pid, s: seq<Handle>): seq<Event> {
    if s == [] then []
    else Deletions(pid, s[..|s| - 1]) + if s[|s| - 1] == NULL then [] else [Deleted(pid, s[|s| - 1])]
  }

  function Closings(pid: Pid, s: seq<Handle>): seq<Event> {
    if s == [] then []
    else Closings(pid, s[..|s| - 1]) + if s[|s| - 1] == NULL then [] else [Closed(pid, s[|s| - 1])]
  }

  /** Every tracked codec is deleted once, in slot order, and then every tracked engine is closed once. */
  function CleanupEvents(t: Table, pid: Pid): seq<Event> {
    var i := Slot(t, pid);
    if i < |t| then Deletions(pid, t[i].codecs) + Closings(pid, t[i].engines) else []
  }

  // ----- table laws -----

  /** Resident pids differ, and an unused slot is empty, so that reusing it loses nothing. */
  ghost predicate WellFormed(t: Table) {
    && DistinctPids(t)
    && (forall i :: 0 <= i < |t| && t[i].pid == NULL ==> Vacant(t[i]))
  }

  ghost predicate DistinctPids(t: Table) {
    forall i, j :: 0 <= i < j < |t| && t[i].pid == t[j].pid ==> t[i].pid == NULL
  }

  predicate Vacant(c: Client) {
    c.pid == NULL && c.refs == 0 && c.engines == Nulls(|c.engines|) && c.codecs == Nulls(|c.codecs|)
  }

  lemma SlotAt(t: Table, pid: Pid, i: nat)
    requires DistinctPids(t) && pid != NULL
    requires i < |t| && t[i].pid == pid
    ensures Slot(t, pid) == i
  {
  }

  /** Whatever handle a message names, the resident pids stay different. */
  lemma StaysDistinct(t: Table, pid: Pid, h: Handle)
    requires DistinctPids(t) && forall i :: 0 <= i < |t| ==> t[i].engines != []
    ensures DistinctPids(RegisterEngine(t, pid, h)) && DistinctPids(UnregisterEngine(t, pid, h))
    ensures DistinctPids(RegisterCodec(t, pid, h)) && DistinctPids(UnregisterCodec(t, pid, h))
    ensures DistinctPids(CleanupTable(t, pid))
  {
    if Slot(t, pid) == |t| && Slot(t, NULL) < |t| {
      var f := Slot(t, NULL);
      KeepsDistinct(t, f, t[f].(pid := pid, refs := 1, engines := t[f].engines[0 := h]));
    }
    if Slot(t, pid) < |t| {
      var i := Slot(t, pid);
      KeepsDistinct(t, i, GainEngine(t[i], h));
      KeepsDistinct(t, i, LoseEngine(t[i], h));
      KeepsDistinct(t, i, GainCodec(t[i], h));
      KeepsDistinct(t, i, LoseCodec(t[i], h));
      KeepsDistinct(t, i, CleanedUp(t[i]));
    }
  }

  lemma KeepsDistinct(t: Table, i: nat, c: Client)
    requires DistinctPids(t) && i < |t|
    requires c.pid == NULL || c.pid == t[i].pid || Slot(t, c.pid) == |t|
    ensures DistinctPids(t[i := c])
  {
  }

  function Residents(t: Table): set<Pid> {
    set i | 0 <= i < |t| && t[i].pid != NULL :: t[i].pid
  }

  function ResidentSlots(t: Table): (n: nat)
    ensures n <= |t|
  {
    if t == [] then 0 else ResidentSlots(t[..|t| - 1]) + if t[|t| - 1].pid == NULL then 0 else 1
  }

  lemma {:induction false} FullWhenNoneUnused(t: Table)
    ensures ResidentSlots(t) == |t| <==> Slot(t, NULL) == |t|
  {
    if t != [] {
      var front := t[..|t| - 1];
      FullWhenNoneUnused(front);
      var i, j := Slot(t, NULL), Slot(front, NULL);
      if i < |front| { assert front[i].pid == NULL; }
      if j < |front| { assert t[j].pid == NULL; }
    }
  }

  lemma ResidentsSplit(t: Table)
    requires t != []
    ensures Residents(t) == Residents(t[..|t| - 1]) + if t[|t| - 1].pid == NULL then {} else {t[|t| - 1].pid}
  {
    var n := |t| - 1;
    forall x | x in Residents(t[..n]) ensures x in Residents(t) {
      var j :| 0 <= j < n && t[..n][j].pid != NULL && t[..n][j].pid == x;
      assert t[j].pid == x;
    }
    forall x | x in Residents(t) ensures x in Residents(t[..n]) || x == t[n].pid {
      var j :| 0 <= j < |t| && t[j].pid != NULL && t[j].pid == x;
      if j < n { assert t[..n][j].pid == x; }
    }
  }

  /** Distinct resident pids: there are as many as there are slots in use. */
  lemma {:induction false} ResidentsCardinality(t: Table)
    requires DistinctPids(t)
    ensures |Residents(t)| == ResidentSlots(t)
  {
    if t != [] {
      ResidentsSplit(t);
      ResidentsCardinality(t[..|t| - 1]);
    }
  }

  /** A client without a slot is turned away exactly when as many different clients are resident as there are slots. */
  lemma RefusedIff(t: Table, pid: Pid, engine: Handle)
    requires WellFormed(t) && pid != NULL && pid !in Residents(t)
    requires forall i :: 0 <= i < |t| ==> t[i].engines != []
    ensures Slot(RegisterEngine(t, pid, engine), pid) == |t| <==> |Residents(t)| == |t|
    ensures |Residents(t)| == |t| ==> RegisterEngine(t, pid, engine) == t
  {
    ResidentsCardinality(t);
    FullWhenNoneUnused(t);
    var r := RegisterEngine(t, pid, engine);
    var i, f := Slot(t, pid), Slot(t, NULL);
    forall j | 0 <= j < |t| && t[j].pid != NULL ensures t[j].pid in Residents(t) {
    }
    if f < |t| {
      assert r[f].pid == pid;
    }
  }

  /**
   * Cleanup frees the slot and empties it exactly when the client has a tracked engine and its
   * reference count is the number of its tracked handles.
   */
  lemma CleanupFreesIff(c: Client)
    requires c.pid != NULL
    ensures Vacant(CleanedUp(c)) <==> Used(c.engines) >= 1 && c.refs == Used(c.codecs) + Used(c.engines)
  {
    var due := c.refs - Used(c.codecs);
    var r := CleanedUp(c);
    if 1 <= due <= Used(c.engines) {
      LeftBehind(c.engines, due);
    }
  }

  /** Freeing fewer entries than are used leaves some; freeing them all leaves none. */
  lemma {:induction false} LeftBehind(s: seq<Handle>, n: nat)
    requires n <= Used(s)
    ensures ClearFirst(s, n) == Nulls(|s|) <==> n == Used(s)
  {
    var r := ClearFirst(s, n);
    if s != [] {
      var m := |s| - 1;
      UsedMonotone(s, m);
      if n == Used(s) {
        forall i | 0 <= i < |s| ensures r[i] == NULL {
          UsedMonotone(s, i);
          if s[i] != NULL {
            UsedStep(s, i);
          }
        }
      } else if s[m] != NULL {
        assert r[m] == s[m];
      } else {
        LeftBehind(s[..m], n);
        var r' := ClearFirst(s[..m], n);
        var i :| 0 <= i < m && r'[i] != NULL;
        assert s[..m][..i] == s[..i];
        assert r[i] == r'[i];
      }
    }
  }

  lemma {:induction false} UsedMonotone(s: seq<Handle>, i: nat)
    requires i <= |s|
    ensures Used(s[..i]) <= Used(s)
    decreases |s|
  {
    if i == |s| {
      assert s[..i] == s;
    } else {
      UsedMonotone(s[..|s| - 1], i);
      assert s[..|s| - 1][..i] == s[..i];
    }
  }

  /** The count grows by one over a used entry. */
  lemma UsedStep(s: seq<Handle>, i: nat)
    requires i < |s|
    ensures Used(s[..i + 1]) == Used(s[..i]) + if s[i] == NULL then 0 else 1
    ensures Used(s[..i + 1]) <= Used(s)
  {
    assert s[..i + 1][..i] == s[..i];
    UsedMonotone(s, i + 1);
  }
}
