/**
 * The client library's connection to the coprocessor (dce.c, init and deinit): set up by the first Engine_open, torn
 * down by an Engine_close that finds the count at or below zero. Each function holds the mutex throughout,
 * so that a run of any number of threads is a sequence of whole calls.
 */
module Transport {
  datatype Event = SetUp | TornDown

  class Connection {
    var count: int
    var log: seq<Event>

    /** The count is a flag, set exactly while the transport is up, and set-up and tear-down have taken turns. */
    ghost predicate Valid()
      reads this
    {
      (count == 0 || count == 1) && (count == 1 <==> Up(log)) && Alternates(log)
    }

    constructor ()
      ensures Valid() && count == 0 && log == []
    {
      count, log := 0, [];
    }

    /** The transport is up afterwards; the early exit leaves it alone, and does not count the caller. */
    method Init()
      modifies this
      ensures old(Valid()) ==> Valid() && count == 1
      ensures old(Valid()) && old(Up(log)) ==> log == old(log)
      ensures State(count, log) == AfterInit(State(old(count), old(log)))
    {
      if count > 0 {
        return;
      }
      TurnsTaken(log);
      count := count + 1;
      log := log + [SetUp];
    }

    /** The transport is down afterwards; it goes in its turn exactly when it was up. */
    method Deinit()
      modifies this
      ensures old(Valid()) ==> (Valid() <==> old(count) == 1)
      ensures old(Valid()) ==> !Up(log) && count == old(count) - 1
      ensures State(count, log) == AfterDeinit(State(old(count), old(log)))
    {
      TurnsTaken(log);
      count := count - 1;
      if count > 0 {
        return;
      }
      log := log + [TornDown];
    }

    /** The calls of a run, of whichever threads, one after the other. */
    method Perform(cs: seq<Call>)
      requires count == 0 && log == []
      modifies this
      ensures State(count, log) == Play(cs)
      ensures NeverBelow(cs) ==> Valid()
    {
      var i := 0;
      while i < |cs|
        invariant i <= |cs|
        invariant State(count, log) == Play(cs[..i])
      {
        assert cs[..i + 1][..i] == cs[..i];
        if cs[i].Init? {
          Init();
        } else {
          Deinit();
        }
        i := i + 1;
      }
      assert cs[..i] == cs;
      if NeverBelow(cs) {
        CountIsFlag(cs);
      }
    }
  }

  /** Whoever took turns is up after an odd number of them. */
  lemma TurnsTaken(log: seq<Event>)
    ensures Alternates(log) ==> (Up(log) <==> |log| % 2 == 1)
  {
    if Alternates(log) && log != [] {
      assert log[|log| - 1] == if (|log| - 1) % 2 == 0 then SetUp else TornDown;
    }
  }

  datatype State = State(count: int, log: seq<Event>)

  function AfterInit(s: State): State {
    if s.count > 0 then s else State(s.count + 1, s.log + [SetUp])
  }

  function AfterDeinit(s: State): State {
    if s.count - 1 > 0 then s.(count := s.count - 1) else State(s.count - 1, s.log + [TornDown])
  }

  /** Up if it was set up last. */
  predicate Up(log: seq<Event>) {
    log != [] && log[|log| - 1] == SetUp
  }

  /** Set up and torn down in turn, beginning with set up. */
  predicate Alternates(log: seq<Event>) {
    forall i :: 0 <= i < |log| ==> log[i] == if i % 2 == 0 then SetUp else TornDown
  }

  // ----- runs of init and deinit -----

  datatype Call = Init | Deinit

  function Play(cs: seq<Call>): State {
    if cs == [] then State(0, [])
    else
      var s := Play(cs[..|cs| - 1]);
      if cs[|cs| - 1].Init? then AfterInit(s) else AfterDeinit(s)
  }

  /** deinit is only ever called while the count is positive. */
  predicate NeverBelow(cs: seq<Call>) {
    cs != [] ==>
      NeverBelow(cs[..|cs| - 1]) && (cs[|cs| - 1].Deinit? ==> Play(cs[..|cs| - 1]).count > 0)
  }

  /** The count is a flag: 0 or 1, and 1 exactly while the transport is up. Set-up and tear-down strictly alternate. */
  lemma {:induction false} CountIsFlag(cs: seq<Call>)
    requires NeverBelow(cs)
    ensures var s := Play(cs);
      && (s.count == 0 || s.count == 1)
      && (s.count == 1 <==> Up(s.log))
      && Alternates(s.log)
  {
    if cs != [] {
      CountIsFlag(cs[..|cs| - 1]);
      var s := Play(cs[..|cs| - 1]);
      if s.log != [] {
        assert s.log[|s.log| - 1] == if (|s.log| - 1) % 2 == 0 then SetUp else TornDown;
      }
    }
  }

  // ----- runs of a client program -----

  /** Engine_open calls init whether or not an engine comes back; Engine_close always calls deinit. */
  datatype Action = Open(succeeds: bool) | Close

  function Calls(acts: seq<Action>): seq<Call> {
    if acts == [] then [] else Calls(acts[..|acts| - 1]) + [if acts[|acts| - 1].Open? then Init else Deinit]
  }

  /** Engines open after the run. */
  function OpenEngines(acts: seq<Action>): int {
    if acts == [] then 0
    else OpenEngines(acts[..|acts| - 1]) +
         match acts[|acts| - 1]
         case Open(succeeds) => (if succeeds then 1 else 0)
         case Close => -1
  }

  /** Only open engines are closed. */
  predicate Sensible(acts: seq<Action>) {
    acts != [] ==>
      Sensible(acts[..|acts| - 1]) && (acts[|acts| - 1].Close? ==> OpenEngines(acts[..|acts| - 1]) > 0)
  }

  /** At every moment of the run, whoever has an engine has a transport. */
  predicate NeverCutOff(acts: seq<Action>) {
    && (OpenEngines(acts) > 0 ==> Up(Play(Calls(acts)).log))
    && (acts != [] ==> NeverCutOff(acts[..|acts| - 1]))
  }

  /** No engine is closed while another is open. */
  predicate ClosesTheOnlyOne(acts: seq<Action>) {
    acts != [] ==>
      ClosesTheOnlyOne(acts[..|acts| - 1]) && (acts[|acts| - 1].Close? ==> OpenEngines(acts[..|acts| - 1]) == 1)
  }

  /** In a run without an overlapping close, the count is positive while there is an engine, and never out of range. */
  lemma {:induction false} OneAtATime(acts: seq<Action>)
    requires Sensible(acts) && ClosesTheOnlyOne(acts)
    ensures var s := Play(Calls(acts));
      && OpenEngines(acts) >= 0
      && (s.count == 0 || s.count == 1)
      && (s.count == 1 <==> Up(s.log))
      && (OpenEngines(acts) > 0 ==> s.count == 1)
    ensures NeverCutOff(acts)
  {
    if acts != [] {
      var front := acts[..|acts| - 1];
      OneAtATime(front);
      CallsStep(acts);
    }
  }

  lemma CallsStep(acts: seq<Action>)
    requires acts != []
    ensures var s := Play(Calls(acts[..|acts| - 1]));
      Play(Calls(acts)) == if acts[|acts| - 1].Open? then AfterInit(s) else AfterDeinit(s)
  {
    var cs := Calls(acts);
    assert cs[..|cs| - 1] == Calls(acts[..|acts| - 1]);
  }

  /**
   * A program is never cut off from an engine it has open exactly when it never closes an engine while it has another:
   * init does not count the second opener, so the first close tears the transport down under the other engine.
   */
  lemma {:induction false} NeverCutOffIff(acts: seq<Action>)
    requires Sensible(acts)
    ensures NeverCutOff(acts) <==> ClosesTheOnlyOne(acts)
  {
    if acts != [] {
      var front := acts[..|acts| - 1];
      NeverCutOffIff(front);
      if ClosesTheOnlyOne(acts) {
        OneAtATime(acts);
      } else if ClosesTheOnlyOne(front) {
        OneAtATime(front);
        CallsStep(acts);
        assert OpenEngines(acts) > 0 && !Up(Play(Calls(acts)).log);
      }
    }
  }

  /** Two opens and two closes leave the count below zero, so that of the next two opens each sets the transport up. */
  lemma BelowZero()
    ensures var s := AfterDeinit(AfterDeinit(AfterInit(AfterInit(State(0, [])))));
      && s == State(-1, [SetUp, TornDown, TornDown])
      && AfterInit(s) == State(0, [SetUp, TornDown, TornDown, SetUp])
      && AfterInit(AfterInit(s)) == State(1, [SetUp, TornDown, TornDown, SetUp, SetUp])
      && AfterInit(AfterInit(AfterInit(s))) == AfterInit(AfterInit(s))
  {
    assert AfterInit(State(0, [])) == State(1, [SetUp]);
    assert AfterDeinit(State(1, [SetUp])) == State(0, [SetUp] + [TornDown]);
  }

  /** The shortest such run: open, open, close. */
  lemma OpenOpenClose()
    ensures var run := [Open(true), Open(true), Close];
      Sensible(run) && OpenEngines(run) == 1 && !Up(Play(Calls(run)).log)
  {
    var run := [Open(true), Open(true), Close];
    var two, one := run[..2], run[..2][..1];
    assert two == [Open(true), Open(true)] && one == [Open(true)] && one[..0] == [];
    assert OpenEngines(one) == 1 && OpenEngines(two) == 2;
    assert Sensible(one) && Sensible(two);
    CallsStep(one);
    CallsStep(two);
    CallsStep(run);
  }
}
