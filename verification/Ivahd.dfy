/**
 * Use counting of the video accelerator (main.c) by the pool of RPC workers: the two functions as they run,
 * and all interleavings of any number of workers at the grain of single memory accesses.
 */
module Ivahd {
  /** HSDIVDER_CLKOUT2_DIV in the divider register. */
  const FIELD: bv32 := 0x0000_011f
  const SLOW: bv32 := 0x010e
  const FAST: bv32 := 0x0007

  function WithField(reg: bv32, val: bv32): bv32 {
    (reg & !FIELD) | val
  }

  lemma FieldOnly(reg: bv32, val: bv32)
    requires val & FIELD == val
    ensures WithField(reg, val) & FIELD == val
    ensures WithField(reg, val) & !FIELD == reg & !FIELD
  {
  }

  predicate KnownOpp(opp: int) {
    opp == 0 || opp == 50 || opp == 100
  }

  function OppValue(opp: int): bv32
    requires KnownOpp(opp)
  {
    if opp == 0 then SLOW else if opp == 50 then 0x000e else FAST
  }

  /** The register after set_ivahd_opp; an unknown operating point changes nothing. */
  function AtOpp(reg: bv32, opp: int): bv32 {
    if KnownOpp(opp) then WithField(reg, OppValue(opp)) else reg
  }

  /** The operating points in bits: 0 is 0x10e, 50 is 0x00e, 100 is 0x007, and no bit outside 0x11f changes. */
  lemma SlowBits(reg: bv32, out: bv32)
    requires out == AtOpp(reg, 0)
    ensures out & 0x11f == 0x10e && out & !0x11f == reg & !0x11f
  {
    FieldOnly(reg, 0x10e);
  }

  lemma HalfBits(reg: bv32, out: bv32)
    requires out == AtOpp(reg, 50)
    ensures out & 0x11f == 0x00e && out & !0x11f == reg & !0x11f
  {
    FieldOnly(reg, 0x00e);
  }

  lemma FastBits(reg: bv32, out: bv32)
    requires out == AtOpp(reg, 100)
    ensures out & 0x11f == 0x007 && out & !0x11f == reg & !0x11f
  {
    FieldOnly(reg, 0x007);
  }

  class Accelerator {
    var useCnt: int
    var divider: bv32

    method SetOpp(opp: int)
      modifies `divider
      ensures divider == AtOpp(old(divider), opp)
      ensures opp != 0 && opp != 50 && opp != 100 ==> divider == old(divider)
    {
      var val: bv32;
      match opp {
        case 0 => val := 0x010e;
        case 50 => val := 0x000e;
        case 100 => val := 0x0007;
        case _ => return;
      }
      assert val == OppValue(opp);
      divider := WithField(divider, val);
    }

    method Acquire()
      modifies this
      ensures useCnt == old(useCnt) + 1
      ensures old(useCnt) == 0 ==> divider == AtOpp(old(divider), 100)
      ensures old(useCnt) == 0 ==> divider & 0x11f == 0x007 && divider & !0x11f == old(divider) & !0x11f
      ensures old(useCnt) != 0 ==> divider == old(divider)
    {
      useCnt := useCnt + 1;
      if useCnt == 1 {
        SetOpp(100);
        FastBits(old(divider), divider);
      }
    }

    method Release()
      modifies this
      ensures useCnt == old(useCnt) - 1
      ensures old(useCnt) == 1 ==> divider == AtOpp(old(divider), 0)
      ensures old(useCnt) == 1 ==> divider & 0x11f == 0x10e && divider & !0x11f == old(divider) & !0x11f
      ensures old(useCnt) != 1 ==> divider == old(divider)
    {
      var was := useCnt;
      useCnt := useCnt - 1;
      if was == 1 {
        SetOpp(0);
        SlowBits(old(divider), divider);
      }
    }
  }

  // ----- start-up -----

  datatype Processor = MPU | SysM3

  datatype Boot = SlowClock | IpcStarted | Tried(proc: Processor) | Attached(proc: Processor) | ServerStarted

  /** Ipc_attach, tried again until it does not fail; `failures` is how often it does. */
  method Attach(proc: Processor, failures: nat) returns (log: seq<Boot>)
    ensures log == seq(failures + 1, _ => Tried(proc)) + [Attached(proc)]
  {
    log := [Tried(proc)];
    var failed := 0;
    while failed < failures
      invariant failed <= failures && log == seq(failed + 1, _ => Tried(proc))
    {
      log := log + [Tried(proc)];
      failed := failed + 1;
    }
    log := log + [Attached(proc)];
  }

  /** platform_init behind its first statement; `status` is what Ipc_start answers. */
  method StartServer(status: int, host: nat, sys: nat) returns (log: seq<Boot>)
    ensures ServerStarted in log <==> status >= 0
    ensures forall i :: 0 <= i < |log| && log[i] == ServerStarted ==>
      SlowClock in log[..i] && Attached(MPU) in log[..i] && Attached(SysM3) in log[..i]
  {
    log := [SlowClock, IpcStarted];
    if status < 0 {
      return;
    }
    var toHost := Attach(MPU, host);
    var toSys := Attach(SysM3, sys);
    ghost var before := log + toHost + toSys;
    log := log + toHost + toSys + [ServerStarted];
    assert before[0] == SlowClock;
    assert before[2 + host + 1] == Attached(MPU);
    assert before[|before| - 1] == Attached(SysM3);
    assert ServerStarted !in before;
    assert log[..|before|] == before && log[|before|] == ServerStarted;
  }

  /** platform_init; `host` and `sys` are how often attaching fails. */
  method PlatformInit(acc: Accelerator, status: int, host: nat, sys: nat) returns (log: seq<Boot>)
    modifies acc`divider
    ensures acc.divider == AtOpp(old(acc.divider), 0)
    ensures acc.divider & 0x11f == 0x10e && acc.divider & !0x11f == old(acc.divider) & !0x11f
    ensures ServerStarted in log <==> status >= 0
    ensures forall i :: 0 <= i < |log| && log[i] == ServerStarted ==>
      SlowClock in log[..i] && Attached(MPU) in log[..i] && Attached(SysM3) in log[..i]
  {
    acc.SetOpp(0);
    SlowBits(old(acc.divider), acc.divider);
    log := StartServer(status, host, sys);
  }

  // ----- interleavings -----

  /** The register as its field and its other bits. */
  datatype Reg = Reg(rest: bv32, field: bv32)

  /** The field is 0x11f (PartsAre). */
  function Parts(word: bv32): Reg {
    Reg(word & !FIELD, word & FIELD)
  }

  lemma PartsAre(word: bv32)
    ensures Parts(word) == Reg(word & !0x11f, word & 0x11f)
  {
  }

  /** Writing the field changes that part alone. */
  lemma WithFieldParts(word: bv32, val: bv32)
    requires val & FIELD == val
    ensures Parts(WithField(word, val)) == Reg(Parts(word).rest, val)
  {
    FieldOnly(word, val);
  }

  /** What set_ivahd_opp makes of the parts. */
  lemma FastParts(word: bv32)
    ensures Parts(AtOpp(word, 100)) == Reg(Parts(word).rest, FAST)
  {
    WithFieldParts(word, FAST);
  }

  lemma SlowParts(word: bv32)
    ensures Parts(AtOpp(word, 0)) == Reg(Parts(word).rest, SLOW)
  {
    WithFieldParts(word, SLOW);
  }

  /** Where a worker is. The A states are inside ivahd_acquire, the R states inside ivahd_release. */
  datatype PC =
    | Idle
    | A1            // interrupts off: about to read the count
    | A1W(cnt: int) // about to write it back, raised
    | A2            // the first user: about to read the register
    | A3(val: Reg) // about to write it back
    | A4            // about to restore interrupts
    | Busy          // in VIDDEC3_process
    | R1
    | R1W(cnt: int) // about to write it back, lowered
    | R2
    | R3(val: Reg)
    | R4

  /** `masker` is the worker that has switched interrupts off, or |pcs| when they are on. */
  datatype State = State(useCnt: int, divider: Reg, masker: nat, pcs: seq<PC>)

  /** A worker can be preempted only while interrupts are on. */
  predicate Enabled(s: State, i: nat) {
    i < |s.pcs| && (s.masker == |s.pcs| || s.masker == i)
  }

  predicate Unmasked(s: State) {
    s.masker == |s.pcs|
  }

  /** The next memory access of worker i. */
  function Next(s: State, i: nat): State
    requires i < |s.pcs|
  {
    match s.pcs[i]
    case Idle => s.(masker := i, pcs := s.pcs[i := A1])
    case A1 => s.(pcs := s.pcs[i := A1W(s.useCnt)])
    case A1W(cnt) => s.(useCnt := cnt + 1, pcs := s.pcs[i := if cnt + 1 == 1 then A2 else A4])
    case A2 => s.(pcs := s.pcs[i := A3(s.divider)])
    case A3(val) => s.(divider := val.(field := FAST), pcs := s.pcs[i := A4])
    case A4 => s.(masker := |s.pcs|, pcs := s.pcs[i := Busy])
    case Busy => s.(masker := i, pcs := s.pcs[i := R1])
    case R1 => s.(pcs := s.pcs[i := R1W(s.useCnt)])
    case R1W(cnt) => s.(useCnt := cnt - 1, pcs := s.pcs[i := if cnt == 1 then R2 else R4])
    case R2 => s.(pcs := s.pcs[i := R3(s.divider)])
    case R3(val) => s.(divider := val.(field := SLOW), pcs := s.pcs[i := R4])
    case R4 => s.(masker := |s.pcs|, pcs := s.pcs[i := Idle])
  }

  /** n idle workers once platform_init has set the slow clock; PlatformInit starts no server before that. */
  function Start(n: nat, rest: bv32): State {
    State(0, Reg(rest, SLOW), n, seq(n, _ => Idle))
  }

  /** What PlatformInit leaves in the register. */
  lemma InitialDivider(word: bv32)
    ensures Start(0, word & !0x11f).divider == Reg(word & !0x11f, 0x10e) == Parts(AtOpp(word, 0))
  {
    SlowParts(word);
  }

  /** The state after a schedule; a worker that is scheduled while it cannot run does nothing. */
  function Play(s: State, schedule: seq<nat>): State {
    if schedule == [] then s
    else
      var t, i := Play(s, schedule[..|schedule| - 1]), schedule[|schedule| - 1];
      if Enabled(t, i) then Next(t, i) else t
  }

  /** Has the worker raised the count and not yet lowered it? */
  predicate Counted(p: PC) {
    p.A2? || p.A3? || p.A4? || p.Busy? || p.R1? || p.R1W?
  }

  function Users(pcs: seq<PC>): nat {
    if pcs == [] then 0 else Users(pcs[..|pcs| - 1]) + if Counted(pcs[|pcs| - 1]) then 1 else 0
  }

  lemma {:induction false} UsersUpdate(pcs: seq<PC>, i: nat, p: PC)
    requires i < |pcs|
    ensures Users(pcs[i := p]) == Users(pcs) - (if Counted(pcs[i]) then 1 else 0) + (if Counted(p) then 1 else 0)
    decreases |pcs|
  {
    var n := |pcs| - 1;
    if i == n {
      assert pcs[i := p][..n] == pcs[..n];
    } else {
      assert pcs[i := p][..n] == pcs[..n][i := p];
      UsersUpdate(pcs[..n], i, p);
    }
  }

  lemma {:induction false} UserIsCounted(pcs: seq<PC>, i: nat)
    requires i < |pcs| && Counted(pcs[i])
    ensures Users(pcs) > 0
    decreases |pcs|
  {
    if i < |pcs| - 1 {
      UserIsCounted(pcs[..|pcs| - 1], i);
    }
  }

  predicate Outside(p: PC) {
    p.Idle? || p.Busy?
  }

  /** The register value that goes with a count; the bits outside the field are `rest`. */
  function DividerFor(rest: bv32, users: int): Reg {
    Reg(rest, if users > 0 then FAST else SLOW)
  }

  /**
   * Only the worker that masks interrupts is inside a function; the count is exact; the register goes with the
   * count except where the masker has moved the count between 0 and 1 and not yet written the register.
   */
  ghost predicate Inv(s: State, rest: bv32) {
    && s.masker <= |s.pcs|
    && (forall i :: 0 <= i < |s.pcs| && i != s.masker ==> Outside(s.pcs[i]))
    && s.useCnt == Users(s.pcs)
    && (Unmasked(s) ==> s.divider == DividerFor(rest, s.useCnt))
    && (!Unmasked(s) ==>
          match s.pcs[s.masker]
          case Idle => false
          case Busy => false
          case A1W(cnt) => cnt == s.useCnt && s.divider == DividerFor(rest, s.useCnt)
          case R1W(cnt) => cnt == s.useCnt && s.divider == DividerFor(rest, s.useCnt)
          case A2 => s.useCnt == 1 && s.divider == Reg(rest, SLOW)
          case A3(val) => s.useCnt == 1 && s.divider == Reg(rest, SLOW) && val == s.divider
          case R2 => s.useCnt == 0 && s.divider == Reg(rest, FAST)
          case R3(val) => s.useCnt == 0 && s.divider == Reg(rest, FAST) && val == s.divider
          case _ => s.divider == DividerFor(rest, s.useCnt))
  }

  lemma StepKeepsInv(s: State, i: nat, rest: bv32)
    requires Inv(s, rest) && Enabled(s, i)
    ensures Inv(Next(s, i), rest)
  {
    var t := Next(s, i);
    UsersUpdate(s.pcs, i, t.pcs[i]);
    if Counted(s.pcs[i]) {
      UserIsCounted(s.pcs, i);
    }
  }

  lemma {:induction false} NobodyCounted(n: nat)
    ensures Users(seq(n, _ => Idle)) == 0
  {
    if n > 0 {
      NobodyCounted(n - 1);
      assert seq(n, _ => Idle)[..n - 1] == seq(n - 1, _ => Idle);
    }
  }

  lemma {:induction false} RunKeepsInv(n: nat, rest: bv32, schedule: seq<nat>)
    ensures Inv(Play(Start(n, rest), schedule), rest)
    ensures |Play(Start(n, rest), schedule).pcs| == n
  {
    if schedule == [] {
      NobodyCounted(n);
    } else {
      var front, i := schedule[..|schedule| - 1], schedule[|schedule| - 1];
      RunKeepsInv(n, rest, front);
      var t := Play(Start(n, rest), front);
      if Enabled(t, i) {
        StepKeepsInv(t, i, rest);
      }
    }
  }

  function BusyWorkers(pcs: seq<PC>): set<nat> {
    set i | 0 <= i < |pcs| && pcs[i].Busy?
  }

  lemma {:induction false} UsersAreBusy(pcs: seq<PC>)
    requires forall i :: 0 <= i < |pcs| ==> Outside(pcs[i])
    ensures Users(pcs) == |BusyWorkers(pcs)|
  {
    if pcs != [] {
      var n := |pcs| - 1;
      UsersAreBusy(pcs[..n]);
      assert BusyWorkers(pcs) == BusyWorkers(pcs[..n]) + if pcs[n].Busy? then {n} else {};
    }
  }

  /**
   * Whenever interrupts are on: the count is the number of workers between acquire and release, the field says fast
   * exactly when there is one, and no other bit of the register has changed.
   */
  lemma CountAndClockAgree(n: nat, rest: bv32, schedule: seq<nat>)
    ensures var s := Play(Start(n, rest), schedule);
      Unmasked(s) ==>
        && s.useCnt == |BusyWorkers(s.pcs)|
        && s.divider == Reg(rest, if BusyWorkers(s.pcs) != {} then 0x007 else 0x10e)
  {
    RunKeepsInv(n, rest, schedule);
    var s := Play(Start(n, rest), schedule);
    if Unmasked(s) {
      UsersAreBusy(s.pcs);
    }
  }

  /** A codec never works at the slow clock, not even while other workers are in the middle of acquire or release. */
  lemma BusyMeansFast(n: nat, rest: bv32, schedule: seq<nat>, i: nat)
    ensures var s := Play(Start(n, rest), schedule);
      i < |s.pcs| && s.pcs[i].Busy? ==> s.divider == Reg(rest, 0x007)
  {
    RunKeepsInv(n, rest, schedule);
    var s := Play(Start(n, rest), schedule);
    if i < |s.pcs| && s.pcs[i].Busy? {
      UserIsCounted(s.pcs, i);
      if !Unmasked(s) && Counted(s.pcs[s.masker]) {
        TwoUsers(s.pcs, i, s.masker);
      }
    }
  }

  lemma {:induction false} TwoUsers(pcs: seq<PC>, i: nat, j: nat)
    requires i < |pcs| && j < |pcs| && i != j && Counted(pcs[i]) && Counted(pcs[j])
    ensures Users(pcs) >= 2
    decreases |pcs|
  {
    var n := |pcs| - 1;
    if i < n && j < n {
      TwoUsers(pcs[..n], i, j);
    } else {
      UserIsCounted(pcs[..n], if i < n then i else j);
    }
  }

  // ----- the machine and the functions -----

  function RunAlone(s: State, i: nat, steps: nat): State
    requires i < |s.pcs|
    ensures |RunAlone(s, i, steps).pcs| == |s.pcs|
  {
    if steps == 0 then s else Next(RunAlone(s, i, steps - 1), i)
  }

  /** Left alone, a worker's passage through ivahd_acquire has the effect that Accelerator.Acquire ensures. */
  lemma AcquireAsOne(s: State, i: nat, word: bv32)
    requires Unmasked(s) && i < |s.pcs| && s.pcs[i].Idle? && s.divider == Parts(word)
    ensures RunAlone(s, i, if s.useCnt == 0 then 6 else 4)
      == s.(useCnt := s.useCnt + 1, pcs := s.pcs[i := Busy],
            divider := Parts(if s.useCnt == 0 then AtOpp(word, 100) else word))
  {
    FastParts(word);
    var t := RunAlone(s, i, 3);
    assert RunAlone(s, i, 1).pcs[i] == A1;
    assert RunAlone(s, i, 2).pcs[i] == A1W(s.useCnt);
    if s.useCnt == 0 {
      assert t.pcs[i] == A2;
      assert RunAlone(s, i, 4).pcs[i] == A3(s.divider);
      assert RunAlone(s, i, 5).pcs[i] == A4;
    } else {
      assert t.pcs[i] == A4;
    }
  }

  lemma ReleaseAsOne(s: State, i: nat, word: bv32)
    requires Unmasked(s) && i < |s.pcs| && s.pcs[i].Busy? && s.divider == Parts(word)
    ensures RunAlone(s, i, if s.useCnt == 1 then 6 else 4)
      == s.(useCnt := s.useCnt - 1, pcs := s.pcs[i := Idle],
            divider := Parts(if s.useCnt == 1 then AtOpp(word, 0) else word))
  {
    SlowParts(word);
    var t := RunAlone(s, i, 3);
    assert RunAlone(s, i, 1).pcs[i] == R1;
    assert RunAlone(s, i, 2).pcs[i] == R1W(s.useCnt);
    if s.useCnt == 1 {
      assert t.pcs[i] == R2;
      assert RunAlone(s, i, 4).pcs[i] == R3(s.divider);
      assert RunAlone(s, i, 5).pcs[i] == R4;
    } else {
      assert t.pcs[i] == R4;
    }
  }

  /** Were interrupts left on, three steps of one worker and four of another would start a codec at the slow clock. */
  lemma MaskingNeeded(rest: bv32)
    ensures var s := Next(Next(Next(Next(Next(Next(Next(Start(2, rest), 0), 0), 0), 1), 1), 1), 1);
      s.pcs[1].Busy? && s.divider == Reg(rest, 0x10e)
  {
    var a := Next(Next(Next(Start(2, rest), 0), 0), 0);
    assert a.pcs[0] == A2 && a.useCnt == 1;
    var b := Next(Next(Next(a, 1), 1), 1);
    assert b.pcs[1] == A4;
  }

  /** And two workers that both read the count before either writes it would be counted as one. */
  lemma CountLost(rest: bv32)
    ensures var s := Next(Next(Next(Next(Next(Next(Start(2, rest), 0), 0), 1), 1), 0), 1);
      s.useCnt == 1 && Users(s.pcs) == 2
  {
    var a := Next(Next(Next(Next(Start(2, rest), 0), 0), 1), 1);
    assert a.pcs[0] == A1W(0) && a.pcs[1] == A1W(0);
    var s := Next(Next(a, 0), 1);
    assert s.pcs == [A2, A2];
    assert Users(s.pcs[..1]) == 1 by { assert s.pcs[..1][..0] == []; }
  }
}
