/** The decode loop of test.c: who owns which output buffer, against any codec that keeps to its contract. */
module Decoder {
  import opened BufferPool

  // ----- zero-terminated ID arrays -----

  /** The IDs before the first zero. */
  function Listed(a: seq<Id>): (ids: seq<Id>)
    ensures |ids| <= |a| && NO_ID !in ids
    ensures forall i :: 0 <= i < |ids| ==> a[i] == ids[i]
    ensures |ids| < |a| ==> a[|ids|] == NO_ID
  {
    if a == [] || a[0] == NO_ID then [] else [a[0]] + Listed(a[1..])
  }

  lemma ListedIs(a: seq<Id>, ids: seq<Id>)
    requires |ids| < |a| && NO_ID !in ids && a[|ids|] == NO_ID
    requires forall i :: 0 <= i < |ids| ==> a[i] == ids[i]
    ensures Listed(a) == ids
  {
    var l := Listed(a);
    assert |l| == |ids|;
  }

  lemma {:induction false} DistinctCardinality(s: seq<Id>)
    requires Distinct(s)
    ensures |Elements(s)| == |s|
  {
    if s != [] {
      var n := |s| - 1;
      DistinctCardinality(s[..n]);
      ElementsStep(s, n);
      assert s[..n + 1] == s;
    }
  }

  lemma SubsetCardinality(A: set<Id>, B: set<Id>)
    requires A <= B
    ensures |A| <= |B|
  {
    assert B == A + (B - A);
  }

  /** Different IDs of fewer holders than the array has entries leave a zero in it, so that a scan stops inside. */
  lemma ScanStopsInside(a: seq<Id>, holders: set<Id>)
    requires Distinct(Listed(a)) && Elements(Listed(a)) <= holders && |holders| < |a|
    ensures |Listed(a)| < |a|
  {
    DistinctCardinality(Listed(a));
    SubsetCardinality(Elements(Listed(a)), holders);
  }

  /** Where a scan stands: at an ID of the list, or at the zero behind it. */
  lemma ScanAt(a: seq<Id>, i: nat)
    requires i <= |Listed(a)| < |a|
    ensures a[i] != NO_ID <==> i < |Listed(a)|
    ensures i < |Listed(a)| ==> a[i] == Listed(a)[i]
  {
  }

  // ----- the codec -----

  /** What a codec chooses to do in one process call. */
  datatype Answer = Answer(err: int, outputs: seq<Id>, freed: seq<Id>)

  /** It reports only buffers it holds, each once. */
  predicate Honest(a: Answer, holders: set<Id>) {
    && (forall i :: 0 <= i < |a.outputs| ==> a.outputs[i] in holders)
    && (forall i :: 0 <= i < |a.freed| ==> a.freed[i] in holders)
    && (forall i, j :: 0 <= i < j < |a.outputs| ==> a.outputs[i] != a.outputs[j])
    && (forall i, j :: 0 <= i < j < |a.freed| ==> a.freed[i] != a.freed[j])
  }

  /** In plain terms. */
  lemma HonestMeans(a: Answer, holders: set<Id>)
    ensures Honest(a, holders) <==>
      && (forall i :: 0 <= i < |a.outputs| ==> a.outputs[i] in holders && a.outputs[i] !in a.outputs[..i])
      && (forall i :: 0 <= i < |a.freed| ==> a.freed[i] in holders && a.freed[i] !in a.freed[..i])
  {
    if forall i :: 0 <= i < |a.outputs| ==> a.outputs[i] !in a.outputs[..i] {
      OnceMeansDistinct(a.outputs);
    }
    if forall i :: 0 <= i < |a.freed| ==> a.freed[i] !in a.freed[..i] {
      OnceMeansDistinct(a.freed);
    }
  }

  lemma OnceMeansDistinct(s: seq<Id>)
    requires forall i :: 0 <= i < |s| ==> s[i] !in s[..i]
    ensures forall i, j :: 0 <= i < j < |s| ==> s[i] != s[j]
  {
    forall i, j | 0 <= i < j < |s| ensures s[i] != s[j] {
      assert s[..j][i] == s[i];
    }
  }

  /** What the program gets to see of it: an answer that breaks the contract is replaced by one that reports nothing. */
  function Permitted(a: Answer, holders: set<Id>): Answer {
    if Honest(a, holders) then a else Answer(a.err, [], [])
  }

  /** Honest, in terms of sets. */
  ghost predicate Fair(p: Answer, holders: set<Id>) {
    && Distinct(p.outputs) && Elements(p.outputs) <= holders
    && Distinct(p.freed) && Elements(p.freed) <= holders
  }

  lemma PermittedIsHonest(a: Answer, holders: set<Id>)
    ensures Fair(Permitted(a, holders), holders)
    ensures |Permitted(a, holders).outputs| <= |holders| && |Permitted(a, holders).freed| <= |holders|
  {
    var p := Permitted(a, holders);
    DistinctCardinality(p.outputs);
    DistinctCardinality(p.freed);
    SubsetCardinality(Elements(p.outputs), holders);
    SubsetCardinality(Elements(p.freed), holders);
  }

  class Codec {
    var held: set<Id>
    const outputId: array<Id>
    const freeBufId: array<Id>

    ghost predicate Valid()
      reads this
    {
      && outputId != freeBufId && outputId.Length == freeBufId.Length == MAX_IO_BUFFERS
      && NO_ID !in held && |held| < MAX_IO_BUFFERS
    }

    constructor ()
      ensures Valid() && held == {} && fresh(outputId) && fresh(freeBufId)
      ensures outputId.Length == freeBufId.Length == 20
    {
      held := {};
      outputId := new Id[MAX_IO_BUFFERS](_ => NO_ID);
      freeBufId := new Id[MAX_IO_BUFFERS](_ => NO_ID);
    }

    method Report(a: array<Id>, ids: seq<Id>)
      requires a.Length == MAX_IO_BUFFERS && |ids| < MAX_IO_BUFFERS && NO_ID !in ids
      modifies a
      ensures Listed(a[..]) == ids
    {
      var i := 0;
      while i < a.Length
        invariant i <= a.Length
        invariant forall j :: 0 <= j < i ==> a[j] == if j < |ids| then ids[j] else NO_ID
      {
        a[i] := if i < |ids| then ids[i] else NO_ID;
        i := i + 1;
      }
      ListedIs(a[..], ids);
    }

    /** VIDDEC3_process with the buffer `id`. */
    method Process(id: Id, answer: Answer) returns (err: int)
      requires Valid() && id != NO_ID && id !in held && |held + {id}| < MAX_IO_BUFFERS
      modifies this, outputId, freeBufId
      ensures Valid() && err == answer.err
      ensures err != 0 ==> held == old(held) + {id}
      ensures err == 0 ==>
        var holders := old(held) + {id};
        && held == holders - Elements(Permitted(answer, holders).freed)
        && Listed(outputId[..]) == Permitted(answer, holders).outputs
        && Listed(freeBufId[..]) == Permitted(answer, holders).freed
    {
      held := held + {id};
      err := answer.err;
      if err != 0 {
        return;
      }
      var a := Permitted(answer, held);
      PermittedIsHonest(answer, held);
      Report(outputId, a.outputs);
      Report(freeBufId, a.freed);
      SubsetCardinality(held - Elements(a.freed), held);
      held := held - Elements(a.freed);
    }
  }

  // ----- what the loop computes -----

  /** Between frames: the free buffers in list order, what the codec holds, what has been shown. */
  datatype Desk = Desk(free: seq<Id>, held: set<Id>, shown: seq<Id>)

  /** What the codec reports is carried out. */
  function Carried(d: Desk, p: Answer): Desk {
    Desk(Pushed(p.freed, d.free), d.held - Elements(p.freed), d.shown + p.outputs)
  }

  /** The codec is called with buffer `id`; if that goes well its reports are carried out. */
  function Processed(d: Desk, id: Id, a: Answer): Desk {
    var d' := d.(held := d.held + {id});
    if a.err != 0 then d' else Carried(d', Permitted(a, d'.held))
  }

  function Turn(d: Desk, a: Answer): Desk
    requires d.free != []
  {
    Processed(d.(free := d.free[1..]), d.free[0], a)
  }

  datatype Outcome = EndOfStream | OutOfBuffers | CodecError

  function AnswerAt(answers: seq<Answer>, call: nat): Answer {
    if call < |answers| then answers[call] else Answer(0, [], [])
  }

  /** From call number `call` on. After the last input the codec is called once more, without one. */
  function Decoded(d: Desk, inputs: seq<nat>, answers: seq<Answer>, call: nat): (Outcome, Desk)
    decreases |inputs| - call
  {
    if d.free == [] then (OutOfBuffers, d)
    else
      var a := AnswerAt(answers, call);
      if a.err != 0 then (CodecError, Turn(d, a))
      else if call < |inputs| && inputs[call] != 0 then Decoded(Turn(d, a), inputs, answers, call + 1)
      else (EndOfStream, Turn(d, a))
  }

  /** Each buffer of `all` is either free, once, or held. */
  ghost predicate Orderly(d: Desk, all: set<Id>) {
    Distinct(d.free) && Elements(d.free) + d.held == all && Elements(d.free) !! d.held
  }

  lemma {:induction false} PushedDistinct(ids: seq<Id>, free: seq<Id>)
    requires Distinct(ids) && Distinct(free) && Elements(ids) !! Elements(free)
    ensures Distinct(Pushed(ids, free)) && Elements(Pushed(ids, free)) == Elements(ids) + Elements(free)
  {
    if ids != [] {
      var n := |ids| - 1;
      ElementsStep(ids, n);
      assert ids[..n + 1] == ids;
      PushedDistinct(ids[..n], free);
      ElementsCons(ids[n], Pushed(ids[..n], free));
    }
  }

  lemma ElementsCons(x: Id, s: seq<Id>)
    ensures Elements([x] + s) == {x} + Elements(s)
    ensures Distinct(s) && x !in Elements(s) ==> Distinct([x] + s)
  {
    var r := [x] + s;
    assert r[0] == x;
    forall y | y in Elements(s) ensures y in Elements(r) {
      var i :| 0 <= i < |s| && s[i] == y;
      assert r[i + 1] == y;
    }
    if Distinct(s) && x !in Elements(s) {
      forall i, j | 0 <= i < j < |r| ensures r[i] != r[j] {
        assert r[j] == s[j - 1] && s[j - 1] in Elements(s);
        assert i > 0 ==> r[i] == s[i - 1];
      }
    }
  }

  /** The first free buffer goes to the codec. */
  lemma TakenIsOrderly(d: Desk, all: set<Id>)
    requires Orderly(d, all) && d.free != []
    ensures Orderly(Desk(d.free[1..], d.held + {d.free[0]}, d.shown), all)
  {
    var id, rest := d.free[0], d.free[1..];
    ElementsCons(id, rest);
    assert [id] + rest == d.free;
    forall i | 0 <= i < |rest| ensures rest[i] != id {
      assert rest[i] == d.free[i + 1];
    }
  }

  /** What the codec held comes back. */
  lemma CarriedIsOrderly(d: Desk, p: Answer, all: set<Id>)
    requires Orderly(d, all) && Distinct(p.freed) && Elements(p.freed) <= d.held
    ensures Orderly(Carried(d, p), all)
  {
    PushedDistinct(p.freed, d.free);
  }

  lemma TurnIsOrderly(d: Desk, a: Answer, all: set<Id>)
    requires Orderly(d, all) && d.free != []
    ensures Orderly(Turn(d, a), all)
  {
    TakenIsOrderly(d, all);
    if a.err == 0 {
      var d' := Desk(d.free[1..], d.held + {d.free[0]}, d.shown);
      PermittedIsHonest(a, d'.held);
      CarriedIsOrderly(d', Permitted(a, d'.held), all);
    }
  }

  /** Whatever the codec answers, no buffer is lost or doubled, and running out means that the codec has them all. */
  lemma {:induction false} DecodedIsOrderly(d: Desk, inputs: seq<nat>, answers: seq<Answer>, call: nat, all: set<Id>)
    requires Orderly(d, all)
    ensures Orderly(Decoded(d, inputs, answers, call).1, all)
    ensures Decoded(d, inputs, answers, call).0 == OutOfBuffers ==> Decoded(d, inputs, answers, call).1.held == all
    decreases |inputs| - call
  {
    if d.free != [] {
      var a := AnswerAt(answers, call);
      TurnIsOrderly(d, a, all);
      if a.err == 0 && call < |inputs| && inputs[call] != 0 {
        DecodedIsOrderly(Turn(d, a), inputs, answers, call + 1, all);
      }
    }
  }

  // ----- what is shown -----

  /** A call that goes well shows what the codec reports and takes back what it lets go of; one that does not, nothing. */
  lemma ProcessedMeans(d: Desk, id: Id, a: Answer)
    ensures var d', holders := Processed(d, id, a), d.held + {id};
      && (a.err != 0 ==> d'.shown == d.shown && d'.held == holders)
      && (a.err == 0 && Honest(a, holders) ==>
            d'.shown == d.shown + a.outputs && forall x :: x in d'.held <==> x in holders && x !in a.freed)
  {
    if a.err == 0 && Honest(a, d.held + {id}) {
      assert forall x :: x in Elements(a.freed) <==> x in a.freed;
    }
  }

  /** How many inputs there are before the first empty one. */
  function InputCount(inputs: seq<nat>): (n: nat)
    ensures n <= |inputs| && (n < |inputs| ==> inputs[n] == 0)
    ensures forall i :: 0 <= i < n ==> inputs[i] != 0
  {
    if inputs == [] || inputs[0] == 0 then 0 else 1 + InputCount(inputs[1..])
  }

  /** What the codec reports for output in calls a to b, in call order. */
  function Outputs(answers: seq<Answer>, a: nat, b: nat): seq<Id>
    requires a <= b
    decreases b - a
  {
    if a == b then [] else AnswerAt(answers, a).outputs + Outputs(answers, a + 1, b)
  }

  /** Call by call; calls without an answer report nothing. */
  lemma OutputsAre(answers: seq<Answer>, a: nat, b: nat)
    requires a < b
    ensures Outputs(answers, a, a) == []
    ensures Outputs(answers, a, b) == (if a < |answers| then answers[a].outputs else []) + Outputs(answers, a + 1, b)
  {
  }

  /** The codec keeps to its contract in every call that is made, from call number `call` on. */
  ghost predicate HonestFrom(free: seq<Id>, held: set<Id>, inputs: seq<nat>, answers: seq<Answer>, call: nat)
    decreases |inputs| - call
  {
    free != [] && AnswerAt(answers, call).err == 0 ==>
      var a, holders := AnswerAt(answers, call), held + {free[0]};
      && Honest(a, holders)
      && (call < |inputs| && inputs[call] != 0 ==>
            HonestFrom(Pushed(a.freed, free[1..]), holders - Elements(a.freed), inputs, answers, call + 1))
  }

  /** For instance, when it never reports anything. */
  lemma {:induction false} SilentIsHonest(free: seq<Id>, held: set<Id>, inputs: seq<nat>, call: nat)
    ensures HonestFrom(free, held, inputs, [], call)
    decreases |inputs| - call
  {
    if free != [] && call < |inputs| && inputs[call] != 0 {
      assert held + {free[0]} - Elements([]) == held + {free[0]};
      SilentIsHonest(free[1..], held + {free[0]}, inputs, call + 1);
    }
  }

  /** How a run ends, after n calls that went well. */
  ghost predicate Ended(o: Outcome, inputs: seq<nat>, answers: seq<Answer>, n: nat) {
    match o
    case EndOfStream => n == InputCount(inputs) + 1
    case CodecError => n <= InputCount(inputs) && n < |answers| && answers[n].err != 0
    case OutOfBuffers => n <= InputCount(inputs)
  }

  function AfterHonest(d: Desk, a: Answer): Desk
    requires d.free != []
  {
    Desk(Pushed(a.freed, d.free[1..]), d.held + {d.free[0]} - Elements(a.freed), d.shown + a.outputs)
  }

  /** One call, when the codec keeps to its contract in it. */
  lemma TurnShows(d: Desk, a: Answer)
    requires d.free != [] && (a.err == 0 ==> Honest(a, d.held + {d.free[0]}))
    ensures |Turn(d, a).held| <= |d.held| + 1
    ensures a.err != 0 ==> Turn(d, a).shown == d.shown
    ensures a.err == 0 ==> Turn(d, a) == AfterHonest(d, a)
  {
    HeldAfterTurn(d, a);
  }

  /** A call takes one buffer at most. */
  lemma HeldAfterTurn(d: Desk, a: Answer)
    requires d.free != []
    ensures |Turn(d, a).held| <= |d.held| + 1
  {
    SubsetCardinality(Turn(d, a).held, d.held + {d.free[0]});
  }

  /** From desk d and call number `call` on, n is reached with calls that went well, and their outputs have been shown. */
  ghost predicate RunShown(r: (Outcome, Desk), d: Desk, inputs: seq<nat>, answers: seq<Answer>, call: nat, n: nat) {
    && call <= n && Ended(r.0, inputs, answers, n)
    && (forall k :: call <= k < n && k < |answers| ==> answers[k].err == 0)
    && r.1.shown == d.shown + Outputs(answers, call, n)
    && |r.1.held| <= |d.held| + (n - call) + (if r.0 == CodecError then 1 else 0)
  }

  lemma RunShownNext(r: (Outcome, Desk), d: Desk, e: Desk, inputs: seq<nat>, answers: seq<Answer>, call: nat, n: nat)
    requires RunShown(r, e, inputs, answers, call + 1, n)
    requires e.shown == d.shown + AnswerAt(answers, call).outputs && |e.held| <= |d.held| + 1
    requires AnswerAt(answers, call).err == 0
    ensures RunShown(r, d, inputs, answers, call, n)
  {
    OutputsJoined(d.shown, answers, call, n);
  }

  /** A run shows what the calls that went well reported, in call order, up to the first error or the end of the stream. */
  lemma {:induction false} DecodedShows(d: Desk, inputs: seq<nat>, answers: seq<Answer>, call: nat) returns (n: nat)
    requires call <= InputCount(inputs) && HonestFrom(d.free, d.held, inputs, answers, call)
    ensures RunShown(Decoded(d, inputs, answers, call), d, inputs, answers, call, n)
    decreases |inputs| - call
  {
    var a := AnswerAt(answers, call);
    if d.free == [] {
      n := call;
    } else if a.err != 0 {
      ErrorEnds(d, inputs, answers, call);
      n := call;
    } else if call < |inputs| && inputs[call] != 0 {
      NextCall(d, inputs, answers, call);
      n := DecodedShows(AfterHonest(d, a), inputs, answers, call + 1);
      RunShownNext(Decoded(d, inputs, answers, call), d, AfterHonest(d, a), inputs, answers, call, n);
    } else {
      LastCall(d, inputs, answers, call);
      n := call + 1;
      RunShownNext(Decoded(d, inputs, answers, call), d, AfterHonest(d, a), inputs, answers, call, n);
    }
  }

  lemma OutputsJoined(shown: seq<Id>, answers: seq<Answer>, call: nat, n: nat)
    requires call < n
    ensures shown + AnswerAt(answers, call).outputs + Outputs(answers, call + 1, n) == shown + Outputs(answers, call, n)
    ensures n == call + 1 ==> shown + AnswerAt(answers, call).outputs == shown + Outputs(answers, call, n)
  {
    if n == call + 1 {
      assert Outputs(answers, call + 1, n) == [];
    }
  }

  lemma ErrorEnds(d: Desk, inputs: seq<nat>, answers: seq<Answer>, call: nat)
    requires d.free != [] && AnswerAt(answers, call).err != 0
    ensures var r := Decoded(d, inputs, answers, call);
      r.0 == CodecError && r.1.shown == d.shown && |r.1.held| <= |d.held| + 1
  {
    TurnShows(d, AnswerAt(answers, call));
  }

  lemma NextCall(d: Desk, inputs: seq<nat>, answers: seq<Answer>, call: nat)
    requires d.free != [] && AnswerAt(answers, call).err == 0 && HonestFrom(d.free, d.held, inputs, answers, call)
    requires call <= InputCount(inputs) && call < |inputs| && inputs[call] != 0
    ensures var e := AfterHonest(d, AnswerAt(answers, call));
      && Decoded(d, inputs, answers, call) == Decoded(e, inputs, answers, call + 1)
      && HonestFrom(e.free, e.held, inputs, answers, call + 1)
      && |e.held| <= |d.held| + 1
    ensures call + 1 <= InputCount(inputs)
  {
    TurnShows(d, AnswerAt(answers, call));
  }

  lemma LastCall(d: Desk, inputs: seq<nat>, answers: seq<Answer>, call: nat)
    requires d.free != [] && AnswerAt(answers, call).err == 0 && HonestFrom(d.free, d.held, inputs, answers, call)
    requires call <= InputCount(inputs) && !(call < |inputs| && inputs[call] != 0)
    ensures var e := AfterHonest(d, AnswerAt(answers, call));
      Decoded(d, inputs, answers, call) == (EndOfStream, e) && |e.held| <= |d.held| + 1
    ensures call == InputCount(inputs)
  {
    TurnShows(d, AnswerAt(answers, call));
  }

  // ----- the loop -----

  ghost function DeskOf(pool: Pool, codec: Codec, shown: seq<Id>): Desk
    reads pool, codec
  {
    Desk(OrderOf(pool.free), codec.held, shown)
  }

  /** Every allocated buffer is in exactly one of: the free list, the codec, the caller's hand. */
  ghost predicate Partitioned(pool: Pool, held: set<Id>, hand: set<Id>)
    reads pool, pool.free
  {
    && pool.Valid()
    && pool.cells.Keys == Ids(pool.free) + held + hand
    && Ids(pool.free) !! held !! hand
  }

  lemma OnlyInList(pool: Pool, id: Id)
    requires pool.Valid() && id in pool.cells && id !in Ids(pool.free)
    ensures pool.cells[id] !in pool.free
  {
    forall i | 0 <= i < |pool.free| ensures pool.free[i].id in Ids(pool.free) {
    }
  }

  /** What the codec holds is nowhere on the list. */
  lemma HeldNotFree(pool: Pool, held: set<Id>)
    requires Partitioned(pool, held, {})
    ensures forall id :: id in held ==> id in pool.cells && pool.cells[id] !in pool.free
  {
    forall id | id in held ensures pool.cells[id] !in pool.free {
      OnlyInList(pool, id);
    }
  }

  lemma FirstTaken(was: seq<OutputBuffer>, buf: OutputBuffer, rest: seq<OutputBuffer>)
    requires was == [buf] + rest && forall i, j :: 0 <= i < j < |was| ==> was[i].id != was[j].id
    ensures Ids(was) == {buf.id} + Ids(rest) && buf.id !in Ids(rest)
    ensures OrderOf(was) == [buf.id] + OrderOf(rest)
  {
    IdsOfCons(buf, rest);
    OrderOfCons(buf, rest);
    forall i | 0 <= i < |rest| ensures rest[i].id != buf.id {
      assert rest[i] == was[i + 1] && was[0] == buf;
    }
  }

  /** The first free buffer passes into the caller's hand; there is none exactly when the codec has them all. */
  method TakeBuffer(pool: Pool, ghost held: set<Id>) returns (buf: OutputBuffer?)
    requires Partitioned(pool, held, {})
    modifies pool`head, pool`free
    ensures buf == null <==> held == pool.cells.Keys
    ensures Partitioned(pool, held, if buf == null then {} else {buf.id})
    ensures buf != null ==> buf.id in pool.cells && buf.id !in held
    ensures if buf == null then OrderOf(pool.free) == old(OrderOf(pool.free)) == []
            else old(OrderOf(pool.free)) == [buf.id] + OrderOf(pool.free)
  {
    ghost var was := pool.free;
    buf := pool.Get();
    if buf != null {
      FirstTaken(was, buf, pool.free);
    } else {
      assert Ids([]) == {};
    }
  }

  /** Passing the buffer on to the codec. */
  lemma HandToCodec(pool: Pool, held: set<Id>, id: Id)
    requires Partitioned(pool, held, {id})
    ensures Partitioned(pool, held + {id}, {})
  {
  }

  method ReleaseOne(pool: Pool, id: Id, ghost held: set<Id>, ghost hand: set<Id>)
    requires Partitioned(pool, held, {id} + hand) && id !in hand
    modifies pool`head, pool`free, pool.cells.Values
    ensures Partitioned(pool, held, hand) && pool.cells == old(pool.cells)
    ensures OrderOf(pool.free) == [id] + old(OrderOf(pool.free))
  {
    var buf := pool.cells[id];
    OnlyInList(pool, id);
    IdsOfCons(buf, pool.free);
    OrderOfCons(buf, pool.free);
    pool.Release(buf);
  }

  /** One turn of the second scan. */
  method ReleaseTurn(pool: Pool, id: Id, ghost held: set<Id>, ghost ids: seq<Id>, ghost i: nat, ghost order: seq<Id>)
    requires i < |ids| && ids[i] == id && Distinct(ids)
    requires Partitioned(pool, held, Elements(ids[i..])) && OrderOf(pool.free) == Pushed(ids[..i], order)
    modifies pool`head, pool`free, pool.cells.Values
    ensures Partitioned(pool, held, Elements(ids[i + 1..])) && pool.cells == old(pool.cells)
    ensures OrderOf(pool.free) == Pushed(ids[..i + 1], order)
  {
    ElementsTail(ids, i);
    PushedStep(ids, i, order);
    ReleaseOne(pool, id, held, Elements(ids[i + 1..]));
  }

  lemma ScanEnds(ids: seq<Id>, order: seq<Id>)
    ensures Elements(ids[0..]) == Elements(ids) && Elements(ids[|ids|..]) == {}
    ensures Pushed(ids[..0], order) == order && Pushed(ids[..|ids|], order) == Pushed(ids, order)
  {
    assert ids[|ids|..] == [] && ids[0..] == ids && ids[..0] == [] && ids[..|ids|] == ids;
  }

  /** The second scan: every buffer reported unlocked goes back on the list. */
  method ReleaseReported(pool: Pool, a: array<Id>, ghost held: set<Id>)
    requires Distinct(Listed(a[..])) && |Listed(a[..])| < a.Length
    requires var freed := Elements(Listed(a[..])); Partitioned(pool, held, freed)
    modifies pool`head, pool`free, pool.cells.Values
    ensures Partitioned(pool, held, {}) && pool.cells == old(pool.cells)
    ensures OrderOf(pool.free) == Pushed(Listed(a[..]), old(OrderOf(pool.free)))
  {
    ghost var was, ids, order := a[..], Listed(a[..]), OrderOf(pool.free);
    ScanEnds(ids, order);
    var i := 0;
    while a[i] != NO_ID
      invariant i <= |ids| && a[..] == was
      invariant pool.cells == old(pool.cells)
      invariant Partitioned(pool, held, Elements(ids[i..])) && OrderOf(pool.free) == Pushed(ids[..i], order)
      decreases |ids| - i
    {
      ScanAt(was, i);
      ReleaseTurn(pool, a[i], held, ids, i, order);
      i := i + 1;
    }
    ScanAt(was, i);
  }

  lemma ElementsTail(s: seq<Id>, i: nat)
    requires i < |s| && Distinct(s)
    ensures Elements(s[i..]) == {s[i]} + Elements(s[i + 1..])
    ensures s[i] !in Elements(s[i + 1..])
  {
    var a, b := s[i..], s[i + 1..];
    assert a[0] == s[i];
    forall x | x in Elements(b) ensures x in Elements(a) {
      var j :| 0 <= j < |b| && b[j] == x;
      assert a[j + 1] == x;
    }
    forall x | x in Elements(a) ensures x == s[i] || x in Elements(b) {
      var j :| 0 <= j < |a| && a[j] == x;
      if j > 0 { assert b[j - 1] == x; }
    }
  }

  /** Writing a buffer out; it must be one the codec still holds, not one that may be handed out again. */
  method Show(pool: Pool, id: Id, shown: seq<Id>) returns (more: seq<Id>)
    requires id in pool.cells && pool.cells[id] !in pool.free
    ensures more == shown + [id]
  {
    more := shown + [id];
  }

  /** The first scan. */
  method ShowReported(pool: Pool, a: array<Id>, shown: seq<Id>, ghost holders: set<Id>) returns (more: seq<Id>)
    requires |Listed(a[..])| < a.Length && Elements(Listed(a[..])) <= holders
    requires forall id :: id in holders ==> id in pool.cells && pool.cells[id] !in pool.free
    ensures more == shown + Listed(a[..])
  {
    ghost var ids := Listed(a[..]);
    more := shown;
    var i := 0;
    while a[i] != NO_ID
      invariant i <= |ids|
      invariant more == shown + ids[..i]
      decreases |ids| - i
    {
      assert ids[i] in Elements(ids);
      more := Show(pool, a[i], more);
      i := i + 1;
    }
    assert ids[..i] == ids;
  }

  ghost predicate Reports(codec: Codec, p: Answer)
    reads codec.outputId, codec.freeBufId
  {
    Listed(codec.outputId[..]) == p.outputs && Listed(codec.freeBufId[..]) == p.freed
  }

  lemma ScansStopInside(codec: Codec, p: Answer, holders: set<Id>)
    requires codec.Valid() && Reports(codec, p) && Fair(p, holders) && |holders| < MAX_IO_BUFFERS
    ensures |Listed(codec.outputId[..])| < codec.outputId.Length
    ensures |Listed(codec.freeBufId[..])| < codec.freeBufId.Length
  {
    ScanStopsInside(codec.outputId[..], holders);
    ScanStopsInside(codec.freeBufId[..], holders);
  }

  /** What the codec lets go of is in hand. */
  lemma LetGo(pool: Pool, holders: set<Id>, freed: set<Id>)
    requires Partitioned(pool, holders, {}) && freed <= holders
    ensures Partitioned(pool, holders - freed, freed)
  {
    assert holders - freed + freed == holders;
  }

  /** The first scan over what the codec reports. */
  method ShowOutputs(pool: Pool, codec: Codec, shown: seq<Id>, ghost holders: set<Id>, ghost p: Answer)
    returns (more: seq<Id>)
    requires codec.Valid() && Partitioned(pool, holders, {}) && |holders| < MAX_IO_BUFFERS
    requires Reports(codec, p) && Fair(p, holders)
    ensures more == shown + p.outputs
  {
    ScansStopInside(codec, p, holders);
    HeldNotFree(pool, holders);
    more := ShowReported(pool, codec.outputId, shown, holders);
  }

  /** After a call that went well: the codec's reports are carried out. */
  method CarryOut(pool: Pool, codec: Codec, shown: seq<Id>, ghost holders: set<Id>, ghost p: Answer) returns (more: seq<Id>)
    requires codec.Valid() && Partitioned(pool, holders, {}) && |holders| < MAX_IO_BUFFERS
    requires Reports(codec, p) && Fair(p, holders) && codec.held == holders - Elements(p.freed)
    modifies pool`head, pool`free, pool.cells.Values
    ensures Partitioned(pool, codec.held, {}) && pool.cells == old(pool.cells)
    ensures DeskOf(pool, codec, more) == Carried(Desk(old(OrderOf(pool.free)), holders, shown), p)
  {
    ScansStopInside(codec, p, holders);
    more := ShowOutputs(pool, codec, shown, holders, p);
    LetGo(pool, holders, Elements(p.freed));
    ReleaseReported(pool, codec.freeBufId, codec.held);
  }

  datatype Frame = Continue | Stop(outcome: Outcome)

  /** The buffer in hand passes to the codec. */
  lemma HolderCount(pool: Pool, held: set<Id>, id: Id)
    requires Partitioned(pool, held, {id}) && |pool.cells| < MAX_IO_BUFFERS
    ensures Partitioned(pool, held + {id}, {}) && |held + {id}| < MAX_IO_BUFFERS && id != NO_ID && id !in held
  {
    SubsetCardinality(held + {id}, pool.cells.Keys);
    HandToCodec(pool, held, id);
  }

  /** The codec is called with buffer `id`; p is what it reports if the call goes well. */
  method CallCodec(codec: Codec, id: Id, answer: Answer) returns (err: int, ghost p: Answer)
    requires codec.Valid() && id != NO_ID && id !in codec.held && |codec.held + {id}| < MAX_IO_BUFFERS
    modifies codec, codec.outputId, codec.freeBufId
    ensures codec.Valid() && err == answer.err && p == Permitted(answer, old(codec.held) + {id})
    ensures err != 0 ==> codec.held == old(codec.held) + {id}
    ensures err == 0 ==> codec.held == old(codec.held) + {id} - Elements(p.freed)
    ensures err == 0 ==> Reports(codec, p) && Fair(p, old(codec.held) + {id})
  {
    p := Permitted(answer, codec.held + {id});
    PermittedIsHonest(answer, codec.held + {id});
    err := codec.Process(id, answer);
  }

  /** The part of a frame between getting a buffer and the next turn. */
  method ProcessBuffer(pool: Pool, codec: Codec, id: Id, answer: Answer, shown: seq<Id>) returns (frame: Frame, more: seq<Id>)
    requires codec.Valid() && Partitioned(pool, codec.held, {id}) && |pool.cells| < MAX_IO_BUFFERS
    modifies pool`head, pool`free, pool.cells.Values, codec, codec.outputId, codec.freeBufId
    ensures codec.Valid() && Partitioned(pool, codec.held, {}) && pool.cells == old(pool.cells)
    ensures frame == if answer.err == 0 then Continue else Stop(CodecError)
    ensures DeskOf(pool, codec, more) == Processed(old(DeskOf(pool, codec, shown)), id, answer)
  {
    ghost var holders := codec.held + {id};
    var err;
    ghost var p;
    HolderCount(pool, codec.held, id);
    err, p := CallCodec(codec, id, answer);
    if err != 0 {
      return Stop(CodecError), shown;
    }
    more := CarryOut(pool, codec, shown, holders, p);
    frame := Continue;
  }

  /** What is still to come after call `inCnt`, or what has come of it if the loop is left. */
  function ToCome(frame: Frame, numBufs: int, d: Desk, inputs: seq<nat>, answers: seq<Answer>, inCnt: nat): (Outcome, Desk) {
    match frame
    case Stop(outcome) => (outcome, d)
    case Continue => if numBufs != 0 then Decoded(d, inputs, answers, inCnt) else (EndOfStream, d)
  }

  /** What a turn with buffer `id` leaves to come. */
  lemma TurnToCome(d: Desk, id: Id, rest: seq<Id>, inputs: seq<nat>, answers: seq<Answer>, inCnt: nat)
    requires d.free == [id] + rest
    ensures var a, more := AnswerAt(answers, inCnt), inCnt < |inputs| && inputs[inCnt] != 0;
      Decoded(d, inputs, answers, inCnt)
      == ToCome(if a.err == 0 then Continue else Stop(CodecError), if more then 1 else 0,
                Processed(d.(free := rest), id, a), inputs, answers, if more then inCnt + 1 else inCnt)
  {
    assert d.free[1..] == rest;
  }

  /**
   * One turn of the loop: a buffer is taken, the next input read, the codec called, and what it reports is shown and
   * taken back. No input means that the codec is called without one (numBufs is 0) and the loop ends.
   */
  method TakeTurn(pool: Pool, codec: Codec, inputs: seq<nat>, answers: seq<Answer>, shown: seq<Id>, inCnt: nat)
    returns (frame: Frame, more: seq<Id>, inCnt': nat, numBufs': int)
    requires codec.Valid() && Partitioned(pool, codec.held, {}) && |pool.cells| < MAX_IO_BUFFERS
    requires inCnt <= |inputs|
    modifies pool`head, pool`free, pool.cells.Values, codec, codec.outputId, codec.freeBufId
    ensures codec.Valid() && Partitioned(pool, codec.held, {}) && pool.cells == old(pool.cells)
    ensures (inCnt' == inCnt + 1 <= |inputs| && numBufs' == 1) || (inCnt' == inCnt && 0 <= numBufs' <= 1)
    ensures frame == Continue && inCnt' == inCnt ==> numBufs' == 0
    ensures Decoded(old(DeskOf(pool, codec, shown)), inputs, answers, inCnt)
      == ToCome(frame, numBufs', DeskOf(pool, codec, more), inputs, answers, inCnt')
    ensures old(OrderOf(pool.free)) != [] ==>
      var d := old(DeskOf(pool, codec, shown));
      && DeskOf(pool, codec, more) == Processed(d.(free := d.free[1..]), d.free[0], AnswerAt(answers, inCnt))
      && frame == if AnswerAt(answers, inCnt).err == 0 then Continue else Stop(CodecError)
  {
    more, inCnt', numBufs' := shown, inCnt, 1;
    ghost var d := DeskOf(pool, codec, shown);
    var buf := TakeBuffer(pool, codec.held);
    if buf == null {
      return Stop(OutOfBuffers), shown, inCnt, 1;
    }
    TurnToCome(d, buf.id, OrderOf(pool.free), inputs, answers, inCnt);
    var n := if inCnt < |inputs| then inputs[inCnt] else 0;
    if n != 0 {
      inCnt' := inCnt + 1;
    } else {
      numBufs' := 0;
    }
    frame, more := ProcessBuffer(pool, codec, buf.id, AnswerAt(answers, inCnt), shown);
  }

  /** The same, with what it shows and what the codec then holds said in terms of the answer itself. */
  method DecodeTurn(pool: Pool, codec: Codec, inputs: seq<nat>, answers: seq<Answer>, shown: seq<Id>, inCnt: nat)
    returns (frame: Frame, more: seq<Id>, inCnt': nat, numBufs': int)
    requires codec.Valid() && Partitioned(pool, codec.held, {}) && |pool.cells| < MAX_IO_BUFFERS
    requires inCnt <= |inputs|
    modifies pool`head, pool`free, pool.cells.Values, codec, codec.outputId, codec.freeBufId
    ensures codec.Valid() && Partitioned(pool, codec.held, {}) && pool.cells == old(pool.cells)
    ensures (inCnt' == inCnt + 1 <= |inputs| && numBufs' == 1) || (inCnt' == inCnt && 0 <= numBufs' <= 1)
    ensures frame == Continue && inCnt' == inCnt ==> numBufs' == 0
    ensures Decoded(old(DeskOf(pool, codec, shown)), inputs, answers, inCnt)
      == ToCome(frame, numBufs', DeskOf(pool, codec, more), inputs, answers, inCnt')
    ensures old(OrderOf(pool.free)) != [] ==>
      var a := if inCnt < |answers| then answers[inCnt] else Answer(0, [], []);
      var holders := old(codec.held) + {old(OrderOf(pool.free))[0]};
      && (a.err != 0 ==> frame == Stop(CodecError) && more == shown && codec.held == holders)
      && (a.err == 0 && Honest(a, holders) ==>
            && frame == Continue && more == shown + a.outputs
            && forall x :: x in codec.held <==> x in holders && x !in a.freed)
  {
    ghost var d := DeskOf(pool, codec, shown);
    frame, more, inCnt', numBufs' := TakeTurn(pool, codec, inputs, answers, shown, inCnt);
    if d.free != [] {
      ProcessedMeans(d.(free := d.free[1..]), d.free[0], AnswerAt(answers, inCnt));
    }
  }

  /**
   * The loop of main. Each element of `inputs` is the size of one input file; an empty or missing one is the end
   * of the stream. answers[k] is the codec's choice in call k.
   */
  method DecodeAll(pool: Pool, codec: Codec, inputs: seq<nat>, answers: seq<Answer>)
    returns (outcome: Outcome, shown: seq<Id>)
    requires codec.Valid() && Partitioned(pool, codec.held, {}) && |pool.cells| < MAX_IO_BUFFERS
    modifies pool`head, pool`free, pool.cells.Values, codec, codec.outputId, codec.freeBufId
    ensures codec.Valid() && Partitioned(pool, codec.held, {}) && pool.cells == old(pool.cells)
    ensures (outcome, DeskOf(pool, codec, shown)) == Decoded(old(DeskOf(pool, codec, [])), inputs, answers, 0)
  {
    ghost var all := Decoded(DeskOf(pool, codec, []), inputs, answers, 0);
    shown := [];
    var inCnt: nat, numBufs: int := 0, 1;
    while numBufs != 0
      invariant inCnt <= |inputs| && 0 <= numBufs <= 1
      invariant codec.Valid() && Partitioned(pool, codec.held, {}) && pool.cells == old(pool.cells)
      invariant all == ToCome(Continue, numBufs, DeskOf(pool, codec, shown), inputs, answers, inCnt)
      decreases |inputs| - inCnt + numBufs
    {
      var frame;
      frame, shown, inCnt, numBufs := DecodeTurn(pool, codec, inputs, answers, shown, inCnt);
      if frame.Stop? {
        return frame.outcome, shown;
      }
    }
    outcome := EndOfStream;
  }

  /** The list as output_allocate leaves it: the last buffer first. */
  lemma AllocatedIsOrderly(addresses: seq<Id>)
    requires Distinct(addresses)
    ensures Orderly(Desk(Pushed(addresses, []), {}, []), Elements(addresses))
  {
    PushedDistinct(addresses, []);
  }

  /**
   * The whole program, with a codec that is new: however the codec behaves and the stream ends, every
   * buffer is freed once unless the codec still holds it, and the loop runs out of buffers only when the codec
   * has kept every one of them. A codec that keeps to its contract has all that it reports for output shown, call by call.
   */
  method Decode(addresses: seq<Id>, inputs: seq<nat>, answers: seq<Answer>)
    returns (outcome: Outcome, shown: seq<Id>, freed: seq<Id>, kept: set<Id>, ghost calls: nat)
    requires Distinct(addresses) && NO_ID !in addresses && |addresses| < 20
    ensures (outcome, Desk(freed, kept, shown)) == Decoded(Desk(Pushed(addresses, []), {}, []), inputs, answers, 0)
    ensures Distinct(freed) && Elements(freed) + kept == Elements(addresses) && Elements(freed) !! kept
    ensures outcome == OutOfBuffers ==> kept == Elements(addresses)
    ensures HonestFrom(Pushed(addresses, []), {}, inputs, answers, 0) ==>
      && shown == Outputs(answers, 0, calls) && |kept| <= calls + (if outcome == CodecError then 1 else 0)
      && (forall k :: 0 <= k < calls && k < |answers| ==> answers[k].err == 0)
      && (outcome == EndOfStream ==> calls == InputCount(inputs) + 1)
      && (outcome == CodecError ==> calls <= InputCount(inputs) && calls < |answers| && answers[calls].err != 0)
      && (outcome == OutOfBuffers ==> calls <= InputCount(inputs))
  {
    AllocatedIsOrderly(addresses);
    DecodedIsOrderly(Desk(Pushed(addresses, []), {}, []), inputs, answers, 0, Elements(addresses));
    calls := 0;
    if HonestFrom(Pushed(addresses, []), {}, inputs, answers, 0) {
      calls := DecodedShows(Desk(Pushed(addresses, []), {}, []), inputs, answers, 0);
    }
    outcome, shown, freed, kept := RunDecoder(addresses, inputs, answers);
  }

  method RunDecoder(addresses: seq<Id>, inputs: seq<nat>, answers: seq<Answer>)
    returns (outcome: Outcome, shown: seq<Id>, freed: seq<Id>, kept: set<Id>)
    requires Distinct(addresses) && NO_ID !in addresses && |addresses| < MAX_IO_BUFFERS
    ensures (outcome, Desk(freed, kept, shown)) == Decoded(Desk(Pushed(addresses, []), {}, []), inputs, answers, 0)
  {
    var pool := AllocatedPool(addresses);
    var codec := new Codec();
    outcome, shown := DecodeAll(pool, codec, inputs, answers);
    kept := codec.held;
    freed := pool.FreeAll();
  }

  lemma AllFree(pool: Pool)
    requires pool.Valid() && pool.cells.Keys == Ids(pool.free)
    ensures forall b :: b in pool.cells.Values ==> b in pool.free
  {
    forall id | id in pool.cells ensures pool.cells[id] in pool.free {
      var i :| 0 <= i < |pool.free| && pool.free[i].id == id;
    }
  }

  method AllocatedPool(addresses: seq<Id>) returns (pool: Pool)
    requires Distinct(addresses) && NO_ID !in addresses && |addresses| < MAX_IO_BUFFERS
    ensures fresh(pool) && forall b :: b in pool.cells.Values ==> fresh(b)
    ensures Partitioned(pool, {}, {}) && |pool.cells| < MAX_IO_BUFFERS
    ensures OrderOf(pool.free) == Pushed(addresses, [])
  {
    pool := new Pool();
    pool.Allocate(addresses);
    DistinctCardinality(addresses);
    assert |pool.cells| == |pool.cells.Keys|;
    AllFree(pool);
  }
}
