/** The sizing and the decode loop of main together: the number of buffers is what the frame size gives. */
module Player {
  import opened BufferPool
  import opened Decoder
  import Nv12

  /** num_buffers for the dimensions on the command line; None is a division by zero. */
  function BuffersFor(width: nat, height: nat, oned: bool): Nv12.Option<int> {
    var l := Nv12.LayoutFor(width, height, oned);
    Nv12.NumBuffers(l.width, l.height)
  }

  /** The count of macroblocks that main computes, in 32 bits. */
  function Blocks(width: nat, height: nat): int {
    Nv12.Macroblocks(Nv12.Align(width, 16), Nv12.Align(height, 16))
  }

  /** Positive dimensions whose macroblocks an int can count. */
  lemma PositiveFramesCount(width: nat, height: nat)
    requires width > 0 && height > 0
    requires (Nv12.Align(width, 16) / 16) * (Nv12.Align(height, 16) / 16) < 0x8000_0000
    ensures Blocks(width, height) > 0
  {
    Nv12.OrdinaryFramesInRange(Nv12.Align(width, 16), Nv12.Align(height, 16));
  }

  /** The pool that is allocated: between 3 and 19 buffers exactly for such counts (and for some that have wrapped around). */
  lemma PoolSizeIff(width: nat, height: nat, oned: bool)
    ensures (exists n :: BuffersFor(width, height, oned) == Nv12.Some(n) && 3 <= n <= 19)
      <==> Blocks(width, height) > 0 || Blocks(width, height) < -32768
  {
    Nv12.NumBuffersInRangeIff(Nv12.Align(width, 16), Nv12.Align(height, 16));
  }

  /** Whichever of its buffers the codec reports, each once, the reports end inside the 20 entries. */
  lemma ReportsEndInside(width: nat, height: nat, oned: bool, addresses: seq<Id>, a: seq<Id>)
    requires Blocks(width, height) > 0 || Blocks(width, height) < -32768
    requires BuffersFor(width, height, oned) == Nv12.Some(|addresses|) && Distinct(addresses)
    requires |a| == 20 && Distinct(Listed(a)) && Elements(Listed(a)) <= Elements(addresses)
    ensures |Listed(a)| < |a|
  {
    PoolSizeIff(width, height, oned);
    DistinctCardinality(addresses);
    ScanStopsInside(a, Elements(addresses));
  }

  /** The program from sizing to output_free. */
  method Play(width: nat, height: nat, oned: bool, addresses: seq<Id>, inputs: seq<nat>, answers: seq<Answer>)
    returns (outcome: Outcome, shown: seq<Id>, freed: seq<Id>, kept: set<Id>, ghost calls: nat)
    requires Blocks(width, height) > 0 || Blocks(width, height) < -32768
    requires BuffersFor(width, height, oned) == Nv12.Some(|addresses|)
    requires Distinct(addresses) && NO_ID !in addresses
    ensures 3 <= |addresses| <= 19
    ensures var b := (Nv12.Align(width, 16) / 16) * (Nv12.Align(height, 16) / 16); var n := |addresses|;
      0 < b < 0x8000_0000 ==> (n - 3) * b <= 32768 && (n == 19 || (n - 2) * b > 32768)
    ensures Blocks(width, height) < -32768 ==> |addresses| == 3
    ensures (outcome, Desk(freed, kept, shown)) == Decoded(Desk(Pushed(addresses, []), {}, []), inputs, answers, 0)
    ensures Distinct(freed) && Elements(freed) + kept == Elements(addresses) && Elements(freed) !! kept
    ensures outcome == OutOfBuffers ==> kept == Elements(addresses)
    ensures HonestFrom(Pushed(addresses, []), {}, inputs, answers, 0) ==>
      && shown == Outputs(answers, 0, calls) && |kept| <= calls + (if outcome == CodecError then 1 else 0)
      && (outcome == EndOfStream ==> calls == InputCount(inputs) + 1)
      && (outcome == CodecError ==> calls <= InputCount(inputs) && calls < |answers| && answers[calls].err != 0)
  {
    PoolSizeIff(width, height, oned);
    Nv12.NumBuffersIs(Nv12.Align(width, 16), Nv12.Align(height, 16), |addresses|);
    outcome, shown, freed, kept, calls := Decode(addresses, inputs, answers);
  }
}
