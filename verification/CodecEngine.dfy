/**
 * The codec engine as the server sees it: the calls it receives, and the contract that
 * Engine.h and viddec3.h put on them. This automaton knows nothing of clients or tables,
 * which makes it an independent judge of the registry.
 */
module CodecEngine {
  import opened Words

  type Pid = Word
  type Handle = Word

  /** The null handle, and the process id that marks an unused slot. */
  const NULL: Word := 0

  /** What the server does to the outside, in order. `pid` is the environment set for the call. */
  datatype Event =
    | Opened(pid: Pid, name: seq<Byte>, engine: Handle)
    | Closed(pid: Pid, engine: Handle)
    | Created(pid: Pid, engine: Handle, name: seq<Byte>, params: Word, codec: Handle)
    | Controlled(pid: Pid, codec: Handle, id: Word, dynParams: Word, status: Word, ret: Word)
    | Processed(pid: Pid, codec: Handle, inBufs: Word, outBufs: Word, inArgs: Word, outArgs: Word, ret: Word)
    | Deleted(pid: Pid, codec: Handle)
    | IvaAcquired
    | IvaReleased
    | Cleaned(address: Word)

  /** The open engines, and the live codecs with the engine each was created on. */
  datatype State = State(engines: set<Handle>, codecs: map<Handle, Handle>)

  const IDLE := State({}, map[])

  /** The contract: handles given out are new; what is used is live; an engine in use is not closed. */
  predicate Allows(s: State, e: Event) {
    match e
    case Opened(_, _, engine) => engine == NULL || engine !in s.engines
    case Closed(_, engine) => engine in s.engines && forall c :: c in s.codecs ==> s.codecs[c] != engine
    case Created(_, engine, _, _, codec) => engine in s.engines && (codec == NULL || codec !in s.codecs)
    case Controlled(_, codec, _, _, _, _) => codec in s.codecs
    case Processed(_, codec, _, _, _, _, _) => codec in s.codecs
    case Deleted(_, codec) => codec in s.codecs
    case _ => true
  }

  function After(s: State, e: Event): State {
    match e
    case Opened(_, _, engine) => if engine == NULL then s else s.(engines := s.engines + {engine})
    case Closed(_, engine) => s.(engines := s.engines - {engine})
    case Created(_, engine, _, _, codec) =>
      if codec == NULL then s else s.(codecs := s.codecs[codec := engine])
    case Deleted(_, codec) => s.(codecs := s.codecs - {codec})
    case _ => s
  }

  function AfterAll(s: State, es: seq<Event>): State
    decreases |es|
  {
    if es == [] then s else AfterAll(After(s, es[0]), es[1..])
  }

  predicate AllowsAll(s: State, es: seq<Event>)
    decreases |es|
  {
    es == [] || (Allows(s, es[0]) && AllowsAll(After(s, es[0]), es[1..]))
  }

  /** Judging a log is compositional. */
  lemma {:induction false} AllowsAllSplit(s: State, a: seq<Event>, b: seq<Event>)
    ensures AfterAll(s, a + b) == AfterAll(AfterAll(s, a), b)
    ensures AllowsAll(s, a + b) <==> AllowsAll(s, a) && AllowsAll(AfterAll(s, a), b)
    decreases |a|
  {
    if a == [] {
      assert a + b == b;
    } else {
      assert (a + b)[1..] == a[1..] + b;
      AllowsAllSplit(After(s, a[0]), a[1..], b);
    }
  }

  /** How often an engine handle was given out, and how often it was closed. */
  function Opens(es: seq<Event>, h: Handle): nat {
    if es == [] then 0 else (if es[0].Opened? && es[0].engine == h then 1 else 0) + Opens(es[1..], h)
  }

  function Closes(es: seq<Event>, h: Handle): nat {
    if es == [] then 0 else (if es[0].Closed? && es[0].engine == h then 1 else 0) + Closes(es[1..], h)
  }

  /** The same for codecs. */
  function Creates(es: seq<Event>, h: Handle): nat {
    if es == [] then 0 else (if es[0].Created? && es[0].codec == h then 1 else 0) + Creates(es[1..], h)
  }

  function Deletes(es: seq<Event>, h: Handle): nat {
    if es == [] then 0 else (if es[0].Deleted? && es[0].codec == h then 1 else 0) + Deletes(es[1..], h)
  }

  /** A log that meets the contract releases each handle as often as it was given out, less one if it is still live. */
  lemma {:induction false} ReleasesBalance(s: State, es: seq<Event>, h: Handle)
    requires h != NULL && AllowsAll(s, es)
    ensures Opens(es, h) + (if h in s.engines then 1 else 0)
      == Closes(es, h) + (if h in AfterAll(s, es).engines then 1 else 0)
    ensures Creates(es, h) + (if h in s.codecs then 1 else 0)
      == Deletes(es, h) + (if h in AfterAll(s, es).codecs then 1 else 0)
    decreases |es|
  {
    if es != [] {
      ReleasesBalance(After(s, es[0]), es[1..], h);
    }
  }
}
