/**
 * The coprocessor side of dce.c: the handlers the RPC server dispatches to, and the process-obituary
 * callback. A handler gets one message buffer in which its arguments and results overlap, so every
 * contract below reads the arguments from the buffer as it was on entry.
 */
module Server {
  import opened Words
  import opened CodecEngine
  import opened Registry
  import opened Cleanup

  // Offsets in the message unions (32-bit target; an enum takes a word).
  const PID_AT: nat := 0       // every `in`
  const HANDLE_AT: nat := 4    // in.engine or in.codec, except in Engine_open
  const OPEN_NAME_AT: nat := 4
  const OPEN_EC_AT: nat := 0
  const OPEN_ENGINE_AT: nat := 4
  const OPEN_SIZE: nat := 32
  const CREATE_NAME_AT: nat := 8
  const CREATE_PARAMS_AT: nat := 36
  const CREATE_SIZE: nat := 40
  const CONTROL_SIZE: nat := 20
  const PROCESS_SIZE: nat := 24
  const RELEASE_SIZE: nat := 8 // Engine_close and VIDDEC3_delete
  const RESULT_AT: nat := 0    // out.codec or out.ret

  class DceServer {
    const clients: array<Client>
    ghost const slots: nat
    var log: seq<Event>

    ghost predicate Sized()
      reads clients
    {
      slots > 0 && Shaped(clients[..], slots)
    }

    /** Holds whatever messages arrive, also from clients that break the rules. */
    ghost predicate Valid()
      reads clients
    {
      Sized() && DistinctPids(clients[..])
    }

    constructor (n: nat, k: nat)
      requires k > 0
      ensures Valid() && slots == k && log == []
      ensures clients.Length == n && forall i :: 0 <= i < n ==> Vacant(clients[i])
    {
      clients := new Client[n](_ => Client(NULL, 0, Nulls(k), Nulls(k)));
      slots := k;
      log := [];
    }

    method GetClient(pid: Pid) returns (i: nat)
      ensures i == Slot(clients[..], pid)
    {
      i := 0;
      while i < clients.Length && clients[i].pid != pid
        invariant i <= clients.Length
        invariant forall j :: 0 <= j < i ==> clients[j].pid != pid
      {
        i := i + 1;
      }
    }

    method RegisterEngine(pid: Pid, engine: Handle)
      requires Sized()
      modifies clients
      ensures Sized() && clients[..] == Registry.RegisterEngine(old(clients[..]), pid, engine)
    {
      var c := GetClient(pid);
      if c < clients.Length {
        clients[c] := clients[c].(refs := clients[c].refs + 1);
        var i := 0;
        while i < |clients[c].engines|
          invariant i <= |clients[c].engines|
          invariant forall j :: 0 <= j < i ==> clients[c].engines[j] != NULL
        {
          if clients[c].engines[i] == NULL {
            clients[c] := clients[c].(engines := clients[c].engines[i := engine]);
            break;
          }
          i := i + 1;
        }
      } else {
        c := GetClient(NULL);
        if c == clients.Length {
          return;
        }
        clients[c] := clients[c].(pid := pid);
        clients[c] := clients[c].(refs := 1);
        clients[c] := clients[c].(engines := clients[c].engines[0 := engine]);
      }
    }

    method UnregisterEngine(pid: Pid, engine: Handle)
      requires Sized()
      modifies clients
      ensures Sized() && clients[..] == Registry.UnregisterEngine(old(clients[..]), pid, engine)
    {
      var c := GetClient(pid);
      if c < clients.Length {
        var i := 0;
        while i < |clients[c].engines|
          invariant i <= |clients[c].engines|
          invariant clients[..] == old(clients[..])
          invariant forall j :: 0 <= j < i ==> clients[c].engines[j] != engine
        {
          if clients[c].engines[i] == engine {
            clients[c] := clients[c].(engines := clients[c].engines[i := NULL]);
            break;
          }
          i := i + 1;
        }
        clients[c] := clients[c].(refs := clients[c].refs - 1);
        if clients[c].refs == 0 {
          clients[c] := clients[c].(pid := NULL);
        }
      }
    }

    method RegisterCodec(pid: Pid, codec: Handle)
      requires Sized()
      modifies clients
      ensures Sized() && clients[..] == Registry.RegisterCodec(old(clients[..]), pid, codec)
    {
      var c := GetClient(pid);
      if c < clients.Length {
        clients[c] := clients[c].(refs := clients[c].refs + 1);
        var i := 0;
        while i < |clients[c].codecs|
          invariant i <= |clients[c].codecs|
          invariant forall j :: 0 <= j < i ==> clients[c].codecs[j] != NULL
        {
          if clients[c].codecs[i] == NULL {
            clients[c] := clients[c].(codecs := clients[c].codecs[i := codec]);
            break;
          }
          i := i + 1;
        }
      }
    }

    method UnregisterCodec(pid: Pid, codec: Handle)
      requires Sized()
      modifies clients
      ensures Sized() && clients[..] == Registry.UnregisterCodec(old(clients[..]), pid, codec)
    {
      var c := GetClient(pid);
      if c < clients.Length {
        var i := 0;
        while i < |clients[c].codecs|
          invariant i <= |clients[c].codecs|
          invariant clients[..] == old(clients[..])
          invariant forall j :: 0 <= j < i ==> clients[c].codecs[j] != codec
        {
          if clients[c].codecs[i] == codec {
            clients[c] := clients[c].(codecs := clients[c].codecs[i := NULL]);
            break;
          }
          i := i + 1;
        }
        clients[c] := clients[c].(refs := clients[c].refs - 1);
      }
    }

    // ----- RPC handlers; `answer` and `ec` are what the codec engine returns -----

    /** args->out.engine, then args->out.ec */
    method StoreOpenResults(data: array<Byte>, engine: Handle, ec: Word)
      requires data.Length == 32
      modifies data
      ensures GetWord(data[..], 0) == ec && GetWord(data[..], 4) == engine
    {
      StoreWord(data, OPEN_ENGINE_AT, engine);
      StoreWord(data, OPEN_EC_AT, ec);
    }

    /** A name may run on past the message: `beyond` is the memory behind it. */
    method RpcEngineOpen(data: array<Byte>, beyond: seq<Byte>, answer: Handle, ec: Word)
      requires Valid() && data.Length == 32
      modifies this, clients, data
      ensures Valid()
      ensures var pid, name := old(GetWord(data[..], 0)), old(CString(data[..] + beyond, 4));
        && log == old(log) + [Opened(pid, name, answer)]
        && clients[..] == if answer == NULL then old(clients[..])
                          else Registry.RegisterEngine(old(clients[..]), pid, answer)
      ensures GetWord(data[..], 0) == ec && GetWord(data[..], 4) == answer
    {
      var pid := LoadWord(data, PID_AT);
      log := log + [Opened(pid, CString(data[..] + beyond, OPEN_NAME_AT), answer)];
      StoreOpenResults(data, answer, ec);
      var engine := LoadWord(data, OPEN_ENGINE_AT);
      if engine != NULL {
        StaysDistinct(clients[..], pid, engine);
        RegisterEngine(pid, engine);
      }
    }

    method RpcEngineClose(data: array<Byte>)
      requires Valid() && data.Length == 8
      modifies this, clients
      ensures Valid()
      ensures var pid, engine := GetWord(data[..], 0), GetWord(data[..], 4);
        && log == old(log) + [Closed(pid, engine)]
        && clients[..] == Registry.UnregisterEngine(old(clients[..]), pid, engine)
    {
      var pid := LoadWord(data, PID_AT);
      var engine := LoadWord(data, HANDLE_AT);
      StaysDistinct(clients[..], pid, engine);
      UnregisterEngine(pid, engine);
      log := log + [Closed(pid, engine)];
    }

    method RpcCreate(data: array<Byte>, beyond: seq<Byte>, answer: Handle)
      requires Valid() && data.Length == 40
      modifies this, clients, data
      ensures Valid()
      ensures var pid, engine := old(GetWord(data[..], 0)), old(GetWord(data[..], 4));
        var name, params := old(CString(data[..] + beyond, 8)), old(GetWord(data[..], 36));
        && log == old(log) + [Created(pid, engine, name, params, answer), Cleaned(params)]
        && clients[..] == if answer == NULL then old(clients[..])
                          else Registry.RegisterCodec(old(clients[..]), pid, answer)
      ensures GetWord(data[..], 0) == answer
    {
      var params := LoadWord(data, CREATE_PARAMS_AT);
      var pid := LoadWord(data, PID_AT);
      var engine := LoadWord(data, HANDLE_AT);
      log := log + [Created(pid, engine, CString(data[..] + beyond, CREATE_NAME_AT), params, answer)];
      StoreWord(data, RESULT_AT, answer);
      log := log + [Cleaned(params)];
      var codec := LoadWord(data, RESULT_AT);
      if codec != NULL {
        StaysDistinct(clients[..], pid, codec);
        RegisterCodec(pid, codec);
      }
    }

    method RpcControl(data: array<Byte>, ret: Word)
      requires Valid() && data.Length == 20
      modifies this`log, data
      ensures Valid()
      ensures var m := old(data[..]);
        log == old(log) + [Controlled(GetWord(m, 0), GetWord(m, 4), GetWord(m, 8), GetWord(m, 12),
                                      GetWord(m, 16), ret),
                           Cleaned(GetWord(m, 12)), Cleaned(GetWord(m, 16))]
      ensures GetWord(data[..], 0) == ret
    {
      var dynParams := LoadWord(data, 12);
      var status := LoadWord(data, 16);
      var pid := LoadWord(data, PID_AT);
      var codec := LoadWord(data, HANDLE_AT);
      var id := LoadWord(data, 8);
      log := log + [Controlled(pid, codec, id, dynParams, status, ret)];
      StoreWord(data, RESULT_AT, ret);
      log := log + [Cleaned(dynParams)];
      log := log + [Cleaned(status)];
    }

    method RpcProcess(data: array<Byte>, ret: Word)
      requires Valid() && data.Length == 24
      modifies this`log, data
      ensures Valid()
      ensures var m := old(data[..]);
        log == old(log) + [IvaAcquired,
                           Processed(GetWord(m, 0), GetWord(m, 4), GetWord(m, 8), GetWord(m, 12),
                                     GetWord(m, 16), GetWord(m, 20), ret),
                           IvaReleased, Cleaned(GetWord(m, 8)), Cleaned(GetWord(m, 12)), Cleaned(GetWord(m, 16)),
                           Cleaned(GetWord(m, 20))]
      ensures GetWord(data[..], 0) == ret
    {
      var inBufs := LoadWord(data, 8);
      var outBufs := LoadWord(data, 12);
      var inArgs := LoadWord(data, 16);
      var outArgs := LoadWord(data, 20);
      var pid := LoadWord(data, PID_AT);
      log := log + [IvaAcquired];
      var codec := LoadWord(data, HANDLE_AT);
      log := log + [Processed(pid, codec, inBufs, outBufs, inArgs, outArgs, ret)];
      StoreWord(data, RESULT_AT, ret);
      log := log + [IvaReleased];
      log := log + [Cleaned(inBufs), Cleaned(outBufs), Cleaned(inArgs), Cleaned(outArgs)];
    }

    method RpcDelete(data: array<Byte>)
      requires Valid() && data.Length == 8
      modifies this, clients
      ensures Valid()
      ensures var pid, codec := GetWord(data[..], 0), GetWord(data[..], 4);
        && log == old(log) + [Deleted(pid, codec)]
        && clients[..] == Registry.UnregisterCodec(old(clients[..]), pid, codec)
    {
      var pid := LoadWord(data, PID_AT);
      var codec := LoadWord(data, HANDLE_AT);
      StaysDistinct(clients[..], pid, codec);
      UnregisterCodec(pid, codec);
      log := log + [Deleted(pid, codec)];
    }

    // ----- process obituary -----

    /** The message for a release handler. */
    method ReleaseArgs(pid: Pid, h: Handle) returns (args: array<Byte>)
      ensures fresh(args) && args.Length == 8
      ensures GetWord(args[..], 0) == pid && GetWord(args[..], 4) == h
    {
      args := new Byte[RELEASE_SIZE];
      StoreWord(args, PID_AT, pid);
      StoreWord(args, HANDLE_AT, h);
    }

    method DeleteFor(pid: Pid, codec: Handle)
      requires Valid()
      modifies this, clients
      ensures Valid() && clients[..] == Registry.UnregisterCodec(old(clients[..]), pid, codec)
      ensures log == old(log) + [Deleted(pid, codec)]
    {
      var args := ReleaseArgs(pid, codec);
      RpcDelete(args);
    }

    method CloseFor(pid: Pid, engine: Handle)
      requires Valid()
      modifies this, clients
      ensures Valid() && clients[..] == Registry.UnregisterEngine(old(clients[..]), pid, engine)
      ensures log == old(log) + [Closed(pid, engine)]
    {
      var args := ReleaseArgs(pid, engine);
      RpcEngineClose(args);
    }

    /** One turn of the codec loop, for the client in slot c of table t. */
    method VisitCodec(pid: Pid, c: nat, i: nat, ghost t: Table)
      requires Valid() && DistinctPids(t)
      requires c < |t| && t[c].pid == pid && i < |t[c].codecs|
      requires pid != NULL || t[c].codecs[i] == NULL
      requires clients[..] == t[c := CodecsVisited(t[c], i)]
      modifies this, clients
      ensures Valid() && clients[..] == t[c := CodecsVisited(t[c], i + 1)]
      ensures log == old(log) + if t[c].codecs[i] == NULL then [] else [Deleted(pid, t[c].codecs[i])]
    {
      CodecTurn(t, c, i);
      CodecEntryKept(t[c], i);
      if clients[c].codecs[i] != NULL {
        DeleteFor(pid, clients[c].codecs[i]);
      }
    }

    method VisitEngine(pid: Pid, c: nat, i: nat, ghost t: Table)
      requires Valid() && DistinctPids(t)
      requires c < |t| && t[c].pid == pid && i < |t[c].engines|
      requires pid != NULL || t[c].engines[i] == NULL
      requires clients[..] == t[c := EnginesVisited(t[c], i)]
      modifies this, clients
      ensures Valid() && clients[..] == t[c := EnginesVisited(t[c], i + 1)]
      ensures log == old(log) + if t[c].engines[i] == NULL then [] else [Closed(pid, t[c].engines[i])]
    {
      EngineTurn(t, c, i);
      EngineEntryKept(t[c], i);
      if clients[c].engines[i] != NULL {
        CloseFor(pid, clients[c].engines[i]);
      }
    }

    method CleanupCodecs(pid: Pid, c: nat, ghost t: Table)
      requires Valid() && clients[..] == t && DistinctPids(t)
      requires c < |t| && t[c].pid == pid && (pid != NULL || t[c].codecs == Nulls(slots))
      modifies this, clients
      ensures Valid() && clients[..] == t[c := CodecsVisited(t[c], |t[c].codecs|)]
      ensures log == old(log) + Deletions(pid, t[c].codecs)
    {
      NoneVisited(t[c]);
      ghost var s := t[c].codecs;
      var i := 0;
      while i < |clients[c].codecs|
        invariant i <= |s| == slots
        invariant Valid() && clients[..] == t[c := CodecsVisited(t[c], i)]
        invariant log == old(log) + Deletions(pid, s[..i])
      {
        DeletionsStep(old(log), pid, s, i);
        VisitCodec(pid, c, i, t);
        i := i + 1;
      }
      assert s[..|s|] == s;
    }

    method CleanupEngines(pid: Pid, c: nat, ghost t: Table)
      requires Valid() && clients[..] == t && DistinctPids(t)
      requires c < |t| && t[c].pid == pid && (pid != NULL || t[c].engines == Nulls(slots))
      modifies this, clients
      ensures Valid() && clients[..] == t[c := EnginesVisited(t[c], |t[c].engines|)]
      ensures log == old(log) + Closings(pid, t[c].engines)
    {
      NoneVisited(t[c]);
      ghost var s := t[c].engines;
      var i := 0;
      while i < |clients[c].engines|
        invariant i <= |s| == slots
        invariant Valid() && clients[..] == t[c := EnginesVisited(t[c], i)]
        invariant log == old(log) + Closings(pid, s[..i])
      {
        ClosingsStep(old(log), pid, s, i);
        VisitEngine(pid, c, i, t);
        i := i + 1;
      }
      assert s[..|s|] == s;
    }

    lemma LogInTwo(log: seq<Event>, a: seq<Event>, b: seq<Event>)
      ensures log + a + b == log + (a + b)
    {
    }

    /** dce_cleanup_cb. The table may be in whatever state the messages have brought it to; no process has pid 0. */
    method CleanupCallback(isObituary: bool, pid: Pid)
      requires Valid() && (pid == NULL ==> WellFormed(clients[..]))
      modifies this, clients
      ensures Valid()
      ensures !isObituary ==> clients[..] == old(clients[..]) && log == old(log)
      ensures isObituary ==> clients[..] == CleanupTable(old(clients[..]), pid)
      ensures isObituary ==> log == old(log) + CleanupEvents(old(clients[..]), pid)
    {
      if !isObituary {
        return;
      }
      var c := GetClient(pid);
      if c < clients.Length {
        ghost var t := clients[..];
        CleanupInTwo(t, pid);
        ghost var half := t[c := CodecsVisited(t[c], |t[c].codecs|)];
        CleanupCodecs(pid, c, t);
        CleanupEngines(pid, c, half);
        LogInTwo(old(log), Deletions(pid, t[c].codecs), Closings(pid, t[c].engines));
      }
    }
  }
}
