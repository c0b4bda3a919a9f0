/**
 * The client side of dce.c: each stub fills a message, has the server's handler run on it in place, and takes
 * its results out of the same bytes. Seen from outside, a remote call that goes through is one request of a run:
 * same call to the codec engine, same registration, same results as with separate argument and result records.
 */
module Stubs {
  import opened Words
  import opened CodecEngine
  import Registry
  import opened Server
  import Runs

  /** strncpy leaves the last byte of the 25-byte name field as the message had it. */
  const NAME_COPIED: nat := 24

  /** Table and log of a server as one value. */
  ghost function SystemOf(s: DceServer): Runs.System
    reads s, s.clients
  {
    Runs.System(s.clients[..], s.log)
  }

  /** The name the server reads when `message` is what the name was copied into. */
  function Delivered(message: seq<Byte>, at: nat, name: seq<Byte>): seq<Byte>
    requires at + NAME_COPIED <= |message|
  {
    CString(StrNCpy(message, at, name, NAME_COPIED), at)
  }

  method CopyName(data: array<Byte>, at: nat, name: seq<Byte>)
    requires at + NAME_COPIED <= data.Length
    modifies data
    ensures data[..] == StrNCpy(old(data[..]), at, name, NAME_COPIED)
  {
    var i := 0;
    while i < NAME_COPIED
      invariant i <= NAME_COPIED
      invariant forall k :: 0 <= k < data.Length ==>
        data[k] == if at <= k < at + i then (if k - at < |name| then name[k - at] else 0) else old(data[k])
    {
      data[at + i] := if i < |name| then name[i] else 0;
      i := i + 1;
    }
    assert data[..] == StrNCpy(old(data[..]), at, name, NAME_COPIED);
  }

  /** A message as the allocator hands it out: with whatever bytes were there before. */
  method NewMessage(stale: seq<Byte>) returns (data: array<Byte>)
    ensures fresh(data) && data[..] == stale
  {
    data := new Byte[|stale|](i requires 0 <= i < |stale| => stale[i]);
  }

  /**
   * At most 23 characters always arrive. From 24 on the message spells the name, with its end, exactly when the bytes
   * left over behind the 24 copied ones spell the rest and end it; otherwise what arrives is another string or none.
   */
  lemma DeliveredIff(memory: seq<Byte>, at: nat, name: seq<Byte>)
    requires at + 24 <= |memory| && 0 !in name
    ensures |name| <= 23 ==> Delivered(memory, at, name) == name
    ensures |name| >= 24 ==>
      (Spells(StrNCpy(memory, at, name, 24), at, name) <==> Spells(memory, at + 24, name[24..]))
    ensures |name| >= 24 && Spells(memory, at + 24, name[24..]) ==> Delivered(memory, at, name) == name
    ensures Delivered(memory, at, name) == CString(StrNCpy(memory, at, name, 24), at)
  {
    NameArrivesIff(memory, at, name, 24);
    if |name| <= 23 || Spells(memory, at + 24, name[24..]) {
      SpelledIsRead(StrNCpy(memory, at, name, 24), at, name);
    }
  }

  /**
   * Engine_open. The message's former contents, and what lies beyond it, matter only for names too long for the field.
   * `arrived` is what the server reads.
   */
  method EngineOpen(server: DceServer, pid: Pid, name: seq<Byte>, stale: seq<Byte>, beyond: seq<Byte>, answer: Handle,
                    ec: Word)
    returns (ret: Handle, ecOut: Word, ghost arrived: seq<Byte>)
    requires server.Valid() && |stale| == 32 && 0 !in name
    modifies server, server.clients
    ensures server.Valid()
    ensures ret == answer && ecOut == ec
    ensures SystemOf(server) == Runs.Serve(old(SystemOf(server)), Runs.Open(pid, arrived, answer), server.slots)
    ensures |name| <= 23 ==> arrived == name
    ensures |name| >= 24 ==> arrived == CString(StrNCpy(stale + beyond, 4, name, 24), 4)
    ensures |name| >= 24 && Spells(stale + beyond, 28, name[24..]) ==> arrived == name
    ensures |name| >= 24 && !Spells(stale + beyond, 28, name[24..]) ==>
      !Spells(StrNCpy(stale + beyond, 4, name, 24), 4, name)
  {
    var data := NewMessage(stale);
    StoreWord(data, PID_AT, pid);
    CopyName(data, OPEN_NAME_AT, name);
    arrived := Delivered(stale + beyond, OPEN_NAME_AT, name);
    CStringSame(data[..] + beyond, StrNCpy(stale + beyond, OPEN_NAME_AT, name, NAME_COPIED), OPEN_NAME_AT);
    DeliveredIff(stale + beyond, OPEN_NAME_AT, name);
    server.RpcEngineOpen(data, beyond, answer, ec);
    ecOut := LoadWord(data, OPEN_EC_AT);
    ret := LoadWord(data, OPEN_ENGINE_AT);
  }

  method EngineClose(server: DceServer, pid: Pid, engine: Handle, stale: seq<Byte>)
    requires server.Valid() && |stale| == 8
    modifies server, server.clients
    ensures server.Valid()
    ensures SystemOf(server) == Runs.Serve(old(SystemOf(server)), Runs.Close(pid, engine), server.slots)
  {
    var data := NewMessage(stale);
    StoreWord(data, PID_AT, pid);
    StoreWord(data, HANDLE_AT, engine);
    server.RpcEngineClose(data);
  }

  /** The message of VIDDEC3_create, as the server will read it. */
  method CreateArgs(pid: Pid, engine: Handle, name: seq<Byte>, params: Word, stale: seq<Byte>, ghost beyond: seq<Byte>)
    returns (data: array<Byte>)
    requires |stale| == 40
    ensures fresh(data) && data.Length == 40
    ensures GetWord(data[..], PID_AT) == pid && GetWord(data[..], HANDLE_AT) == engine
    ensures GetWord(data[..], CREATE_PARAMS_AT) == params
    ensures CString(data[..] + beyond, CREATE_NAME_AT)
      == Delivered(PutWord(stale, CREATE_PARAMS_AT, params) + beyond, CREATE_NAME_AT, name)
  {
    data := NewMessage(stale);
    StoreWord(data, PID_AT, pid);
    StoreWord(data, HANDLE_AT, engine);
    CopyName(data, CREATE_NAME_AT, name);
    StoreWord(data, CREATE_PARAMS_AT, params);
    ghost var rest := PutWord(stale, CREATE_PARAMS_AT, params) + beyond;
    CStringSame(data[..] + beyond, StrNCpy(rest, CREATE_NAME_AT, name, NAME_COPIED), CREATE_NAME_AT);
  }

  /** VIDDEC3_create; the name fares as in EngineOpen, with the parameters' address among the bytes behind it. */
  method Create(server: DceServer, pid: Pid, engine: Handle, name: seq<Byte>, params: Word, stale: seq<Byte>,
                beyond: seq<Byte>, answer: Handle)
    returns (ret: Handle, ghost arrived: seq<Byte>)
    requires server.Valid() && |stale| == 40 && 0 !in name
    modifies server, server.clients
    ensures server.Valid()
    ensures ret == answer
    ensures SystemOf(server)
      == Runs.Serve(old(SystemOf(server)), Runs.Create(pid, engine, arrived, params, answer), server.slots)
    ensures |name| <= 23 ==> arrived == name
    ensures var memory := PutWord(stale, 36, params) + beyond;
      |name| >= 24 ==>
        && arrived == CString(StrNCpy(memory, 8, name, 24), 8)
        && (if Spells(memory, 32, name[24..]) then arrived == name else !Spells(StrNCpy(memory, 8, name, 24), 8, name))
  {
    var data := CreateArgs(pid, engine, name, params, stale, beyond);
    arrived := Delivered(PutWord(stale, CREATE_PARAMS_AT, params) + beyond, CREATE_NAME_AT, name);
    DeliveredIff(PutWord(stale, CREATE_PARAMS_AT, params) + beyond, CREATE_NAME_AT, name);
    server.RpcCreate(data, beyond, answer);
    ret := LoadWord(data, RESULT_AT);
  }

  method Delete(server: DceServer, pid: Pid, codec: Handle, stale: seq<Byte>)
    requires server.Valid() && |stale| == 8
    modifies server, server.clients
    ensures server.Valid()
    ensures SystemOf(server) == Runs.Serve(old(SystemOf(server)), Runs.Delete(pid, codec), server.slots)
  {
    var data := NewMessage(stale);
    StoreWord(data, PID_AT, pid);
    StoreWord(data, HANDLE_AT, codec);
    server.RpcDelete(data);
  }

  /** A message of five words. */
  method ControlArgs(w0: Word, w1: Word, w2: Word, w3: Word, w4: Word, stale: seq<Byte>) returns (data: array<Byte>)
    requires |stale| == 20
    ensures fresh(data) && data.Length == 20
    ensures GetWord(data[..], 0) == w0 && GetWord(data[..], 4) == w1 && GetWord(data[..], 8) == w2
    ensures GetWord(data[..], 12) == w3 && GetWord(data[..], 16) == w4
  {
    data := NewMessage(stale);
    StoreWord(data, 0, w0);
    StoreWord(data, 4, w1);
    StoreWord(data, 8, w2);
    StoreWord(data, 12, w3);
    StoreWord(data, 16, w4);
  }

  method Control(server: DceServer, pid: Pid, codec: Handle, id: Word, dynParams: Word, status: Word,
                 stale: seq<Byte>, answer: Word)
    returns (ret: Word)
    requires server.Valid() && |stale| == 20
    modifies server
    ensures server.Valid()
    ensures ret == answer
    ensures SystemOf(server) == Runs.Serve(
      old(SystemOf(server)), Runs.Control(pid, codec, id, dynParams, status, answer), server.slots)
  {
    var data := ControlArgs(pid, codec, id, dynParams, status, stale);
    server.RpcControl(data, answer);
    ret := LoadWord(data, RESULT_AT);
  }

  /** A message of six words. */
  method ProcessArgs(w0: Word, w1: Word, w2: Word, w3: Word, w4: Word, w5: Word, stale: seq<Byte>)
    returns (data: array<Byte>)
    requires |stale| == 24
    ensures fresh(data) && data.Length == 24
    ensures GetWord(data[..], 0) == w0 && GetWord(data[..], 4) == w1 && GetWord(data[..], 8) == w2
    ensures GetWord(data[..], 12) == w3 && GetWord(data[..], 16) == w4 && GetWord(data[..], 20) == w5
  {
    data := NewMessage(stale);
    StoreWord(data, 0, w0);
    StoreWord(data, 4, w1);
    StoreWord(data, 8, w2);
    StoreWord(data, 12, w3);
    StoreWord(data, 16, w4);
    StoreWord(data, 20, w5);
  }

  method Process(server: DceServer, pid: Pid, codec: Handle, inBufs: Word, outBufs: Word, inArgs: Word, outArgs: Word,
                 stale: seq<Byte>, answer: Word)
    returns (ret: Word)
    requires server.Valid() && |stale| == 24
    modifies server
    ensures server.Valid()
    ensures ret == answer
    ensures SystemOf(server) == Runs.Serve(
      old(SystemOf(server)), Runs.Process(pid, codec, inBufs, outBufs, inArgs, outArgs, answer), server.slots)
  {
    var data := ProcessArgs(pid, codec, inBufs, outBufs, inArgs, outArgs, stale);
    server.RpcProcess(data, answer);
    ret := LoadWord(data, RESULT_AT);
  }

  /** The obituary callback, for comparison: also one request of a run. */
  method ProcessDied(server: DceServer, pid: Pid)
    requires server.Valid() && (pid == NULL ==> Registry.WellFormed(server.clients[..]))
    modifies server, server.clients
    ensures server.Valid()
    ensures SystemOf(server) == Runs.Serve(old(SystemOf(server)), Runs.Obituary(pid), server.slots)
  {
    server.CleanupCallback(true, pid);
  }
}
