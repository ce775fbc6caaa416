/**
 The fastboot session: commands in, replies out, over a transport that may fail at any point and
 a command backend that may do anything its interface allows.

 A transport keeps its history: the events of the command in progress, and one such list for
 every command before it.
 */
module Fastboot {
  import opened Basics
  import opened FastbootRoute
  import opened FastbootText
  import opened Utf8

  const MAX_RESPONSE_SIZE := 256

  /** What goes out in one packet. */
  datatype Packet =
    | Okay(msg: Bytes)
    | Fail(msg: Bytes)
    | Info(msg: Bytes)
    | Data(size: nat)
    | Payload(data: Bytes)
  {
    predicate IsReply() { Okay? || Fail? }

    /** Fits the response buffer, with a byte to spare: the program stops dead otherwise. */
    predicate Fits() {
      (Okay? || Fail? || Info? ==> |msg| + 4 < MAX_RESPONSE_SIZE) && (Data? ==> size < U64_LIMIT)
    }
  }

  /** What the backend returns. */
  datatype CommandResult = Good(msg: Bytes) | Bad(msg: Bytes) {
    predicate Fits() { |msg| + 4 < MAX_RESPONSE_SIZE }
  }

  /** `Called` and `Complete` are calls of the backend, `Complete` with the data downloaded; `Returned` ends them. */
  datatype Event =
    | Command(text: Bytes)
    | Sent(packet: Packet)
    | Chunk(data: Bytes)
    | Complete(data: Bytes)
    | Called(call: Call)
    | Returned(result: CommandResult)

  type Trace = seq<Event>

  // ----- Accounting over a trace -------------------------------------------------------------

  function Replies(t: Trace): nat
    decreases |t|
  {
    if t == [] then 0 else
    var e := t[|t| - 1];
    Replies(t[..|t| - 1]) + if e.Sent? && e.packet.IsReply() then 1 else 0
  }

  function Announced(t: Trace): nat
    decreases |t|
  {
    if t == [] then 0 else
    var e := t[|t| - 1];
    Announced(t[..|t| - 1]) + if e.Sent? && e.packet.Data? then e.packet.size else 0
  }

  function Announcements(t: Trace): nat
    decreases |t|
  {
    if t == [] then 0 else
    var e := t[|t| - 1];
    Announcements(t[..|t| - 1]) + if e.Sent? && e.packet.Data? then 1 else 0
  }

  function Uploaded(t: Trace): nat
    decreases |t|
  {
    if t == [] then 0 else
    var e := t[|t| - 1];
    Uploaded(t[..|t| - 1]) + if e.Sent? && e.packet.Payload? then |e.packet.data| else 0
  }

  function Downloaded(t: Trace): Bytes
    decreases |t|
  {
    if t == [] then [] else
    var e := t[|t| - 1];
    Downloaded(t[..|t| - 1]) + if e.Chunk? then e.data else []
  }

  function Calls(t: Trace): seq<Call>
    decreases |t|
  {
    if t == [] then [] else
    var e := t[|t| - 1];
    Calls(t[..|t| - 1]) + if e.Called? then [e.call] else []
  }

  /** A download is handed over only as the chunks received, and as many bytes as were announced. */
  ghost predicate HandsOver(t: Trace, data: Bytes) {
    data == Downloaded(t) && |data| == Announced(t)
  }

  /** The events of one command, from its arrival on. */
  ghost predicate Sound(t: Trace) {
    && t != [] && t[0].Command?
    && (forall i :: 0 < i < |t| ==> !t[i].Command?)
    && (forall i :: 0 <= i < |t| && t[i].Complete? ==> HandsOver(t[..i], t[i].data))
  }

  lemma SoundAppend(t: Trace, e: Event)
    requires Sound(t) && !e.Command? && (e.Complete? ==> HandsOver(t, e.data))
    ensures Sound(t + [e])
  {
    var t' := t + [e];
    forall i | 0 <= i < |t'| && t'[i].Complete? ensures HandsOver(t'[..i], t'[i].data) {
      assert t'[..i] == if i < |t| then t[..i] else t;
    }
  }

  /** One more event moves each account by what that event carries. */
  lemma Account(t: Trace, e: Event)
    ensures Replies(t + [e]) == Replies(t) + if e.Sent? && e.packet.IsReply() then 1 else 0
    ensures Announced(t + [e]) == Announced(t) + if e.Sent? && e.packet.Data? then e.packet.size else 0
    ensures Announcements(t + [e]) == Announcements(t) + if e.Sent? && e.packet.Data? then 1 else 0
    ensures Uploaded(t + [e]) == Uploaded(t) + if e.Sent? && e.packet.Payload? then |e.packet.data| else 0
    ensures Downloaded(t + [e]) == Downloaded(t) + if e.Chunk? then e.data else []
    ensures Calls(t + [e]) == Calls(t) + if e.Called? then [e.call] else []
  {
    assert (t + [e])[..|t + [e]| - 1] == t;
  }

  // ----- Transport ---------------------------------------------------------------------------

  /** What the host sends, packet by packet; `Broken` is a transport error. */
  datatype Incoming = Arrives(data: Bytes) | Broken

  class Transport {
    var input: seq<Incoming>
    var current: Trace
    var past: seq<Trace>
    /** How many errors the transport has reported. */
    var faults: nat

    constructor (input: seq<Incoming>)
      ensures this.input == input && current == [] && past == [] && faults == 0
    {
      this.input, current, past, faults := input, [], [], 0;
    }

    /** Sends a packet, or fails and sends nothing. */
    method SendPacket(p: Packet) returns (ok: bool)
      modifies this`current, this`faults
      ensures current == if ok then old(current) + [Sent(p)] else old(current)
      ensures faults == if ok then old(faults) else old(faults) + 1
    {
      ok := *;
      if ok {
        current := current + [Sent(p)];
      } else {
        faults := faults + 1;
      }
    }

    /** Waits for the next command of at most `limit` bytes. */
    method ReceiveCommand(limit: nat) returns (r: Option<Bytes>)
      modifies this
      ensures input == if old(input) == [] then [] else old(input)[1..]
      ensures r.Some? ==> old(input) != [] && |r.value| <= limit
      ensures r.Some? ==> current == [Command(r.value)] && past == old(past) + [old(current)]
      ensures r.None? ==> current == old(current) && past == old(past)
      ensures faults == if r.Some? then old(faults) else old(faults) + 1
    {
      if input == [] {
        faults := faults + 1;
        return None;
      }
      var next := input[0];
      input := input[1..];
      if next.Broken? || |next.data| > limit {
        faults := faults + 1;
        return None;
      }
      past := past + [current];
      current := [Command(next.data)];
      return Some(next.data);
    }

    /**
     Receives a packet into `buffer` from `from` up to `to`.  Reports the packet's size; a larger
     packet than there is room for may be reported too, and then anything may be in the buffer.
     */
    method ReceiveInto(buffer: array<char>, from: nat, to: nat) returns (r: Option<nat>)
      requires from <= to <= buffer.Length
      modifies this`input, this`current, this`faults, buffer
      ensures |input| <= |old(input)|
      ensures r.Some? ==> |input| < |old(input)|
      ensures buffer[..from] == old(buffer[..from])
      ensures faults == if r.Some? then old(faults) else old(faults) + 1
      ensures r.None? ==> current == old(current)
      ensures r.Some? && r.value <= to - from ==>
                current == old(current) + [Chunk(buffer[from..from + r.value])]
      ensures r.Some? && r.value > to - from ==>
                exists data :: |data| == r.value && current == old(current) + [Chunk(data)]
    {
      if input == [] {
        faults := faults + 1;
        return None;
      }
      var next := input[0];
      input := input[1..];
      if next.Broken? {
        faults := faults + 1;
        return None;
      }
      var size := |next.data|;
      if size <= to - from {
        for i := 0 to size
          invariant buffer[..from] == old(buffer[..from])
          invariant buffer[from..from + i] == next.data[..i]
          invariant current == old(current) && input == old(input)[1..] && faults == old(faults)
        {
          buffer[from + i] := next.data[i];
        }
        assert buffer[from..from + size] == next.data;
      } else {
        var reject := *;
        if reject {
          faults := faults + 1;
          return None;
        }
        var garbage := *;
        for i := from to to
          invariant buffer[..from] == old(buffer[..from])
          invariant current == old(current) && input == old(input)[1..] && faults == old(faults)
        {
          buffer[i] := garbage;
        }
      }
      current := current + [Chunk(next.data)];
      return Some(size);
    }
  }

  // ----- Responder ---------------------------------------------------------------------------

  class Responder {
    const transport: Transport
    var failed: bool
    var remaining: nat

    constructor (transport: Transport)
      ensures this.transport == transport && !failed && remaining == 0
    {
      this.transport, failed, remaining := transport, false, 0;
    }

    /** Sends a message unless an earlier send has failed. */
    method SendMessage(p: Packet) returns (ok: bool)
      requires !p.Payload? && p.Fits()
      modifies this`failed, transport`current, transport`faults
      ensures ok <==> !failed
      ensures old(failed) ==> failed
      ensures transport.current == if ok then old(transport.current) + [Sent(p)] else old(transport.current)
      ensures transport.faults == old(transport.faults) + if failed && !old(failed) then 1 else 0
    {
      if failed {
        return false;
      }
      ok := transport.SendPacket(p);
      failed := !ok;
    }

    method InitiateUpload(size: nat) returns (ok: bool)
      requires size < U64_LIMIT
      modifies this, transport`current, transport`faults
      ensures ok <==> !failed
      ensures old(failed) ==> failed
      ensures transport.current == if ok then old(transport.current) + [Sent(Data(size))] else old(transport.current)
      ensures remaining == if ok then size else old(remaining)
      ensures transport.faults == old(transport.faults) + if failed && !old(failed) then 1 else 0
    {
      ok := SendMessage(Data(size));
      if ok {
        remaining := size;
      }
    }

    /** More than was announced is refused; a failing send is noticed only by the next call. */
    method Upload(data: Bytes) returns (ok: bool)
      modifies this, transport`current, transport`faults
      ensures old(failed) ==> failed && !ok
      ensures ok <==> !old(failed) && |data| <= old(remaining)
      ensures remaining == if ok then old(remaining) - |data| else old(remaining)
      ensures !ok ==> failed == old(failed)
      ensures transport.faults == old(transport.faults) + if failed && !old(failed) then 1 else 0
      ensures transport.current ==
                if ok && !failed then old(transport.current) + [Sent(Payload(data))] else old(transport.current)
    {
      if failed {
        return false;
      }
      if |data| > remaining {
        return false;
      }
      remaining := remaining - |data|;
      var sent := transport.SendPacket(Payload(data));
      failed := !sent;
      return true;
    }
  }

  // ----- The command backend -----------------------------------------------------------------

  /** From `t` to `t'` only INFO messages went out. */
  ghost predicate OnlyInfo(t: Trace, t': Trace) {
    && Replies(t') == Replies(t) && Announcements(t') == Announcements(t) && Announced(t') == Announced(t)
    && Uploaded(t') == Uploaded(t) && Downloaded(t') == Downloaded(t) && Calls(t') == Calls(t)
    && |t| <= |t'| && t'[..|t|] == t
    && (Sound(t) ==> Sound(t'))
  }

  lemma OnlyInfoAppend(t: Trace, t': Trace, msg: Bytes)
    requires OnlyInfo(t, t')
    ensures OnlyInfo(t, t' + [Sent(Info(msg))])
  {
    Account(t', Sent(Info(msg)));
    if Sound(t) {
      SoundAppend(t', Sent(Info(msg)));
    }
  }

  /** A responder fails only when its transport does. */
  twostate predicate Blamed(resp: Responder)
    reads resp, resp.transport
  {
    && resp.transport.faults >= old(resp.transport.faults)
    && (resp.failed ==> old(resp.failed) || resp.transport.faults > old(resp.transport.faults))
    && (old(resp.failed) ==> resp.failed)
  }

  /** Any backend that is given only an `InfoSender`. */
  method InfoBackend(resp: Responder) returns (r: CommandResult)
    modifies resp`failed, resp.transport`current, resp.transport`faults
    ensures r.Fits()
    ensures old(resp.failed) ==> resp.failed && resp.transport.current == old(resp.transport.current)
    ensures OnlyInfo(old(resp.transport.current), resp.transport.current)
    ensures Blamed(resp)
  {
    var n: int :| n >= 0;
    for i := 0 to n
      invariant old(resp.failed) ==> resp.failed && resp.transport.current == old(resp.transport.current)
      invariant OnlyInfo(old(resp.transport.current), resp.transport.current)
      invariant Blamed(resp)
    {
      var msg: Bytes := *;
      if Info(msg).Fits() {
        OnlyInfoAppend(old(resp.transport.current), resp.transport.current, msg);
        var ok := resp.SendMessage(Info(msg));
      }
    }
    var res: CommandResult := *;
    return if res.Fits() then res else Bad("");
  }

  /** Any backend that is given an `OkaySender`, which sending an OKAY uses up. */
  method OkayBackend(resp: Responder) returns (r: CommandResult, ghost okays: nat)
    modifies resp`failed, resp.transport`current, resp.transport`faults
    ensures r.Fits() && okays <= 1 && Blamed(resp)
    ensures old(resp.failed) ==> resp.failed && resp.transport.current == old(resp.transport.current)
    ensures Replies(resp.transport.current) == Replies(old(resp.transport.current)) + okays
    ensures Announcements(resp.transport.current) == Announcements(old(resp.transport.current))
    ensures Uploaded(resp.transport.current) == Uploaded(old(resp.transport.current))
    ensures Calls(resp.transport.current) == Calls(old(resp.transport.current))
    ensures |old(resp.transport.current)| <= |resp.transport.current|
    ensures resp.transport.current[..|old(resp.transport.current)|] == old(resp.transport.current)
    ensures Sound(old(resp.transport.current)) ==> Sound(resp.transport.current)
  {
    okays := 0;
    r := InfoBackend(resp);
    var msg: Bytes := *;
    var announce: bool := *;
    if announce && Okay(msg).Fits() {
      ghost var t := resp.transport.current;
      Account(t, Sent(Okay(msg)));
      if Sound(t) {
        SoundAppend(t, Sent(Okay(msg)));
      }
      var ok := resp.SendMessage(Okay(msg));
      if ok {
        okays := 1;
      }
    }
  }

  /** While no send has failed, what was announced has been uploaded or is still to come. */
  ghost predicate Balanced(t: Trace, remaining: nat) {
    && Sound(t) && Replies(t) == 0 && Announcements(t) <= 1
    && Announced(t) == Uploaded(t) + remaining
  }

  lemma BalancedAppend(t: Trace, remaining: nat, e: Event, remaining': nat)
    requires Balanced(t, remaining)
    requires
      || ((e.Called? || e.Returned?) && remaining' == remaining)
      || (e.Sent? && e.packet.Info? && remaining' == remaining)
      || (e.Sent? && e.packet.Data? && Announcements(t) == 0 && remaining == 0 && remaining' == e.packet.size)
      || (e.Sent? && e.packet.Payload? && |e.packet.data| <= remaining && remaining' == remaining - |e.packet.data|)
    ensures Balanced(t + [e], remaining')
    ensures Announcements(t + [e]) == Announcements(t) + if e.Sent? && e.packet.Data? then 1 else 0
    ensures Calls(t + [e]) == Calls(t) + if e.Called? then [e.call] else []
  {
    Account(t, e);
    SoundAppend(t, e);
  }

  /** Any backend that is given an `UploadBuilder`: messages, then at most one upload. */
  method UploadBackend(resp: Responder) returns (r: CommandResult)
    requires !resp.failed && resp.remaining == 0
    requires Balanced(resp.transport.current, 0) && Announcements(resp.transport.current) == 0
    modifies resp, resp.transport`current, resp.transport`faults
    ensures r.Fits() && Blamed(resp)
    ensures !resp.failed ==> Balanced(resp.transport.current, resp.remaining)
    ensures !resp.failed ==> Calls(resp.transport.current) == Calls(old(resp.transport.current))
    ensures |old(resp.transport.current)| <= |resp.transport.current|
    ensures resp.transport.current[..|old(resp.transport.current)|] == old(resp.transport.current)
  {
    r := InfoBackend(resp);
    var size: int :| size >= 0;
    var start: bool := *;
    if start && size < U64_LIMIT {
      if !resp.failed {
        BalancedAppend(resp.transport.current, 0, Sent(Data(size)), size);
      }
      var ok := resp.InitiateUpload(size);
      if ok {
        UploadMany(resp);
      }
    }
    var res: CommandResult := *;
    return if res.Fits() then res else Bad("");
  }

  method UploadMany(resp: Responder)
    requires !resp.failed && Balanced(resp.transport.current, resp.remaining)
    modifies resp, resp.transport`current, resp.transport`faults
    ensures Blamed(resp)
    ensures !resp.failed ==> Balanced(resp.transport.current, resp.remaining)
    ensures !resp.failed ==> Calls(resp.transport.current) == Calls(old(resp.transport.current))
    ensures |old(resp.transport.current)| <= |resp.transport.current|
    ensures resp.transport.current[..|old(resp.transport.current)|] == old(resp.transport.current)
  {
    var n: int :| n >= 0;
    for i := 0 to n
      invariant Blamed(resp)
      invariant !resp.failed ==> Balanced(resp.transport.current, resp.remaining)
      invariant !resp.failed ==> Calls(resp.transport.current) == Calls(old(resp.transport.current))
      invariant |old(resp.transport.current)| <= |resp.transport.current|
      invariant resp.transport.current[..|old(resp.transport.current)|] == old(resp.transport.current)
    {
      var data: Bytes := *;
      if !resp.failed && |data| <= resp.remaining {
        BalancedAppend(resp.transport.current, resp.remaining, Sent(Payload(data)), resp.remaining - |data|);
      }
      var ok := resp.Upload(data);
    }
  }

  // ----- Command handlers --------------------------------------------------------------------

  /** The trace ends in a reply. */
  predicate EndsInReply(t: Trace) {
    t != [] && t[|t| - 1].Sent? && t[|t| - 1].packet.IsReply()
  }

  /** The reply to what the backend returned; only `getvar` and `oem` pass its message on. */
  function ReplyTo(calls: seq<Call>, r: CommandResult): Packet {
    if r.Bad? then Fail(r.msg)
    else if calls == [Boot] then Okay("boot_command")
    else if |calls| == 1 && (calls[0].GetVar? || calls[0].Oem?) then Okay(r.msg)
    else Okay("")
  }

  predicate BackendIdle(t: Trace) {
    forall i :: 0 <= i < |t| ==> !t[i].Complete? && !t[i].Returned?
  }

  /** The reply `p` is due after `t`: the backend was not called at all, or it has just returned with that result. */
  predicate Due(t: Trace, p: Packet) {
    t != [] &&
    if t[|t| - 1].Returned? then p == ReplyTo(Calls(t), t[|t| - 1].result)
    else Calls(t) == [] && BackendIdle(t)
  }

  /** A whole command, answered as it must be. */
  ghost predicate Answered(t: Trace) {
    && Sound(t)
    && (t[0].text == [] ==> |t| == 1)
    && (t[0].text != [] ==>
          && EndsInReply(t) && Due(t[..|t| - 1], t[|t| - 1].packet)
          && (if OkaysItself(t[0].text) then Replies(t) <= 2 else Replies(t) == 1)
          && Announcements(t) <= 1
          && Calls(t) == Routed(t[0].text)
          && (Uploads(t[0].text) ==> Announced(t) == Uploaded(t))
          && (!Uploads(t[0].text) ==> Uploaded(t) == 0))
  }

  // ----- What is answered without a call -------------------------------------------------------

  predicate HandedOver(t: Trace) {
    exists k :: 0 <= k < |t| && t[k].Complete?
  }

  /** A good size is announced, and the data handed over if exactly so much arrives; a bad size is refused. */
  ghost predicate ServesDownload(t: Trace, room: nat)
    requires t != [] && t[0].Command?
  {
    var size := DownloadSize(t[0].text);
    if size.Some? && 0 < size.value <= room then
      |t| > 2 && t[1] == Sent(Data(size.value)) && (HandedOver(t) <==> |Downloaded(t)| == size.value)
    else
      |t| == 2 && t[1].Sent? && t[1].packet.Fail?
  }

  /** What is wrong with a command that leads to no call; nothing is said of `fetch`. */
  function Complaint(name: Bytes): Option<Bytes> {
    if name == "flash" || name == "erase" then Some("Missing partition")
    else if name == "set_active" then Some("Missing slot")
    else if name == "getvar" then Some("Missing variable")
    else if name == "fetch" then None
    else Some("Command not found")
  }

  ghost predicate Refused(t: Trace, msg: Option<Bytes>) {
    |t| == 2 && t[1].Sent? && t[1].packet.Fail? && (msg.Some? ==> t[1].packet.msg == msg.value)
  }

  /** A command is served: `room` is the size of the download buffer, and `maxDownload` that size as it is printed. */
  ghost predicate Served(t: Trace, maxDownload: Bytes, room: nat)
    requires t != [] && t[0].Command?
  {
    var text := t[0].text;
    if text == [] then true
    else if !ValidUtf8(text) then Refused(t, Some("Invalid Command"))
    else if Name(text) == "download" then ServesDownload(t, room)
    else if Name(text) == "getvar" && VariableName(text) == Some("max-download-size") then
      t == [t[0], Sent(Okay(maxDownload))]
    else if Route(text) == Some(GetVarAll) then |t| > 2 && t[1] == Sent(Info("max-download-size: " + maxDownload))
    else if Route(text).None? then Refused(t, Complaint(Name(text)))
    else true
  }

  /** A handler is entered with nothing but the command in the trace. */
  ghost predicate Fresh(t: Trace, text: Bytes) {
    t == [Command(text)] && text != []
  }

  lemma FreshAccounts(t: Trace, text: Bytes)
    requires Fresh(t, text)
    ensures Sound(t) && Replies(t) == 0 && Balanced(t, 0) && Announcements(t) == 0
    ensures Uploaded(t) == 0 && Downloaded(t) == [] && Calls(t) == []
  {
    assert t[..0] == [];
  }

  /** Sends the final reply. */
  method Reply(resp: Responder, r: CommandResult) returns (ok: bool)
    requires r.Fits()
    modifies resp`failed, resp.transport`current, resp.transport`faults
    ensures old(resp.failed) ==> !ok
    ensures ok ==>
      resp.transport.current == old(resp.transport.current) + [Sent(if r.Good? then Okay(r.msg) else Fail(r.msg))]
    ensures !ok ==> resp.transport.current == old(resp.transport.current)
    ensures Blamed(resp) && (!ok ==> resp.failed)
  {
    if r.Good? {
      ok := resp.SendMessage(Okay(r.msg));
    } else {
      ok := resp.SendMessage(Fail(r.msg));
    }
  }

  /** Sending the final reply completes the command. */
  lemma ReplyAnswers(t: Trace, p: Packet)
    requires Sound(t) && t[0].text != [] && p.IsReply() && Announcements(t) <= 1
    requires if OkaysItself(t[0].text) then Replies(t) <= 1 else Replies(t) == 0
    requires Uploads(t[0].text) ==> Announced(t) == Uploaded(t)
    requires !Uploads(t[0].text) ==> Uploaded(t) == 0
    requires Calls(t) == Routed(t[0].text) && Due(t, p)
    ensures Answered(t + [Sent(p)])
  {
    assert (t + [Sent(p)])[..|t|] == t;
    SoundAppend(t, Sent(p));
    Account(t, Sent(p));
  }

  /** So does the reply to what the backend returns. */
  lemma ReturnAnswers(t: Trace, r: CommandResult)
    requires Sound(t) && t[0].text != [] && Announcements(t) <= 1
    requires if OkaysItself(t[0].text) then Replies(t) <= 1 else Replies(t) == 0
    requires Uploads(t[0].text) ==> Announced(t) == Uploaded(t)
    requires !Uploads(t[0].text) ==> Uploaded(t) == 0
    requires Calls(t) == Routed(t[0].text)
    ensures Answered(t + [Returned(r)] + [Sent(ReplyTo(Calls(t), r))])
  {
    hide OkaysItself, Uploads, Routed, ReplyTo;
    Account(t, Returned(r));
    SoundAppend(t, Returned(r));
    IsReplyTo(Calls(t), r);
    ReplyAnswers(t + [Returned(r)], ReplyTo(Calls(t), r));
  }

  lemma IsReplyTo(calls: seq<Call>, r: CommandResult)
    ensures ReplyTo(calls, r).IsReply()
  {
  }

  /** The backend is called. */
  method Invoke(t: Transport, text: Bytes, call: Call)
    requires Fresh(t.current, text)
    modifies t`current, t`faults
    ensures t.current == [Command(text), Called(call)] && Sound(t.current) && t.faults == old(t.faults)
    ensures Calls(t.current) == [call] && Replies(t.current) == 0 && Uploaded(t.current) == 0
    ensures Announcements(t.current) == 0 && Balanced(t.current, 0)
  {
    FreshAccounts(t.current, text);
    BalancedAppend(t.current, 0, Called(call), 0);
    Account(t.current, Called(call));
    t.current := t.current + [Called(call)];
  }

  /** Nothing is missing but messages and the reply. */
  ghost predicate Answerable(t: Trace, text: Bytes) {
    && Sound(t) && t[0] == Command(text) && text != [] && !OkaysItself(text) && !Uploads(text)
    && Replies(t) == 0 && Uploaded(t) == 0 && Announcements(t) <= 1 && Calls(t) == Routed(text)
  }

  lemma StaysAnswerable(t: Trace, t': Trace, text: Bytes)
    requires Answerable(t, text) && OnlyInfo(t, t')
    ensures Answerable(t', text)
  {
    assert t'[..|t|][0] == t[0];
  }

  lemma AnswerableAnswers(t: Trace, text: Bytes, p: Packet)
    requires Answerable(t, text) && p.IsReply() && Due(t, p)
    ensures Answered(t + [Sent(p)]) && Downloaded(t + [Sent(p)]) == Downloaded(t)
  {
    Account(t, Sent(p));
    ReplyAnswers(t, p);
  }

  lemma AnswerableReturns(t: Trace, text: Bytes, r: CommandResult)
    requires Answerable(t, text)
    ensures var t' := t + [Returned(r)];
            && Answerable(t', text) && Calls(t') == Calls(t) && Due(t', ReplyTo(Calls(t), r))
            && Downloaded(t') == Downloaded(t)
  {
    Account(t, Returned(r));
    SoundAppend(t, Returned(r));
  }

  /** Whether the reply shows the message that the backend returned. */
  predicate Shows(calls: seq<Call>) {
    |calls| == 1 && (calls[0].GetVar? || calls[0].Oem?)
  }

  /** The backend sends its messages, and its result is the reply. */
  method AskAndReply(resp: Responder, text: Bytes, shows: bool) returns (ok: bool)
    requires Answerable(resp.transport.current, text) && (shows <==> Shows(Calls(resp.transport.current)))
    requires Calls(resp.transport.current) != [Boot]
    modifies resp`failed, resp.transport`current, resp.transport`faults
    ensures ok ==> Answered(resp.transport.current) && resp.transport.current[0] == Command(text)
    ensures ok ==> |old(resp.transport.current)| < |resp.transport.current|
    ensures ok ==> resp.transport.current[..|old(resp.transport.current)|] == old(resp.transport.current)
    ensures ok ==> Downloaded(resp.transport.current) == Downloaded(old(resp.transport.current))
    ensures Blamed(resp) && (!ok ==> resp.failed)
  {
    hide Answerable, Answered, Calls, Announcements, Announced, Uploaded, Downloaded, Replies;
    var t := resp.transport;
    ghost var before := t.current;
    var r := InfoBackend(resp);
    StaysAnswerable(before, t.current, text);
    AnswerableReturns(t.current, text, r);
    ghost var calls := Calls(t.current);
    assert t.current[0] == Command(text) by { StartsWithCommand(t.current, text); }
    t.current := t.current + [Returned(r)];
    var shown := if r.Good? && !shows then Good("") else r;
    AnswerableAnswers(t.current, text, ReplyTo(calls, r));
    ok := Reply(resp, shown);
  }

  lemma StartsWithCommand(t: Trace, text: Bytes)
    requires Answerable(t, text)
    ensures t != [] && t[0] == Command(text)
  {
  }

  /** A backend with an `InfoSender`, if the arguments are in order, and then a reply. */
  method HandleWithInfo(t: Transport, text: Bytes, call: Option<Call>, argumentError: Bytes) returns (ok: bool)
    requires Fresh(t.current, text) && !OkaysItself(text) && !Uploads(text)
    requires Bad(argumentError).Fits() && call == Route(text) && call != Some(Boot)
    modifies t`current, t`faults
    ensures ok ==> Answered(t.current) && t.current[0] == Command(text)
    ensures ok && call.None? ==> t.current == [Command(text), Sent(Fail(argumentError))]
    ensures t.faults >= old(t.faults) && (!ok ==> t.faults > old(t.faults))
  {
    hide Route, Name, OkaysItself, Uploads;
    FreshAccounts(t.current, text);
    var resp := new Responder(t);
    if call.None? {
      AnswerableAnswers(t.current, text, Fail(argumentError));
      ok := Reply(resp, Bad(argumentError));
    } else {
      Invoke(t, text, call.value);
      ok := AskAndReply(resp, text, call.value.GetVar? || call.value.Oem?);
    }
  }

  /** `boot` and `reboot`: the backend may have sent an OKAY of its own. */
  method HandleWithOkay(t: Transport, text: Bytes, call: Call) returns (ok: bool)
    requires Fresh(t.current, text) && OkaysItself(text) && Route(text) == Some(call) && (call.Boot? || call.Reboot?)
    modifies t`current, t`faults
    ensures ok ==> Answered(t.current) && t.current[0] == Command(text)
    ensures t.faults >= old(t.faults) && (!ok ==> t.faults > old(t.faults))
    ensures ok ==> EndsInReply(t.current) && (call.Reboot? ==> t.current[|t.current| - 1].packet.Fail?)
  {
    hide Route, Name, Uploads, OkaysItself, Calls, Replies, Announcements, Answered;
    Invoke(t, text, call);
    var resp := new Responder(t);
    var r, okays := OkayBackend(resp);
    // `reboot` returns only to report an error.
    r := if call.Reboot? && r.Good? then Bad("") else r;
    NotUploading(text);
    assert t.current[0] == Command(text);
    ReturnAnswers(t.current, r);
    t.current := t.current + [Returned(r)];
    ok := Reply(resp, if r.Good? then Good("boot_command") else r);
  }

  lemma NotUploading(text: Bytes)
    requires OkaysItself(text)
    ensures !Uploads(text)
  {
  }

  /** The backend did not send all that it had announced. */
  predicate Unfinished(t: Trace) {
    Uploaded(t) < Announced(t)
  }

  /** `upload` and `fetch`: no reply at all unless everything announced has been sent. */
  method HandleUpload(t: Transport, text: Bytes, call: Option<Call>) returns (ok: bool)
    requires Fresh(t.current, text) && Uploads(text) && call == Route(text)
    requires call.Some? ==> call.value.Upload? || call.value.Fetch?
    modifies t`current, t`faults
    ensures ok ==> Answered(t.current) && t.current[0] == Command(text)
    ensures ok && call.None? ==> Refused(t.current, None)
    ensures t.faults >= old(t.faults) && (!ok ==> t.faults > old(t.faults) || Unfinished(t.current))
  {
    hide Route, Name, Uploads, OkaysItself, Calls, Replies, Announcements, Answered;
    FreshAccounts(t.current, text);
    var resp := new Responder(t);
    var r;
    if call.None? {
      r := Bad("Not enough argments");
    } else {
      Invoke(t, text, call.value);
      r := UploadBackend(resp);
    }
    if resp.remaining > 0 {
      return false;
    }
    NotOkaying(text);
    if call.None? {
      ReplyAnswers(t.current, Fail(r.msg));
    } else {
      assert t.current[0] == Command(text);
      if !resp.failed {
        ReturnAnswers(t.current, r);
      }
      t.current := t.current + [Returned(r)];
    }
    ok := Reply(resp, if r.Good? then Good("") else r);
  }

  lemma NotOkaying(text: Bytes)
    requires Uploads(text)
    ensures !OkaysItself(text)
  {
  }

  /** Announced and received so far, with nothing else on the wire. */
  ghost predicate Receiving(t: Trace, text: Bytes, total: nat, received: Bytes) {
    && Sound(t) && t[0] == Command(text) && Replies(t) == 0 && Uploaded(t) == 0
    && Announcements(t) == 1 && Announced(t) == total && Downloaded(t) == received && Calls(t) == []
    && BackendIdle(t) && |t| >= 2 && t[1] == Sent(Data(total))
  }

  lemma ReceivingStarts(t: Trace, text: Bytes, total: nat)
    requires Fresh(t, text)
    ensures Receiving(t + [Sent(Data(total))], text, total, [])
  {
    FreshAccounts(t, text);
    Account(t, Sent(Data(total)));
    SoundAppend(t, Sent(Data(total)));
  }

  lemma ReceivingChunk(t: Trace, text: Bytes, total: nat, received: Bytes, data: Bytes)
    requires Receiving(t, text, total, received)
    ensures Receiving(t + [Chunk(data)], text, total, received + data)
  {
    Account(t, Chunk(data));
    SoundAppend(t, Chunk(data));
  }

  lemma ReceivingDone(t: Trace, text: Bytes, total: nat, received: Bytes)
    requires Receiving(t, text, total, received) && |received| == total
    requires text != [] && !OkaysItself(text) && !Uploads(text) && Route(text) == None
    ensures Answerable(t + [Complete(received)], text) && Calls(t + [Complete(received)]) == []
    ensures Downloaded(t + [Complete(received)]) == received
  {
    Account(t, Complete(received));
    SoundAppend(t, Complete(received));
  }

  method RefuseDownload(resp: Responder, text: Bytes, msg: Bytes) returns (ok: bool)
    requires Fail(msg).Fits() && text != [] && !OkaysItself(text) && !Uploads(text)
    requires Sound(resp.transport.current) && resp.transport.current[0] == Command(text)
    requires Replies(resp.transport.current) == 0 && Uploaded(resp.transport.current) == 0
    requires Announcements(resp.transport.current) <= 1
    requires Calls(resp.transport.current) == [] && Route(text) == None && BackendIdle(resp.transport.current)
    modifies resp`failed, resp.transport`current, resp.transport`faults
    ensures ok ==> Answered(resp.transport.current) && resp.transport.current[0] == Command(text)
    ensures ok ==> resp.transport.current == old(resp.transport.current) + [Sent(Fail(msg))]
    ensures ok ==> !HandedOver(resp.transport.current)
    ensures ok ==> Downloaded(resp.transport.current) == Downloaded(old(resp.transport.current))
    ensures Blamed(resp) && (!ok ==> resp.failed)
  {
    Account(resp.transport.current, Sent(Fail(msg)));
    ReplyAnswers(resp.transport.current, Fail(msg));
    ok := Reply(resp, Bad(msg));
  }

  /** A packet of a size that cannot be added up in 64 bits. */
  ghost predicate Oversized(t: Trace, limit: nat) {
    exists i :: 0 <= i < |t| && t[i].Chunk? && |t[i].data| + limit >= U64_LIMIT
  }

  /** `download`: announce, receive into the buffer chunk by chunk, hand over, reply. */
  method HandleDownload(t: Transport, text: Bytes, buffer: array<char>) returns (ok: bool)
    requires Fresh(t.current, text) && !OkaysItself(text) && !Uploads(text) && Route(text) == None
    modifies t`current, t`input, t`faults, buffer
    ensures ok ==> Answered(t.current) && t.current[0] == Command(text) && ServesDownload(t.current, buffer.Length)
    ensures ok && t.current[|t.current| - 1].packet.Okay? ==>
              && DownloadSize(text).Some? && 0 < DownloadSize(text).value <= buffer.Length
              && Complete(buffer[..DownloadSize(text).value]) in t.current
    ensures |t.input| <= |old(t.input)|
    ensures t.faults >= old(t.faults) && (!ok ==> t.faults > old(t.faults) || Oversized(t.current, buffer.Length))
  {
    hide Route, Name, OkaysItself, Uploads, DownloadSize;
    hide Announced, Uploaded, Downloaded, Calls, Replies, Announcements;
    FreshAccounts(t.current, text);
    var resp := new Responder(t);
    var size := DownloadSize(text);
    if size.None? {
      ok := RefuseDownload(resp, text, "Not enough argument");
      return;
    }
    var total := size.value;
    if total > buffer.Length {
      ok := RefuseDownload(resp, text, "Download size is too big");
      return;
    } else if total == 0 {
      ok := RefuseDownload(resp, text, "Zero download size");
      return;
    }
    ReceivingStarts(t.current, text, total);
    ok := resp.SendMessage(Data(total));
    if !ok {
      return false;
    }
    var progress := ReceiveAll(t, text, total, buffer);
    if progress == Lost {
      return false;
    } else if progress == TooMuch {
      ok := RefuseDownload(resp, text, "More data received then expected");
    } else {
      ok := HandOver(resp, text, total, buffer);
    }
  }

  datatype Progress = AllReceived | TooMuch | Lost

  /** The loop of `download`; an empty packet is merely waited out. */
  method ReceiveAll(t: Transport, text: Bytes, total: nat, buffer: array<char>) returns (progress: Progress)
    requires total <= buffer.Length && Receiving(t.current, text, total, [])
    modifies t`current, t`input, t`faults, buffer
    ensures |t.input| <= |old(t.input)|
    ensures progress == AllReceived ==> Receiving(t.current, text, total, buffer[..total])
    ensures progress == TooMuch ==>
      exists received :: Receiving(t.current, text, total, received) && |received| > total
    ensures t.faults >= old(t.faults)
    ensures progress == Lost ==> t.faults > old(t.faults) || Oversized(t.current, buffer.Length)
  {
    var downloaded: nat := 0;
    while downloaded < total
      invariant downloaded <= total && |t.input| <= |old(t.input)| && t.faults == old(t.faults)
      invariant Receiving(t.current, text, total, buffer[..downloaded])
      decreases |t.input|
    {
      ghost var before, held := t.current, buffer[..downloaded];
      var received := t.ReceiveInto(buffer, downloaded, total);
      if received.None? {
        return Lost;
      }
      if downloaded + received.value >= U64_LIMIT {
        assert t.current[|t.current| - 1].Chunk? && |t.current[|t.current| - 1].data| == received.value;
        return Lost;
      }
      if downloaded + received.value > total {
        ghost var data :| |data| == received.value && t.current == before + [Chunk(data)];
        ReceivingChunk(before, text, total, held, data);
        return TooMuch;
      }
      ReceivingChunk(before, text, total, held, buffer[downloaded..downloaded + received.value]);
      assert buffer[..downloaded + received.value] == held + buffer[downloaded..downloaded + received.value];
      downloaded := downloaded + received.value;
    }
    return AllReceived;
  }

  method HandOver(resp: Responder, text: Bytes, total: nat, buffer: array<char>) returns (ok: bool)
    requires text != [] && !OkaysItself(text) && !Uploads(text) && Route(text) == None
    requires total <= buffer.Length && Receiving(resp.transport.current, text, total, buffer[..total])
    modifies resp`failed, resp.transport`current, resp.transport`faults
    ensures ok ==> Answered(resp.transport.current) && resp.transport.current[0] == Command(text)
    ensures ok ==> Complete(buffer[..total]) in resp.transport.current
    ensures ok ==> HandedOver(resp.transport.current) && |Downloaded(resp.transport.current)| == total
    ensures ok ==> |resp.transport.current| > 2 && resp.transport.current[1] == Sent(Data(total))
    ensures Blamed(resp) && (!ok ==> resp.failed)
  {
    hide Answerable, Answered, Route, OkaysItself, Uploads;
    hide Calls, Announcements, Announced, Uploaded, Downloaded, Replies;
    var t, data := resp.transport, buffer[..total];
    ReceivingDone(t.current, text, total, data);
    t.current := t.current + [Complete(data)];
    ghost var handed := t.current;
    assert handed[|handed| - 1] == Complete(data);
    ok := AskAndReply(resp, text, false);
    assert ok ==> t.current[..|handed|][|handed| - 1] == Complete(data);
  }

  // ----- The command loop --------------------------------------------------------------------

  const MAX_COMMAND_SIZE := 4096

  /** A reply sent without a responder. */
  method RefuseCommand(t: Transport, text: Bytes, msg: Bytes) returns (ok: bool)
    requires Fresh(t.current, text) && Route(text) == None
    modifies t`current, t`faults
    ensures ok ==> Answered(t.current) && t.current[0] == Command(text)
    ensures ok ==> t.current == [Command(text), Sent(Fail(msg))]
    ensures t.faults >= old(t.faults) && (!ok ==> t.faults > old(t.faults))
  {
    FreshAccounts(t.current, text);
    ReplyAnswers(t.current, Fail(msg));
    ok := t.SendPacket(Fail(msg));
  }

  /** `getvar`: the size of the download buffer is answered at once, and leads the list of all variables. */
  method HandleGetVar(t: Transport, text: Bytes, maxDownload: Bytes) returns (ok: bool)
    requires Fresh(t.current, text) && !OkaysItself(text) && !Uploads(text) && Route(text) == RouteVariable(text)
    requires Okay(maxDownload).Fits() && Info("max-download-size: " + maxDownload).Fits()
    modifies t`current, t`faults
    ensures ok ==> Answered(t.current) && t.current[0] == Command(text)
    ensures t.faults >= old(t.faults) && (!ok ==> t.faults > old(t.faults))
    ensures ok && VariableName(text) == Some("max-download-size") ==>
      t.current == [Command(text), Sent(Okay(maxDownload))]
    ensures ok && VariableName(text) == Some("all") ==>
              |t.current| > 2 && t.current[1] == Sent(Info("max-download-size: " + maxDownload))
    ensures ok && VariableName(text).None? ==> Refused(t.current, Some("Missing variable"))
  {
    hide Route, Name, OkaysItself, Uploads, VariableName, Split, UpTo;
    var name := VariableName(text);
    if name == Some("max-download-size") {
      FreshAccounts(t.current, text);
      var resp := new Responder(t);
      ReplyAnswers(t.current, Okay(maxDownload));
      ok := Reply(resp, Good(maxDownload));
    } else if name == Some("all") {
      ok := HandleGetVarAll(t, text, maxDownload);
    } else {
      ok := HandleWithInfo(t, text, RouteVariable(text), "Missing variable");
    }
  }

  lemma FreshIs(t: Trace, text: Bytes)
    requires Fresh(t, text)
    ensures t == [Command(text)]
  {
  }

  /** The first variable, and then the call for the others. */
  lemma ListingStarts(t: Trace, text: Bytes, msg: Bytes)
    requires Fresh(t, text) && !OkaysItself(text) && !Uploads(text) && Route(text) == Some(GetVarAll)
    ensures var t' := t + [Sent(Info(msg))] + [Called(GetVarAll)]; Answerable(t', text) && Calls(t') == [GetVarAll]
  {
    hide Route, OkaysItself, Uploads, Calls, Replies, Announcements, Announced, Uploaded, Downloaded;
    FreshAccounts(t, text);
    var t1 := t + [Sent(Info(msg))];
    Account(t, Sent(Info(msg)));
    SoundAppend(t, Sent(Info(msg)));
    Account(t1, Called(GetVarAll));
    SoundAppend(t1, Called(GetVarAll));
  }

  /** If the first of the variables cannot be sent, the backend is not asked for the others. */
  method HandleGetVarAll(t: Transport, text: Bytes, maxDownload: Bytes) returns (ok: bool)
    requires Fresh(t.current, text) && !OkaysItself(text) && !Uploads(text) && Route(text) == Some(GetVarAll)
    requires Info("max-download-size: " + maxDownload).Fits()
    modifies t`current, t`faults
    ensures ok ==> Answered(t.current) && t.current[0] == Command(text)
    ensures ok ==> |t.current| > 2 && t.current[1] == Sent(Info("max-download-size: " + maxDownload))
    ensures t.faults >= old(t.faults) && (!ok ==> t.faults > old(t.faults))
  {
    hide Answerable, Answered, Fresh, Route, Calls;
    ghost var first := Info("max-download-size: " + maxDownload);
    ListingStarts(t.current, text, first.msg);
    assert t.current == [Command(text)] by { FreshIs(t.current, text); }
    var resp := new Responder(t);
    var sent := resp.SendMessage(Info("max-download-size: " + maxDownload));
    if !sent {
      ok := Reply(resp, Bad(""));
      return;
    }
    t.current := t.current + [Called(GetVarAll)];
    ghost var called := t.current;
    ok := AskAndReply(resp, text, false);
    assert ok ==> t.current[..|called|] == called;
  }

  lemma VariableServed(t: Trace, text: Bytes, maxDownload: Bytes, room: nat)
    requires Answered(t) && t[0] == Command(text) && ValidUtf8(text) && Name(text) == "getvar"
    requires Route(text) == RouteVariable(text)
    requires VariableName(text) == Some("max-download-size") ==> t == [Command(text), Sent(Okay(maxDownload))]
    requires VariableName(text) == Some("all") ==>
               |t| > 2 && t[1] == Sent(Info("max-download-size: " + maxDownload))
    requires VariableName(text).None? ==> Refused(t, Some("Missing variable"))
    ensures Served(t, maxDownload, room)
  {
    hide Route, Name, VariableName, UpTo, Split, ValidUtf8;
  }

  lemma DownloadServed(t: Trace, text: Bytes, maxDownload: Bytes, room: nat)
    requires Answered(t) && t[0] == Command(text) && ValidUtf8(text) && Name(text) == "download"
    requires ServesDownload(t, room)
    ensures Served(t, maxDownload, room)
  {
    hide Route, Name, ServesDownload, ValidUtf8;
  }

  lemma OtherServed(t: Trace, text: Bytes, maxDownload: Bytes, room: nat)
    requires Answered(t) && t[0] == Command(text) && ValidUtf8(text)
    requires Name(text) != "download" && Name(text) != "getvar" && Route(text) != Some(GetVarAll)
    requires Route(text).None? ==> Refused(t, Complaint(Name(text)))
    ensures Served(t, maxDownload, room)
  {
    hide Route, Name, VariableName, ValidUtf8;
  }

  /** Dispatches a well-formed command; `maxDownload` is the buffer size as it is printed. */
  method Dispatch(t: Transport, text: Bytes, buffer: array<char>, maxDownload: Bytes) returns (ok: bool)
    requires Fresh(t.current, text) && ValidUtf8(text)
    requires Okay(maxDownload).Fits() && Info("max-download-size: " + maxDownload).Fits()
    modifies t`current, t`input, t`faults, buffer
    ensures ok ==> Answered(t.current) && t.current[0] == Command(text) && Served(t.current, maxDownload, buffer.Length)
    ensures |t.input| <= |old(t.input)| && t.faults >= old(t.faults)
    ensures !ok ==> t.faults > old(t.faults) || Unfinished(t.current) || Oversized(t.current, buffer.Length)
  {
    hide Answered, Fresh, Split, StripPrefix, ParseFetch, RouteVariable, Packet.Fits, ValidUtf8;
    hide ServesDownload, Served, OkaysItself, Uploads, Refused, VariableName;
    var name := Name(text);
    Kinds(text);
    if name == "boot" {
      ok := HandleWithOkay(t, text, Boot);
    } else if name == "download" {
      ok := HandleDownload(t, text, buffer);
      if ok {
        DownloadServed(t.current, text, maxDownload, buffer.Length);
      }
      return;
    } else if name == "fetch" {
      var args := ParseFetch(text);
      ok := HandleUpload(t, text, if args.Some? then Some(Fetch(args.value)) else None);
    } else if name == "getvar" {
      ok := HandleGetVar(t, text, maxDownload);
      if ok {
        VariableServed(t.current, text, maxDownload, buffer.Length);
      }
      return;
    } else if name == "reboot" {
      ok := HandleWithOkay(t, text, Reboot(Normal));
    } else if name == "reboot-bootloader" {
      ok := HandleWithOkay(t, text, Reboot(Bootloader));
    } else if name == "reboot-fastboot" {
      ok := HandleWithOkay(t, text, Reboot(RebootMode.Fastboot));
    } else if name == "reboot-recovery" {
      ok := HandleWithOkay(t, text, Reboot(Recovery));
    } else if name == "upload" {
      ok := HandleUpload(t, text, Some(Upload));
    } else {
      ok := DispatchPlain(t, text, name);
    }
    if ok {
      OtherServed(t.current, text, maxDownload, buffer.Length);
    }
  }

  /** The commands whose backends send only messages, and unknown commands. */
  method DispatchPlain(t: Transport, text: Bytes, name: Bytes) returns (ok: bool)
    requires Fresh(t.current, text) && ValidUtf8(text) && name == Name(text)
    requires !OkaysItself(text) && !Uploads(text) && name != "download" && name != "getvar"
    modifies t`current, t`faults
    ensures ok ==> Answered(t.current) && t.current[0] == Command(text)
    ensures ok && Route(text).None? ==> Refused(t.current, Complaint(name))
    ensures Route(text) != Some(GetVarAll)
    ensures t.faults >= old(t.faults) && (!ok ==> t.faults > old(t.faults))
  {
    hide Answered, Fresh, Split, StripPrefix, ParseFetch, RouteVariable, ValidUtf8, OkaysItself, Uploads;
    Kinds(text);
    if name == "continue" {
      ok := HandleWithInfo(t, text, Some(Continue), "");
    } else if name == "erase" {
      var call := if "erase:" <= text then Some(Erase(text[6..])) else None;
      ok := HandleWithInfo(t, text, call, "Missing partition");
    } else if name == "flash" {
      var call := if "flash:" <= text then Some(Flash(text[6..])) else None;
      ok := HandleWithInfo(t, text, call, "Missing partition");
    } else if name == "set_active" {
      var slot := NonEmpty(Split(text, ':')[1..], 0);
      ok := HandleWithInfo(t, text, if slot.Some? then Some(SetActive(slot.value)) else None, "Missing slot");
    } else if "oem " <= text {
      ok := HandleWithInfo(t, text, Some(Oem(text[4..])), "");
    } else {
      ok := RefuseCommand(t, text, "Command not found");
    }
  }

  /** The backend was called exactly as the command says. */
  ghost predicate Obeys(t: Trace)
    requires t != [] && t[0].Command?
  {
    forall call :: Calls(t) == [call] <==> ValidUtf8(t[0].text) && Spells(t[0].text, call)
  }

  lemma CallsMeant(t: Trace)
    requires Answered(t) && t[0].text != []
    ensures t != [] && t[0].Command? && Obeys(t) && Calls(t) == Routed(t[0].text)
  {
    hide Spells, Route, Name, ValidUtf8;
    forall call ensures Calls(t) == [call] <==> ValidUtf8(t[0].text) && Spells(t[0].text, call) {
      RouteIff(t[0].text, call);
    }
  }

  lemma NotRouted(text: Bytes)
    requires !ValidUtf8(text)
    ensures Route(text) == None
  {
  }

  lemma InvalidServed(t: Trace, text: Bytes, maxDownload: Bytes, room: nat)
    requires t == [Command(text), Sent(Fail("Invalid Command"))] && !ValidUtf8(text)
    ensures Served(t, maxDownload, room)
  {
    hide ValidUtf8;
  }

  lemma EmptyAnswered(t: Trace, maxDownload: Bytes, room: nat)
    requires t == [Command([])]
    ensures Answered(t) && Served(t, maxDownload, room) && Calls(t) == [] && !Leaving([])
  {
    assert t[..0] == [];
  }

  /** `None` is an error of the transport or an unfinished upload; otherwise, whether to stop. */
  method ProcessNextCommand(t: Transport, buffer: array<char>, maxDownload: Bytes) returns (r: Option<bool>)
    requires Okay(maxDownload).Fits() && Info("max-download-size: " + maxDownload).Fits()
    modifies t, buffer
    ensures r.Some? ==> Answered(t.current) && Served(t.current, maxDownload, buffer.Length)
    ensures r.Some? && t.current[0].text != [] ==> Obeys(t.current)
    ensures r.Some? ==> (r.value <==> Leaving(t.current[0].text))
    ensures r.Some? ==> (r.value <==> Calls(t.current) == [Boot] || Calls(t.current) == [Continue])
    ensures r.Some? ==> t.past == old(t.past) + [old(t.current)] && |t.input| < |old(t.input)|
    ensures r.None? ==> t.past == old(t.past) || t.past == old(t.past) + [old(t.current)]
    ensures |t.input| <= |old(t.input)| && t.faults >= old(t.faults)
    ensures r.None? ==> t.faults > old(t.faults) || Unfinished(t.current) || Oversized(t.current, buffer.Length)
  {
    hide Answered, Served, Spells, Leaving, Route, ValidUtf8;
    var received := t.ReceiveCommand(MAX_COMMAND_SIZE);
    if received.None? {
      return None;
    }
    var text := received.value;
    var ok;
    if text == [] {
      EmptyAnswered(t.current, maxDownload, buffer.Length);
      return Some(false);
    } else if !ValidUtf8(text) {
      assert Route(text) == None by { NotRouted(text); }
      ok := RefuseCommand(t, text, "Invalid Command");
      if ok {
        InvalidServed(t.current, text, maxDownload, buffer.Length);
      }
    } else {
      ok := Dispatch(t, text, buffer, maxDownload);
    }
    if !ok {
      return None;
    }
    CallsMeant(t.current);
    LeavingIff(text);
    return Some(Leaving(text));
  }

  /** The session as a whole: every completed command was answered, and only the last one leaves. */
  method Run(t: Transport, buffer: array<char>, maxDownload: Bytes) returns (ok: bool)
    requires Okay(maxDownload).Fits() && Info("max-download-size: " + maxDownload).Fits()
    modifies t, buffer
    ensures |old(t.past)| <= |t.past|
    ensures forall i :: |old(t.past)| < i < |t.past| ==> Answered(t.past[i]) && !Leaving(t.past[i][0].text)
    ensures ok ==> Answered(t.current) && Leaving(t.current[0].text)
    ensures !ok ==> t.faults > old(t.faults) || Unfinished(t.current) || Oversized(t.current, buffer.Length)
  {
    var next := ProcessNextCommand(t, buffer, maxDownload);
    while next == Some(false)
      invariant |old(t.past)| <= |t.past| && t.faults >= old(t.faults)
      invariant next.None? ==> t.faults > old(t.faults) || Unfinished(t.current) || Oversized(t.current, buffer.Length)
      invariant forall i :: |old(t.past)| < i < |t.past| ==> Answered(t.past[i]) && !Leaving(t.past[i][0].text)
      invariant next.Some? ==>
        |old(t.past)| < |t.past| && Answered(t.current) && (next.value <==> Leaving(t.current[0].text))
      decreases |t.input| + if next.Some? then 1 else 0
    {
      next := ProcessNextCommand(t, buffer, maxDownload);
    }
    return next.Some?;
  }

  // ----- What this means for the host --------------------------------------------------------

  lemma {:induction false} NothingAnnounced(t: Trace)
    requires Announcements(t) == 0
    ensures Announced(t) == 0
    ensures forall n :: Sent(Data(n)) !in t
    decreases |t|
  {
    if t != [] {
      NothingAnnounced(t[..|t| - 1]);
      assert t == t[..|t| - 1] + [t[|t| - 1]];
    }
  }

  lemma {:induction false} SoleAnnouncement(t: Trace, n: nat)
    requires Announcements(t) <= 1 && Sent(Data(n)) in t
    ensures Announced(t) == n
    decreases |t|
  {
    var init, e := t[..|t| - 1], t[|t| - 1];
    assert t == init + [e];
    if e.Sent? && e.packet.Data? {
      NothingAnnounced(init);
    } else {
      SoleAnnouncement(init, n);
    }
  }

  /** An upload that was answered at all sent exactly the bytes it had announced. */
  lemma UploadConservation(t: Trace, n: nat)
    requires Answered(t) && t[0].text != [] && Uploads(t[0].text) && Sent(Data(n)) in t
    ensures Uploaded(t) == n
  {
    SoleAnnouncement(t, n);
  }

  lemma {:induction false} AnnouncementsOfPrefix(t: Trace, k: nat)
    requires k <= |t|
    ensures Announcements(t[..k]) <= Announcements(t) && Announced(t[..k]) <= Announced(t)
    decreases |t|
  {
    if k == |t| {
      assert t[..k] == t;
    } else {
      assert t[..k] == t[..|t| - 1][..k];
      AnnouncementsOfPrefix(t[..|t| - 1], k);
    }
  }

  /** A download that is handed over is the chunks received until then, as many bytes as announced. */
  lemma DownloadConservation(t: Trace, k: nat, n: nat)
    requires Answered(t) && t[0].text != [] && k < |t| && t[k].Complete? && Sent(Data(n)) in t && t[k].data != []
    ensures t[k].data == Downloaded(t[..k]) && |t[k].data| == n
  {
    SoleAnnouncement(t, n);
    AnnouncementsOfPrefix(t, k);
    if Announcements(t[..k]) == 0 {
      NothingAnnounced(t[..k]);
    } else {
      PrefixAnnouncesAll(t, k);
    }
  }

  lemma {:induction false} PrefixAnnouncesAll(t: Trace, k: nat)
    requires k <= |t| && Announcements(t[..k]) == Announcements(t)
    ensures Announced(t[..k]) == Announced(t)
    decreases |t|
  {
    if k == |t| {
      assert t[..k] == t;
    } else {
      assert t[..k] == t[..|t| - 1][..k];
      AnnouncementsOfPrefix(t[..|t| - 1], k);
      PrefixAnnouncesAll(t[..|t| - 1], k);
    }
  }

  function AllReplies(session: seq<Trace>): nat {
    if session == [] then 0 else Replies(session[0]) + AllReplies(session[1..])
  }

  function Commands(session: seq<Trace>): nat {
    if session == [] then 0
    else (if session[0] != [] && session[0][0] != Command([]) then 1 else 0) + Commands(session[1..])
  }

  /** Over a session without boot or reboot, there are as many replies as non-empty commands. */
  lemma {:induction false} OneReplyEach(session: seq<Trace>)
    requires forall i :: 0 <= i < |session| ==> Answered(session[i]) && !OkaysItself(session[i][0].text)
    ensures AllReplies(session) == Commands(session)
  {
    if session != [] {
      var t := session[0];
      if t[0].text == [] {
        assert t == [Command([])];
        NoReplyYet(t[0]);
      }
      OneReplyEach(session[1..]);
    }
  }

  lemma NoReplyYet(e: Event)
    requires e.Command?
    ensures Replies([e]) == 0
  {
    assert [e][..0] == [];
  }
}
