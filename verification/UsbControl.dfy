/** Control transfers on endpoint zero: the state machine of a USB device driven by SETUP, OUT and IN
    events (Bootloader/libopencm3/lib/usb/usb_control.c, usb_standard.c; USB 2.0 sections 5.5.3, 8.5.3
    and 9.4.6). */
module UsbControl {
  import opened Bytes

  datatype Phase = Idle | DataIn | LastDataIn | StatusIn | DataOut | LastDataOut | StatusOut

  datatype Request = Request(bmRequestType: nat, bRequest: nat, wValue: nat, wLength: nat) {
    predicate DeviceToHost() { bmRequestType / 0x80 % 2 == 1 }

    /** A standard SET_ADDRESS request. */
    predicate SetAddress() { bmRequestType == 0 && bRequest == 5 }
  }

  datatype Verdict = Handled | NotSupported | NextCallback

  /** What the handlers of one request do: the verdict of the user callbacks, that of the standard
      request code, the data they leave in the control buffer, and whether they ask for a completion
      callback. SET_ADDRESS is not abstract; see `Dispatch`. */
  datatype Reply = Reply(user: Verdict, standard: bool, data: seq<byte>, complete: bool)

  datatype Config = Config(maxPacket: nat, bufferLength: nat, addressBeforeStatus: bool)

  datatype Event = Setup(req: Request, reply: Reply) | Out(packet: seq<byte>, answer: Reply) | In

  /** The control state, with a history of what happened since the last SETUP. */
  datatype Control = Control(
    phase: Phase, req: Request, toSend: seq<byte>, needsZlp: bool, ctrlLen: nat, buffer: seq<byte>,
    complete: bool, nak: bool, currentAddress: nat, address: nat, history: History)

  /** Since the last SETUP: packets sent, packets received, what the dispatch decided and what data it
      left, the data handed to an OUT handler, how often the completion callback ran. */
  datatype History = History(
    sent: seq<seq<byte>>, received: seq<seq<byte>>, handled: bool, byUser: bool, data: seq<byte>,
    delivered: seq<seq<byte>>, completions: nat, stalled: bool)

  const FRESH: History := History([], [], false, false, [], [], 0, false)

  // ---- The specification: one function an event ----

  function Stall(s: Control): Control {
    s.(phase := Idle, history := s.history.(stalled := true))
  }

  function NeedsZlp(len: nat, wLength: nat, maxPacket: nat): bool
    requires maxPacket > 0
  {
    0 < len < wLength && Multiple(len, maxPacket)
  }

  function SendChunk(c: Config, s: Control): Control {
    if c.maxPacket < |s.toSend| then
      s.(phase := DataIn, toSend := s.toSend[c.maxPacket..],
         history := s.history.(sent := s.history.sent + [s.toSend[..c.maxPacket]]))
    else
      s.(phase := if s.needsZlp then DataIn else LastDataIn, needsZlp := false, toSend := [],
         history := s.history.(sent := s.history.sent + [s.toSend]))
  }

  /** Is the request handled? The user callbacks come first, SET_ADDRESS is checked by the standard code. */
  function Accepts(req: Request, reply: Reply): bool {
    match reply.user
    case Handled => true
    case NotSupported => false
    case NextCallback => if req.SetAddress() then req.wValue < 128 else reply.standard
  }

  function Dispatch(c: Config, s: Control, reply: Reply): Control {
    var standard := reply.user == NextCallback && s.req.SetAddress() && s.req.wValue < 128;
    s.(complete := reply.complete,
       currentAddress := if standard then s.req.wValue else s.currentAddress,
       address := if standard && c.addressBeforeStatus then s.req.wValue else s.address,
       history := s.history.(handled := Accepts(s.req, reply), byUser := reply.user == Handled, data := reply.data))
  }

  function StatusPacket(s: Control): Control {
    s.(phase := StatusIn, history := s.history.(sent := s.history.sent + [[]]))
  }

  /** No data stage, or one towards the host. */
  function SetupRead(c: Config, s: Control, reply: Reply): Control
    requires c.maxPacket > 0
  {
    var u := Dispatch(c, s, reply).(ctrlLen := 0, toSend := if s.req.wLength == 0 then [] else reply.data);
    if !Accepts(s.req, reply) then Stall(u)
    else if s.req.wLength == 0 then StatusPacket(u)
    else SendChunk(c, u.(needsZlp := NeedsZlp(|reply.data|, s.req.wLength, c.maxPacket)))
  }

  function SetupWrite(c: Config, s: Control): Control {
    if s.req.wLength > c.bufferLength then Stall(s)
    else s.(phase := if s.req.wLength > c.maxPacket then DataOut else LastDataOut, ctrlLen := 0, nak := false)
  }

  function OnSetup(c: Config, s: Control, req: Request, reply: Reply): Control
    requires c.maxPacket > 0
  {
    var t := s.(req := req, complete := false, nak := true, history := FRESH);
    if req.wLength == 0 || req.DeviceToHost() then SetupRead(c, t, reply) else SetupWrite(c, t)
  }

  /** The control buffer has room for the whole data stage. */
  predicate Receivable(s: Control) {
    s.phase.DataOut? || s.phase.LastDataOut? ==> s.ctrlLen <= s.req.wLength <= |s.buffer|
  }

  function Expected(c: Config, s: Control): nat
    requires s.ctrlLen <= s.req.wLength
  {
    Min(c.maxPacket, s.req.wLength - s.ctrlLen)
  }

  /** One whole packet of the data stage arrived. */
  function RecvChunk(c: Config, s: Control, packet: seq<byte>): Control
    requires s.ctrlLen <= s.req.wLength <= |s.buffer| && Expected(c, s) <= |packet|
  {
    s.(buffer := Store(s.buffer, s.ctrlLen, packet[..Expected(c, s)]), ctrlLen := s.ctrlLen + Expected(c, s),
       history := s.history.(received := s.history.received + [packet]))
  }

  /** The data stage towards the device is complete. */
  function OnLastOut(c: Config, s: Control, reply: Reply): Control
    requires s.ctrlLen <= |s.buffer|
  {
    var u := Dispatch(c, s.(history := s.history.(delivered := s.history.delivered + [s.buffer[..s.ctrlLen]])), reply);
    if Accepts(s.req, reply) then StatusPacket(u) else Stall(u)
  }

  function OnOut(c: Config, s: Control, packet: seq<byte>, reply: Reply): Control
    requires Receivable(s)
  {
    if s.phase.DataOut? || s.phase.LastDataOut? then
      var expected := Expected(c, s);
      if |packet| < expected then Stall(s.(buffer := Store(s.buffer, s.ctrlLen, packet)))
      else
        var t := RecvChunk(c, s, packet);
        if s.phase.DataOut? then
          t.(phase := if t.req.wLength - t.ctrlLen <= c.maxPacket then LastDataOut else DataOut)
        else OnLastOut(c, t, reply)
    else if s.phase.StatusOut? then
      s.(phase := Idle, complete := false,
         history := s.history.(completions := s.history.completions + (if s.complete then 1 else 0)))
    else Stall(s)
  }

  function OnIn(c: Config, s: Control): Control {
    match s.phase
    case DataIn => SendChunk(c, s)
    case LastDataIn => s.(phase := StatusOut, nak := false)
    case StatusIn =>
      s.(phase := Idle, address := if s.req.SetAddress() then s.req.wValue % 0x100 else s.address,
         history := s.history.(completions := s.history.completions + (if s.complete then 1 else 0)))
    case _ => Stall(s)
  }

  lemma DispatchCommutes(c: Config, s: Control, reply: Reply, n: nat, data: seq<byte>)
    ensures Dispatch(c, s.(ctrlLen := n, toSend := data), reply)
         == Dispatch(c, s, reply).(ctrlLen := n, toSend := data)
  {
  }

  // ---- Runs ----

  ghost predicate Sensible(c: Config, e: Event) {
    match e
    case Setup(req, reply) => |reply.data| <= req.wLength
    case Out(packet, _) => |packet| <= c.maxPacket
    case In => true
  }

  /** The packets of a data stage: full ones, then the rest, then an empty one if asked for. */
  function Packets(m: nat, data: seq<byte>, zlp: bool): (r: seq<seq<byte>>)
    requires m > 0
    ensures |r| > 0
  {
    if m < |data| then [data[..m]] + Packets(m, data[m..], zlp)
    else if zlp then [data, []]
    else [data]
  }

  /** The OUT handler got exactly the first wLength bytes the host sent, once. */
  ghost predicate HostData(wLength: nat, h: History) {
    wLength <= |Flatten(h.received)| && h.delivered == [Flatten(h.received)[..wLength]]
  }

  ghost predicate Invariant(c: Config, s: Control)
    requires c.maxPacket > 0
  {
    var h := s.history;
    && |s.buffer| == c.bufferLength
    && h.completions <= 1
    && (!s.phase.Idle? ==> h.completions == 0 && !h.stalled)
    && (s.phase.DataOut? || s.phase.LastDataOut? ==>
          && !s.req.DeviceToHost() && !s.nak && h.delivered == []
          && s.ctrlLen < s.req.wLength <= c.bufferLength
          && s.buffer[..s.ctrlLen] == Flatten(h.received)
          && (if s.phase.DataOut? then s.req.wLength - s.ctrlLen > c.maxPacket
              else s.req.wLength - s.ctrlLen <= c.maxPacket))
    && (s.phase.DataIn? || s.phase.LastDataIn? || s.phase.StatusOut? ==>
          && s.req.DeviceToHost() && h.handled && |h.data| <= s.req.wLength && s.req.wLength > 0
          && (s.nak <==> !s.phase.StatusOut?)
          && h.sent + (if s.phase.DataIn? then Packets(c.maxPacket, s.toSend, s.needsZlp) else [])
             == Packets(c.maxPacket, h.data, NeedsZlp(|h.data|, s.req.wLength, c.maxPacket)))
    && (s.phase.StatusIn? ==>
          && h.handled
          && (s.req.SetAddress() && !h.byUser ==> s.currentAddress == s.req.wValue < 128)
          && (s.req.wLength == 0 <==> h.delivered == []))
    && (h.delivered == [] || HostData(s.req.wLength, h))
  }

  function Step(c: Config, s: Control, e: Event): Control
    requires c.maxPacket > 0 && Receivable(s)
  {
    match e
    case Setup(req, reply) => OnSetup(c, s, req, reply)
    case Out(packet, reply) => OnOut(c, s, packet, reply)
    case In => OnIn(c, s)
  }

  /** One packet goes out: the first of those to send, and the rest are still to send. */
  lemma ChunkIsFirst(c: Config, s: Control)
    requires c.maxPacket > 0
    ensures var all, t := Packets(c.maxPacket, s.toSend, s.needsZlp), SendChunk(c, s);
            && t.history.sent == s.history.sent + [all[0]]
            && t.phase == (if |all| == 1 then LastDataIn else DataIn)
            && (|all| > 1 ==> Packets(c.maxPacket, t.toSend, t.needsZlp) == all[1..])
  {
  }

  lemma SendChunkInvariant(c: Config, s: Control)
    requires c.maxPacket > 0
    ensures var t := SendChunk(c, s);
            && t == s.(phase := t.phase, toSend := t.toSend, needsZlp := t.needsZlp,
                       history := s.history.(sent := t.history.sent))
            && (t.phase.DataIn? || t.phase.LastDataIn?)
            && t.history.sent + (if t.phase.DataIn? then Packets(c.maxPacket, t.toSend, t.needsZlp) else [])
            == s.history.sent + Packets(c.maxPacket, s.toSend, s.needsZlp)
  {
    ChunkIsFirst(c, s);
    hide Packets;
    var all := Packets(c.maxPacket, s.toSend, s.needsZlp);
    assert all == [all[0]] + all[1..];
    assert s.history.sent + [all[0]] + all[1..] == s.history.sent + all;
  }

  lemma SetupInvariant(c: Config, s: Control, req: Request, reply: Reply)
    requires c.maxPacket > 0 && Invariant(c, s) && |reply.data| <= req.wLength
    ensures Invariant(c, OnSetup(c, s, req, reply))
  {
    hide SendChunk, Packets, NeedsZlp, Dispatch, HostData;
    if req.wLength == 0 || req.DeviceToHost() {
      var t := s.(req := req, complete := false, nak := true, history := FRESH);
      DispatchOnly(c, t, reply);
      if Accepts(req, reply) && req.wLength > 0 {
        var u := Dispatch(c, t, reply).(ctrlLen := 0, toSend := reply.data,
                                        needsZlp := NeedsZlp(|reply.data|, req.wLength, c.maxPacket));
        SendChunkInvariant(c, u);
        assert [] + Packets(c.maxPacket, u.toSend, u.needsZlp) == Packets(c.maxPacket, u.toSend, u.needsZlp);
      }
    }
  }

  lemma DispatchOnly(c: Config, s: Control, reply: Reply)
    ensures var t := Dispatch(c, s, reply);
            && t == s.(complete := t.complete, currentAddress := t.currentAddress, address := t.address,
                       history := s.history.(handled := Accepts(s.req, reply), byUser := t.history.byUser,
                                             data := reply.data))
            && (Accepts(s.req, reply) && s.req.SetAddress() && !t.history.byUser ==>
                t.currentAddress == s.req.wValue < 128)
  {
  }

  lemma OutInvariant(c: Config, s: Control, packet: seq<byte>, reply: Reply)
    requires c.maxPacket > 0 && Invariant(c, s) && |packet| <= c.maxPacket
    ensures Invariant(c, OnOut(c, s, packet, reply))
  {
    hide Packets, NeedsZlp, Store, Flatten, Dispatch;
    if s.phase.DataOut? || s.phase.LastDataOut? {
      var expected := Expected(c, s);
      if |packet| < expected {
        StoreLength(s.buffer, s.ctrlLen, packet);
      } else {
        RecvChunkKeeps(c, s, packet);
        var t := RecvChunk(c, s, packet);
        DispatchOnly(c, t.(history := t.history.(delivered := t.history.delivered + [t.buffer[..t.ctrlLen]])), reply);
      }
    }
  }

  lemma RecvChunkKeeps(c: Config, s: Control, packet: seq<byte>)
    requires s.ctrlLen <= s.req.wLength <= |s.buffer| && Expected(c, s) <= |packet|
    requires s.buffer[..s.ctrlLen] == Flatten(s.history.received)
    ensures var t := RecvChunk(c, s, packet);
            && |t.buffer| == |s.buffer|
            && t.ctrlLen <= |Flatten(t.history.received)|
            && t.buffer[..t.ctrlLen] == Flatten(t.history.received)[..t.ctrlLen]
            && (|packet| == Expected(c, s) ==> t.buffer[..t.ctrlLen] == Flatten(t.history.received))
  {
    ReceivedSoFar(s.buffer, s.history.received, s.ctrlLen, packet, Expected(c, s));
  }

  /** `n` bytes of one more packet, behind the ones before it. */
  lemma ReceivedSoFar(buffer: seq<byte>, received: seq<seq<byte>>, len: nat, packet: seq<byte>, n: nat)
    requires n <= |packet| && len + n <= |buffer| && buffer[..len] == Flatten(received)
    ensures var b, all := Store(buffer, len, packet[..n]), Flatten(received + [packet]);
            && |b| == |buffer| && len + n <= |all| && b[..len + n] == all[..len + n]
            && (|packet| == n ==> b[..len + n] == all)
  {
    FlattenSnoc(received, packet);
    StoreLength(buffer, len, packet[..n]);
    hide Flatten;
    var b := Store(buffer, len, packet[..n]);
    assert b[..len + n] == buffer[..len] + packet[..n];
    assert (buffer[..len] + packet)[..len + n] == buffer[..len] + packet[..n];
    if |packet| == n {
      assert packet[..n] == packet;
    }
  }

  lemma InInvariant(c: Config, s: Control)
    requires c.maxPacket > 0 && Invariant(c, s)
    ensures Invariant(c, OnIn(c, s))
  {
    SendChunkInvariant(c, s);
  }

  lemma StepInvariant(c: Config, s: Control, e: Event)
    requires c.maxPacket > 0 && Invariant(c, s) && Sensible(c, e)
    ensures Invariant(c, Step(c, s, e))
  {
    match e
    case Setup(req, reply) => SetupInvariant(c, s, req, reply);
    case Out(packet, reply) => OutInvariant(c, s, packet, reply);
    case In => InInvariant(c, s);
  }

  function Initial(c: Config): Control {
    Control(Idle, Request(0, 0, 0, 0), [], false, 0, seq(c.bufferLength, _ => 0), false, false, 0, 0, FRESH)
  }

  /** The state after any sequence of events. */
  function Run(c: Config, events: seq<Event>): (s: Control)
    requires c.maxPacket > 0 && forall e :: e in events ==> Sensible(c, e)
    ensures Invariant(c, s)
  {
    if events == [] then Initial(c)
    else
      var s := Run(c, events[..|events| - 1]);
      StepInvariant(c, s, events[|events| - 1]);
      Step(c, s, events[|events| - 1])
  }

  // ---- Control IN: what the host sees ----

  function InTimes(c: Config, s: Control, n: nat): Control {
    if n == 0 then s else OnIn(c, InTimes(c, s, n - 1))
  }

  /** The request is handled: by a user callback, or, if those pass it on, by the standard code. */
  predicate Taken(reply: Reply) {
    reply.user == Handled || (reply.user == NextCallback && reply.standard)
  }

  /** The direction is bit 7 of the request type (USB 2.0, section 9.3.1). */
  lemma TakenIsAccepted(req: Request, reply: Reply)
    requires 0x80 <= req.bmRequestType < 0x100
    ensures req.DeviceToHost() && (Accepts(req, reply) <==> Taken(reply))
  {
  }

  /** The first packet goes out with the SETUP. */
  lemma StageStarts(c: Config, s: Control, req: Request, reply: Reply)
    requires c.maxPacket > 0 && req.wLength > 0 && req.DeviceToHost() && Accepts(req, reply)
    ensures var all := Packets(c.maxPacket, reply.data, NeedsZlp(|reply.data|, req.wLength, c.maxPacket));
            var t := OnSetup(c, s, req, reply);
            && t.history.sent == [all[0]]
            && t.phase == (if |all| == 1 then LastDataIn else DataIn)
            && (|all| > 1 ==> Packets(c.maxPacket, t.toSend, t.needsZlp) == all[1..])
  {
    hide SendChunk, NeedsZlp, Packets, Accepts, Request.DeviceToHost;
    var zlp := NeedsZlp(|reply.data|, req.wLength, c.maxPacket);
    var u := Dispatch(c, s.(req := req, complete := false, nak := true, history := FRESH), reply);
    ChunkIsFirst(c, u.(ctrlLen := 0, toSend := reply.data, needsZlp := zlp));
  }

  /** From an accepted request on, every IN event sends the next packet, and the machine is past the data
      stage exactly when all have been sent. */
  lemma {:induction false} DataStage(c: Config, s: Control, req: Request, reply: Reply, k: nat)
    requires c.maxPacket > 0 && req.wLength > 0 && 0x80 <= req.bmRequestType < 0x100 && Taken(reply)
    requires k < |Packets(c.maxPacket, reply.data, NeedsZlp(|reply.data|, req.wLength, c.maxPacket))|
    ensures var all := Packets(c.maxPacket, reply.data, NeedsZlp(|reply.data|, req.wLength, c.maxPacket));
            var t := InTimes(c, OnSetup(c, s, req, reply), k);
            && t.history.sent == all[..k + 1]
            && t.phase == (if k + 1 == |all| then LastDataIn else DataIn)
            && (t.phase.DataIn? ==> Packets(c.maxPacket, t.toSend, t.needsZlp) == all[k + 1..])
  {
    TakenIsAccepted(req, reply);
    hide NeedsZlp, Packets, SendChunk, OnSetup, Accepts, Request.DeviceToHost, Taken;
    var all := Packets(c.maxPacket, reply.data, NeedsZlp(|reply.data|, req.wLength, c.maxPacket));
    if k == 0 {
      StageStarts(c, s, req, reply);
      assert all[..1] == [all[0]] && InTimes(c, OnSetup(c, s, req, reply), 0) == OnSetup(c, s, req, reply);
    } else {
      DataStage(c, s, req, reply, k - 1);
      SendNext(c, InTimes(c, OnSetup(c, s, req, reply), k - 1), all, k);
      hide *;
      assert InTimes(c, OnSetup(c, s, req, reply), k) == OnIn(c, InTimes(c, OnSetup(c, s, req, reply), k - 1)) by {
        InOnce(c, OnSetup(c, s, req, reply), k);
      }
    }
  }

  lemma InOnce(c: Config, s: Control, n: nat)
    requires n > 0
    ensures InTimes(c, s, n) == OnIn(c, InTimes(c, s, n - 1))
  {
  }

  /** With `k` of the packets sent, an IN event sends the next. */
  lemma SendNext(c: Config, t: Control, all: seq<seq<byte>>, k: nat)
    requires c.maxPacket > 0 && t.phase.DataIn? && k < |all| && t.history.sent == all[..k]
    requires Packets(c.maxPacket, t.toSend, t.needsZlp) == all[k..]
    ensures var u := OnIn(c, t);
            && u.history.sent == all[..k + 1]
            && u.phase == (if k + 1 == |all| then LastDataIn else DataIn)
            && (u.phase.DataIn? ==> Packets(c.maxPacket, u.toSend, u.needsZlp) == all[k + 1..])
  {
    ChunkIsFirst(c, t);
    NextOf(all, k);
    hide Packets, SendChunk;
  }

  lemma NextOf(all: seq<seq<byte>>, k: nat)
    requires k < |all|
    ensures all[..k] + [all[k..][0]] == all[..k + 1] && all[k..][1..] == all[k + 1..]
  {
  }

  /** How many packets a data stage takes. */
  function PacketCount(m: nat, len: nat, zlp: bool): (n: nat)
    requires m > 0
    ensures n > 0
  {
    Quotient(if len == 0 then 0 else len - 1, m);
    (if len == 0 then 1 else (len - 1) / m + 1) + (if zlp then 1 else 0)
  }

  lemma {:induction false} PacketsCounted(m: nat, data: seq<byte>, zlp: bool)
    requires m > 0
    ensures |Packets(m, data, zlp)| == PacketCount(m, |data|, zlp)
    decreases |data|
  {
    if m < |data| {
      PacketsCounted(m, data[m..], zlp);
      QuotientStep(|data| - 1, m);
    } else if data != [] {
      QuotientTimes(|data| - 1, m);
    }
  }

  datatype HostView = Waiting | Complete(data: seq<byte>, count: nat)

  /** How a host reads a data stage: until a short packet, or until it has all it asked for. */
  function HostReads(m: nat, wLength: nat, packets: seq<seq<byte>>, got: seq<byte>): HostView {
    if packets == [] then Waiting
    else
      var g := got + packets[0];
      if |packets[0]| < m || |g| >= wLength then Complete(g, 1)
      else
        match HostReads(m, wLength, packets[1..], g)
        case Waiting => Waiting
        case Complete(data, count) => Complete(data, count + 1)
  }

  lemma {:induction false} HostReadsAll(m: nat, wLength: nat, got: seq<byte>, data: seq<byte>)
    requires m > 0 && |got| + |data| <= wLength && Multiple(|got|, m) && (data != [] || got == []) && wLength > 0
    ensures var zlp := NeedsZlp(|got| + |data|, wLength, m);
            && HostReads(m, wLength, Packets(m, data, zlp), got) == Complete(got + data, |Packets(m, data, zlp)|)
            && (HostReads(m, wLength, Packets(m, data, false), got) == Waiting <==> zlp)
    decreases |data|
  {
    var zlp := NeedsZlp(|got| + |data|, wLength, m);
    if m < |data| {
      MultipleStep(|got|, m);
      HostReadsAll(m, wLength, got + data[..m], data[m..]);
      assert got + data[..m] + data[m..] == got + data;
    } else if |data| < m {
      if |data| > 0 {
        PartialNotMultiple(|got|, |data|, m);
      }
    } else {
      MultipleStep(|got|, m);
      assert got + data + [] == got + data;
    }
  }

  lemma MultipleStep(n: nat, a: nat)
    requires a > 0 && Multiple(n, a)
    ensures Multiple(n + a, a)
  {
  }

  lemma {:induction false} PartialNotMultiple(n: nat, r: nat, a: nat)
    requires 0 < r < a && Multiple(n, a)
    ensures !Multiple(n + r, a)
  {
    if n >= a {
      PartialNotMultiple(n - a, r, a);
    }
  }

  /** The whole transfer as the host sees it: it stops after the last packet and not before, holding
      exactly the handler's data. */
  lemma ControlIn(c: Config, s: Control, req: Request, reply: Reply)
    requires c.maxPacket > 0 && req.wLength > 0 && 0x80 <= req.bmRequestType < 0x100 && Taken(reply)
    requires |reply.data| <= req.wLength
    ensures var n := PacketCount(c.maxPacket, |reply.data|, NeedsZlp(|reply.data|, req.wLength, c.maxPacket));
            var t := InTimes(c, OnSetup(c, s, req, reply), n - 1);
            && t.phase == LastDataIn
            && HostReads(c.maxPacket, req.wLength, t.history.sent, []) == Complete(reply.data, n)
  {
    hide OnSetup, InTimes, Packets, NeedsZlp, HostReads, Taken, PacketCount;
    var zlp := NeedsZlp(|reply.data|, req.wLength, c.maxPacket);
    var all := Packets(c.maxPacket, reply.data, zlp);
    PacketsCounted(c.maxPacket, reply.data, zlp);
    DataStage(c, s, req, reply, |all| - 1);
    assert all[..|all|] == all;
    HostReadsAll(c.maxPacket, req.wLength, [], reply.data);
    assert [] + reply.data == reply.data;
  }

  /** A zero-length packet is added exactly when the host would otherwise keep waiting. */
  lemma ZlpExactlyWhenNeeded(m: nat, wLength: nat, data: seq<byte>)
    requires m > 0 && 0 < wLength && |data| <= wLength
    ensures NeedsZlp(|data|, wLength, m) <==> HostReads(m, wLength, Packets(m, data, false), []) == Waiting
  {
    HostReadsAll(m, wLength, [], data);
  }

  /** After the data the host sends an empty packet, and the transfer is over; the completion callback runs
      then, if the handler asked for one. */
  lemma ControlInEnds(c: Config, s: Control, req: Request, reply: Reply, packet: seq<byte>, answer: Reply)
    requires c.maxPacket > 0 && req.wLength > 0 && 0x80 <= req.bmRequestType < 0x100 && Taken(reply)
    requires |reply.data| <= req.wLength
    ensures var n := PacketCount(c.maxPacket, |reply.data|, NeedsZlp(|reply.data|, req.wLength, c.maxPacket));
            var t := InTimes(c, OnSetup(c, s, req, reply), n);
            var u := OnOut(c, t, packet, answer);
            && t.phase == StatusOut && !t.nak
            && u.phase == Idle && !u.history.stalled && u.history.completions == (if reply.complete then 1 else 0)
            && !u.complete
  {
    hide OnSetup, InTimes, NeedsZlp, PacketCount, HostReads, Taken, OnIn, OnOut;
    var n := PacketCount(c.maxPacket, |reply.data|, NeedsZlp(|reply.data|, req.wLength, c.maxPacket));
    ControlIn(c, s, req, reply);
    InKeeps(c, s, req, reply, n - 1);
    InOnce(c, OnSetup(c, s, req, reply), n);
    StatusStage(c, InTimes(c, OnSetup(c, s, req, reply), n - 1), packet, answer);
    hide *;
  }

  lemma StatusStage(c: Config, t: Control, packet: seq<byte>, answer: Reply)
    requires t.phase == LastDataIn
    ensures var u := OnIn(c, t);
            var v := OnOut(c, u, packet, answer);
            && u.phase == StatusOut && !u.nak
            && v.phase == Idle && !v.complete && v.history.stalled == t.history.stalled
            && v.history.completions == t.history.completions + (if t.complete then 1 else 0)
  {
  }

  lemma {:induction false} InKeeps(c: Config, s: Control, req: Request, reply: Reply, k: nat)
    requires c.maxPacket > 0 && req.wLength > 0 && 0x80 <= req.bmRequestType < 0x100 && Taken(reply)
    requires k < PacketCount(c.maxPacket, |reply.data|, NeedsZlp(|reply.data|, req.wLength, c.maxPacket))
    ensures var t := InTimes(c, OnSetup(c, s, req, reply), k);
            t.complete == reply.complete && !t.history.stalled && t.history.completions == 0
  {
    hide NeedsZlp, Packets, SendChunk, OnSetup, PacketCount, Taken, Accepts;
    if k == 0 {
      SetupInKeeps(c, s, req, reply);
    } else {
      InKeeps(c, s, req, reply, k - 1);
      PacketsCounted(c.maxPacket, reply.data, NeedsZlp(|reply.data|, req.wLength, c.maxPacket));
      DataStage(c, s, req, reply, k - 1);
      InOnce(c, OnSetup(c, s, req, reply), k);
      SendChunkInvariant(c, InTimes(c, OnSetup(c, s, req, reply), k - 1));
      hide InTimes;
    }
  }

  lemma SetupInKeeps(c: Config, s: Control, req: Request, reply: Reply)
    requires c.maxPacket > 0 && req.wLength > 0 && 0x80 <= req.bmRequestType < 0x100 && Taken(reply)
    ensures var t := OnSetup(c, s, req, reply);
            t.complete == reply.complete && !t.history.stalled && t.history.completions == 0
  {
    TakenIsAccepted(req, reply);
    hide NeedsZlp, SendChunk, Packets, Accepts, Request.DeviceToHost, Request.SetAddress, Taken;
    var u := Dispatch(c, s.(req := req, complete := false, nak := true, history := FRESH), reply);
    SendChunkInvariant(c, u.(ctrlLen := 0, toSend := reply.data,
                             needsZlp := NeedsZlp(|reply.data|, req.wLength, c.maxPacket)));
  }

  // ---- Control OUT and requests without data ----

  /** Is it handled? SET_ADDRESS, which has no data, is checked here. */
  predicate Granted(req: Request, reply: Reply) {
    match reply.user
    case Handled => true
    case NotSupported => false
    case NextCallback => if req.bmRequestType == 0 && req.bRequest == 5 then req.wValue < 0x80 else reply.standard
  }

  lemma GrantedIsAccepted(req: Request, reply: Reply)
    ensures Accepts(req, reply) <==> Granted(req, reply)
  {
  }

  /** The host's data packets, one after the other. */
  function OutTimes(c: Config, s: Control, packets: seq<seq<byte>>, reply: Reply): Control
    decreases |packets|
  {
    if packets == [] || !Receivable(s) then s else OutTimes(c, OnOut(c, s, packets[0], reply), packets[1..], reply)
  }

  /** `rest` of the data stage is still to come. */
  ghost predicate Expects(c: Config, t: Control, req: Request, rest: seq<byte>) {
    && t.req == req && Receivable(t) && |rest| == req.wLength - t.ctrlLen > 0
    && t.phase == (if |rest| > c.maxPacket then DataOut else LastDataOut)
    && |t.buffer| >= req.wLength && t.ctrlLen <= req.wLength
  }

  /** One full packet that is not the last. */
  lemma OutPacket(c: Config, t: Control, req: Request, reply: Reply, rest: seq<byte>)
    requires c.maxPacket > 0 && Expects(c, t, req, rest) && |rest| > c.maxPacket
    ensures var m := c.maxPacket;
            var u := OnOut(c, t, rest[..m], reply);
            && Expects(c, u, req, rest[m..]) && u.ctrlLen == t.ctrlLen + m
            && u.buffer[..u.ctrlLen] == t.buffer[..t.ctrlLen] + rest[..m]
            && u.history == t.history.(received := t.history.received + [rest[..m]])
  {
    var m := c.maxPacket;
    var u := OnOut(c, t, rest[..m], reply);
    assert rest[..m][..m] == rest[..m];
    assert u.buffer[..u.ctrlLen] == t.buffer[..t.ctrlLen] + rest[..m];
  }

  /** The last one: the handler is called. */
  lemma OutLast(c: Config, t: Control, req: Request, reply: Reply, rest: seq<byte>)
    requires c.maxPacket > 0 && Expects(c, t, req, rest) && |rest| <= c.maxPacket
    ensures var u := OnOut(c, t, rest, reply);
            && u.req == req && u.complete == reply.complete && u.history.completions == t.history.completions
            && u.history.delivered == t.history.delivered + [t.buffer[..t.ctrlLen] + rest]
            && (if Granted(req, reply)
                then
                  && u.phase == StatusIn && u.history.sent == t.history.sent + [[]]
                  && u.history.stalled == t.history.stalled
                else u.phase == Idle && u.history.sent == t.history.sent && u.history.stalled)
  {
    GrantedIsAccepted(req, reply);
    hide Accepts, Granted, Request.SetAddress;
    assert rest[..|rest|] == rest;
    var v := RecvChunk(c, t, rest);
    assert v.buffer[..v.ctrlLen] == t.buffer[..t.ctrlLen] + rest;
  }

  lemma {:induction false} OutRest(c: Config, t: Control, req: Request, reply: Reply, rest: seq<byte>)
    requires c.maxPacket > 0 && Expects(c, t, req, rest)
    ensures var u := OutTimes(c, t, Packets(c.maxPacket, rest, false), reply);
            && u.req == req && u.complete == reply.complete && u.history.completions == t.history.completions
            && u.history.delivered == t.history.delivered + [t.buffer[..t.ctrlLen] + rest]
            && (if Granted(req, reply)
                then
                  && u.phase == StatusIn && u.history.sent == t.history.sent + [[]]
                  && u.history.stalled == t.history.stalled
                else u.phase == Idle && u.history.sent == t.history.sent && u.history.stalled)
    decreases |rest|
  {
    hide OnOut, Granted;
    var m := c.maxPacket;
    if |rest| > m {
      OutPacket(c, t, req, reply, rest);
      var u := OnOut(c, t, rest[..m], reply);
      OutRest(c, u, req, reply, rest[m..]);
      assert Packets(m, rest, false)[1..] == Packets(m, rest[m..], false);
      assert t.buffer[..t.ctrlLen] + rest[..m] + rest[m..] == t.buffer[..t.ctrlLen] + rest;
    } else {
      OutLast(c, t, req, reply, rest);
      assert Packets(m, rest, false) == [rest];
      assert [rest][1..] == [];
    }
  }

  /** Control OUT, the whole transfer: the host sends its data in full packets and a rest; the handler is called
      once, with exactly the data; then an empty packet goes out if it was handled, and a stall if not. */
  lemma ControlOutStage(c: Config, s: Control, req: Request, first: Reply, reply: Reply, data: seq<byte>)
    requires c.maxPacket > 0 && |s.buffer| == c.bufferLength
    requires req.bmRequestType < 0x80 && |data| == req.wLength && 0 < req.wLength <= c.bufferLength
    ensures var t := OutTimes(c, OnSetup(c, s, req, first), Packets(c.maxPacket, data, false), reply);
            && t.history.delivered == [data] && t.history.completions == 0
            && (if Granted(req, reply)
                then t.phase == StatusIn && t.history.sent == [[]] && !t.history.stalled
                else t.phase == Idle && t.history.sent == [] && t.history.stalled)
            && OnIn(c, t).phase == Idle
            && (Granted(req, reply) ==>
                  !OnIn(c, t).history.stalled && OnIn(c, t).history.completions == (if reply.complete then 1 else 0))
  {
    var t := OnSetup(c, s, req, first);
    assert Expects(c, t, req, data) && t.ctrlLen == 0 && t.history == FRESH;
    hide OnSetup, OutTimes, Packets, OnIn, OnOut, Granted, Expects;
    OutRest(c, t, req, reply, data);
    StatusInEnds(c, OutTimes(c, t, Packets(c.maxPacket, data, false), reply));
    hide *;
    assert t.buffer[..0] + data == data;
  }

  lemma StatusInEnds(c: Config, t: Control)
    requires t.phase == StatusIn || t.phase == Idle
    ensures var u := OnIn(c, t);
            && u.phase == Idle
            && (t.phase == StatusIn ==>
                  && u.history.stalled == t.history.stalled
                  && u.history.completions == t.history.completions + (if t.complete then 1 else 0))
  {
  }

  /** A data stage towards the device that the buffer has no room for is refused at once; any other is awaited. */
  lemma ControlOutStarts(c: Config, s: Control, req: Request, reply: Reply)
    requires c.maxPacket > 0 && req.bmRequestType < 0x80 && req.wLength > 0
    ensures var t := OnSetup(c, s, req, reply);
            if req.wLength > c.bufferLength then t.phase == Idle && t.history.stalled
            else t.phase == (if req.wLength > c.maxPacket then DataOut else LastDataOut) && !t.history.stalled
  {
  }

  /** A request without data: an empty packet if it was handled, a stall if not; then the transfer is over. */
  lemma ControlNoData(c: Config, s: Control, req: Request, reply: Reply)
    requires c.maxPacket > 0 && req.wLength == 0
    ensures var t := OnSetup(c, s, req, reply);
            var u := OnIn(c, t);
            if Granted(req, reply)
            then
              && t.phase == StatusIn && t.history.sent == [[]] && u.phase == Idle && !u.history.stalled
              && u.history.completions == (if reply.complete then 1 else 0)
            else t.phase == Idle && t.history.stalled && t.history.sent == []
  {
    GrantedIsAccepted(req, reply);
    hide Accepts, Granted, Request.SetAddress;
  }

  /** A request for data that nobody handles is refused. */
  lemma ControlInRefused(c: Config, s: Control, req: Request, reply: Reply)
    requires c.maxPacket > 0 && req.wLength > 0 && 0x80 <= req.bmRequestType < 0x100 && !Taken(reply)
    ensures var t := OnSetup(c, s, req, reply); t.phase == Idle && t.history.stalled && t.history.sent == []
  {
    TakenIsAccepted(req, reply);
    hide Accepts, Taken, Request.SetAddress, Request.DeviceToHost;
  }

  /** SET_ADDRESS as the standard code handles it: the new address is the one requested, from the status stage on,
      or at once for drivers that want it before; one of 128 or more is refused. */
  lemma AddressTaken(c: Config, s: Control, a: nat, standard: bool, complete: bool)
    requires c.maxPacket > 0 && a < 0x1_0000
    ensures var t := OnSetup(c, s, Request(0, 5, a, 0), Reply(NextCallback, standard, [], complete));
            var u := OnIn(c, t);
            if a < 128
            then
              && t.address == (if c.addressBeforeStatus then a else s.address)
              && u.address == u.currentAddress == a && u.phase == Idle && !u.history.stalled
            else t.phase == Idle && t.history.stalled && t.address == s.address && t.currentAddress == s.currentAddress
  {
  }

  /** Which packets are out of place: an OUT where the device expects none, an IN where it has none. */
  lemma OutOfPlace(c: Config, s: Control, packet: seq<byte>, reply: Reply)
    requires c.maxPacket > 0
    ensures s.phase in [Idle, DataIn, LastDataIn, StatusIn] ==>
              OnOut(c, s, packet, reply) == s.(phase := Idle, history := s.history.(stalled := true))
    ensures s.phase in [Idle, DataOut, LastDataOut, StatusOut] ==>
              OnIn(c, s) == s.(phase := Idle, history := s.history.(stalled := true))
  {
  }

  // ---- Completion and address, step by step ----

  /** What a SETUP leaves of the fields the data stage does not touch: those the dispatch sets. */
  lemma SetupDispatches(c: Config, s: Control, req: Request, reply: Reply)
    requires c.maxPacket > 0
    ensures var t := OnSetup(c, s, req, reply);
            && t.req == req && t.history.completions == 0
            && (t.history.byUser ==> reply.user == Handled)
            && (!c.addressBeforeStatus ==> t.address == s.address)
  {
    hide NeedsZlp, SendChunk, Packets, Accepts, Request.DeviceToHost, Request.SetAddress;
    var u := Dispatch(c, s.(req := req, complete := false, nak := true, history := FRESH), reply);
    var v := u.(ctrlLen := 0, toSend := if req.wLength == 0 then [] else reply.data);
    SendChunkInvariant(c, v.(needsZlp := NeedsZlp(|reply.data|, req.wLength, c.maxPacket)));
  }

  lemma LastOutDoes(c: Config, s: Control, reply: Reply)
    requires s.ctrlLen <= |s.buffer|
    ensures var t := OnLastOut(c, s, reply);
            && t.req == s.req && t.history.completions == s.history.completions
            && (t.history.byUser ==> reply.user == Handled)
            && (!c.addressBeforeStatus ==> t.address == s.address)
  {
    hide Accepts, Request.SetAddress;
  }

  lemma OutDoes(c: Config, s: Control, packet: seq<byte>, reply: Reply)
    requires Receivable(s)
    ensures var t := OnOut(c, s, packet, reply);
            && t.req == s.req
            && (t.history.completions > s.history.completions ==> s.complete && t.phase == Idle && s.phase == StatusOut)
            && (t.history.byUser ==> s.history.byUser || reply.user == Handled)
            && (!c.addressBeforeStatus ==> t.address == s.address)
  {
    hide OnLastOut, Store;
    if s.phase.LastDataOut? && |packet| >= Expected(c, s) {
      StoreLength(s.buffer, s.ctrlLen, packet[..Expected(c, s)]);
      LastOutDoes(c, RecvChunk(c, s, packet), reply);
    }
  }

  lemma OnlyStatusCompletes(c: Config, s: Control, e: Event)
    requires c.maxPacket > 0 && Invariant(c, s) && Sensible(c, e)
    ensures var t := Step(c, s, e);
            t.history.completions > s.history.completions ==>
              && s.complete && s.history.handled && t.phase == Idle
              && ((e.In? && s.phase == StatusIn) || (e.Out? && s.phase == StatusOut))
  {
    hide SendChunk, Packets, Store, NeedsZlp, Flatten, OnSetup, OnOut, Request.SetAddress;
    match e
    case Setup(req, reply) => SetupDispatches(c, s, req, reply);
    case Out(packet, reply) => OutDoes(c, s, packet, reply);
    case In => SendChunkInvariant(c, s);
  }

  /** With a driver that defers the address, it changes only at the end of a SET_ADDRESS transfer; and then to
      the device's own `current_address`, below 128, exactly if no user callback claimed the request, or if
      the claimed value happens to be that address. */
  lemma AddressChanges(c: Config, s: Control, e: Event)
    requires c.maxPacket > 0 && !c.addressBeforeStatus && Invariant(c, s) && Sensible(c, e)
    ensures var t := Step(c, s, e);
            t.address != s.address ==>
              && e.In? && s.phase == StatusIn && s.req.bmRequestType == 0 && s.req.bRequest == 5
              && (t.address == t.currentAddress < 128 <==>
                  !s.history.byUser || s.req.wValue % 0x100 == s.currentAddress < 128)
  {
    hide SendChunk, Packets, NeedsZlp, OnSetup, OnOut, HostData;
    match e
    case Setup(req, reply) => SetupDispatches(c, s, req, reply);
    case Out(packet, reply) => OutDoes(c, s, packet, reply);
    case In => SendChunkInvariant(c, s);
  }

  /** A user callback that claims SET_ADDRESS itself breaks the link to `current_address`: the driver is called
      with an address nobody checked. (What the driver keeps of it is its own affair; this chip's masks it
      with seven bits.) */
  lemma ClaimedAddress(c: Config)
    requires c.maxPacket > 0 && !c.addressBeforeStatus
    ensures var events := [Setup(Request(0, 5, 200, 0), Reply(Handled, false, [], false)), In];
            && (forall e :: e in events ==> Sensible(c, e))
            && Run(c, events).address == 200 && Run(c, events).currentAddress == 0
  {
    var events := [Setup(Request(0, 5, 200, 0), Reply(Handled, false, [], false)), In];
    assert events[..1] == [events[0]] && events[..1][..0] == [];
    assert Run(c, events[..1]) == OnSetup(c, Initial(c), events[0].req, events[0].reply);
  }

  /** The one callback of this firmware handles only requests with the type byte 0x80 or 0xC0. */
  predicate ThisFirmware(s: Control, e: Event) {
    match e
    case Setup(req, reply) => reply.user.Handled? ==> req.bmRequestType == 0x80 || req.bmRequestType == 0xC0
    case Out(_, answer) => answer.user.Handled? ==> s.req.bmRequestType == 0x80 || s.req.bmRequestType == 0xC0
    case In => true
  }

  ghost predicate OfThisFirmware(c: Config, events: seq<Event>)
    requires c.maxPacket > 0 && forall e :: e in events ==> Sensible(c, e)
  {
    events == [] ||
    var init, e := events[..|events| - 1], events[|events| - 1];
    OfThisFirmware(c, init) && ThisFirmware(Run(c, init), e)
  }

  lemma NotClaimedOnce(c: Config, s: Control, e: Event)
    requires c.maxPacket > 0 && Receivable(s) && ThisFirmware(s, e)
    requires s.req.SetAddress() ==> !s.history.byUser
    ensures var t := Step(c, s, e); t.req.SetAddress() ==> !t.history.byUser
  {
    hide Packets, NeedsZlp, SendChunk, OnSetup, OnOut;
    match e
    case Setup(req, reply) => SetupDispatches(c, s, req, reply);
    case Out(packet, answer) => NotClaimedByOut(c, s, packet, answer);
    case In => SendChunkInvariant(c, s);
  }

  lemma NotClaimedByOut(c: Config, s: Control, packet: seq<byte>, answer: Reply)
    requires c.maxPacket > 0 && Receivable(s) && ThisFirmware(s, Out(packet, answer))
    requires s.req.SetAddress() ==> !s.history.byUser
    ensures var t := OnOut(c, s, packet, answer); t.req.SetAddress() ==> !t.history.byUser
  {
    OutDoes(c, s, packet, answer);
    hide OnOut;
  }

  lemma {:induction false} NeverClaimed(c: Config, events: seq<Event>)
    requires c.maxPacket > 0 && (forall e :: e in events ==> Sensible(c, e)) && OfThisFirmware(c, events)
    ensures Run(c, events).req.SetAddress() ==> !Run(c, events).history.byUser
  {
    if events != [] {
      var init, e := events[..|events| - 1], events[|events| - 1];
      NeverClaimed(c, init);
      NotClaimedOnce(c, Run(c, init), e);
    }
  }

  /** In every run of this firmware, with a driver that defers the address, each change of address is at
      STATUS_IN and makes it the device's own, below 128. */
  lemma FirmwareAddress(c: Config, events: seq<Event>)
    requires c.maxPacket > 0 && !c.addressBeforeStatus && events != []
    requires (forall e :: e in events ==> Sensible(c, e)) && OfThisFirmware(c, events)
    ensures var s, t := Run(c, events[..|events| - 1]), Run(c, events);
            t.address != s.address ==>
              events[|events| - 1].In? && s.phase == StatusIn && t.address == t.currentAddress < 128
  {
    var init, e := events[..|events| - 1], events[|events| - 1];
    NeverClaimed(c, init);
    AddressChanges(c, Run(c, init), e);
  }

  /** And such a run there is: the host sets an address, and the device takes it. */
  lemma FirmwareTakesAddress(c: Config, a: nat)
    requires c.maxPacket > 0 && !c.addressBeforeStatus && a < 128
    ensures var events := [Setup(Request(0, 5, a, 0), Reply(NextCallback, true, [], false)), In];
            && (forall e :: e in events ==> Sensible(c, e)) && OfThisFirmware(c, events)
            && Run(c, events).address == a
  {
    var events := [Setup(Request(0, 5, a, 0), Reply(NextCallback, true, [], false)), In];
    assert events[..1] == [events[0]] && events[..1][..0] == [];
    AddressTaken(c, Initial(c), a, true, false);
    hide SendChunk, Packets, Accepts;
    assert OfThisFirmware(c, events[..1]);
    assert Run(c, events[..1]) == OnSetup(c, Initial(c), events[0].req, events[0].reply);
  }

  /** The device as the source has it: fields updated in place, event by event. */
  class ControlEndpoint {
    const config: Config
    const ctrlBuf: array<byte>
    var phase: Phase
    var req: Request
    var toSend: seq<byte>
    var needsZlp: bool
    var ctrlLen: nat
    var complete: bool
    var nak: bool
    var currentAddress: nat
    var address: nat
    var history: History

    constructor (config: Config)
      requires config.maxPacket > 0
      ensures this.config == config && fresh(ctrlBuf) && State() == Initial(config)
    {
      this.config := config;
      ctrlBuf := new byte[config.bufferLength](_ => 0);
      phase, req, toSend, needsZlp, ctrlLen := Idle, Request(0, 0, 0, 0), [], false, 0;
      complete, nak, currentAddress, address, history := false, false, 0, 0, FRESH;
    }

    ghost function State(): Control
      reads this, ctrlBuf
    {
      Control(phase, req, toSend, needsZlp, ctrlLen, ctrlBuf[..], complete, nak, currentAddress, address, history)
    }

    method StallTransaction()
      modifies `phase, `history
      ensures State() == Stall(old(State()))
    {
      phase := Idle;
      history := history.(stalled := true);
    }

    /** `usbd_ep_write_packet`, recorded. */
    method WritePacket(packet: seq<byte>)
      modifies `history
      ensures history == old(history).(sent := old(history.sent) + [packet])
    {
      history := history.(sent := history.sent + [packet]);
    }

    method UsbControlSendChunk()
      modifies `phase, `toSend, `needsZlp, `history
      ensures State() == SendChunk(config, old(State()))
    {
      if config.maxPacket < |toSend| {
        WritePacket(toSend[..config.maxPacket]);
        phase := DataIn;
        toSend := toSend[config.maxPacket..];
      } else {
        WritePacket(toSend);
        phase := if needsZlp then DataIn else LastDataIn;
        needsZlp := false;
        toSend := [];
      }
    }

    /** `usbd_ep_read_packet` into the control buffer; fails on a packet shorter than expected. */
    method UsbControlRecvChunk(packet: seq<byte>) returns (ok: bool)
      requires ctrlLen <= req.wLength <= ctrlBuf.Length
      modifies this, ctrlBuf
      ensures ok <==> Expected(config, old(State())) <= |packet|
      ensures ok ==> State() == RecvChunk(config, old(State()), packet)
      ensures ok ==> phase == old(phase) && req == old(req) && ctrlLen <= req.wLength
      ensures !ok ==> State() == Stall(old(State()).(buffer := Store(old(ctrlBuf[..]), old(ctrlLen), packet)))
    {
      var packetsize := Min(config.maxPacket, req.wLength - ctrlLen);
      var size := Min(|packet|, packetsize);
      ghost var was := ctrlBuf[..];
      forall i | 0 <= i < size {
        ctrlBuf[ctrlLen + i] := packet[i];
      }
      assert ctrlBuf[..] == Store(was, ctrlLen, packet[..size]);
      if size != packetsize {
        assert packet[..size] == packet;
        StallTransaction();
        return false;
      }
      ctrlLen := ctrlLen + size;
      history := history.(received := history.received + [packet]);
      return true;
    }

    /** The user callbacks, then the standard requests. */
    method UsbControlRequestDispatch(reply: Reply) returns (handled: bool)
      modifies `complete, `currentAddress, `address, `history
      ensures State() == Dispatch(config, old(State()), reply)
      ensures handled == Accepts(req, reply)
    {
      complete := reply.complete;
      handled := false;
      match reply.user {
        case Handled => handled := true;
        case NotSupported =>
        case NextCallback =>
          if req.SetAddress() {
            handled := UsbStandardSetAddress();
          } else {
            handled := reply.standard;
          }
      }
      history := history.(handled := handled, byUser := reply.user == Handled, data := reply.data);
    }

    method UsbStandardSetAddress() returns (handled: bool)
      requires req.SetAddress()
      modifies `currentAddress, `address
      ensures handled == (req.wValue < 128)
      ensures currentAddress == if handled then req.wValue else old(currentAddress)
      ensures address == if handled && config.addressBeforeStatus then req.wValue else old(address)
    {
      if req.wValue >= 128 {
        return false;
      }
      currentAddress := req.wValue;
      if config.addressBeforeStatus {
        address := req.wValue;
      }
      return true;
    }

    /** The source's `needs_zlp`. */
    static method ShortButFull(len: nat, wLength: nat, epSize: nat) returns (zlp: bool)
      requires epSize > 0
      ensures zlp == NeedsZlp(len, wLength, epSize)
    {
      Remainder(len, epSize);
      if len < wLength {
        if len != 0 && len % epSize == 0 {
          return true;
        }
      }
      return false;
    }

    /** A handled request: the first data packet, or the status packet where there is no data stage. */
    method AnswerHandled()
      requires config.maxPacket > 0
      modifies `phase, `toSend, `needsZlp, `history
      ensures State() == if req.wLength == 0 then StatusPacket(old(State()))
                         else SendChunk(config, old(State()).(needsZlp :=
                                          NeedsZlp(|old(toSend)|, req.wLength, config.maxPacket)))
    {
      hide SendChunk, NeedsZlp;
      if req.wLength != 0 {
        needsZlp := ShortButFull(|toSend|, req.wLength, config.maxPacket);
        UsbControlSendChunk();
      } else {
        WritePacket([]);
        phase := StatusIn;
      }
    }

    method UsbControlSetupRead(reply: Reply)
      requires config.maxPacket > 0
      modifies this
      ensures State() == SetupRead(config, old(State()), reply)
    {
      hide Dispatch, Accepts, SendChunk, NeedsZlp;
      ctrlLen := 0;
      toSend := if req.wLength == 0 then [] else reply.data;
      DispatchCommutes(config, old(State()), reply, ctrlLen, toSend);
      assert State() == old(State()).(ctrlLen := ctrlLen, toSend := toSend);
      var handled := UsbControlRequestDispatch(reply);
      if handled {
        AnswerHandled();
      } else {
        StallTransaction();
      }
    }

    method UsbControlSetupWrite()
      modifies this
      ensures State() == SetupWrite(config, old(State()))
    {
      if req.wLength > config.bufferLength {
        StallTransaction();
        return;
      }
      ctrlLen := 0;
      phase := if req.wLength > config.maxPacket then DataOut else LastDataOut;
      nak := false;
    }

    method ControlSetup(r: Request, reply: Reply)
      requires config.maxPacket > 0
      modifies this
      ensures State() == OnSetup(config, old(State()), r, reply)
    {
      hide SetupRead, SetupWrite;
      req := r;
      history := FRESH;
      complete := false;
      nak := true;
      if req.wLength == 0 {
        UsbControlSetupRead(reply);
      } else if req.DeviceToHost() {
        UsbControlSetupRead(reply);
      } else {
        UsbControlSetupWrite();
      }
    }

    /** DATA_OUT: more than one packet to come. */
    method MoreDataOut(packet: seq<byte>)
      requires phase.DataOut? && Receivable(State())
      modifies this, ctrlBuf
      ensures State() == OnOut(config, old(State()), packet, Reply(NotSupported, false, [], false))
    {
      hide Dispatch, RecvChunk, Store, Accepts;
      var ok := UsbControlRecvChunk(packet);
      if ok && req.wLength - ctrlLen <= config.maxPacket {
        phase := LastDataOut;
      }
    }

    /** LAST_DATA_OUT: after this packet the handler gets the data. */
    method LastOut(packet: seq<byte>, reply: Reply)
      requires phase.LastDataOut? && Receivable(State())
      modifies this, ctrlBuf
      ensures State() == OnOut(config, old(State()), packet, reply)
    {
      hide Dispatch, RecvChunk, Store, Accepts;
      var ok := UsbControlRecvChunk(packet);
      if ok {
        history := history.(delivered := history.delivered + [ctrlBuf[..ctrlLen]]);
        var handled := UsbControlRequestDispatch(reply);
        if handled {
          WritePacket([]);
          phase := StatusIn;
        } else {
          StallTransaction();
        }
      }
    }

    lemma DataOutIgnoresReply(packet: seq<byte>, reply: Reply, other: Reply, s: Control)
      requires s.phase.DataOut? && Receivable(s)
      ensures OnOut(config, s, packet, reply) == OnOut(config, s, packet, other)
    {
      hide RecvChunk, Store;
    }

    method ControlOut(packet: seq<byte>, reply: Reply)
      requires Receivable(State())
      modifies this, ctrlBuf
      ensures State() == OnOut(config, old(State()), packet, reply)
    {
      hide Dispatch, RecvChunk, Store, Accepts;
      match phase
      case DataOut =>
        DataOutIgnoresReply(packet, reply, Reply(NotSupported, false, [], false), State());
        hide OnOut;
        MoreDataOut(packet);
      case LastDataOut =>
        hide OnOut;
        LastOut(packet, reply);
      case StatusOut =>
        phase := Idle;
        RunComplete();
        complete := false;
      case _ =>
        StallTransaction();
    }

    method RunComplete()
      modifies `history
      ensures history == old(history).(completions := old(history.completions) + (if complete then 1 else 0))
    {
      if complete {
        history := history.(completions := history.completions + 1);
      }
    }

    method ControlIn()
      modifies this
      ensures State() == OnIn(config, old(State()))
    {
      match phase
      case DataIn =>
        UsbControlSendChunk();
      case LastDataIn =>
        phase := StatusOut;
        nak := false;
      case StatusIn =>
        RunComplete();
        if req.SetAddress() {
          address := req.wValue % 0x100;
        }
        phase := Idle;
      case _ =>
        StallTransaction();
    }
  }
}
