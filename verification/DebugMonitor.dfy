/** The debug monitor: an exception handler whose state outlives its entries, fed commands through the
    ring by the USB interrupt (Bootloader/App/Debug.cpp). */
module DebugMonitor {
  import RingBuffer
  import EraseLoop

  datatype Command = Nop | Halt | Resume | ResumeStep | StartFirmware | StartLocalLoop | StartEraseLoop

  datatype HaltState = Running | Request | Breakpoint

  /** The saved registers the handler may rewrite. */
  datatype Registers = Registers(pc: nat, lr: nat, sp: nat, xpsr: nat) {
    predicate InterruptActive() { xpsr % 0x100 != 0 }
  }

  /** Where execution is: in the program being debugged, or in the handler's command loop, entered from an
      interrupt or from thread mode. */
  datatype Place = Program | CommandLoop(interruptActive: bool)

  /** The words of the firmware image that StartFirmware looks at. */
  datatype Firmware = Firmware(stackPointer: nat, resetAddress: nat, commandAtReset: nat) {
    predicate Startable() {
      USER_VECTORS < resetAddress < USER_END && commandAtReset != 0xFFFF_FFFF
    }
  }

  const USER_VECTORS: nat := 0x0800_4000
  const USER_END: nat := 0x0802_0000
  const STACK_TOP: nat := 0x2000_5000
  const QUEUE_SIZE: nat := 16

  /** Addresses of the two loops the monitor starts; any values will do. */
  datatype Code = Code(localLoop: nat, eraseLoop: nat)

  datatype Monitor = Monitor(
    stepOnThread: nat, exitFromInterrupt: bool, basepri: nat, monStep: bool, monPend: bool,
    halt: HaltState, queue: seq<Command>, regs: Registers, place: Place)

  predicate IsStart(c: Command) {
    c.StartFirmware? || c.StartLocalLoop? || c.StartEraseLoop?
  }

  /** What happens: a command is queued by the USB interrupt; the monitor exception is taken, with the
      registers saved and the state of DFSR_BKPT and DEMCR_MON_REQ; the command loop makes a turn. */
  datatype Event = Enqueue(cmd: Command) | Enter(regs: Registers, bkpt: bool, monReq: bool) | Turn(firmware: Firmware)

  predicate Enabled(m: Monitor, e: Event) {
    match e
    case Enqueue(cmd) => cmd != Nop
    case Enter(_, _, _) => m.place.Program?
    case Turn(_) => m.place.CommandLoop?
  }

  // ---- The specification ----

  /** Leave the handler and come back after the next instruction. */
  function Postpone(m: Monitor): Monitor {
    m.(monStep := true, monPend := false, place := Program)
  }

  /** The gate before the command loop. */
  function Gate(m: Monitor, active: bool, monReq: bool): Monitor {
    if monReq && m.queue == [] then m.(monPend := false, place := Program)
    else if monReq then m.(monPend := false, place := CommandLoop(active))
    else m.(halt := if m.queue == [] then Breakpoint else m.halt, place := CommandLoop(active))
  }

  /** Does an entry get as far as the gate? */
  predicate Reaches(m: Monitor, active: bool, bkpt: bool) {
    if active then (m.stepOnThread != 0 && bkpt) || (m.stepOnThread != 1 && !m.exitFromInterrupt)
    else m.stepOnThread != 2
  }

  /** The state of stepping after an entry. */
  function Stepping(m: Monitor, active: bool, bkpt: bool): Monitor {
    if Reaches(m, active, bkpt) then
      if active then
        if m.stepOnThread != 0 && bkpt
        then m.(stepOnThread := 0, exitFromInterrupt := false, monStep := false, basepri := 0)
        else m.(stepOnThread := 0)
      else
        m.(stepOnThread := 0, exitFromInterrupt := false,
           basepri := if m.stepOnThread == 3 then 0 else m.basepri,
           monStep := if m.exitFromInterrupt then false else m.monStep)
    else if active then
      if m.stepOnThread == 1 then m.(stepOnThread := 2, exitFromInterrupt := true, basepri := 0x30) else m
    else m.(stepOnThread := 3)
  }

  function OnEnter(m: Monitor, regs: Registers, bkpt: bool, monReq: bool): Monitor {
    var active := regs.InterruptActive();
    var t := Stepping(m.(regs := regs), active, bkpt);
    if Reaches(m, active, bkpt) then Gate(t, active, monReq) else Postpone(t)
  }

  function Jump(pc: nat, sp: nat): Registers {
    Registers(pc, pc, sp, pc % 2 * 0x100_0000)
  }

  /** The end of a turn: out of the loop once the program is running. */
  function EndTurn(m: Monitor): Monitor {
    if m.halt != Running then m
    else m.(monPend := if m.queue == [] then false else m.monPend, place := Program)
  }

  /** A start command obeyed in thread mode, off the queue already. */
  function Obeyed(code: Code, p: Monitor, cmd: Command, firmware: Firmware): Monitor {
    match cmd
    case StartLocalLoop => Postpone(p.(regs := Jump(code.localLoop, STACK_TOP), halt := Running))
    case StartEraseLoop =>
      p.(regs := Jump(code.eraseLoop, STACK_TOP), monPend := false, halt := Running, place := Program)
    case _ =>
      if firmware.Startable() then Postpone(p.(regs := Jump(firmware.resetAddress, firmware.stackPointer)))
      else EndTurn(p)
  }

  function OnTurn(code: Code, m: Monitor, firmware: Firmware): Monitor
    requires m.place.CommandLoop? && Nop !in m.queue
  {
    if m.queue == [] then EndTurn(m)
    else
      var active := m.place.interruptActive;
      var p := m.(queue := m.queue[1..]);
      match m.queue[0]
      case Halt => EndTurn(p.(halt := Request))
      case Resume => EndTurn(p.(monStep := false, halt := Running))
      case ResumeStep =>
        EndTurn(p.(stepOnThread := if active then m.stepOnThread else 1, monStep := true, monPend := false,
                   halt := Running))
      case _ =>
        if active then Postpone(m.(exitFromInterrupt := true))
        else Obeyed(code, p, m.queue[0], firmware)
  }

  function OnEnqueue(m: Monitor, cmd: Command): Monitor {
    m.(queue := if |m.queue| < QUEUE_SIZE - 1 then m.queue + [cmd] else m.queue, monPend := true)
  }

  lemma TurnStarts(code: Code, m: Monitor, firmware: Firmware)
    requires m.place.CommandLoop? && Nop !in m.queue && m.queue != [] && IsStart(m.queue[0])
    ensures OnTurn(code, m, firmware)
         == if m.place.interruptActive then Postpone(m.(exitFromInterrupt := true))
            else Obeyed(code, m.(queue := m.queue[1..]), m.queue[0], firmware)
  {
  }

  function Next(code: Code, m: Monitor, e: Event): Monitor
    requires Enabled(m, e) && Nop !in m.queue
  {
    match e
    case Enqueue(cmd) => OnEnqueue(m, cmd)
    case Enter(regs, bkpt, monReq) => OnEnter(m, regs, bkpt, monReq)
    case Turn(firmware) => OnTurn(code, m, firmware)
  }

  // ---- Every run ----

  ghost predicate Invariant(m: Monitor) {
    && m.stepOnThread <= 3
    && (m.stepOnThread == 2 || m.stepOnThread == 3 ==> m.exitFromInterrupt)
    && (m.basepri == if m.stepOnThread == 2 || m.stepOnThread == 3 then 0x30 else 0)
    && (m.place.CommandLoop? ==> m.stepOnThread == 0 && !m.exitFromInterrupt && (m.queue == [] ==> m.halt != Running))
    && Nop !in m.queue && |m.queue| < QUEUE_SIZE
  }

  lemma InvariantKept(code: Code, m: Monitor, e: Event)
    requires Invariant(m) && Enabled(m, e)
    ensures Invariant(Next(code, m, e))
  {
    match e
    case Enqueue(cmd) =>
    case Enter(regs, bkpt, monReq) => EnterKeeps(m, regs, bkpt, monReq);
    case Turn(firmware) => TurnKeeps(code, m, firmware);
  }

  lemma EnterKeeps(m: Monitor, regs: Registers, bkpt: bool, monReq: bool)
    requires Invariant(m) && m.place == Program
    ensures Invariant(OnEnter(m, regs, bkpt, monReq))
  {
    hide Registers.InterruptActive, IsStart;
    var active := regs.InterruptActive();
    var t := Stepping(m.(regs := regs), active, bkpt);
    assert t.queue == m.queue && t.stepOnThread <= 3;
  }

  lemma SteppingStays(m: Monitor, active: bool, bkpt: bool)
    ensures Stepping(m, active, bkpt).place == m.place
  {
  }

  lemma TurnKeeps(code: Code, m: Monitor, firmware: Firmware)
    requires Invariant(m) && m.place.CommandLoop?
    ensures Invariant(OnTurn(code, m, firmware))
  {
    hide Firmware.Startable, Jump;
    if m.queue != [] {
      assert forall c :: c in m.queue[1..] ==> c in m.queue;
    }
  }

  lemma StartTurn(code: Code, m: Monitor, firmware: Firmware)
    requires m.place == CommandLoop(false) && m.queue != [] && IsStart(m.queue[0]) && Nop !in m.queue
    ensures OnTurn(code, m, firmware).queue == m.queue[1..]
  {
    hide Firmware.Startable, Jump;
  }

  const POWER_ON: Monitor := Monitor(0, false, 0, false, false, Running, [], Registers(0, 0, 0, 0), Program)

  datatype Outcome = NotScheduled | At(m: Monitor)

  /** The state after any sequence of events from `m`, or NotScheduled if some event could not happen. */
  function RunFrom(code: Code, m: Monitor, events: seq<Event>): (r: Outcome)
    requires Invariant(m)
    ensures r.At? ==> Invariant(r.m)
    decreases |events|
  {
    if events == [] then At(m)
    else if !Enabled(m, events[0]) then NotScheduled
    else
      InvariantKept(code, m, events[0]);
      RunFrom(code, Next(code, m, events[0]), events[1..])
  }

  // ---- What each command does ----

  /** The exception number is the low byte of xPSR; thread mode has number zero (ARMv7-M Architecture Reference
      Manual, section B1.4.2). Bit 8 of the number is not looked at, which only number 256 would show. */
  lemma InterruptIsException(pc: nat, lr: nat, sp: nat, flags: nat, number: nat)
    requires number < 0x200
    ensures Registers(pc, lr, sp, 0x200 * flags + number).InterruptActive() <==> number != 0 && number != 0x100
  {
    var low := number % 0x100;
    assert 0x200 * flags + number == 0x100 * (2 * flags + number / 0x100) + low;
    LowByte(2 * flags + number / 0x100, low);
  }

  lemma LowByte(high: nat, low: nat)
    requires low < 0x100
    ensures (0x100 * high + low) % 0x100 == low
  {
  }

  /** A request is the last in the queue, if there is room, and the monitor exception is pending in any case. */
  lemma RequestPending(m: Monitor, cmd: Command)
    ensures var t := OnEnqueue(m, cmd);
            t.monPend && t.queue == (if |m.queue| < 15 then m.queue + [cmd] else m.queue) && t.place == m.place
  {
  }

  /** An entry with no step or start under way: to the command loop, unless it was requested with nothing queued.
      An entry that nobody requested, with nothing queued, is a breakpoint. */
  lemma EntryStops(m: Monitor, regs: Registers, bkpt: bool, monReq: bool)
    requires Invariant(m) && m.place == Program && m.stepOnThread == 0 && !m.exitFromInterrupt
    ensures var t := OnEnter(m, regs, bkpt, monReq);
            && t.regs == regs && t.queue == m.queue && t.stepOnThread == 0 && t.monStep == m.monStep
            && (if monReq && m.queue == [] then t.place == Program && t.halt == m.halt && !t.monPend
                else
                  && t.place == CommandLoop(regs.InterruptActive())
                  && t.halt == (if m.queue == [] then Breakpoint else m.halt)
                  && t.monPend == (m.monPend && !monReq))
  {
    hide Registers.InterruptActive;
  }

  /** An entry that ends a step, or a start that was postponed: stepping is off, and interrupts are unmasked. */
  lemma SteppingEnds(m: Monitor, regs: Registers, bkpt: bool, monReq: bool)
    requires Invariant(m) && m.place == Program
    ensures var t := OnEnter(m, regs, bkpt, monReq);
            (if regs.InterruptActive() then m.stepOnThread != 0 && bkpt
             else m.exitFromInterrupt && m.stepOnThread != 2) ==>
              !t.monStep && !t.exitFromInterrupt && t.stepOnThread == 0 && t.basepri == 0 && t.queue == m.queue
  {
    hide Registers.InterruptActive;
  }

  /** A halt command is taken, the program stays stopped, and the state says that it was asked to. */
  lemma HaltTaken(code: Code, m: Monitor, firmware: Firmware)
    requires Invariant(m) && m.place.CommandLoop? && m.queue != [] && m.queue[0] == Halt
    ensures OnTurn(code, m, firmware) == m.(queue := m.queue[1..], halt := Request)
  {
  }

  /** A resume command lets the program run, without stepping; the handler is entered again at once only for what
      is still queued. */
  lemma ResumeTaken(code: Code, m: Monitor, firmware: Firmware)
    requires Invariant(m) && m.place.CommandLoop? && m.queue != [] && m.queue[0] == Resume
    ensures OnTurn(code, m, firmware)
         == m.(queue := m.queue[1..], halt := Running, place := Program, monStep := false,
               monPend := m.monPend && |m.queue| > 1)
  {
  }

  /** A step command lets the program run with stepping on; in thread mode the step is set up to survive
      interrupts. */
  lemma StepTaken(code: Code, m: Monitor, firmware: Firmware)
    requires Invariant(m) && m.place.CommandLoop? && m.queue != [] && m.queue[0] == ResumeStep
    ensures OnTurn(code, m, firmware)
         == m.(queue := m.queue[1..], halt := Running, place := Program, monStep := true, monPend := false,
               stepOnThread := if m.place == CommandLoop(false) then 1 else 0)
  {
  }

  /** The registers with which a started program continues: in thread mode, at its address, in Thumb state
      exactly if the address says so (bit 24 of xPSR). */
  lemma JumpStarts(pc: nat, sp: nat)
    ensures var r := Jump(pc, sp);
            && r.pc == r.lr == pc && r.sp == sp
            && !r.InterruptActive() && r.xpsr == (if pc % 2 == 1 then 0x100_0000 else 0)
  {
  }

  /** A start command in an interrupt is left in the queue, and the program goes on to thread mode under stepping. */
  lemma StartPostponed(code: Code, m: Monitor, firmware: Firmware)
    requires Invariant(m) && m.place == CommandLoop(true) && m.queue != []
    requires m.queue[0] in [StartFirmware, StartLocalLoop, StartEraseLoop]
    ensures OnTurn(code, m, firmware)
         == m.(exitFromInterrupt := true, monStep := true, monPend := false, place := Program)
  {
  }

  /** In thread mode the two loops are started with a fresh stack, the firmware with its own, and all run; but the
      state says so only of the loops. */
  lemma StartTaken(code: Code, m: Monitor, firmware: Firmware)
    requires Invariant(m) && m.place == CommandLoop(false) && m.queue != []
    ensures var t, p := OnTurn(code, m, firmware), m.(queue := m.queue[1..], monPend := false, place := Program);
            && (m.queue[0] == StartLocalLoop ==>
                  t == p.(regs := Jump(code.localLoop, 0x2000_5000), monStep := true, halt := Running))
            && (m.queue[0] == StartEraseLoop ==>
                  t == p.(regs := Jump(code.eraseLoop, 0x2000_5000), halt := Running))
            && (m.queue[0] == StartFirmware && Bootable(firmware) ==>
                  t == p.(regs := Jump(firmware.resetAddress, firmware.stackPointer), monStep := true))
  {
    hide Jump;
  }

  /** There is firmware: its reset address lies behind its vectors in user flash, and not in erased flash. */
  predicate Bootable(firmware: Firmware) {
    0x0800_4000 < firmware.resetAddress < 0x0802_0000 && firmware.commandAtReset != 0xFFFF_FFFF
  }

  /** Without firmware a start command is used up, and the program goes on exactly if it was running. */
  lemma StartRefused(code: Code, m: Monitor, firmware: Firmware)
    requires Invariant(m) && m.place == CommandLoop(false) && m.queue != [] && m.queue[0] == StartFirmware
    requires !Bootable(firmware)
    ensures var t := OnTurn(code, m, firmware);
            && t.queue == m.queue[1..] && t.regs == m.regs && t.halt == m.halt && t.monStep == m.monStep
            && t.place == (if m.halt == Running then Program else m.place)
  {
  }

  /** In the command loop, and reported as stopped. */
  predicate Halted(m: Monitor) {
    m.place.CommandLoop? && m.halt != Running
  }

  /** A turn that takes, or for a start command in an interrupt postpones, a command that lets something run. */
  predicate Releases(m: Monitor, e: Event) {
    e.Turn? && m.queue != [] && m.queue[0] in [Resume, ResumeStep, StartFirmware, StartLocalLoop, StartEraseLoop]
  }

  lemma HaltedOnce(code: Code, m: Monitor, e: Event)
    requires Invariant(m) && Halted(m) && Enabled(m, e) && !Releases(m, e)
    ensures Halted(Next(code, m, e))
  {
    if e.Turn? && m.queue != [] {
      assert m.queue[0] == Halt;
      HaltTaken(code, m, e.firmware);
    }
  }

  /** Once halted, the handler stays in its loop and reports it, whatever else happens, until such a command is
      at the head of its queue. */
  lemma {:induction false} HaltedStays(code: Code, m: Monitor, events: seq<Event>)
    requires Invariant(m) && Halted(m) && RunFrom(code, m, events).At?
    ensures Halted(RunFrom(code, m, events).m)
         || exists k :: 0 <= k < |events| && RunFrom(code, m, events[..k]).At?
                        && Releases(RunFrom(code, m, events[..k]).m, events[k])
    decreases |events|
  {
    hide Releases, Halted, Next;
    if events != [] {
      var e, rest := events[0], events[1..];
      assert events[..0] == [] && RunFrom(code, m, []) == At(m);
      if !Releases(m, e) {
        InvariantKept(code, m, e);
        HaltedOnce(code, m, e);
        var u := Next(code, m, e);
        HaltedStays(code, u, rest);
        if k :| 0 <= k < |rest| && RunFrom(code, u, rest[..k]).At? && Releases(RunFrom(code, u, rest[..k]).m, rest[k]) {
          assert events[..k + 1][1..] == rest[..k] && events[..k + 1][0] == e;
          assert RunFrom(code, m, events[..k + 1]) == RunFrom(code, u, rest[..k]);
        }
      }
    }
  }

  /** A halt request while the program runs: the next entry and one turn of the loop, and it is halted. */
  lemma HaltServed(code: Code, m: Monitor, regs: Registers, bkpt: bool, monReq: bool, firmware: Firmware)
    requires Invariant(m) && m.place == Program && m.queue == [] && m.stepOnThread == 0 && !m.exitFromInterrupt
    ensures var r := RunFrom(code, m, [Enqueue(Halt), Enter(regs, bkpt, monReq), Turn(firmware)]);
            r.At? && r.m.place == CommandLoop(regs.InterruptActive()) && r.m.halt == Request && r.m.queue == []
  {
    var a := OnEnqueue(m, Halt);
    var b := OnEnter(a, regs, bkpt, monReq);
    var events := [Enqueue(Halt), Enter(regs, bkpt, monReq), Turn(firmware)];
    assert m.queue + [Halt] == [Halt] && [Halt][1..] == [];
    InvariantKept(code, m, Enqueue(Halt));
    EntryStops(a, regs, bkpt, monReq);
    InvariantKept(code, a, Enter(regs, bkpt, monReq));
    HaltTaken(code, b, firmware);
    Three(code, m, events[0], events[1], events[2]);
    hide OnTurn, OnEnter, OnEnqueue, RunFrom, Invariant;
  }

  lemma Three(code: Code, m: Monitor, d: Event, e: Event, f: Event)
    requires Invariant(m) && Enabled(m, d) && Invariant(Next(code, m, d)) && Enabled(Next(code, m, d), e)
    requires var b := Next(code, Next(code, m, d), e); Invariant(b) && Enabled(b, f)
    ensures RunFrom(code, m, [d, e, f]) == At(Next(code, Next(code, Next(code, m, d), e), f))
  {
    hide Next;
    assert [d, e, f][1..] == [e, f] && [e, f][1..] == [f] && [f][1..] == [];
    var b := Next(code, Next(code, m, d), e);
    InvariantKept(code, b, f);
    assert RunFrom(code, b, [f]) == At(Next(code, b, f));
    assert RunFrom(code, Next(code, m, d), [e, f]) == RunFrom(code, b, [f]);
  }

  // ---- Stepping ----

  /** Only interrupt-mode entries that are not breakpoints. */
  predicate InterruptsOnly(events: seq<Event>) {
    forall e :: e in events ==> e.Enter? ==> e.regs.InterruptActive() && !e.bkpt
  }

  /** After an accepted step the monitor stays out of its command loop, and reports no halt, for as long
      as it is only entered from interrupts without a breakpoint. */
  lemma {:induction false} StepWaitsForThread(code: Code, m: Monitor, events: seq<Event>)
    requires Invariant(m) && m.stepOnThread != 0 && InterruptsOnly(events)
    requires RunFrom(code, m, events).At?
    ensures var t := RunFrom(code, m, events).m;
            && t.place == Program && t.halt == m.halt
            && t.stepOnThread
               == (if m.stepOnThread == 1 && (exists e :: e in events && e.Enter?) then 2 else m.stepOnThread)
    decreases |events|
  {
    if events != [] {
      InvariantKept(code, m, events[0]);
      StepWaitsForThread(code, Next(code, m, events[0]), events[1..]);
      if e :| e in events && e.Enter? {
        assert e == events[0] || e in events[1..];
      }
    }
  }

  /** An entry while a step is pending gets to the command loop exactly at a breakpoint, or in thread mode
      unless it is the first such entry after an interrupt got in between; only a request with nothing queued
      is turned back at the gate. Anything else leaves the program where it is, and the halt state alone. */
  lemma StepReachesLoop(m: Monitor, regs: Registers, bkpt: bool, monReq: bool)
    requires Invariant(m) && m.place == Program && m.stepOnThread != 0
    ensures var active := regs.InterruptActive();
            var t := OnEnter(m, regs, bkpt, monReq);
            && (t.place == CommandLoop(active) <==>
                  (if active then bkpt else m.stepOnThread != 2) && !(monReq && m.queue == []))
            && (t.place == CommandLoop(active) ==> t.stepOnThread == 0 && t.basepri == 0)
            && (t.place != CommandLoop(active) ==> t.place == Program && t.halt == m.halt)
            && (t.halt != m.halt ==> t.halt == Breakpoint && m.queue == [])
  {
    hide Registers.InterruptActive;
  }

  /** The whole story of one step that meets no breakpoint: accepted in thread mode, then any interrupts, then
      thread mode once or twice, again with any interrupts between. The command loop is reached at the first
      thread-mode entry if no interrupt came first, and at the second otherwise; until then interrupts stay
      masked. */
  lemma StepCompletes(code: Code, m: Monitor, first: seq<Event>, regs1: Registers, req1: bool, bkpt1: bool,
                      second: seq<Event>, regs2: Registers, req2: bool, bkpt2: bool)
    requires Invariant(m) && m.stepOnThread == 1 && InterruptsOnly(first) && InterruptsOnly(second)
    requires !regs1.InterruptActive() && !regs2.InterruptActive()
    requires RunFrom(code, m, first).At?
    ensures var a := RunFrom(code, m, first).m;
            var b := OnEnter(a, regs1, bkpt1, req1);
            if forall e :: e in first ==> !e.Enter? then Reaches(a, false, bkpt1)
            else
              && !Reaches(a, false, bkpt1) && a.basepri == b.basepri == 0x30
              && Invariant(b) && b.place == Program
              && (RunFrom(code, b, second).At? ==>
                    var c := RunFrom(code, b, second).m;
                    && c.place == Program && c.basepri == 0x30 && Reaches(c, false, bkpt2)
                    && OnEnter(c, regs2, bkpt2, req2).basepri == 0)
  {
    StepWaitsForThread(code, m, first);
    var a := RunFrom(code, m, first).m;
    InvariantKept(code, a, Enter(regs1, bkpt1, req1));
    if e :| e in first && e.Enter? {
      var b := OnEnter(a, regs1, bkpt1, req1);
      if RunFrom(code, b, second).At? {
        StepWaitsForThread(code, b, second);
        var c := RunFrom(code, b, second).m;
        InvariantKept(code, c, Enter(regs2, bkpt2, req2));
      }
    }
  }

  /** Past the first thread-mode entry nothing an interrupt does, breakpoints and command loops included, sets
      a step up again. */
  ghost predicate Settled(m: Monitor) {
    m.place != CommandLoop(false) && m.stepOnThread != 1 && m.stepOnThread != 2
  }

  predicate InterruptEntries(events: seq<Event>) {
    forall e :: e in events ==> e.Enter? ==> e.regs.InterruptActive()
  }

  lemma SettledOnce(code: Code, m: Monitor, e: Event)
    requires Invariant(m) && Settled(m) && Enabled(m, e) && (e.Enter? ==> e.regs.InterruptActive())
    ensures Settled(Next(code, m, e))
  {
  }

  lemma {:induction false} SettledStays(code: Code, m: Monitor, events: seq<Event>)
    requires Invariant(m) && Settled(m) && InterruptEntries(events) && RunFrom(code, m, events).At?
    ensures Settled(RunFrom(code, m, events).m)
    decreases |events|
  {
    if events != [] {
      InvariantKept(code, m, events[0]);
      SettledOnce(code, m, events[0]);
      hide Next, Invariant, Enabled, Settled;
      assert InterruptEntries(events[1..]);
      SettledStays(code, Next(code, m, events[0]), events[1..]);
    }
  }

  /** From any state, a step is over by the second thread-mode entry, and interrupts are unmasked again,
      whatever interrupts come between, breakpoints included. */
  lemma StepOver(code: Code, m: Monitor, regs1: Registers, bkpt1: bool, req1: bool, between: seq<Event>,
                 regs2: Registers, bkpt2: bool, req2: bool)
    requires Invariant(m) && m.place == Program
    requires !regs1.InterruptActive() && !regs2.InterruptActive() && InterruptEntries(between)
    ensures var a := OnEnter(m, regs1, bkpt1, req1);
            && Invariant(a)
            && (if m.stepOnThread != 2 then a.stepOnThread == 0 && a.basepri == 0
                else
                  && a.place == Program
                  && (RunFrom(code, a, between).At? && RunFrom(code, a, between).m.place == Program ==>
                        var c := OnEnter(RunFrom(code, a, between).m, regs2, bkpt2, req2);
                        c.stepOnThread == 0 && c.basepri == 0))
  {
    EnterKeeps(m, regs1, bkpt1, req1);
    var a := OnEnter(m, regs1, bkpt1, req1);
    if m.stepOnThread == 2 && RunFrom(code, a, between).At? {
      SettledStays(code, a, between);
      var b := RunFrom(code, a, between).m;
      if b.place == Program {
        EnterKeeps(b, regs2, bkpt2, req2);
      }
    }
  }

  // ---- Start commands ----

  /** The saved registers are rewritten only by a start command taken in thread mode. */
  lemma OnlyThreadModeRewrites(code: Code, m: Monitor, e: Event)
    requires Invariant(m) && Enabled(m, e)
    ensures var t := Next(code, m, e);
            t.regs != m.regs ==>
              || e.Enter?
              || (e.Turn? && m.place == CommandLoop(false) && m.queue != [] && IsStart(m.queue[0])
                  && t.queue == m.queue[1..])
  {
  }

  lemma StartStaysOnce(code: Code, m: Monitor, e: Event)
    requires Invariant(m) && m.queue != [] && IsStart(m.queue[0]) && m.place != CommandLoop(false)
    requires Enabled(m, e) && (e.Enter? ==> e.regs.InterruptActive())
    ensures var t := Next(code, m, e);
            && t.place != CommandLoop(false) && t.queue != [] && t.queue[0] == m.queue[0] && |t.queue| >= |m.queue|
  {
  }

  /** A start command at the head of the queue stays there through every interrupt-mode entry. */
  lemma {:induction false} StartStays(code: Code, m: Monitor, events: seq<Event>)
    requires Invariant(m) && m.queue != [] && IsStart(m.queue[0]) && m.place != CommandLoop(false)
    requires InterruptEntries(events) && RunFrom(code, m, events).At?
    ensures var t := RunFrom(code, m, events).m;
            && t.place != CommandLoop(false) && t.queue != [] && t.queue[0] == m.queue[0] && |t.queue| >= |m.queue|
    decreases |events|
  {
    if events != [] {
      InvariantKept(code, m, events[0]);
      StartStaysOnce(code, m, events[0]);
      hide Next, Invariant, Enabled, IsStart;
      assert InterruptEntries(events[1..]);
      StartStays(code, Next(code, m, events[0]), events[1..]);
    }
  }

  /** In thread mode it is consumed: at the first entry, or at the second when a step had been held up by
      an interrupt. Between the two anything may happen in interrupts: breakpoints, turns of a command loop
      that postpone the command once more, further commands queued. */
  lemma StartConsumed(code: Code, m: Monitor, regs1: Registers, bkpt1: bool, req1: bool, between: seq<Event>,
                      regs2: Registers, bkpt2: bool, req2: bool, firmware: Firmware)
    requires Invariant(m) && m.place == Program && m.queue != [] && IsStart(m.queue[0])
    requires !regs1.InterruptActive() && !regs2.InterruptActive() && InterruptEntries(between)
    ensures var a := OnEnter(m, regs1, bkpt1, req1);
            && Invariant(a)
            && (if m.stepOnThread != 2 then
                  && a.place == CommandLoop(false) && a.queue == m.queue
                  && OnTurn(code, a, firmware).queue == m.queue[1..]
                else
                  && a.place == Program
                  && (RunFrom(code, a, between).At? && RunFrom(code, a, between).m.place == Program ==>
                        var c := OnEnter(RunFrom(code, a, between).m, regs2, bkpt2, req2);
                        && c.place == CommandLoop(false) && c.queue != [] && c.queue[0] == m.queue[0] && Nop !in c.queue
                        && OnTurn(code, c, firmware).queue == c.queue[1..]))
  {
    hide OnTurn, IsStart;
    EnterKeeps(m, regs1, bkpt1, req1);
    var a := OnEnter(m, regs1, bkpt1, req1);
    if m.stepOnThread != 2 {
      StartTurn(code, a, firmware);
    } else if RunFrom(code, a, between).At? {
      SettledStays(code, a, between);
      StartStays(code, a, between);
      var b := RunFrom(code, a, between).m;
      if b.place == Program {
        EnterKeeps(b, regs2, bkpt2, req2);
        StartTurn(code, OnEnter(b, regs2, bkpt2, req2), firmware);
      }
    }
  }

  /** The monitor with its static variables, the debug registers it uses, and the command ring. */
  class Handler {
    const code: Code
    const cmdQueue: RingBuffer.CircularBuffer<Command>
    var stepOnThread: nat
    var exitFromInterrupt: bool
    var basepri: nat
    var monStep: bool
    var monPend: bool
    var haltState: HaltState
    var regs: Registers
    var place: Place

    ghost predicate Sound()
      reads this, cmdQueue, cmdQueue.buffer
    {
      cmdQueue.Valid() && cmdQueue.size == QUEUE_SIZE && Invariant(State())
    }

    ghost function State(): Monitor
      requires cmdQueue.Valid()
      reads this, cmdQueue, cmdQueue.buffer
    {
      Monitor(stepOnThread, exitFromInterrupt, basepri, monStep, monPend, haltState, cmdQueue.Contents(), regs, place)
    }

    constructor (code: Code)
      ensures Sound() && State() == POWER_ON && this.code == code && fresh(cmdQueue) && fresh(cmdQueue.buffer)
    {
      this.code := code;
      cmdQueue := new RingBuffer.CircularBuffer<Command>(QUEUE_SIZE);
      stepOnThread, exitFromInterrupt, basepri := 0, false, 0;
      monStep, monPend, haltState := false, false, Running;
      regs, place := Registers(0, 0, 0, 0), Program;
    }

    /** The body of every `debug...` request: queue the command and pend the monitor exception. */
    method Post(cmd: Command) returns (result: bool)
      requires Sound() && cmd != Nop
      modifies `monPend, cmdQueue, cmdQueue.buffer
      ensures Sound() && State() == OnEnqueue(old(State()), cmd)
      ensures result == (|old(State()).queue| < QUEUE_SIZE - 1)
    {
      result := cmdQueue.Put(cmd);
      monPend := true;
    }

    method DebugHaltRequest() returns (result: bool)
      requires Sound()
      modifies `monPend, cmdQueue, cmdQueue.buffer
      ensures Sound() && State() == OnEnqueue(old(State()), Halt)
      ensures result == (|old(State()).queue| < QUEUE_SIZE - 1)
    {
      result := Post(Halt);
    }

    method DebugResume(step: bool) returns (result: bool)
      requires Sound()
      modifies `monPend, cmdQueue, cmdQueue.buffer
      ensures Sound() && State() == OnEnqueue(old(State()), if step then ResumeStep else Resume)
      ensures result == (|old(State()).queue| < QUEUE_SIZE - 1)
    {
      result := Post(if step then ResumeStep else Resume);
    }

    /** `debugStartFirmware` and `debugStartLocalLoop`. */
    method DebugStart(cmd: Command) returns (result: bool)
      requires Sound() && (cmd == StartFirmware || cmd == StartLocalLoop)
      modifies `monPend, cmdQueue, cmdQueue.buffer
      ensures Sound() && State() == OnEnqueue(old(State()), cmd)
      ensures result == (|old(State()).queue| < QUEUE_SIZE - 1)
    {
      result := Post(cmd);
    }

    /** The range goes into a ring of its own, whether or not the command finds room. */
    method DebugStartEraseLoop(eraseParams: RingBuffer.CircularBuffer<EraseLoop.EraseParams>, address: nat, size: nat)
        returns (result: bool)
      requires Sound() && eraseParams.Valid()
      requires eraseParams as object !in {this, cmdQueue, cmdQueue.buffer}
      requires eraseParams.buffer as object !in {this, cmdQueue, cmdQueue.buffer}
      modifies `monPend, cmdQueue, cmdQueue.buffer, eraseParams, eraseParams.buffer
      ensures Sound() && State() == OnEnqueue(old(State()), StartEraseLoop)
      ensures eraseParams.Valid()
      ensures var was := old(eraseParams.Contents());
              && eraseParams.Contents()
                 == (if |was| < eraseParams.size - 1 then was + [EraseLoop.EraseParams(address, size)] else was)
              && result == (|was| < eraseParams.size - 1 && |old(State()).queue| < QUEUE_SIZE - 1)
    {
      result := eraseParams.Put(EraseLoop.EraseParams(address, size));
      var posted := Post(StartEraseLoop);
      result := result && posted;
    }

    method Return()
      modifies `monStep, `monPend, `place
      ensures monStep && !monPend && place == Program
    {
      monStep := true;
      monPend := false;
      place := Program;
    }

    /** The prologue of `DebugHandler` when an interrupt is active. */
    method InterruptPrologue(bkpt: bool) returns (reached: bool)
      requires cmdQueue.Valid()
      modifies `stepOnThread, `exitFromInterrupt, `basepri, `monStep, `monPend, `place
      ensures reached == Reaches(old(State()), true, bkpt)
      ensures State() == if reached then Stepping(old(State()), true, bkpt)
                         else Postpone(Stepping(old(State()), true, bkpt))
    {
      if stepOnThread != 0 {
        if bkpt {
          stepOnThread := 0;
          exitFromInterrupt := false;
          monStep := false;
          basepri := 0;
        }
      }
      if stepOnThread == 1 {
        stepOnThread := 2;
        exitFromInterrupt := true;
        basepri := 0x30;
      }
      if exitFromInterrupt {
        Return();
        return false;
      }
      stepOnThread := 0;
      return true;
    }

    /** The prologue of `DebugHandler` in thread mode. */
    method ThreadPrologue(ghost bkpt: bool) returns (reached: bool)
      requires cmdQueue.Valid()
      modifies `stepOnThread, `exitFromInterrupt, `basepri, `monStep, `monPend, `place
      ensures reached == Reaches(old(State()), false, bkpt)
      ensures State() == if reached then Stepping(old(State()), false, bkpt)
                         else Postpone(Stepping(old(State()), false, bkpt))
    {
      if stepOnThread == 2 {
        stepOnThread := 3;
        Return();
        return false;
      }
      if stepOnThread == 3 {
        stepOnThread := 0;
        basepri := 0;
      }
      if exitFromInterrupt {
        monStep := false;
        exitFromInterrupt := false;
      }
      stepOnThread := 0;
      return true;
    }

    /** The test of DEMCR_MON_REQ and of the queue before the command loop. */
    method PassGate(interruptActive: bool, monReq: bool)
      requires cmdQueue.Valid() && place == Program
      modifies `monPend, `haltState, `place
      ensures State() == Gate(old(State()), interruptActive, monReq)
    {
      var empty := cmdQueue.IsEmpty();
      if monReq {
        monPend := false;
        if empty {
          return;
        }
      } else {
        if empty {
          haltState := Breakpoint;
        }
      }
      place := CommandLoop(interruptActive);
    }

    /** `DebugHandler` up to its command loop. */
    method DebugHandler(saved: Registers, bkpt: bool, monReq: bool)
      requires Sound() && place == Program
      modifies this
      ensures Sound() && State() == OnEnter(old(State()), saved, bkpt, monReq)
    {
      EnterKeeps(State(), saved, bkpt, monReq);
      SteppingStays(State().(regs := saved), saved.InterruptActive(), bkpt);
      hide Invariant, Registers.InterruptActive, Stepping, Reaches, Gate, Postpone;
      regs := saved;
      var interruptActive := regs.InterruptActive();
      var reached;
      if interruptActive {
        reached := InterruptPrologue(bkpt);
      } else {
        reached := ThreadPrologue(bkpt);
      }
      if reached {
        PassGate(interruptActive, monReq);
      }
    }

    /** Writes the saved registers so that execution continues at `pc`. */
    method JumpTo(pc: nat, sp: nat)
      modifies `regs
      ensures regs == Jump(pc, sp)
    {
      regs := Registers(pc, pc, sp, pc % 2 * 0x100_0000);
    }

    /** The loop condition, and what follows the loop. */
    method LoopEnd()
      requires cmdQueue.Valid()
      modifies `monPend, `place
      ensures State() == EndTurn(old(State()))
    {
      if haltState == Running {
        var empty := cmdQueue.IsEmpty();
        if empty {
          monPend := false;
        }
        place := Program;
      }
    }

    /** A start command: kept for later in an interrupt, taken off the queue and obeyed in thread mode. */
    method StartCommand(cmd: Command, firmware: Firmware)
      requires Sound() && place.CommandLoop? && State().queue != [] && State().queue[0] == cmd && IsStart(cmd)
      modifies this, cmdQueue
      ensures cmdQueue.Valid() && State() == OnTurn(code, old(State()), firmware)
    {
      TurnStarts(code, State(), firmware);
      hide Invariant, Obeyed, OnTurn, RingBuffer.Window;
      if place.interruptActive {
        exitFromInterrupt := true;
        Return();
        return;
      }
      var _, _ := cmdQueue.Pull(Nop);
      Obey(cmd, firmware);
    }

    /** What a start command does in thread mode. */
    method Obey(cmd: Command, firmware: Firmware)
      requires cmdQueue.Valid()
      modifies `regs, `haltState, `monStep, `monPend, `place
      ensures State() == Obeyed(code, old(State()), cmd, firmware)
    {
      hide Jump, Firmware.Startable;
      if cmd == StartLocalLoop {
        JumpTo(code.localLoop, STACK_TOP);
        haltState := Running;
        Return();
      } else if cmd == StartEraseLoop {
        JumpTo(code.eraseLoop, STACK_TOP);
        monPend := false;
        haltState := Running;
        place := Program;
      } else if firmware.Startable() {
        JumpTo(firmware.resetAddress, firmware.stackPointer);
        Return();
      } else {
        LoopEnd();
      }
    }

    /** One turn of the command loop. */
    method CommandLoopTurn(firmware: Firmware)
      requires Sound() && place.CommandLoop?
      modifies this, cmdQueue
      ensures Sound() && State() == OnTurn(code, old(State()), firmware)
    {
      TurnKeeps(code, State(), firmware);
      var ok, cmd := cmdQueue.Get(Nop);
      if !ok {
        LoopEnd();
        return;
      }
      if cmd == Halt {
        var _, _ := cmdQueue.Pull(cmd);
        haltState := Request;
        LoopEnd();
      } else if cmd == Resume {
        var _, _ := cmdQueue.Pull(cmd);
        monStep := false;
        haltState := Running;
        LoopEnd();
      } else if cmd == ResumeStep {
        var _, _ := cmdQueue.Pull(cmd);
        if !place.interruptActive {
          stepOnThread := 1;
        }
        monStep := true;
        monPend := false;
        haltState := Running;
        LoopEnd();
      } else {
        StartCommand(cmd, firmware);
      }
    }
  }
}
