/** Whole sessions of mass storage: any list of commands against a drive that is only a history of writes
    (Bootloader/libopencm3/lib/usb/usb_msc.c). */
module DiskSession {
  import opened Bytes
  import opened MassStorage
  import ScsiHost

  /** One transaction of the host: the command and, for a write, the data. */
  datatype Order = Order(cbw: seq<byte>, data: seq<byte>)

  predicate Proper(o: Order) {
    |o.cbw| == CBW_SIZE && (Asked(o).Write? ==> |o.data| == BLOCK * Asked(o).count)
  }

  function Asked(o: Order): Command
    requires |o.cbw| == CBW_SIZE
  {
    Decode(o.cbw[CB_OFFSET..])
  }

  predicate AllProper(orders: seq<Order>) {
    forall i :: 0 <= i < |orders| ==> Proper(orders[i])
  }

  // ---- The reference ----

  /** How far block `b` lies behind the first one of a write; block addresses wrap. */
  function Place(lba: nat, b: nat): nat {
    (b + 0x1_0000_0000 - lba % 0x1_0000_0000) % 0x1_0000_0000
  }

  /** What block `b` holds after these commands: the part of the last write that covers it, zeros if it was
      formatted since, and otherwise what it held at first. `last` is the number FORMAT UNIT stops at. */
  function Content(disk: Disk, last: nat, orders: seq<Order>, b: nat): (r: seq<byte>)
    requires AllProper(orders)
    ensures |r| == BLOCK
  {
    if orders == [] then BlockAt(disk, b)
    else
      var before, o := orders[..|orders| - 1], orders[|orders| - 1];
      match Asked(o)
      case Write(lba, n) =>
        var k := Place(lba, b);
        if k < n then o.data[BLOCK * k..BLOCK * k + BLOCK] else Content(disk, last, before, b)
      case FormatUnit => if b < last then seq(BLOCK, _ => 0) else Content(disk, last, before, b)
      case _ => Content(disk, last, before, b)
  }

  /** The blocks lba to lba + n - 1. */
  function Contents(disk: Disk, last: nat, orders: seq<Order>, lba: nat, n: nat): (r: seq<byte>)
    requires AllProper(orders)
    ensures |r| == BLOCK * n
  {
    if n == 0 then []
    else Contents(disk, last, orders, lba, n - 1) + Content(disk, last, orders, Wrap(lba + n - 1))
  }

  /** What the host gets for a command that is no report: data and status. */
  function Answer(disk: Disk, last: nat, before: seq<Order>, o: Order): (seq<byte>, Csw)
    requires AllProper(before) && Proper(o)
  {
    var csw := Passed(o.cbw[4..8]);
    match Asked(o)
    case Read(lba, n, _) => (Contents(disk, last, before, lba, n), csw)
    case Invalid => ([], csw.(status := 1))
    case _ => ([], csw)
  }

  // ---- The session ----

  /** How many packets the host takes for a command that is no write: data, or a report, and the status. */
  function PacketsTaken(ep: nat, c: Command): nat
    requires EndpointSize(ep)
  {
    if c.Read? then PacketsLeft(ep, c.count, 0, 0) + 1
    else if ReportLength(c) == 0 then 1
    else |ReportPackets(ep, seq(ReportLength(c), _ => 0))| + 1
  }

  /** One transaction, packet by packet: the command, the data, and as many packets taken as there are. */
  function Perform(ep: nat, t: Trans, o: Order): Trans
    requires EndpointSize(ep) && Ready(t) && Proper(o)
  {
    var u, c := Rx(ep, t, o.cbw), Asked(o);
    if c.Write? then TxTimes(ep, RxTimes(ep, u, Cut(ep, o.data)), 1) else TxTimes(ep, u, PacketsTaken(ep, c))
  }

  function Session(ep: nat, t: Trans, orders: seq<Order>): Trans
    requires EndpointSize(ep) && AllProper(orders)
  {
    if orders == [] then t
    else
      var u := Session(ep, t, orders[..|orders| - 1]);
      if Ready(u) then Perform(ep, u, orders[|orders| - 1]) else u
  }

  // ---- What the callbacks leave alone ----

  /** The sense codes after a command: an unknown one sets "illegal request, invalid operation code", most reset
      them, and a write, a REQUEST SENSE, a MODE SENSE or an INQUIRY for vital product data keeps them. */
  function SenseOf(c: Command, was: Sense): Sense {
    match c
    case Invalid => Sense(5, 0x20, 0)
    case Write(_, _) => was
    case RequestSense(_) => was
    case ModeSense => was
    case Inquiry(vpd) => if vpd then was else Sense(0, 0, 0)
    case _ => Sense(0, 0, 0)
  }

  /** The command in the record has set the sense codes. */
  predicate Sensed(t: Trans, was: Sense) {
    |t.cbw| == CBW_SIZE && t.sense == SenseOf(Decode(t.cbw[CB_OFFSET..]), was)
  }

  /** The name and the command stay, and once the sense codes are set they stay. */
  predicate Steady(t: Trans, u: Trans, was: Sense) {
    u.id == t.id && u.cbw == t.cbw && u.cbwCnt == t.cbwCnt && (Sensed(t, was) ==> Sensed(u, was))
  }

  lemma CommandSenses(t: Trans)
    requires Valid(t)
    ensures var u := ScsiCommand(t);
            u.id == t.id && u.cbw == t.cbw && u.cbwCnt == t.cbwCnt && Sensed(u, t.sense)
  {
    hide Decode, Report, Formatted, UpTo;
  }

  lemma StatusSteady(t: Trans, was: Sense)
    requires Valid(t)
    ensures Steady(t, NeedStatus(t), was)
  {
    hide Decode;
  }

  lemma CbwSensed(ep: nat, t: Trans, cbw: seq<byte>)
    requires EndpointSize(ep) && Ready(t) && |cbw| == CBW_SIZE
    ensures var u := ReceiveCbw(ep, t, cbw);
            u.id == t.id && u.cbw == cbw && u.cbwCnt == CBW_SIZE && Sensed(u, t.sense)
  {
    hide ScsiCommand, Sensed;
    assert cbw[..CBW_SIZE] == cbw;
    assert Store(t.cbw, 0, cbw) == cbw;
    CommandSenses(t.(cbw := cbw, cbwCnt := CBW_SIZE));
  }

  lemma CswSteady(ep: nat, t: Trans, was: Sense)
    requires Valid(t)
    ensures Steady(t, SendCsw(ep, t), was)
  {
    hide NeedStatus, CswBytes, SenseOf;
    StatusSteady(t, was);
  }

  lemma DataSteady(ep: nat, t: Trans, p: seq<byte>, was: Sense)
    requires Valid(t) && Aligned(ep, t)
    ensures t.byteCount < t.bytesToRead ==> Steady(t, ReceiveData(ep, t, p), was)
    ensures t.byteCount < t.bytesToWrite ==> Steady(t, SendData(ep, t), was)
    ensures Steady(t, Lock(t), was) && Steady(t, Unlock(t), was)
  {
    hide Store, BlockAt, SenseOf, Decode;
  }

  lemma RxBodySteady(ep: nat, t: Trans, p: seq<byte>, was: Sense)
    requires EndpointSize(ep) && Valid(t) && Aligned(ep, t)
    ensures Steady(t, RxBody(ep, t, p), was)
  {
    hide ReceiveData, SendData, SendCsw, Decode, Lba, SenseOf;
    if t.byteCount < t.bytesToRead {
      DataSteady(ep, t, p, was);
      CswSteady(ep, ReceiveData(ep, t, p), was);
    } else if t.byteCount < t.bytesToWrite {
      DataSteady(ep, Lock(t), p, was);
      DataSteady(ep, t, p, was);
    } else {
      CswSteady(ep, if t.blockCount > 0 && t.currentBlock == t.blockCount
                    then WriteBlock(t).(currentBlock := 0, locks := t.locks - 1)
                    else t, was);
    }
  }

  /** What the sense codes and the name are once the command is in. */
  ghost predicate Begun(t0: Trans, t: Trans, cbw: seq<byte>) {
    t.id == t0.id && t.cbw == cbw && Sensed(t, t0.sense)
  }

  lemma RxBegins(ep: nat, t: Trans, cbw: seq<byte>)
    requires EndpointSize(ep) && Ready(t) && |cbw| == CBW_SIZE
    ensures Begun(t, Rx(ep, t, cbw), cbw) && Rx(ep, t, cbw).cbwCnt == CBW_SIZE
  {
    hide ReceiveCbw, RxBody, Sensed;
    CbwSensed(ep, t, cbw);
    RxBodySteady(ep, ReceiveCbw(ep, t, cbw), cbw[|cbw|..], t.sense);
  }

  lemma {:induction false} RxTimesBegun(ep: nat, t0: Trans, t: Trans, cbw: seq<byte>, packets: seq<seq<byte>>)
    requires EndpointSize(ep) && Begun(t0, t, cbw) && t.cbwCnt == CBW_SIZE
    ensures Begun(t0, RxTimes(ep, t, packets), cbw)
    decreases |packets|
  {
    hide RxBody, Valid, Aligned, Sensed;
    if packets != [] && Valid(t) && Aligned(ep, t) {
      RxBodySteady(ep, t, packets[0], t0.sense);
      RxTimesBegun(ep, t0, Rx(ep, t, packets[0]), cbw, packets[1..]);
    }
  }

  lemma TxSteady(ep: nat, t: Trans, was: Sense)
    requires EndpointSize(ep) && Valid(t) && Aligned(ep, t)
    ensures Tx(ep, t).id == t.id && Tx(ep, t).cbw == t.cbw && (Sensed(t, was) ==> Sensed(Tx(ep, t), was))
  {
    hide SendData, SendCsw, Unlock, SenseOf, Decode;
    DataSteady(ep, t, [], was);
    CswSteady(ep, Unlock(t), was);
  }

  lemma {:induction false} TxTimesBegun(ep: nat, t0: Trans, t: Trans, cbw: seq<byte>, k: nat)
    requires EndpointSize(ep) && Begun(t0, t, cbw)
    ensures Begun(t0, TxTimes(ep, t, k), cbw)
    decreases k
  {
    hide Tx, Valid, Aligned, Sensed;
    if k > 0 && Valid(t) && Aligned(ep, t) {
      TxSteady(ep, t, t0.sense);
      TxTimesBegun(ep, t0, Tx(ep, t), cbw, k - 1);
    }
  }

  lemma PerformBegun(ep: nat, t: Trans, o: Order)
    requires EndpointSize(ep) && Ready(t) && Proper(o)
    ensures Begun(t, Perform(ep, t, o), o.cbw)
  {
    hide Rx, TxTimes, RxTimes, Decode, PacketsTaken, Begun;
    var u := Rx(ep, t, o.cbw);
    RxBegins(ep, t, o.cbw);
    if Asked(o).Write? {
      RxTimesBegun(ep, t, u, o.cbw, Cut(ep, o.data));
      TxTimesBegun(ep, t, RxTimes(ep, u, Cut(ep, o.data)), o.cbw, 1);
    } else {
      TxTimesBegun(ep, t, u, o.cbw, PacketsTaken(ep, Asked(o)));
    }
  }

  // ---- One transaction ----

  function Stored(disk: Disk, last: nat, o: Order): Disk
    requires Proper(o)
  {
    match Asked(o)
    case Write(lba, n) => StoreBlocks(disk, lba, o.data, n)
    case FormatUnit => Formatted(disk, last)
    case _ => disk
  }

  /** How many packets a report takes does not depend on what is in it. */
  lemma {:induction false} ReportCount(ep: nat, a: seq<byte>, b: seq<byte>)
    requires ep > 0 && |a| == |b|
    ensures |ReportPackets(ep, a)| == |ReportPackets(ep, b)|
    decreases |a|
  {
    if |a| > ep {
      ReportCount(ep, a[ep..], b[ep..]);
    }
  }

  lemma PerformOne(ep: nat, t: Trans, o: Order)
    requires EndpointSize(ep) && Ready(t) && Proper(o)
    ensures var u := Perform(ep, t, o);
            Ready(u) && u.locks == t.locks && u.disk == Stored(t.disk, t.id.lastBlock, o)
    ensures ReportLength(Asked(o)) == 0 ==>
              Transacted(ep, t, Perform(ep, t, o),
                         if Asked(o).Read? then Blocks(t.disk, Asked(o).lba, Asked(o).count) else [],
                         Passed(o.cbw[4..8]).(status := if Asked(o).Invalid? then 1 else 0))
  {
    hide Rx, Tx, TxTimes, RxTimes, Decode, Blocks, StoreBlocks, Formatted, SentData, CswBytes;
    var c := Asked(o);
    if c.Read? {
      ReadTransaction(ep, t, o.cbw, c.lba, c.count, c.keepsCurrent);
    } else if c.Write? {
      WriteTransaction(ep, t, o.cbw, c.lba, c.count, o.data);
    } else if ReportLength(c) == 0 {
      EmptyTransaction(ep, t, o.cbw);
    } else {
      PerformReport(ep, t, o);
    }
  }

  lemma PerformReport(ep: nat, t: Trans, o: Order)
    requires EndpointSize(ep) && Ready(t) && Proper(o) && ReportLength(Asked(o)) > 0
    ensures var u, c := Perform(ep, t, o), Asked(o);
            && Ready(u) && u.locks == t.locks && u.disk == t.disk
            && ReportLength(c) <= BLOCK
            && u.sent == t.sent + ReportPackets(ep, Store(t.msdBuf, 0, Report(t, c))[..ReportLength(c)])
               + [CswBytes(Passed(o.cbw[4..8]).(residue := if c.Inquiry? then 36 else if c.ModeSense? then 4 else 0))]
  {
    hide Rx, TxTimes, Decode, ReportPackets;
    var c := Asked(o);
    DecodedLength(o.cbw[CB_OFFSET..]);
    ReportTransaction(ep, t, o.cbw);
    var data := Store(t.msdBuf, 0, Report(t, c))[..ReportLength(c)];
    ReportCount(ep, data, seq(ReportLength(c), _ => 0));
  }

  // ---- The drive is its history ----

  lemma PlaceIs(lba: nat, b: nat, i: nat)
    requires b < 0x1_0000_0000 && i < 0x1_0000_0000
    ensures Wrap(lba + i) == b <==> i == Place(lba, b)
  {
  }

  lemma {:induction false} Outside(lba: nat, n: nat, b: nat)
    requires b < 0x1_0000_0000 && n <= 0x1_0000 && Place(lba, b) >= n
    ensures b !in Lbas(lba, n)
  {
    hide Wrap, Place;
    if n > 0 {
      Outside(lba, n - 1, b);
      PlaceIs(lba, b, n - 1);
    }
  }

  lemma StoredAt(disk: Disk, last: nat, o: Order, b: nat)
    requires Proper(o) && b < 0x1_0000_0000
    ensures BlockAt(Stored(disk, last, o), b) ==
            match Asked(o)
            case Write(lba, n) =>
              var k := Place(lba, b);
              if k < n then o.data[BLOCK * k..BLOCK * k + BLOCK] else BlockAt(disk, b)
            case FormatUnit => if b < last then seq(BLOCK, _ => 0) else BlockAt(disk, b)
            case _ => BlockAt(disk, b)
  {
    hide Decode, BlockAt, StoreBlocks, Formatted, Wrap, Lbas, Place;
    var c := Asked(o);
    if c.Write? {
      CountFits(o.cbw[CB_OFFSET..]);
      var k := Place(c.lba, b);
      if k < c.count {
        PlaceIs(c.lba, b, k);
        StoreBlocksAt(disk, c.lba, o.data, c.count, k);
      } else {
        Outside(c.lba, c.count, b);
        WriteElsewhere(disk, c.lba, o.data, c.count, b);
      }
    } else if c.FormatUnit? {
      FormattedBlocks(disk, last, b);
    }
  }

  /** The sense codes after these commands. */
  function SenseAfter(was: Sense, orders: seq<Order>): Sense
    requires AllProper(orders)
  {
    if orders == [] then was
    else SenseOf(Asked(orders[|orders| - 1]), SenseAfter(was, orders[..|orders| - 1]))
  }

  /** After any list of commands, each complete, the record is ready for the next one, and every block and the sense
      codes are what the history says. */
  lemma {:induction false} SessionKeeps(ep: nat, t: Trans, orders: seq<Order>)
    requires EndpointSize(ep) && Ready(t) && AllProper(orders)
    ensures var u := Session(ep, t, orders);
            && Ready(u) && u.locks == t.locks && u.id == t.id && u.sense == SenseAfter(t.sense, orders)
            && forall b :: 0 <= b < 0x1_0000_0000 ==> BlockAt(u.disk, b) == Content(t.disk, t.id.lastBlock, orders, b)
  {
    hide Ready, Perform, Proper, BlockAt, Stored, Place, Decode, SenseOf;
    if orders != [] {
      var before, o := orders[..|orders| - 1], orders[|orders| - 1];
      SessionKeeps(ep, t, before);
      var u := Session(ep, t, before);
      PerformOne(ep, u, o);
      PerformBegun(ep, u, o);
      forall b | 0 <= b < 0x1_0000_0000
        ensures BlockAt(Stored(u.disk, u.id.lastBlock, o), b) == Content(t.disk, t.id.lastBlock, orders, b)
      {
        StoredAt(u.disk, u.id.lastBlock, o, b);
      }
    }
  }

  lemma {:induction false} BlocksAreContents(disk: Disk, was: Disk, last: nat, orders: seq<Order>, lba: nat, n: nat)
    requires AllProper(orders)
    requires forall b :: 0 <= b < 0x1_0000_0000 ==> BlockAt(disk, b) == Content(was, last, orders, b)
    ensures Blocks(disk, lba, n) == Contents(was, last, orders, lba, n)
  {
    hide BlockAt, Content, Proper;
    if n > 0 {
      BlocksAreContents(disk, was, last, orders, lba, n - 1);
    }
  }

  /** In any session, whatever the commands are and however often a block is written, read or formatted: each
      command that is no report is answered, through both endpoints, as the drive that is its history answers. */
  lemma SessionAnswers(ep: nat, t: Trans, orders: seq<Order>, k: nat)
    requires EndpointSize(ep) && Ready(t) && AllProper(orders) && k < |orders|
    ensures ReportLength(Asked(orders[k])) == 0 ==>
              var (data, csw) := Answer(t.disk, t.id.lastBlock, orders[..k], orders[k]);
              Transacted(ep, Session(ep, t, orders[..k]), Session(ep, t, orders[..k + 1]), data, csw)
  {
    hide Ready, Perform, Transacted, Contents, Decode;
    var before, o := orders[..k], orders[k];
    assert orders[..k + 1][..k] == before;
    SessionKeeps(ep, t, before);
    var u := Session(ep, t, before);
    PerformOne(ep, u, o);
    if Asked(o).Read? {
      BlocksAreContents(u.disk, t.disk, t.id.lastBlock, before, Asked(o).lba, Asked(o).count);
    }
  }

  /** What a report holds; MODE SENSE ends in a byte nobody set, and so does a REQUEST SENSE for more than 18. */
  predicate Reports(c: Command, id: Identity, sense: Sense, data: seq<byte>) {
    match c
    case Inquiry(_) => data == InquiryData(id)
    case RequestSense(len) => |data| == len && data[..Min(len, 18)] == SenseData(sense)[..Min(len, 18)]
    case ReadCapacity => data == CapacityData(id.lastBlock)
    case _ => |data| == 4 && data[..3] == [3, 0, 0]
  }

  lemma ReportIs(t: Trans, c: Command)
    requires Valid(t) && 0 < ReportLength(c) <= BLOCK
    ensures Reports(c, t.id, t.sense, Store(t.msdBuf, 0, Report(t, c))[..ReportLength(c)])
  {
    hide InquiryData, SenseData, CapacityData;
    var r := Report(t, c);
    var n := Min(|r|, ReportLength(c));
    assert Store(t.msdBuf, 0, r)[..ReportLength(c)][..n] == r[..n];
    assert r[..|r|] == r;
  }

  /** And each report tells what the history says: of the disk its name and size, of the commands before it the
      sense codes they left. */
  lemma SessionReports(ep: nat, t: Trans, orders: seq<Order>, k: nat)
    requires EndpointSize(ep) && Ready(t) && AllProper(orders) && k < |orders|
    ensures ReportLength(Asked(orders[k])) > 0 ==>
              var c := Asked(orders[k]);
              var residue := if c.Inquiry? then 36 else if c.ModeSense? then 4 else 0;
              var csw := Passed(orders[k].cbw[4..8]).(residue := residue);
              exists data :: Reports(c, t.id, SenseAfter(t.sense, orders[..k]), data)
                && Session(ep, t, orders[..k + 1]).sent
                   == Session(ep, t, orders[..k]).sent + ReportPackets(ep, data) + [CswBytes(csw)]
  {
    hide Ready, Perform, Decode, Reports, CswBytes, Report, ReportPackets;
    var before, o := orders[..k], orders[k];
    assert orders[..k + 1][..k] == before;
    SessionKeeps(ep, t, before);
    if ReportLength(Asked(o)) > 0 {
      var u := Session(ep, t, before);
      PerformReport(ep, u, o);
      ReadyIsValid(u);
      ReportIs(u, Asked(o));
    }
  }

  lemma ReadyIsValid(t: Trans)
    requires Ready(t)
    ensures Valid(t)
  {
  }

  // ---- The same in the host's own words ----

  /** A request as the host sends it: its tag, what it says of length and direction, and the data of a write. */
  datatype HostOrder = HostOrder(tag: seq<byte>, length: nat, toHost: bool, request: ScsiHost.Request, data: seq<byte>)

  /** The short forms can ask for 256 blocks; the device takes that for none. */
  function Taken(count: nat): nat {
    if count == 0x100 then 0 else count
  }

  predicate Fair(h: HostOrder) {
    && |h.tag| == 4 && ScsiHost.Sendable(h.request)
    && match h.request
       case Write10(_, count) => |h.data| == BLOCK * count
       case Write6(_, count) => |h.data| == BLOCK * Taken(count)
       case _ => true
  }

  predicate AllFair(hs: seq<HostOrder>) {
    forall i :: 0 <= i < |hs| ==> Fair(hs[i])
  }

  function OnWire(h: HostOrder): (o: Order)
    requires Fair(h)
    ensures |o.cbw| == CBW_SIZE
  {
    Order(ScsiHost.Cbw(h.tag, h.length, h.toHost, ScsiHost.Cdb(h.request)), h.data)
  }

  lemma OnWireIs(h: HostOrder)
    requires Fair(h)
    ensures Asked(OnWire(h)) == ScsiHost.Understood(h.request) && Proper(OnWire(h))
    ensures OnWire(h).cbw[4..8] == h.tag && OnWire(h).data == h.data
  {
    hide Decode, ScsiHost.Cbw, ScsiHost.Cdb, ScsiHost.Padded;
    ScsiHost.CbwParts(h.tag, h.length, h.toHost, ScsiHost.Cdb(h.request));
    ScsiHost.RequestUnderstood(h.request);
  }

  function Wire(hs: seq<HostOrder>): (r: seq<Order>)
    requires AllFair(hs)
    ensures |r| == |hs| && AllProper(r)
  {
    if hs == [] then []
    else
      OnWireIs(hs[|hs| - 1]);
      Wire(hs[..|hs| - 1]) + [OnWire(hs[|hs| - 1])]
  }

  /** Part of a write that covers block `b`, or what is under it. */
  function Overlaid(data: seq<byte>, lba: nat, count: nat, b: nat, under: seq<byte>): seq<byte>
    requires |data| == BLOCK * count
  {
    if Place(lba, b) < count then data[BLOCK * Place(lba, b)..BLOCK * Place(lba, b) + BLOCK] else under
  }

  /** What one more request does to block `b`. */
  function AfterRequest(h: HostOrder, last: nat, b: nat, under: seq<byte>): seq<byte>
    requires Fair(h)
  {
    match h.request
    case Write10(lba, count) => Overlaid(h.data, lba, count, b, under)
    case Write6(lba, count) => Overlaid(h.data, lba, Taken(count), b, under)
    case FormatUnit6 => if b < last then seq(BLOCK, _ => 0) else under
    case _ => under
  }

  /** What block `b` holds after these requests. */
  function HostContent(disk: Disk, last: nat, hs: seq<HostOrder>, b: nat): seq<byte>
    requires AllFair(hs)
  {
    if hs == [] then BlockAt(disk, b)
    else
      AfterRequest(hs[|hs| - 1], last, b, HostContent(disk, last, hs[..|hs| - 1], b))
  }

  lemma OneMoreRequest(disk: Disk, last: nat, orders: seq<Order>, h: HostOrder, b: nat)
    requires AllProper(orders) && orders != [] && Fair(h) && orders[|orders| - 1] == OnWire(h)
    ensures Content(disk, last, orders, b) == AfterRequest(h, last, b, Content(disk, last, orders[..|orders| - 1], b))
  {
    hide BlockAt, Asked, Fair, OnWire, Place;
    OnWireIs(h);
  }

  lemma {:induction false} HostContentIs(disk: Disk, last: nat, hs: seq<HostOrder>, b: nat)
    requires AllFair(hs)
    ensures HostContent(disk, last, hs, b) == Content(disk, last, Wire(hs), b)
  {
    hide AfterRequest, Fair, OnWire, Proper;
    if hs == [] {
      assert Wire(hs) == [];
    } else {
      var before := hs[..|hs| - 1];
      assert Wire(hs)[..|hs| - 1] == Wire(before);
      HostContentIs(disk, last, before, b);
      OneMoreRequest(disk, last, Wire(hs), hs[|hs| - 1], b);
      hide Content;
    }
  }

  lemma {:induction false} ContentsAt(disk: Disk, last: nat, orders: seq<Order>, lba: nat, n: nat, i: nat)
    requires AllProper(orders) && i < n
    ensures Contents(disk, last, orders, lba, n)[BLOCK * i..BLOCK * i + BLOCK]
         == Content(disk, last, orders, Wrap(lba + i))
  {
    hide Content, Proper;
    var before, tail := Contents(disk, last, orders, lba, n - 1), Content(disk, last, orders, Wrap(lba + n - 1));
    if i < n - 1 {
      ContentsAt(disk, last, orders, lba, n - 1, i);
      SliceOfPrefix(before, tail, BLOCK * i, BLOCK * i + BLOCK);
    } else {
      assert (before + tail)[BLOCK * i..BLOCK * i + BLOCK] == tail;
    }
  }

  lemma {:induction false} WirePrefix(hs: seq<HostOrder>, k: nat)
    requires AllFair(hs) && k <= |hs|
    ensures Wire(hs)[..k] == Wire(hs[..k])
    ensures k < |hs| ==> Wire(hs)[k] == OnWire(hs[k])
    decreases |hs|
  {
    hide OnWire;
    if k < |hs| {
      var m := |hs| - 1;
      WirePrefix(hs[..m], k);
      assert hs[..m][..k] == hs[..k];
      assert Wire(hs)[..k] == Wire(hs[..m])[..k];
    } else {
      assert hs[..k] == hs;
    }
  }

  /** A host that reads `count` blocks from `lba` on, at any point of any session of its own requests, gets for
      each of them what its requests so far have put there, and a good status with its tag. */
  lemma HostReads(ep: nat, t: Trans, hs: seq<HostOrder>, k: nat, lba: nat, count: nat)
    requires EndpointSize(ep) && Ready(t) && AllFair(hs) && k < |hs| && hs[k].request == ScsiHost.Read10(lba, count)
    ensures exists data ::
              && |data| == BLOCK * count
              && (forall i :: 0 <= i < count ==>
                    data[BLOCK * i..BLOCK * i + BLOCK] == HostContent(t.disk, t.id.lastBlock, hs[..k], Wrap(lba + i)))
              && Transacted(ep, Session(ep, t, Wire(hs)[..k]), Session(ep, t, Wire(hs)[..k + 1]), data,
                            Passed(hs[k].tag))
    ensures CswBytes(Passed(hs[k].tag)) == ScsiHost.StatusWrapper(hs[k].tag, 0, 0)
  {
    hide Ready, Transacted, Session, Contents, Content, HostContent, Proper, OnWire, CswBytes, Wire, Asked;
    OnWireIs(hs[k]);
    WirePrefix(hs, k);
    ScsiHost.StatusIs(hs[k].tag, 0, 0);
    SessionAnswers(ep, t, Wire(hs), k);
    var data := Contents(t.disk, t.id.lastBlock, Wire(hs[..k]), lba, count);
    forall i | 0 <= i < count
      ensures data[BLOCK * i..BLOCK * i + BLOCK] == HostContent(t.disk, t.id.lastBlock, hs[..k], Wrap(lba + i))
    {
      ContentsAt(t.disk, t.id.lastBlock, Wire(hs[..k]), lba, count, i);
      HostContentIs(t.disk, t.id.lastBlock, hs[..k], Wrap(lba + i));
    }
  }

  /** A write is answered with a good status and its tag. */
  lemma HostWrites(ep: nat, t: Trans, hs: seq<HostOrder>, k: nat, lba: nat, count: nat)
    requires EndpointSize(ep) && Ready(t) && AllFair(hs) && k < |hs| && hs[k].request == ScsiHost.Write10(lba, count)
    ensures Transacted(ep, Session(ep, t, Wire(hs)[..k]), Session(ep, t, Wire(hs)[..k + 1]), [], Passed(hs[k].tag))
    ensures CswBytes(Passed(hs[k].tag)) == ScsiHost.StatusWrapper(hs[k].tag, 0, 0)
  {
    hide Ready, Transacted, Session, Contents, Proper, OnWire, CswBytes, Wire, Asked;
    OnWireIs(hs[k]);
    WirePrefix(hs, k);
    ScsiHost.StatusIs(hs[k].tag, 0, 0);
    SessionAnswers(ep, t, Wire(hs), k);
  }
}
