/** Bulk-only mass storage: one SCSI transaction after another over two bulk endpoints
    (Bootloader/libopencm3/lib/usb/usb_msc.c; USB Mass Storage Class Bulk-Only Transport 1.0,
    sections 5.1 to 5.3). */
module MassStorage {
  import opened Bytes

  const BLOCK: nat := 512
  const CBW_SIZE: nat := 31
  const CSW_SIZE: nat := 13
  const CB_OFFSET: nat := 15

  /** Blocks never written read as zeros. */
  type Disk = map<nat, seq<byte>>

  function BlockAt(disk: Disk, lba: nat): (r: seq<byte>)
    ensures |r| == BLOCK
  {
    if lba in disk && |disk[lba]| == BLOCK then disk[lba] else seq(BLOCK, _ => 0)
  }

  /** The commands of `scsi_command`. */
  datatype Command = Read(lba: nat, count: nat, keepsCurrent: bool) | Write(lba: nat, count: nat)
                   | NoData | Inquiry(evpd: bool) | RequestSense(len: nat) | ModeSense | ReadCapacity | FormatUnit
                   | Invalid

  function Decode(cb: seq<byte>): Command
    requires |cb| >= 9
  {
    match cb[0]
    case 0x28 => Read(Word(cb), Half(cb), true)
    case 0x2A => Write(Word(cb), Half(cb))
    case 0x08 => Read(cb[2] as nat * 0x100 + cb[3], cb[4], false)
    case 0x0A => Write((cb[1] as nat % 0x20) * 0x1_0000 + cb[2] as nat * 0x100 + cb[3], cb[4])
    case 0x00 => NoData
    case 0x1D => NoData
    case 0x12 => Inquiry(cb[1] % 2 == 1)
    case 0x03 => RequestSense(cb[4])
    case 0x1A => ModeSense
    case 0x25 => ReadCapacity
    case 0x04 => FormatUnit
    case _ => Invalid
  }

  /** The 32-bit big-endian block address and the 16-bit block count of the ten-byte commands. */
  function Word(cb: seq<byte>): nat
    requires |cb| >= 9
  {
    cb[2] as nat * 0x100_0000 + cb[3] as nat * 0x1_0000 + cb[4] as nat * 0x100 + cb[5] as nat
  }

  function Half(cb: seq<byte>): nat
    requires |cb| >= 9
  {
    cb[7] as nat * 0x100 + cb[8] as nat
  }

  datatype Sense = Sense(key: byte, asc: byte, ascq: byte)

  const GOOD: Sense := Sense(0, 0, 0)
  const ILLEGAL_REQUEST: Sense := Sense(5, 0x20, 0)

  /** What `usb_msc_init` is told; `lastBlock` is the number of blocks less one. */
  datatype Identity = Identity(vendor: seq<byte>, product: seq<byte>, revision: seq<byte>, lastBlock: nat)

  datatype Csw = Csw(signature: seq<byte>, tag: seq<byte>, residue: byte, status: byte)

  const SIGNATURE: seq<byte> := [0x55, 0x53, 0x42, 0x53]

  predicate ValidCsw(csw: Csw) {
    |csw.signature| == |csw.tag| == 4
  }

  function CswBytes(csw: Csw): (r: seq<byte>)
    requires ValidCsw(csw)
    ensures |r| == CSW_SIZE
  {
    csw.signature + csw.tag + [csw.residue, 0, 0, 0] + [csw.status]
  }

  /** The status of a command that passed. */
  function Passed(tag: seq<byte>): Csw {
    Csw(SIGNATURE, tag, 0, 0)
  }

  /** The transaction record, the disk behind it, and what was sent and written so far. */
  datatype Trans = Trans(
    cbwCnt: nat, cbw: seq<byte>, bytesToRead: nat, bytesToWrite: nat, byteCount: nat,
    lbaStart: nat, blockCount: nat, currentBlock: nat, msdBuf: seq<byte>, cswValid: bool, cswSent: nat, csw: Csw,
    sense: Sense, locks: int, disk: Disk, sent: seq<seq<byte>>, written: seq<nat>, id: Identity)

  predicate Valid(t: Trans) {
    && t.cbwCnt <= CBW_SIZE == |t.cbw| && t.cswSent <= CSW_SIZE
    && |t.msdBuf| == BLOCK && ValidCsw(t.csw)
  }

  /** The command the CBW holds. */
  function Cmd(t: Trans): Command
    requires Valid(t)
  {
    Decode(t.cbw[CB_OFFSET..])
  }

  /** Between transactions. */
  predicate Ready(t: Trans) {
    && Valid(t)
    && t.cbwCnt == 0 && t.bytesToRead == 0 && t.bytesToWrite == 0 && t.byteCount == 0
    && t.blockCount == 0 && t.currentBlock == 0 && !t.cswValid && t.cswSent == 0
  }

  function Lba(t: Trans): nat {
    (t.lbaStart + t.currentBlock) % 0x1_0000_0000
  }

  // ---- The specification of the two callbacks ----

  /** `_spc3_inquiry_response` with the names of the device in it. */
  function InquiryData(id: Identity): (r: seq<byte>)
    ensures |r| == 36
  {
    var d0 := [0x00, 0x80, 0x04, 0x02, 0x20, 0x00, 0x00, 0x00] + seq(28, _ => 0x20);
    var d1 := Store(d0, 8, id.vendor[..Min(|id.vendor|, 8)]);
    var d2 := Store(d1, 16, id.product[..Min(|id.product|, 16)]);
    Store(d2, 32, id.revision[..Min(|id.revision|, 4)])
  }

  /** `_spc3_request_sense` with the last sense codes in it. */
  function SenseData(s: Sense): (r: seq<byte>)
    ensures |r| == 18
  {
    [0x70, 0, s.key, 0, 0, 0, 0, 0x0A, 0, 0, 0, 0, s.asc, s.ascq, 0, 0, 0, 0]
  }

  function CapacityData(lastBlock: nat): (r: seq<byte>)
    ensures |r| == 8
  {
    [lastBlock / 0x100_0000 % 0x100, lastBlock / 0x1_0000 % 0x100, lastBlock / 0x100 % 0x100, lastBlock % 0x100,
     0, 0, 2, 0]
  }

  /** `write_block` with zeros for blocks 0 to n - 1. */
  function Formatted(disk: Disk, n: nat): Disk {
    if n == 0 then disk else Formatted(disk, n - 1)[n - 1 := seq(BLOCK, _ => 0)]
  }

  function UpTo(n: nat): seq<nat> {
    seq(n, i requires 0 <= i => i)
  }

  /** What a reporting command puts at the start of the block buffer. */
  function Report(t: Trans, c: Command): (r: seq<byte>)
    ensures |r| <= 36
  {
    match c
    case Inquiry(false) => InquiryData(t.id)
    case RequestSense(_) => SenseData(t.sense)
    case ModeSense => [3, 0, 0]
    case ReadCapacity => CapacityData(t.id.lastBlock)
    case _ => []
  }

  /** How many bytes of the buffer it then sends; MODE SENSE sends a byte it does not set. */
  function ReportLength(c: Command): nat {
    match c
    case Inquiry(false) => 36
    case RequestSense(len) => len
    case ModeSense => 4
    case ReadCapacity => 8
    case _ => 0
  }

  /** `scsi_command` for a fresh CBW. */
  function ScsiCommand(t: Trans): (r: Trans)
    requires Valid(t)
    ensures Valid(r)
  {
    var c := Cmd(t);
    var u := t.(cswSent := 0, csw := Passed(t.cbw[4..8]), bytesToWrite := ReportLength(c), bytesToRead := 0,
                byteCount := 0, msdBuf := if Report(t, c) == [] then t.msdBuf else Store(t.msdBuf, 0, Report(t, c)));
    match c
    case Read(lba, count, keeps) =>
      u.(lbaStart := lba, blockCount := count, bytesToWrite := BLOCK * count,
         currentBlock := if keeps then u.currentBlock else 0, sense := GOOD)
    case Write(lba, count) => u.(lbaStart := lba, blockCount := count, currentBlock := 0, bytesToRead := BLOCK * count)
    case NoData => u.(sense := GOOD)
    case Inquiry(evpd) => if evpd then u else u.(sense := GOOD, csw := u.csw.(residue := 36))
    case RequestSense(_) => u
    case ModeSense => u.(csw := u.csw.(residue := 4))
    case ReadCapacity => u.(sense := GOOD)
    case FormatUnit =>
      u.(msdBuf := seq(BLOCK, _ => 0), disk := Formatted(t.disk, t.id.lastBlock),
         written := t.written + UpTo(t.id.lastBlock), sense := GOOD)
    case Invalid => u.(sense := ILLEGAL_REQUEST, csw := u.csw.(status := 1))
  }

  /** `scsi_command` when the status is due: the commands look at the event, but the first two codes and the
      default case do not. */
  function NeedStatus(t: Trans): (r: Trans)
    requires Valid(t)
    ensures Valid(r)
  {
    match Cmd(t)
    case NoData => t.(sense := GOOD)
    case Invalid => t.(sense := ILLEGAL_REQUEST, bytesToWrite := 0, bytesToRead := 0, csw := t.csw.(status := 1))
    case _ => t
  }

  function SendCsw(ep: nat, t: Trans): (r: Trans)
    requires Valid(t)
    ensures Valid(r)
  {
    var u := if t.cswValid then t else NeedStatus(t).(cswValid := true);
    var left := CSW_SIZE - u.cswSent;
    if left > 0 then
      var n := Min(ep, left);
      u.(sent := u.sent + [CswBytes(u.csw)[u.cswSent..u.cswSent + n]], cswSent := u.cswSent + n)
    else u
  }

  /** The endpoint sizes of this model; both divide a block. */
  predicate EndpointSize(ep: nat) {
    ep == 32 || ep == 64
  }

  /** The packet at `byteCount` lies inside the block buffer. */
  predicate Aligned(ep: nat, t: Trans) {
    t.byteCount % BLOCK + ep <= BLOCK
  }

  /** The next packet of data towards the host, loading a block at each block boundary. */
  function SendData(ep: nat, t: Trans): (r: Trans)
    requires Valid(t) && Aligned(ep, t) && t.byteCount < t.bytesToWrite
    ensures Valid(r)
  {
    var u := if t.blockCount > 0 && t.byteCount % BLOCK == 0
             then t.(msdBuf := BlockAt(t.disk, Lba(t)), currentBlock := t.currentBlock + 1)
             else t;
    var at := u.byteCount % BLOCK;
    var n := Min(ep, u.bytesToWrite - u.byteCount);
    u.(sent := u.sent + [u.msdBuf[at..at + n]], byteCount := u.byteCount + n)
  }

  function Lock(t: Trans): (r: Trans)
    ensures Valid(t) ==> Valid(r)
  {
    if t.blockCount > 0 && t.byteCount == 0 then t.(locks := t.locks + 1) else t
  }

  /** `write_block` at the current block. */
  function WriteBlock(t: Trans): Trans {
    t.(disk := t.disk[Lba(t) := t.msdBuf], written := t.written + [Lba(t)])
  }

  /** A packet of data from the host, stored when it completes a block. */
  function ReceiveData(ep: nat, t: Trans, packet: seq<byte>): (r: Trans)
    requires Valid(t) && Aligned(ep, t) && t.byteCount < t.bytesToRead
    ensures Valid(r)
  {
    var len := Min(|packet|, Min(ep, t.bytesToRead - t.byteCount));
    var u := Lock(t).(msdBuf := Store(t.msdBuf, t.byteCount % BLOCK, packet[..len]), byteCount := t.byteCount + len);
    if u.blockCount > 0 && u.byteCount % BLOCK == 0
    then WriteBlock(u).(currentBlock := u.currentBlock + 1)
    else u
  }

  function ReceiveCbw(ep: nat, t: Trans, packet: seq<byte>): (r: Trans)
    requires Valid(t)
    ensures Valid(r)
    ensures Aligned(ep, t) && ep <= BLOCK ==> Aligned(ep, r)
  {
    var len := Min(|packet|, Min(ep, CBW_SIZE - t.cbwCnt));
    var u := t.(cbw := Store(t.cbw, t.cbwCnt, packet[..len]), cbwCnt := t.cbwCnt + len);
    if u.cbwCnt == CBW_SIZE then ScsiCommand(u) else u
  }

  /** The rest of `msc_data_rx_cb` once a CBW is in or none was wanted. */
  function RxBody(ep: nat, t: Trans, packet: seq<byte>): Trans
    requires Valid(t) && Aligned(ep, t)
  {
    if t.byteCount < t.bytesToRead then
      var u := ReceiveData(ep, t, packet);
      SendCsw(ep, u)
    else if t.byteCount < t.bytesToWrite then SendData(ep, Lock(t))
    else
      var u := if t.blockCount > 0 && t.currentBlock == t.blockCount
               then WriteBlock(t).(currentBlock := 0, locks := t.locks - 1)
               else t;
      SendCsw(ep, u)
  }

  /** `msc_data_rx_cb`: a packet came in on the OUT endpoint. */
  function Rx(ep: nat, t: Trans, packet: seq<byte>): Trans
    requires EndpointSize(ep) && Valid(t) && Aligned(ep, t)
  {
    if t.cbwCnt < CBW_SIZE then
      var u := ReceiveCbw(ep, t, packet);
      if u.cbwCnt == CBW_SIZE && u.byteCount < u.bytesToRead then u else RxBody(ep, u, packet[|packet|..])
    else RxBody(ep, t, packet)
  }

  /** All blocks went out. */
  function Unlock(t: Trans): (r: Trans)
    ensures Valid(t) ==> Valid(r)
  {
    if t.blockCount > 0 && t.currentBlock == t.blockCount then t.(currentBlock := 0, locks := t.locks - 1) else t
  }

  /** The record as `usb_msc_init` leaves it. */
  function EndOfTransaction(t: Trans): Trans {
    t.(lbaStart := 0xFFFF_FFFF, blockCount := 0, currentBlock := 0, cbwCnt := 0,
       bytesToRead := 0, bytesToWrite := 0, byteCount := 0, cswSent := 0, cswValid := false)
  }

  /** `msc_data_tx_cb`: the host took a packet from the IN endpoint. */
  function Tx(ep: nat, t: Trans): Trans
    requires EndpointSize(ep) && Valid(t) && Aligned(ep, t)
  {
    if t.byteCount < t.bytesToWrite then SendData(ep, t)
    else
      var u := Unlock(t);
      if u.cswSent < CSW_SIZE then SendCsw(ep, u)
      else EndOfTransaction(u)
  }

  // ---- READ(10) and WRITE(10), packet by packet ----

  /** The host keeps taking packets from the IN endpoint. Every callback of the runs below finds its
      packet inside the block buffer, so the guard never stops them. */
  function TxTimes(ep: nat, t: Trans, k: nat): Trans
    requires EndpointSize(ep)
    decreases k
  {
    if k == 0 || !Valid(t) || !Aligned(ep, t) then t else TxTimes(ep, Tx(ep, t), k - 1)
  }

  /** The host keeps sending data packets. */
  function RxTimes(ep: nat, t: Trans, packets: seq<seq<byte>>): Trans
    requires EndpointSize(ep)
    decreases |packets|
  {
    if packets == [] || !Valid(t) || !Aligned(ep, t) then t else RxTimes(ep, Rx(ep, t, packets[0]), packets[1..])
  }

  function Wrap(lba: nat): nat {
    lba % 0x1_0000_0000
  }

  /** Blocks lba to lba + n - 1, in order. */
  function Blocks(disk: Disk, lba: nat, n: nat): (r: seq<byte>)
    ensures |r| == BLOCK * n
  {
    if n == 0 then [] else Blocks(disk, lba, n - 1) + BlockAt(disk, Wrap(lba + n - 1))
  }

  lemma {:induction false} BlocksSlice(disk: Disk, lba: nat, n: nat, q: nat)
    requires q < n
    ensures Blocks(disk, lba, n)[BLOCK * q..BLOCK * q + BLOCK] == BlockAt(disk, Wrap(lba + q))
  {
    hide BlockAt;
    var before, last := Blocks(disk, lba, n - 1), BlockAt(disk, Wrap(lba + n - 1));
    if q < n - 1 {
      BlocksSlice(disk, lba, n - 1, q);
      SliceOfPrefix(before, last, BLOCK * q, BLOCK * q + BLOCK);
    } else {
      assert (before + last)[|before|..|before| + BLOCK] == last;
    }
  }

  lemma SliceOfPrefix(a: seq<byte>, b: seq<byte>, i: nat, j: nat)
    requires i <= j <= |a|
    ensures (a + b)[i..j] == a[i..j]
  {
  }

  lemma BlocksGrow(disk: Disk, lba: nat, n: nat, q: nat, o: nat, len: nat)
    requires q < n && o + len <= BLOCK
    ensures Blocks(disk, lba, n)[..BLOCK * q + o + len]
         == Blocks(disk, lba, n)[..BLOCK * q + o] + BlockAt(disk, Wrap(lba + q))[o..o + len]
  {
    hide Blocks, BlockAt;
    BlocksSlice(disk, lba, n, q);
    var all, from := Blocks(disk, lba, n), BLOCK * q;
    SliceOfSlice(all, from, from + BLOCK, o, o + len);
    assert all[..from + o + len] == all[..from + o] + all[from + o..from + o + len];
  }

  lemma SliceOfSlice(s: seq<byte>, i: nat, j: nat, a: nat, b: nat)
    requires i <= j <= |s| && a <= b <= j - i
    ensures s[i..j][a..b] == s[i + a..i + b]
  {
    var x, y := s[i..j][a..b], s[i + a..i + b];
    assert forall k :: 0 <= k < |x| ==> x[k] == s[i..j][a + k] == s[i + a + k] == y[k];
  }

  /** Offsets at which packets start. */
  predicate OnBoundary(ep: nat, o: nat)
    requires EndpointSize(ep)
  {
    if ep == 32 then o % 32 == 0 else o % 64 == 0
  }

  /** A read of `n` blocks at `lba`, started in `t0`, has sent `q` blocks and `o` bytes of the next. */
  ghost predicate Reading(ep: nat, t0: Trans, t: Trans, tag: seq<byte>, lba: nat, n: nat, q: nat, o: nat)
    requires EndpointSize(ep)
  {
    && Valid(t) && n > 0
    && t.cbwCnt == CBW_SIZE && t.bytesToRead == 0 && t.bytesToWrite == BLOCK * n
    && t.blockCount == n && t.lbaStart == lba && !t.cswValid && t.cswSent == 0
    && |tag| == 4 && t.csw == Passed(tag) && Cmd(t).Read?
    && t.disk == t0.disk && t.written == t0.written && t.locks == t0.locks + 1
    && t.byteCount == BLOCK * q + o && o < BLOCK && OnBoundary(ep, o)
    && (if o == 0 then q <= n && t.currentBlock == q
        else q < n && t.currentBlock == q + 1 && t.msdBuf == BlockAt(t.disk, Wrap(lba + q)))
  }

  /** Since `t0` only packets of `ep` bytes were sent, and they carry `data`. */
  ghost predicate SentData(ep: nat, t0: Trans, t: Trans, data: seq<byte>) {
    && t0.sent <= t.sent
    && (forall k :: |t0.sent| <= k < |t.sent| ==> |t.sent[k]| == ep)
    && Flatten(t.sent[|t0.sent|..]) == data
  }

  lemma Boundary(ep: nat, q: nat, o: nat)
    requires EndpointSize(ep) && o < BLOCK && OnBoundary(ep, o)
    ensures (BLOCK * q + o) % BLOCK == o
    ensures o + ep <= BLOCK
    ensures o + ep < BLOCK ==> OnBoundary(ep, o + ep)
    ensures (BLOCK * q + o + ep) % BLOCK == 0 <==> o + ep == BLOCK
  {
  }

  lemma SentMore(ep: nat, t0: Trans, t: Trans, u: Trans, data: seq<byte>, p: seq<byte>)
    requires SentData(ep, t0, t, data) && u.sent == t.sent + [p] && |p| == ep
    ensures SentData(ep, t0, u, data + p)
  {
    FlattenSnoc(t.sent[|t0.sent|..], p);
    assert u.sent[|t0.sent|..] == t.sent[|t0.sent|..] + [p];
  }

  /** One data packet towards the host, spelled out. */
  lemma ReadPacket(ep: nat, t: Trans, n: nat, q: nat, o: nat)
    requires EndpointSize(ep) && Valid(t) && t.blockCount == n && q < n
    requires t.byteCount == BLOCK * q + o && o < BLOCK && OnBoundary(ep, o) && t.bytesToWrite == BLOCK * n
    ensures Aligned(ep, t) && t.byteCount < t.bytesToWrite && o + ep <= BLOCK
    ensures var u := if o == 0 then t.(msdBuf := BlockAt(t.disk, Lba(t)), currentBlock := t.currentBlock + 1) else t;
            SendData(ep, t) == u.(sent := t.sent + [u.msdBuf[o..o + ep]], byteCount := t.byteCount + ep)
  {
    hide BlockAt, Lba;
    Boundary(ep, q, o);
  }

  lemma ReadStep(ep: nat, t0: Trans, t: Trans, tag: seq<byte>, lba: nat, n: nat, q: nat, o: nat)
    requires EndpointSize(ep) && Reading(ep, t0, t, tag, lba, n, q, o) && q < n
    requires SentData(ep, t0, t, Blocks(t.disk, lba, n)[..BLOCK * q + o])
    ensures Aligned(ep, t) && t.byteCount < t.bytesToWrite
    ensures var (q', o') := if o + ep == BLOCK then (q + 1, 0) else (q, o + ep);
            var u := SendData(ep, t);
            && Reading(ep, t0, u, tag, lba, n, q', o')
            && SentData(ep, t0, u, Blocks(t.disk, lba, n)[..BLOCK * q' + o'])
  {
    ReadPacket(ep, t, n, q, o);
    ReadStepState(ep, t0, t, tag, lba, n, q, o);
    hide Blocks, BlockAt, SendData, Reading;
    var u := SendData(ep, t);
    var p := BlockAt(t.disk, Wrap(lba + q))[o..o + ep];
    assert u.sent == t.sent + [p];
    BlocksGrow(t.disk, lba, n, q, o, ep);
    SentMore(ep, t0, t, u, Blocks(t.disk, lba, n)[..BLOCK * q + o], p);
  }

  lemma ReadStepState(ep: nat, t0: Trans, t: Trans, tag: seq<byte>, lba: nat, n: nat, q: nat, o: nat)
    requires EndpointSize(ep) && Reading(ep, t0, t, tag, lba, n, q, o) && q < n
    ensures Aligned(ep, t) && t.byteCount < t.bytesToWrite && o + ep <= BLOCK
    ensures var (q', o') := if o + ep == BLOCK then (q + 1, 0) else (q, o + ep);
            var u := SendData(ep, t);
            && Reading(ep, t0, u, tag, lba, n, q', o') && u.disk == t.disk
            && u.sent == t.sent + [BlockAt(t.disk, Wrap(lba + q))[o..o + ep]]
  {
    ReadPacket(ep, t, n, q, o);
    Boundary(ep, q, o);
    hide SendData, BlockAt, OnBoundary;
  }

  /** How many packets are left after block `q`, offset `o`, of `n` blocks. */
  function PacketsLeft(ep: nat, n: nat, q: nat, o: nat): (r: nat)
    requires EndpointSize(ep) && o < BLOCK && BLOCK * q + o <= BLOCK * n
  {
    var left := BLOCK * n - (BLOCK * q + o);
    if ep == 32 then left / 32 else left / 64
  }

  lemma {:induction false} ReadRest(ep: nat, t0: Trans, t: Trans, tag: seq<byte>, lba: nat, n: nat, q: nat, o: nat)
    requires EndpointSize(ep) && Reading(ep, t0, t, tag, lba, n, q, o)
    requires SentData(ep, t0, t, Blocks(t.disk, lba, n)[..BLOCK * q + o])
    ensures var u := TxTimes(ep, t, PacketsLeft(ep, n, q, o));
            && Reading(ep, t0, u, tag, lba, n, n, 0)
            && SentData(ep, t0, u, Blocks(t.disk, lba, n))
    decreases BLOCK * n - (BLOCK * q + o)
  {
    hide Blocks, SentData, SendData, BlockAt;
    if q == n {
      assert Blocks(t.disk, lba, n)[..BLOCK * n] == Blocks(t.disk, lba, n);
    } else {
      ReadStep(ep, t0, t, tag, lba, n, q, o);
      var (q', o') := if o + ep == BLOCK then (q + 1, 0) else (q, o + ep);
      ReadRest(ep, t0, SendData(ep, t), tag, lba, n, q', o');
    }
  }

  /** What one transaction did: it is over, and the host saw `data` in full packets and then the status. */
  ghost predicate Transacted(ep: nat, t0: Trans, t: Trans, data: seq<byte>, csw: Csw) {
    && Ready(t) && t.locks == t0.locks && ValidCsw(csw)
    && exists u: Trans :: SentData(ep, t0, u, data) && t.sent == u.sent + [CswBytes(csw)]
  }

  /** After the data, one packet of status, and the record is back where it started. */
  lemma ReadStatus(ep: nat, t0: Trans, t: Trans, tag: seq<byte>, lba: nat, n: nat)
    requires EndpointSize(ep) && Reading(ep, t0, t, tag, lba, n, n, 0)
    ensures var u := TxTimes(ep, t, 2);
            && Ready(u) && u.locks == t0.locks && u.disk == t0.disk && u.written == t0.written
            && u.sent == t.sent + [CswBytes(Passed(tag))]
  {
    hide Decode;
    var t1 := Tx(ep, t);
    assert CswBytes(t.csw)[0..CSW_SIZE] == CswBytes(t.csw);
    assert Aligned(ep, t) && Aligned(ep, t1);
    assert TxTimes(ep, t, 2) == TxTimes(ep, t1, 1) == Tx(ep, t1);
  }

  lemma {:induction false} TxTwice(ep: nat, t: Trans, a: nat, b: nat)
    requires EndpointSize(ep)
    ensures TxTimes(ep, TxTimes(ep, t, a), b) == TxTimes(ep, t, a + b)
    decreases a
  {
    hide Tx;
    if a > 0 && Valid(t) && Aligned(ep, t) {
      TxTwice(ep, Tx(ep, t), a - 1, b);
    }
  }

  /** A whole CBW in one packet. */
  lemma CbwReceived(ep: nat, t0: Trans, cbw: seq<byte>)
    requires EndpointSize(ep) && Ready(t0) && |cbw| == CBW_SIZE
    ensures ReceiveCbw(ep, t0, cbw) == ScsiCommand(t0.(cbw := cbw, cbwCnt := CBW_SIZE))
  {
    assert cbw[..CBW_SIZE] == cbw;
    assert Store(t0.cbw, 0, cbw) == cbw;
  }

  lemma ReadBegins(ep: nat, t0: Trans, cbw: seq<byte>, lba: nat, n: nat, keeps: bool)
    requires EndpointSize(ep) && Ready(t0) && |cbw| == CBW_SIZE && Decode(cbw[CB_OFFSET..]) == Read(lba, n, keeps)
    requires n > 0
    ensures var t := Lock(ReceiveCbw(ep, t0, cbw));
            && Aligned(ep, t) && t.byteCount < t.bytesToWrite && Rx(ep, t0, cbw) == SendData(ep, t)
            && t.disk == t0.disk && Reading(ep, t0, t, cbw[4..8], lba, n, 0, 0) && SentData(ep, t0, t, [])
  {
    hide SendData, Decode;
    CbwReceived(ep, t0, cbw);
    assert t0.sent[|t0.sent|..] == [];
  }

  lemma FirstPacket(ep: nat, n: nat)
    requires EndpointSize(ep) && n > 0
    ensures PacketsLeft(ep, n, 0, 0) == PacketsLeft(ep, n, 0, ep) + 1
  {
  }

  /** READ(10): blocks lba to lba + n - 1 go to the host in order, in full packets, then one 13-byte CSW
      with the CBW's tag; disk and transaction record end as they began. */
  lemma ReadTransaction(ep: nat, t0: Trans, cbw: seq<byte>, lba: nat, n: nat, keeps: bool)
    requires EndpointSize(ep) && Ready(t0) && |cbw| == CBW_SIZE && Decode(cbw[CB_OFFSET..]) == Read(lba, n, keeps)
    ensures var t := TxTimes(ep, Rx(ep, t0, cbw), PacketsLeft(ep, n, 0, 0) + 1);
            && Transacted(ep, t0, t, Blocks(t0.disk, lba, n), Passed(cbw[4..8]))
            && t.disk == t0.disk && t.written == t0.written
  {
    if n == 0 {
      EmptyTransaction(ep, t0, cbw);
    } else {
      var t := Lock(ReceiveCbw(ep, t0, cbw));
      ReadBegins(ep, t0, cbw, lba, n, keeps);
      ReadTransfer(ep, t0, t, cbw[4..8], lba, n);
    }
  }

  lemma ReadTransfer(ep: nat, t0: Trans, t: Trans, tag: seq<byte>, lba: nat, n: nat)
    requires EndpointSize(ep) && n > 0 && t.disk == t0.disk
    requires Reading(ep, t0, t, tag, lba, n, 0, 0) && SentData(ep, t0, t, [])
    ensures Aligned(ep, t) && t.byteCount < t.bytesToWrite
    ensures var u := TxTimes(ep, SendData(ep, t), PacketsLeft(ep, n, 0, 0) + 1);
            && Transacted(ep, t0, u, Blocks(t0.disk, lba, n), Passed(tag))
            && u.disk == t0.disk && u.written == t0.written
  {
    hide Rx, SendData, SentData, Blocks, Tx, TxTimes, Decode, PacketsLeft;
    assert Blocks(t0.disk, lba, n)[..BLOCK * 0 + 0] == [];
    ReadStep(ep, t0, t, tag, lba, n, 0, 0);
    var u := SendData(ep, t);
    ReadRest(ep, t0, u, tag, lba, n, 0, ep);
    var v := TxTimes(ep, u, PacketsLeft(ep, n, 0, ep));
    ReadStatus(ep, t0, v, tag, lba, n);
    FirstPacket(ep, n);
    TxTwice(ep, u, PacketsLeft(ep, n, 0, ep), 2);
  }

  /** Why the CBW must fit one packet: any shorter first packet is taken for a finished transaction, and
      the device answers it with the CSW it has, the signature and tag of the transaction before, or zeros after
      power-on. The opcode it reads for the status is a byte of the packet if that has got so far, and of the
      CBW before otherwise. */
  lemma PartialCbwIsAnswered(ep: nat, t0: Trans, packet: seq<byte>)
    requires EndpointSize(ep) && Ready(t0) && |packet| < CBW_SIZE
    ensures var u := t0.(cbw := Store(t0.cbw, 0, packet), cbwCnt := |packet|);
            var c := Cmd(u);
            var csw := if c.Invalid? then t0.csw.(status := 1) else t0.csw;
            && u.cbw[CB_OFFSET] == (if CB_OFFSET < |packet| then packet[CB_OFFSET] else t0.cbw[CB_OFFSET])
            && Rx(ep, t0, packet) == u.(cswValid := true, cswSent := CSW_SIZE, csw := csw,
                 sense := if c.Invalid? then ILLEGAL_REQUEST else if c.NoData? then GOOD else t0.sense,
                 sent := t0.sent + [CswBytes(csw)])
  {
    hide Decode;
    assert packet[..|packet|] == packet;
    var u := t0.(cbw := Store(t0.cbw, 0, packet), cbwCnt := |packet|);
    var csw := if Cmd(u).Invalid? then t0.csw.(status := 1) else t0.csw;
    assert CswBytes(csw)[0..CSW_SIZE] == CswBytes(csw);
  }

  /** Commands with nothing to transfer. */
  predicate Empty(c: Command) {
    || c.NoData? || c.Invalid? || c.FormatUnit?
    || ((c.Read? || c.Write?) && c.count == 0)
    || (c.Inquiry? && c.evpd) || (c.RequestSense? && c.len == 0)
  }

  /** They are answered at once; only FORMAT UNIT touches the disk. */
  lemma EmptyTransaction(ep: nat, t0: Trans, cbw: seq<byte>)
    requires EndpointSize(ep) && Ready(t0) && |cbw| == CBW_SIZE && Empty(Decode(cbw[CB_OFFSET..]))
    ensures var t := TxTimes(ep, Rx(ep, t0, cbw), 1);
            var c := Decode(cbw[CB_OFFSET..]);
            && Transacted(ep, t0, t, [], Passed(cbw[4..8]).(status := if c.Invalid? then 1 else 0))
            && t.disk == (if c.FormatUnit? then Formatted(t0.disk, t0.id.lastBlock) else t0.disk)
            && t.written == (if c.FormatUnit? then t0.written + UpTo(t0.id.lastBlock) else t0.written)
  {
    hide Decode, Formatted, UpTo, Empty;
    CbwReceived(ep, t0, cbw);
    EmptyCommand(t0.(cbw := cbw, cbwCnt := CBW_SIZE));
    hide ScsiCommand, ReceiveCbw, CswBytes;
    var u := ReceiveCbw(ep, t0, cbw);
    AnsweredAtOnce(ep, t0, u, cbw);
    var t1 := Rx(ep, t0, cbw);
    Finished(ep, t1);
    assert TxTimes(ep, t1, 1) == Tx(ep, t1);
    assert t0.sent[|t0.sent|..] == [];
    assert SentData(ep, t0, t0, []);
  }

  lemma EmptyCommand(t: Trans)
    requires Valid(t) && Empty(Cmd(t)) && t.blockCount == t.currentBlock == 0
    ensures var u, c := ScsiCommand(t), Cmd(t);
            && u == t.(cswSent := 0, csw := u.csw, bytesToWrite := 0, bytesToRead := 0, byteCount := 0,
                       msdBuf := u.msdBuf, lbaStart := u.lbaStart, sense := u.sense, disk := u.disk,
                       written := u.written)
            && u.csw == Passed(t.cbw[4..8]).(status := if c.Invalid? then 1 else 0)
            && u.disk == (if c.FormatUnit? then Formatted(t.disk, t.id.lastBlock) else t.disk)
            && u.written == (if c.FormatUnit? then t.written + UpTo(t.id.lastBlock) else t.written)
            && (c.Invalid? ==> u.sense == ILLEGAL_REQUEST) && (c.NoData? ==> u.sense == GOOD)
  {
    hide Decode, Formatted, UpTo, Store, InquiryData, SenseData, CapacityData;
  }

  /** Nothing to transfer, and a status that the command has set already. */
  lemma AnsweredAtOnce(ep: nat, t0: Trans, u: Trans, cbw: seq<byte>)
    requires EndpointSize(ep) && Ready(t0) && u == ReceiveCbw(ep, t0, cbw) && u.cbwCnt == CBW_SIZE
    requires u.byteCount == u.bytesToWrite == u.bytesToRead == u.blockCount == 0
    requires u.cswSent == 0 && !u.cswValid && u.sent == t0.sent
    requires Cmd(u).Invalid? ==> u.csw.status == 1 && u.sense == ILLEGAL_REQUEST
    requires Cmd(u).NoData? ==> u.sense == GOOD
    ensures Rx(ep, t0, cbw) == u.(cswValid := true, cswSent := CSW_SIZE, sent := t0.sent + [CswBytes(u.csw)])
  {
    hide Decode, ReceiveCbw;
    assert CswBytes(u.csw)[0..CSW_SIZE] == CswBytes(u.csw);
  }

  /** Status sent and nothing left: the transaction is over. */
  lemma Finished(ep: nat, t: Trans)
    requires EndpointSize(ep) && Valid(t) && t.cswSent == CSW_SIZE && t.byteCount == t.bytesToWrite && t.blockCount == 0
    requires Aligned(ep, t)
    ensures Tx(ep, t) == EndOfTransaction(t)
  {
  }

  /** FORMAT UNIT clears every block but the last. */
  lemma {:induction false} FormattedBlocks(disk: Disk, n: nat, lba: nat)
    ensures BlockAt(Formatted(disk, n), lba) == if lba < n then seq(BLOCK, _ => 0) else BlockAt(disk, lba)
  {
    if n > 0 {
      FormattedBlocks(disk, n - 1, lba);
    }
  }

  // ---- Reports ----

  /** The packets of a report: full ones, then the rest. */
  function ReportPackets(ep: nat, data: seq<byte>): (r: seq<seq<byte>>)
    requires ep > 0
    ensures |r| > 0
  {
    if |data| <= ep then [data] else [data[..ep]] + ReportPackets(ep, data[ep..])
  }

  /** A report is under way: `data` is left to send, from the front of the block buffer. */
  ghost predicate Reporting(ep: nat, t0: Trans, t: Trans, csw: Csw, data: seq<byte>) {
    && Valid(t) && ValidCsw(csw)
    && t.cbwCnt == CBW_SIZE && t.bytesToRead == 0 && t.blockCount == 0 && t.currentBlock == 0
    && !t.cswValid && t.cswSent == 0 && t.csw == csw && !Cmd(t).NoData? && !Cmd(t).Invalid?
    && t.disk == t0.disk && t.written == t0.written && t.locks == t0.locks
    && t.byteCount <= t.bytesToWrite < 0x100 && data == t.msdBuf[t.byteCount..t.bytesToWrite]
  }

  /** One packet of a report, spelled out. */
  lemma ReportPacket(ep: nat, t: Trans)
    requires EndpointSize(ep) && Valid(t) && t.blockCount == 0 && t.byteCount < t.bytesToWrite < 0x100
    ensures Aligned(ep, t) && Lock(t) == t
    ensures var n := Min(ep, t.bytesToWrite - t.byteCount);
            SendData(ep, t) == t.(sent := t.sent + [t.msdBuf[t.byteCount..t.byteCount + n]],
                                  byteCount := t.byteCount + n)
  {
    hide BlockAt;
  }

  lemma ReportStep(ep: nat, t0: Trans, t: Trans, csw: Csw, data: seq<byte>)
    requires EndpointSize(ep) && Reporting(ep, t0, t, csw, data) && data != []
    ensures Valid(t) && Aligned(ep, t) && t.byteCount < t.bytesToWrite && Lock(t) == t
    ensures var u := SendData(ep, t);
            && u.sent == t.sent + [ReportPackets(ep, data)[0]]
            && Reporting(ep, t0, u, csw, if |data| <= ep then [] else data[ep..])
  {
    hide Decode, SendData, ReportPackets, Lock, Aligned;
    ReportPacket(ep, t);
    var n := Min(ep, |data|);
    Slices(t.msdBuf, t.byteCount, t.bytesToWrite, n);
    ReportKept(ep, t0, t, csw, data, n, t.sent + [data[..n]]);
    hide Reporting, EndpointSize;
    FirstReport(ep, data);
  }

  lemma ReportKept(ep: nat, t0: Trans, t: Trans, csw: Csw, data: seq<byte>, n: nat, sent: seq<seq<byte>>)
    requires Reporting(ep, t0, t, csw, data) && n <= |data|
    ensures Reporting(ep, t0, t.(sent := sent, byteCount := t.byteCount + n), csw, data[n..])
  {
    hide Decode;
    Slices(t.msdBuf, t.byteCount, t.bytesToWrite, n);
  }

  lemma Slices(s: seq<byte>, at: nat, to: nat, n: nat)
    requires at + n <= to <= |s|
    ensures s[at..at + n] == s[at..to][..n] && s[at + n..to] == s[at..to][n..]
  {
  }

  lemma FirstReport(ep: nat, data: seq<byte>)
    requires ep > 0
    ensures ReportPackets(ep, data)[0] == data[..Min(ep, |data|)]
    ensures |data| <= ep ==> data[|data|..] == []
  {
    if |data| <= ep {
      assert data[..|data|] == data;
    }
  }

  lemma ReportStatus(ep: nat, t0: Trans, t: Trans, csw: Csw)
    requires EndpointSize(ep) && Reporting(ep, t0, t, csw, [])
    ensures var u := TxTimes(ep, t, 2);
            && Ready(u) && u.locks == t0.locks && u.disk == t0.disk && u.written == t0.written
            && u.sent == t.sent + [CswBytes(csw)]
  {
    hide Decode;
    var t1 := Tx(ep, t);
    assert CswBytes(t.csw)[0..CSW_SIZE] == CswBytes(t.csw);
    assert Aligned(ep, t) && Aligned(ep, t1);
    assert TxTimes(ep, t, 2) == TxTimes(ep, t1, 1) == Tx(ep, t1);
  }

  lemma {:induction false} ReportRest(ep: nat, t0: Trans, t: Trans, csw: Csw, data: seq<byte>)
    requires EndpointSize(ep) && Reporting(ep, t0, t, csw, data) && data != []
    ensures Aligned(ep, t) && t.byteCount < t.bytesToWrite
    ensures var u := TxTimes(ep, SendData(ep, t), |ReportPackets(ep, data)| + 1);
            && Ready(u) && u.locks == t0.locks && u.disk == t0.disk && u.written == t0.written
            && u.sent == t.sent + ReportPackets(ep, data) + [CswBytes(csw)]
    decreases |data|
  {
    hide SendData, Reporting, CswBytes;
    ReportStep(ep, t0, t, csw, data);
    var v, ps := SendData(ep, t), ReportPackets(ep, data);
    if |data| <= ep {
      ReportStatus(ep, t0, v, csw);
    } else {
      var rest := data[ep..];
      ReportRest(ep, t0, v, csw, rest);
      ReportTx(ep, t0, v, csw, rest);
      assert TxTimes(ep, v, |ps| + 1) == TxTimes(ep, SendData(ep, v), |ps|);
      assert t.sent + [ps[0]] + ReportPackets(ep, rest) == t.sent + ps;
    }
  }

  lemma ReportTx(ep: nat, t0: Trans, t: Trans, csw: Csw, data: seq<byte>)
    requires EndpointSize(ep) && Reporting(ep, t0, t, csw, data) && data != []
    ensures Valid(t) && Aligned(ep, t) && Tx(ep, t) == SendData(ep, t)
  {
    hide Decode, SendData;
  }

  /** INQUIRY, REQUEST SENSE, MODE SENSE and READ CAPACITY: the first bytes of the block buffer, with the report
      in front, go out in full packets and a rest, then one CSW that passes; the record is back where it began. */
  lemma ReportTransaction(ep: nat, t0: Trans, cbw: seq<byte>)
    requires EndpointSize(ep) && Ready(t0) && |cbw| == CBW_SIZE && ReportLength(Decode(cbw[CB_OFFSET..])) > 0
    ensures var c := Decode(cbw[CB_OFFSET..]);
            var data := Store(t0.msdBuf, 0, Report(t0, c))[..ReportLength(c)];
            var t := TxTimes(ep, Rx(ep, t0, cbw), |ReportPackets(ep, data)| + 1);
            && Ready(t) && t.locks == t0.locks && t.disk == t0.disk && t.written == t0.written
            && t.sent == t0.sent + ReportPackets(ep, data)
               + [CswBytes(Passed(cbw[4..8]).(residue := if c.Inquiry? then 36 else if c.ModeSense? then 4 else 0))]
  {
    var u := ReceiveCbw(ep, t0, cbw);
    ReportBegins(ep, t0, cbw);
    ReportRest(ep, t0, u, u.csw, u.msdBuf[..u.bytesToWrite]);
  }

  lemma ReportBegins(ep: nat, t0: Trans, cbw: seq<byte>)
    requires EndpointSize(ep) && Ready(t0) && |cbw| == CBW_SIZE && ReportLength(Decode(cbw[CB_OFFSET..])) > 0
    ensures var c := Decode(cbw[CB_OFFSET..]);
            var u := ReceiveCbw(ep, t0, cbw);
            && Aligned(ep, u) && u.byteCount < u.bytesToWrite == ReportLength(c) && u.sent == t0.sent
            && u.msdBuf == Store(t0.msdBuf, 0, Report(t0, c))
            && u.csw == Passed(cbw[4..8]).(residue := if c.Inquiry? then 36 else if c.ModeSense? then 4 else 0)
            && Rx(ep, t0, cbw) == SendData(ep, u)
            && Reporting(ep, t0, u, u.csw, u.msdBuf[..u.bytesToWrite])
  {
    DecodedLength(cbw[CB_OFFSET..]);
    hide Decode, SendData, InquiryData, SenseData, CapacityData, Store;
    CbwReceived(ep, t0, cbw);
    ReportNotEmpty(t0, Decode(cbw[CB_OFFSET..]));
  }

  lemma ReportNotEmpty(t: Trans, c: Command)
    requires ReportLength(c) > 0
    ensures Report(t, c) != [] && (c.Inquiry? || c.RequestSense? || c.ModeSense? || c.ReadCapacity?)
        && (c.Inquiry? ==> !c.evpd)
  {
    assert |InquiryData(t.id)| == 36 && |SenseData(t.sense)| == 18;
  }

  lemma DecodedLength(cb: seq<byte>)
    requires |cb| >= 9
    ensures ReportLength(Decode(cb)) < 0x100
  {
  }

  // ---- WRITE(10) ----

  /** The first `q` blocks of `data` stored from `lba` on. */
  function StoreBlocks(disk: Disk, lba: nat, data: seq<byte>, q: nat): Disk
    requires BLOCK * q <= |data|
  {
    if q == 0 then disk
    else StoreBlocks(disk, lba, data, q - 1)[Wrap(lba + q - 1) := data[BLOCK * (q - 1)..BLOCK * q]]
  }

  function Lbas(lba: nat, q: nat): (r: seq<nat>)
    ensures |r| == q
  {
    if q == 0 then [] else Lbas(lba, q - 1) + [Wrap(lba + q - 1)]
  }

  /** The host's data in full packets. */
  function Cut(ep: nat, data: seq<byte>): seq<seq<byte>>
    requires EndpointSize(ep)
  {
    if |data| < ep then [] else [data[..ep]] + Cut(ep, data[ep..])
  }

  /** A write in progress: the counters, and the CSW, which goes out with the first data packet; a host following
      the protocol reads it at the end. */
  ghost predicate WritingCounts(ep: nat, t0: Trans, t: Trans, tag: seq<byte>, lba: nat, n: nat, q: nat, o: nat)
    requires EndpointSize(ep)
  {
    && Valid(t) && n > 0 && |tag| == 4
    && t.cbwCnt == CBW_SIZE && t.bytesToRead == BLOCK * n && t.bytesToWrite == 0
    && t.blockCount == n && t.lbaStart == lba && t.csw == Passed(tag) && Cmd(t).Write?
    && t.byteCount == BLOCK * q + o && o < BLOCK && OnBoundary(ep, o) && t.currentBlock == q
    && (if o == 0 then q <= n else q < n)
    && (if t.byteCount == 0
        then t.locks == t0.locks && !t.cswValid && t.cswSent == 0 && t.sent == t0.sent
        else t.locks == t0.locks + 1 && t.cswValid && t.cswSent == CSW_SIZE && t.sent == t0.sent + [CswBytes(t.csw)])
  }

  /** And the data: `q` blocks on the disk, `o` bytes of the next in the buffer. */
  ghost predicate WritingData(t0: Trans, t: Trans, lba: nat, data: seq<byte>, q: nat, o: nat) {
    && |t.msdBuf| == BLOCK && o < BLOCK && BLOCK * q + o <= |data|
    && t.msdBuf[..o] == data[BLOCK * q..BLOCK * q + o]
    && t.disk == StoreBlocks(t0.disk, lba, data, q) && t.written == t0.written + Lbas(lba, q)
  }

  ghost predicate Writing(ep: nat, t0: Trans, t: Trans, tag: seq<byte>, lba: nat, n: nat, data: seq<byte>, q: nat,
                          o: nat)
    requires EndpointSize(ep)
  {
    && |data| == BLOCK * n
    && WritingCounts(ep, t0, t, tag, lba, n, q, o) && WritingData(t0, t, lba, data, q, o)
  }

  lemma CswOnce(ep: nat, t: Trans)
    requires EndpointSize(ep) && Valid(t) && Cmd(t).Write?
    ensures t.cswSent == 0 ==> SendCsw(ep, t) == t.(cswValid := true, cswSent := CSW_SIZE,
                                                    sent := t.sent + [CswBytes(t.csw)])
    ensures t.cswSent == CSW_SIZE ==> SendCsw(ep, t) == t.(cswValid := true)
  {
    assert CswBytes(t.csw)[0..CSW_SIZE] == CswBytes(t.csw);
  }

  lemma BufferGrows(msdBuf: seq<byte>, data: seq<byte>, from: nat, o: nat, p: seq<byte>)
    requires o + |p| <= |msdBuf| && from + o + |p| <= |data|
    requires msdBuf[..o] == data[from..from + o] && p == data[from + o..from + o + |p|]
    ensures Store(msdBuf, o, p)[..o + |p|] == data[from..from + o + |p|]
  {
    assert Store(msdBuf, o, p)[..o + |p|] == msdBuf[..o] + p;
  }

  lemma RxData(ep: nat, t: Trans, p: seq<byte>)
    requires EndpointSize(ep) && Valid(t) && Aligned(ep, t) && t.cbwCnt == CBW_SIZE && t.byteCount < t.bytesToRead
    ensures Rx(ep, t, p) == SendCsw(ep, ReceiveData(ep, t, p))
  {
  }

  /** What `write_block` leaves when the buffer is complete. */
  lemma BlockComplete(ep: nat, t: Trans, p: seq<byte>)
    requires EndpointSize(ep) && Valid(t) && |p| == ep && t.byteCount + ep <= t.bytesToRead && t.blockCount > 0
    requires Aligned(ep, t)
    ensures var u := ReceiveData(ep, t, p);
            var b := Store(t.msdBuf, t.byteCount % BLOCK, p);
            && u == t.(msdBuf := b, byteCount := t.byteCount + ep, locks := u.locks,
                       disk := u.disk, written := u.written, currentBlock := u.currentBlock)
            && u.locks == t.locks + (if t.byteCount == 0 then 1 else 0)
            && (if (t.byteCount + ep) % BLOCK == 0
                then u.disk == t.disk[Lba(t) := b] && u.written == t.written + [Lba(t)]
                    && u.currentBlock == t.currentBlock + 1
                else u.disk == t.disk && u.written == t.written && u.currentBlock == t.currentBlock)
  {
    assert p[..ep] == p;
  }

  /** One data packet stored, before the status is looked at. */
  lemma PacketStored(ep: nat, t: Trans, p: seq<byte>, q: nat, o: nat)
    requires EndpointSize(ep) && Valid(t) && |p| == ep && t.blockCount > 0
    requires t.byteCount == BLOCK * q + o && o < BLOCK && OnBoundary(ep, o) && t.byteCount + ep <= t.bytesToRead
    ensures Aligned(ep, t)
    ensures var b := Store(t.msdBuf, o, p);
            var v := t.(msdBuf := b, byteCount := t.byteCount + ep,
                        locks := t.locks + (if t.byteCount == 0 then 1 else 0));
            ReceiveData(ep, t, p) == if o + ep == BLOCK
                                     then v.(disk := t.disk[Lba(t) := b], written := t.written + [Lba(t)],
                                             currentBlock := t.currentBlock + 1)
                                     else v
  {
    Boundary(ep, q, o);
    hide ReceiveData, Store, OnBoundary, Lba, EndpointSize;
    BlockComplete(ep, t, p);
  }

  /** One data packet, spelled out. */
  lemma WritePacket(ep: nat, t: Trans, p: seq<byte>, q: nat, o: nat)
    requires EndpointSize(ep) && Valid(t) && t.cbwCnt == CBW_SIZE && |p| == ep && t.blockCount > 0 && Cmd(t).Write?
    requires t.byteCount == BLOCK * q + o && o < BLOCK && OnBoundary(ep, o) && t.byteCount + ep <= t.bytesToRead
    requires t.cswSent == (if t.byteCount == 0 then 0 else CSW_SIZE)
    ensures Aligned(ep, t)
    ensures var b := Store(t.msdBuf, o, p);
            var v := t.(msdBuf := b, byteCount := t.byteCount + ep,
                        locks := t.locks + (if t.byteCount == 0 then 1 else 0),
                        cswValid := true, cswSent := CSW_SIZE,
                        sent := t.sent + (if t.byteCount == 0 then [CswBytes(t.csw)] else []));
            Rx(ep, t, p) == if o + ep == BLOCK
                            then v.(disk := t.disk[Lba(t) := b], written := t.written + [Lba(t)],
                                    currentBlock := t.currentBlock + 1)
                            else v
  {
    Boundary(ep, q, o);
    assert ep > 0;
    hide Rx, ReceiveData, SendCsw, CswBytes, Decode, Store, OnBoundary, Lba, EndpointSize, Aligned;
    StoreLength(t.msdBuf, o, p);
    PacketStored(ep, t, p, q, o);
    RxData(ep, t, p);
    CswOnce(ep, ReceiveData(ep, t, p));
    assert t.sent + [] == t.sent;
  }

  lemma WriteStep(ep: nat, t0: Trans, t: Trans, tag: seq<byte>, lba: nat, n: nat, data: seq<byte>, q: nat, o: nat)
    requires EndpointSize(ep) && Writing(ep, t0, t, tag, lba, n, data, q, o) && q < n
    ensures Aligned(ep, t) && o + ep <= BLOCK
    ensures var (q', o') := if o + ep == BLOCK then (q + 1, 0) else (q, o + ep);
            Writing(ep, t0, Rx(ep, t, data[t.byteCount..t.byteCount + ep]), tag, lba, n, data, q', o')
  {
    Boundary(ep, q, o);
    var p := data[t.byteCount..t.byteCount + ep];
    WriteStepCounts(ep, t0, t, tag, lba, n, q, o, p);
    if o + ep == BLOCK {
      WriteStepBlock(ep, t0, t, lba, data, q, o, p);
    } else {
      WriteStepWithin(ep, t0, t, lba, data, q, o, p);
    }
    hide *;
  }

  lemma WriteStepCounts(ep: nat, t0: Trans, t: Trans, tag: seq<byte>, lba: nat, n: nat, q: nat, o: nat, p: seq<byte>)
    requires EndpointSize(ep) && WritingCounts(ep, t0, t, tag, lba, n, q, o) && q < n && |p| == ep
    ensures Aligned(ep, t) && o + ep <= BLOCK
    ensures var (q', o') := if o + ep == BLOCK then (q + 1, 0) else (q, o + ep);
            WritingCounts(ep, t0, Rx(ep, t, p), tag, lba, n, q', o')
  {
    Boundary(ep, q, o);
    assert OnBoundary(ep, 0);
    hide Rx, CswBytes, Store, Decode, Lba, OnBoundary, Passed, EndpointSize;
    StoreLength(t.msdBuf, o, p);
    WritePacket(ep, t, p, q, o);
  }

  /** What one packet needs of the counters. */
  ghost predicate Receiving(ep: nat, t: Trans, lba: nat, q: nat, o: nat)
    requires EndpointSize(ep)
  {
    && Valid(t) && t.cbwCnt == CBW_SIZE && t.blockCount > 0 && Cmd(t).Write? && t.lbaStart == lba && t.currentBlock == q
    && t.byteCount == BLOCK * q + o && o < BLOCK && OnBoundary(ep, o) && t.byteCount + ep <= t.bytesToRead
    && t.cswSent == (if t.byteCount == 0 then 0 else CSW_SIZE)
  }

  /** A packet inside a block. */
  lemma PacketWithin(ep: nat, t: Trans, lba: nat, q: nat, o: nat, p: seq<byte>)
    requires EndpointSize(ep) && Receiving(ep, t, lba, q, o) && |p| == ep && o + ep < BLOCK
    ensures Aligned(ep, t)
    ensures var u := Rx(ep, t, p);
            u.msdBuf == Store(t.msdBuf, o, p) && |u.msdBuf| == BLOCK && u.disk == t.disk && u.written == t.written
  {
    hide Rx, CswBytes, Store, Decode, Lba, OnBoundary, EndpointSize, Aligned;
    WritePacket(ep, t, p, q, o);
    StoreLength(t.msdBuf, o, p);
  }

  lemma WriteStepWithin(ep: nat, t0: Trans, t: Trans, lba: nat, data: seq<byte>, q: nat, o: nat, p: seq<byte>)
    requires EndpointSize(ep) && Receiving(ep, t, lba, q, o) && WritingData(t0, t, lba, data, q, o) && o + ep < BLOCK
    requires t.byteCount + ep <= |data| && p == data[t.byteCount..t.byteCount + ep]
    ensures Aligned(ep, t) && WritingData(t0, Rx(ep, t, p), lba, data, q, o + ep)
  {
    hide Rx, StoreBlocks, Lbas, Store, EndpointSize, Aligned, OnBoundary, Decode, Valid;
    PacketWithin(ep, t, lba, q, o, p);
    BufferGrows(t.msdBuf, data, BLOCK * q, o, p);
  }

  /** The packet that completes a block: the parts that concern the data. */
  lemma BlockPacket(ep: nat, t: Trans, lba: nat, q: nat, o: nat, p: seq<byte>)
    requires EndpointSize(ep) && Receiving(ep, t, lba, q, o) && |p| == ep && o + ep == BLOCK
    ensures Aligned(ep, t)
    ensures var u := Rx(ep, t, p);
            && u.msdBuf == Store(t.msdBuf, o, p) && |u.msdBuf| == BLOCK
            && u.disk == t.disk[Wrap(lba + q) := u.msdBuf] && u.written == t.written + [Wrap(lba + q)]
  {
    LbaIs(t, lba, q);
    hide Rx, CswBytes, Store, Decode, Lba, Wrap, OnBoundary, EndpointSize, Aligned;
    WritePacket(ep, t, p, q, o);
    StoreLength(t.msdBuf, o, p);
  }

  /** The buffer it completes is that block of the data. */
  lemma BlockFilled(msdBuf: seq<byte>, data: seq<byte>, from: nat, o: nat, p: seq<byte>)
    requires o + |p| == |msdBuf| == BLOCK && from + BLOCK <= |data|
    requires msdBuf[..o] == data[from..from + o] && p == data[from + o..from + BLOCK]
    ensures Store(msdBuf, o, p) == data[from..from + BLOCK]
  {
    BufferGrows(msdBuf, data, from, o, p);
    StoreLength(msdBuf, o, p);
    hide Store;
    var b := Store(msdBuf, o, p);
    assert b[..BLOCK] == b;
  }

  /** A block added to disk and log keeps the relation between them and the data. */
  lemma BlockAdded(t0: Trans, t: Trans, u: Trans, lba: nat, data: seq<byte>, q: nat, o: nat)
    requires WritingData(t0, t, lba, data, q, o) && BLOCK * q + BLOCK <= |data|
    requires u.msdBuf == data[BLOCK * q..BLOCK * q + BLOCK]
    requires u.disk == t.disk[Wrap(lba + q) := u.msdBuf] && u.written == t.written + [Wrap(lba + q)]
    ensures WritingData(t0, u, lba, data, q + 1, 0)
  {
    StoreBlocksStep(t0.disk, lba, data, q);
    hide StoreBlocks, Lbas, Wrap;
  }

  lemma WriteStepBlock(ep: nat, t0: Trans, t: Trans, lba: nat, data: seq<byte>, q: nat, o: nat, p: seq<byte>)
    requires EndpointSize(ep) && Receiving(ep, t, lba, q, o) && WritingData(t0, t, lba, data, q, o) && o + ep == BLOCK
    requires t.byteCount + ep <= |data| && p == data[t.byteCount..t.byteCount + ep]
    ensures Aligned(ep, t) && WritingData(t0, Rx(ep, t, p), lba, data, q + 1, 0)
  {
    hide Rx, StoreBlocks, Lbas, Store, Wrap, EndpointSize, Aligned, OnBoundary, Decode;
    BlockPacket(ep, t, lba, q, o, p);
    BlockFilled(t.msdBuf, data, BLOCK * q, o, p);
    BlockAdded(t0, t, Rx(ep, t, p), lba, data, q, o);
  }

  lemma LbaIs(t: Trans, lba: nat, q: nat)
    requires t.lbaStart == lba && t.currentBlock == q
    ensures Lba(t) == Wrap(lba + q)
  {
  }

  lemma StoreBlocksStep(disk: Disk, lba: nat, data: seq<byte>, q: nat)
    requires BLOCK * q + BLOCK <= |data|
    ensures StoreBlocks(disk, lba, data, q + 1)
         == StoreBlocks(disk, lba, data, q)[Wrap(lba + q) := data[BLOCK * q..BLOCK * q + BLOCK]]
    ensures Lbas(lba, q + 1) == Lbas(lba, q) + [Wrap(lba + q)]
  {
  }

  lemma {:induction false} WriteRest(ep: nat, t0: Trans, t: Trans, tag: seq<byte>, lba: nat, n: nat, data: seq<byte>,
                                     q: nat, o: nat)
    requires EndpointSize(ep) && Writing(ep, t0, t, tag, lba, n, data, q, o)
    ensures Writing(ep, t0, RxTimes(ep, t, Cut(ep, data[t.byteCount..])), tag, lba, n, data, n, 0)
    decreases BLOCK * n - t.byteCount
  {
    hide Rx, StoreBlocks, Lbas;
    var rest := data[t.byteCount..];
    if q == n {
      assert Cut(ep, rest) == [];
    } else {
      WriteStep(ep, t0, t, tag, lba, n, data, q, o);
      var (q', o') := if o + ep == BLOCK then (q + 1, 0) else (q, o + ep);
      var u := Rx(ep, t, data[t.byteCount..t.byteCount + ep]);
      assert Cut(ep, rest) == [rest[..ep]] + Cut(ep, rest[ep..]);
      assert rest[..ep] == data[t.byteCount..t.byteCount + ep] && rest[ep..] == data[u.byteCount..];
      WriteRest(ep, t0, u, tag, lba, n, data, q', o');
    }
  }

  lemma WriteStatus(ep: nat, t0: Trans, t: Trans, tag: seq<byte>, lba: nat, n: nat, data: seq<byte>)
    requires EndpointSize(ep) && Writing(ep, t0, t, tag, lba, n, data, n, 0)
    ensures var u := TxTimes(ep, t, 1);
            && Transacted(ep, t0, u, [], Passed(tag)) && u.disk == t.disk && u.written == t.written
  {
    hide CswBytes, StoreBlocks, Lbas;
    assert TxTimes(ep, t, 1) == Tx(ep, t);
    assert t0.sent[|t0.sent|..] == [];
    assert SentData(ep, t0, t0, []);
  }

  lemma WriteBegins(ep: nat, t0: Trans, cbw: seq<byte>, lba: nat, n: nat, data: seq<byte>)
    requires EndpointSize(ep) && Ready(t0) && |cbw| == CBW_SIZE && Decode(cbw[CB_OFFSET..]) == Write(lba, n)
    requires n > 0 && |data| == BLOCK * n
    ensures Writing(ep, t0, Rx(ep, t0, cbw), cbw[4..8], lba, n, data, 0, 0)
  {
    hide Decode, RxBody;
    CbwReceived(ep, t0, cbw);
    assert t0.written + [] == t0.written;
  }

  /** WRITE(10): `write_block` runs exactly once per block, in order, with the received bytes; the host
      then reads one CSW, and the transaction record ends as it began. */
  lemma WriteTransaction(ep: nat, t0: Trans, cbw: seq<byte>, lba: nat, n: nat, data: seq<byte>)
    requires EndpointSize(ep) && Ready(t0) && |cbw| == CBW_SIZE && Decode(cbw[CB_OFFSET..]) == Write(lba, n)
    requires |data| == BLOCK * n
    ensures var t := TxTimes(ep, RxTimes(ep, Rx(ep, t0, cbw), Cut(ep, data)), 1);
            && Transacted(ep, t0, t, [], Passed(cbw[4..8]))
            && t.disk == StoreBlocks(t0.disk, lba, data, n)
            && t.written == t0.written + Lbas(lba, n)
  {
    if n == 0 {
      EmptyTransaction(ep, t0, cbw);
      assert t0.written + [] == t0.written;
    } else {
      hide Rx, Decode, Transacted, RxTimes;
      var t := Rx(ep, t0, cbw);
      WriteBegins(ep, t0, cbw, lba, n, data);
      assert data[0..] == data;
      WriteRest(ep, t0, t, cbw[4..8], lba, n, data, 0, 0);
      WriteStatus(ep, t0, RxTimes(ep, t, Cut(ep, data)), cbw[4..8], lba, n, data);
    }
  }

  // ---- What was written is read back ----

  lemma {:induction false} StoreBlocksAt(disk: Disk, lba: nat, data: seq<byte>, q: nat, k: nat)
    requires BLOCK * q <= |data| && k < q <= 0x1_0000
    ensures BlockAt(StoreBlocks(disk, lba, data, q), Wrap(lba + k)) == data[BLOCK * k..BLOCK * k + BLOCK]
  {
    if k < q - 1 {
      StoreBlocksAt(disk, lba, data, q - 1, k);
      DistinctLbas(lba, k, q - 1);
    }
  }

  lemma DistinctLbas(lba: nat, i: nat, j: nat)
    requires i < j < 0x1_0000
    ensures Wrap(lba + i) != Wrap(lba + j)
  {
  }

  lemma {:induction false} WriteThenRead(disk: Disk, lba: nat, data: seq<byte>, n: nat, m: nat)
    requires |data| == BLOCK * n && m <= n <= 0x1_0000
    ensures Blocks(StoreBlocks(disk, lba, data, n), lba, m) == data[..BLOCK * m]
  {
    hide StoreBlocks, BlockAt, Wrap;
    if m > 0 {
      WriteThenRead(disk, lba, data, n, m - 1);
      StoreBlocksAt(disk, lba, data, n, m - 1);
      assert data[..BLOCK * m] == data[..BLOCK * (m - 1)] + data[BLOCK * (m - 1)..BLOCK * m];
    }
  }

  /** Blocks outside the written range keep their contents. */
  lemma {:induction false} WriteElsewhere(disk: Disk, lba: nat, data: seq<byte>, q: nat, other: nat)
    requires BLOCK * q <= |data| && other !in Lbas(lba, q)
    ensures BlockAt(StoreBlocks(disk, lba, data, q), other) == BlockAt(disk, other)
  {
    if q > 0 {
      assert Lbas(lba, q)[q - 1] == Wrap(lba + q - 1);
      assert forall w :: w in Lbas(lba, q - 1) ==> w in Lbas(lba, q);
      WriteElsewhere(disk, lba, data, q - 1, other);
    }
  }

  /** A write followed by a read of the same blocks, through both endpoints: the host gets its own bytes. */
  lemma WriteReadSession(ep: nat, t0: Trans, cbw1: seq<byte>, cbw2: seq<byte>, lba: nat, n: nat, data: seq<byte>,
                         keeps: bool)
    requires EndpointSize(ep) && Ready(t0) && |cbw1| == |cbw2| == CBW_SIZE
    requires Decode(cbw1[CB_OFFSET..]) == Write(lba, n) && Decode(cbw2[CB_OFFSET..]) == Read(lba, n, keeps)
    requires |data| == BLOCK * n
    ensures var t1 := TxTimes(ep, RxTimes(ep, Rx(ep, t0, cbw1), Cut(ep, data)), 1);
            Ready(t1) && Transacted(ep, t1, TxTimes(ep, Rx(ep, t1, cbw2), PacketsLeft(ep, n, 0, 0) + 1), data,
                                    Passed(cbw2[4..8]))
  {
    hide Rx, RxTimes, TxTimes, Blocks, StoreBlocks, Decode;
    CountFits(cbw1[CB_OFFSET..]);
    WriteTransaction(ep, t0, cbw1, lba, n, data);
    var t1 := TxTimes(ep, RxTimes(ep, Rx(ep, t0, cbw1), Cut(ep, data)), 1);
    ReadTransaction(ep, t1, cbw2, lba, n, keeps);
    WriteThenRead(t0.disk, lba, data, n, n);
    assert data[..BLOCK * n] == data;
  }

  lemma CountFits(cb: seq<byte>)
    requires |cb| >= 9
    ensures var c := Decode(cb); (c.Read? || c.Write?) ==> c.count < 0x1_0000
  {
  }

  /** The scalar fields of the transaction record, grouped as they are reset together. */
  datatype Counters = Counters(cbwCnt: nat, bytesToRead: nat, bytesToWrite: nat, byteCount: nat,
                               lbaStart: nat, blockCount: nat, currentBlock: nat)

  datatype Status = Status(valid: bool, sent: nat, csw: Csw, sense: Sense)

  /** The mass-storage function as the source has it: one transaction record updated by two callbacks. */
  class UsbMsc {
    const ep: nat
    const cbw: array<byte>
    const msdBuf: array<byte>
    const id: Identity
    var count: Counters
    var status: Status
    var locks: int
    var disk: Disk
    var sent: seq<seq<byte>>
    var written: seq<nat>

    ghost predicate Sound()
      reads this, cbw, msdBuf
    {
      EndpointSize(ep) && cbw != msdBuf && Valid(State())
    }

    ghost function State(): Trans
      reads this, cbw, msdBuf
    {
      Trans(count.cbwCnt, cbw[..], count.bytesToRead, count.bytesToWrite, count.byteCount,
            count.lbaStart, count.blockCount, count.currentBlock, msdBuf[..],
            status.valid, status.sent, status.csw, status.sense, locks, disk, sent, written, id)
    }

    constructor (ep: nat, disk: Disk, id: Identity)
      requires EndpointSize(ep)
      ensures Sound() && Ready(State()) && this.ep == ep && this.disk == disk && this.id == id
      ensures status.csw == Csw([0, 0, 0, 0], [0, 0, 0, 0], 0, 0) && status.sense == GOOD
      ensures sent == [] && written == [] && locks == 0 && fresh(cbw) && fresh(msdBuf)
    {
      this.ep := ep;
      this.disk := disk;
      this.id := id;
      cbw := new byte[CBW_SIZE](_ => 0);
      msdBuf := new byte[BLOCK](_ => 0);
      count := Counters(0, 0, 0, 0, 0xFFFF_FFFF, 0, 0);
      status := Status(false, 0, Csw([0, 0, 0, 0], [0, 0, 0, 0], 0, 0), GOOD);
      locks, sent, written := 0, [], [];
    }

    method EpWritePacket(packet: seq<byte>)
      modifies `sent
      ensures sent == old(sent) + [packet]
    {
      sent := sent + [packet];
    }

    /** `memcpy` to the start of the block buffer. */
    method Fill(data: seq<byte>)
      requires |data| <= msdBuf.Length
      modifies msdBuf
      ensures msdBuf[..] == if data == [] then old(msdBuf[..]) else Store(old(msdBuf[..]), 0, data)
    {
      forall i | 0 <= i < |data| {
        msdBuf[i] := data[i];
      }
      assert data != [] ==> msdBuf[..] == Store(old(msdBuf[..]), 0, data);
    }

    method ScsiFormatUnit()
      requires msdBuf.Length == BLOCK
      modifies `disk, `written, msdBuf
      ensures msdBuf[..] == seq(BLOCK, _ => 0)
      ensures disk == Formatted(old(disk), id.lastBlock) && written == old(written) + UpTo(id.lastBlock)
    {
      forall i | 0 <= i < BLOCK {
        msdBuf[i] := 0;
      }
      assert msdBuf[..] == seq(BLOCK, _ => 0);
      var i := 0;
      while i < id.lastBlock
        invariant i <= id.lastBlock
        invariant msdBuf[..] == seq(BLOCK, _ => 0)
        invariant disk == Formatted(old(disk), i) && written == old(written) + UpTo(i)
      {
        disk := disk[i := msdBuf[..]];
        written := written + [i];
        assert UpTo(i) + [i] == UpTo(i + 1);
        i := i + 1;
      }
    }

    /** `scsi_command` with EVENT_CBW_VALID. */
    method ScsiCommandCbwValid()
      requires Sound()
      modifies `count, `status, `disk, `written, msdBuf
      ensures State() == ScsiCommand(old(State()))
    {
      hide Decode, Store, Formatted, UpTo, Report;
      assert cbw[..][CB_OFFSET..] == cbw[CB_OFFSET..] && cbw[..][4..8] == cbw[4..8];
      var c := Decode(cbw[CB_OFFSET..]);
      var report := Report(Reported(), c);
      ReportSame(Reported(), State(), c);
      status := status.(sent := 0, csw := Passed(cbw[4..8]));
      count := count.(bytesToWrite := ReportLength(c), bytesToRead := 0, byteCount := 0);
      Fill(report);
      match c {
        case Read(lba, n, keepsCurrent) =>
          count := count.(lbaStart := lba, blockCount := n, bytesToWrite := BLOCK * n);
          if !keepsCurrent {
            count := count.(currentBlock := 0);
          }
          status := status.(sense := GOOD);
        case Write(lba, n) =>
          count := count.(lbaStart := lba, blockCount := n, currentBlock := 0, bytesToRead := BLOCK * n);
        case NoData =>
          status := status.(sense := GOOD);
        case Inquiry(evpd) =>
          if !evpd {
            status := status.(sense := GOOD, csw := status.csw.(residue := 36));
          }
        case RequestSense(_) =>
        case ModeSense =>
          status := status.(csw := status.csw.(residue := 4));
        case ReadCapacity =>
          status := status.(sense := GOOD);
        case FormatUnit =>
          ScsiFormatUnit();
          status := status.(sense := GOOD);
        case Invalid =>
          status := status.(sense := ILLEGAL_REQUEST, csw := status.csw.(status := 1));
      }
    }

    /** The record as far as a report looks at it. */
    function Reported(): Trans
      reads this
    {
      Trans(0, [], 0, 0, 0, 0, 0, 0, [], false, 0, Passed([0, 0, 0, 0]), status.sense, 0, map[], [], [], id)
    }

    /** `scsi_command` with EVENT_NEED_STATUS. */
    method ScsiCommandNeedStatus()
      requires Sound()
      modifies `count, `status
      ensures State() == NeedStatus(old(State()))
    {
      hide Decode;
      assert cbw[..][CB_OFFSET..] == cbw[CB_OFFSET..];
      var c := Decode(cbw[CB_OFFSET..]);
      if c.NoData? {
        status := status.(sense := GOOD);
      } else if c.Invalid? {
        status := status.(sense := ILLEGAL_REQUEST, csw := status.csw.(status := 1));
        count := count.(bytesToWrite := 0, bytesToRead := 0);
      }
    }

    method CswPacket()
      requires Sound()
      modifies `count, `status, `sent
      ensures State() == SendCsw(ep, old(State()))
    {
      hide NeedStatus;
      if !status.valid {
        ScsiCommandNeedStatus();
        status := status.(valid := true);
      }
      var left := CSW_SIZE - status.sent;
      if 0 < left {
        var n := Min(ep, left);
        EpWritePacket(CswBytes(status.csw)[status.sent..status.sent + n]);
        status := status.(sent := status.sent + n);
      }
    }

    method DataPacket()
      requires Sound() && Aligned(ep, State()) && count.byteCount < count.bytesToWrite
      modifies `count, `sent, msdBuf
      ensures State() == SendData(ep, old(State()))
    {
      if 0 < count.blockCount && count.byteCount % BLOCK == 0 {
        var block := BlockAt(disk, (count.lbaStart + count.currentBlock) % 0x1_0000_0000);
        forall i | 0 <= i < BLOCK {
          msdBuf[i] := block[i];
        }
        assert msdBuf[..] == block;
        count := count.(currentBlock := count.currentBlock + 1);
      }
      var n := Min(ep, count.bytesToWrite - count.byteCount);
      var at := count.byteCount % BLOCK;
      assert msdBuf[..][at..at + n] == msdBuf[at..at + n];
      EpWritePacket(msdBuf[at..at + n]);
      count := count.(byteCount := count.byteCount + n);
    }

    method LockOnFirst()
      modifies `locks
      ensures State() == Lock(old(State()))
    {
      if 0 < count.blockCount && count.byteCount == 0 {
        locks := locks + 1;
      }
    }

    method WriteCurrentBlock()
      requires Sound()
      modifies `disk, `written
      ensures State() == WriteBlock(old(State()))
    {
      var lba := (count.lbaStart + count.currentBlock) % 0x1_0000_0000;
      disk := disk[lba := msdBuf[..]];
      written := written + [lba];
    }

    method StoreData(packet: seq<byte>) returns (len: nat)
      requires Sound() && Aligned(ep, State()) && count.byteCount < count.bytesToRead
      modifies `count, msdBuf
      ensures len == Min(|packet|, Min(ep, old(count.bytesToRead) - old(count.byteCount)))
      ensures Aligned(ep, old(State()))
      ensures State() == old(State()).(msdBuf := Store(old(msdBuf[..]), old(count.byteCount) % BLOCK, packet[..len]),
                                       byteCount := old(count.byteCount) + len)
    {
      len := Min(|packet|, Min(ep, count.bytesToRead - count.byteCount));
      var at := count.byteCount % BLOCK;
      ghost var was := msdBuf[..];
      forall i | 0 <= i < len {
        msdBuf[at + i] := packet[i];
      }
      BufferStored(was, at, packet[..len], msdBuf[..]);
      count := count.(byteCount := count.byteCount + len);
    }

    method DataReceived(packet: seq<byte>)
      requires Sound() && Aligned(ep, State()) && count.byteCount < count.bytesToRead
      modifies `locks, `count, `disk, `written, msdBuf
      ensures State() == ReceiveData(ep, old(State()), packet)
    {
      hide WriteBlock, Lock, Store;
      LockKeeps(State());
      LockOnFirst();
      var len := StoreData(packet);
      if 0 < count.blockCount && count.byteCount % BLOCK == 0 {
        ghost var u := State();
        StoreLength(old(msdBuf[..]), old(count.byteCount) % BLOCK, packet[..len]);
        WriteBlockKeeps(u);
        WriteCurrentBlock();
        count := count.(currentBlock := count.currentBlock + 1);
      }
    }

    method CbwReceivedPart(packet: seq<byte>)
      requires Sound() && count.cbwCnt < CBW_SIZE
      modifies this, cbw, msdBuf
      ensures Sound() && State() == ReceiveCbw(ep, old(State()), packet)
    {
      hide Store, ScsiCommand;
      var len := Min(|packet|, Min(ep, CBW_SIZE - count.cbwCnt));
      ghost var was := cbw[..];
      forall i | 0 <= i < len {
        cbw[count.cbwCnt + i] := packet[i];
      }
      BufferStored(was, count.cbwCnt, packet[..len], cbw[..]);
      count := count.(cbwCnt := count.cbwCnt + len);
      StoreLength(was, old(count.cbwCnt), packet[..len]);
      assert State() == old(State()).(cbw := Store(was, old(count.cbwCnt), packet[..len]), cbwCnt := count.cbwCnt);
      if count.cbwCnt == CBW_SIZE {
        ScsiCommandCbwValid();
      }
    }

    method DataRx(packet: seq<byte>)
      requires Sound() && Aligned(ep, State())
      modifies this, msdBuf
      ensures Sound() && State() == RxBody(ep, old(State()), packet)
    {
      hide ReceiveData, SendCsw, SendData, Lock, WriteBlock;
      if count.byteCount < count.bytesToRead {
        DataReceived(packet);
        CswPacket();
      } else if count.byteCount < count.bytesToWrite {
        LockOnFirst();
        LockKeeps(old(State()));
        DataPacket();
      } else {
        if 0 < count.blockCount && count.currentBlock == count.blockCount {
          WriteCurrentBlock();
          WriteBlockKeeps(old(State()));
          count := count.(currentBlock := 0);
          locks := locks - 1;
        }
        CswPacket();
      }
    }

    method MscDataRxCb(packet: seq<byte>)
      requires Sound() && Aligned(ep, State())
      modifies this, cbw, msdBuf
      ensures Sound() && State() == Rx(ep, old(State()), packet)
    {
      hide RxBody, ReceiveCbw;
      if count.cbwCnt < CBW_SIZE {
        CbwReceivedPart(packet);
        if count.cbwCnt == CBW_SIZE && count.byteCount < count.bytesToRead {
          return;
        }
        DataRx(packet[|packet|..]);
      } else {
        DataRx(packet);
      }
    }

    method UnlockAtEnd()
      modifies `count, `locks
      ensures State() == Unlock(old(State()))
    {
      if 0 < count.blockCount && count.currentBlock == count.blockCount {
        count := count.(currentBlock := 0);
        locks := locks - 1;
      }
    }

    method Reset()
      modifies `count, `status
      ensures State() == EndOfTransaction(old(State()))
    {
      count := Counters(0, 0, 0, 0, 0xFFFF_FFFF, 0, 0);
      status := status.(sent := 0, valid := false);
    }

    method MscDataTxCb()
      requires Sound() && Aligned(ep, State())
      modifies this, msdBuf
      ensures Sound() && State() == Tx(ep, old(State()))
    {
      hide SendCsw, SendData, Unlock, EndOfTransaction;
      if count.byteCount < count.bytesToWrite {
        DataPacket();
      } else {
        UnlockAtEnd();
        if status.sent < CSW_SIZE {
          CswPacket();
        } else {
          ghost var u := State();
          EndOfTransactionKeeps(u);
          Reset();
        }
      }
    }
  }

  lemma ReportSame(t: Trans, u: Trans, c: Command)
    requires t.id == u.id && t.sense == u.sense
    ensures Report(t, c) == Report(u, c)
  {
  }

  /** The commands that move blocks or nothing report nothing. */
  lemma EndOfTransactionKeeps(t: Trans)
    requires Valid(t)
    ensures Valid(EndOfTransaction(t))
  {
  }

  lemma LockKeeps(t: Trans)
    ensures Lock(t) == t.(locks := Lock(t).locks)
  {
  }

  lemma BufferStored(was: seq<byte>, at: nat, p: seq<byte>, now: seq<byte>)
    requires at + |p| <= |was| == |now|
    requires forall i :: 0 <= i < |p| ==> now[at + i] == p[i]
    requires forall i :: 0 <= i < at || at + |p| <= i < |was| ==> now[i] == was[i]
    ensures now == Store(was, at, p)
  {
    forall k | 0 <= k < |now|
      ensures now[k] == Store(was, at, p)[k]
    {
      if at <= k < at + |p| {
        assert now[at + (k - at)] == p[k - at];
      }
    }
  }

  lemma WriteBlockKeeps(t: Trans)
    ensures WriteBlock(t) == t.(disk := WriteBlock(t).disk, written := WriteBlock(t).written)
  {
  }
}
