/** The host of the mass storage device: the command blocks, command wrappers and status wrappers of the standards,
    written from its side (SPC-3, SBC-2, Bulk-Only Transport 1.0 sections 5.1 and 5.2;
    Bootloader/libopencm3/lib/usb/usb_msc.c). */
module ScsiHost {
  import opened Bytes
  import opened MassStorage

  // ---- Numbers on the wire ----

  function BigEndian(n: nat, len: nat): (r: seq<byte>)
    ensures |r| == len
  {
    if len == 0 then [] else BigEndian(n / 0x100, len - 1) + [n % 0x100]
  }

  function LittleEndian(n: nat, len: nat): (r: seq<byte>)
    ensures |r| == len
  {
    if len == 0 then [] else [n % 0x100] + LittleEndian(n / 0x100, len - 1)
  }

  // ---- Command blocks ----

  /** What a host asks for. */
  datatype Request =
    | TestUnitReady | SendDiagnostic | FormatUnit6 | ModeSense6 | ReadCapacity10
    | RequestSense6(len: nat) | Inquiry6(vpd: bool)
    | Read6(lba: nat, count: nat) | Write6(lba: nat, count: nat)
    | Read10(lba: nat, count: nat) | Write10(lba: nat, count: nat)

  /** The values the fields of the command block have room for; a count of 256 is sent as 0 in the short forms. */
  predicate Sendable(q: Request) {
    match q
    case RequestSense6(len) => len < 0x100
    case Read6(lba, count) => lba < 0x20_0000 && 0 < count <= 0x100
    case Write6(lba, count) => lba < 0x20_0000 && 0 < count <= 0x100
    case Read10(lba, count) => lba < 0x1_0000_0000 && count < 0x1_0000
    case Write10(lba, count) => lba < 0x1_0000_0000 && count < 0x1_0000
    case _ => true
  }

  function Cdb6(op: byte, lba: nat, last: nat): (r: seq<byte>)
    ensures |r| == 6
  {
    [op] + BigEndian(lba, 3) + [last % 0x100, 0]
  }

  function Cdb10(op: byte, lba: nat, count: nat): (r: seq<byte>)
    ensures |r| == 10
  {
    [op, 0] + BigEndian(lba, 4) + [0] + BigEndian(count, 2) + [0]
  }

  function Cdb(q: Request): (r: seq<byte>)
    ensures 6 <= |r| <= 10
  {
    match q
    case TestUnitReady => Cdb6(0x00, 0, 0)
    case RequestSense6(len) => Cdb6(0x03, 0, len)
    case FormatUnit6 => Cdb6(0x04, 0, 0)
    case Read6(lba, count) => Cdb6(0x08, lba, count)
    case Write6(lba, count) => Cdb6(0x0A, lba, count)
    case Inquiry6(vpd) => Cdb6(0x12, if vpd then 0x1_0000 else 0, 36)
    case ModeSense6 => Cdb6(0x1A, 0, 4)
    case SendDiagnostic => Cdb6(0x1D, 0, 0)
    case ReadCapacity10 => Cdb10(0x25, 0, 0)
    case Read10(lba, count) => Cdb10(0x28, lba, count)
    case Write10(lba, count) => Cdb10(0x2A, lba, count)
  }

  /** A command block in the 16 bytes of its wrapper. */
  function Padded(cdb: seq<byte>): (r: seq<byte>)
    requires |cdb| <= 16
    ensures |r| == 16
  {
    cdb + seq(16 - |cdb|, _ => 0)
  }

  /** The command block wrapper: "USBC", the tag, the length of the data, its direction, unit 0, the block. */
  function Cbw(tag: seq<byte>, length: nat, toHost: bool, cdb: seq<byte>): (r: seq<byte>)
    requires |tag| == 4 && |cdb| <= 16
    ensures |r| == CBW_SIZE
  {
    [0x55, 0x53, 0x42, 0x43] + tag + LittleEndian(length, 4) + [if toHost then 0x80 else 0, 0, |cdb|] + Padded(cdb)
  }

  lemma CbwParts(tag: seq<byte>, length: nat, toHost: bool, cdb: seq<byte>)
    requires |tag| == 4 && |cdb| <= 16
    ensures Cbw(tag, length, toHost, cdb)[CB_OFFSET..] == Padded(cdb)
    ensures Cbw(tag, length, toHost, cdb)[4..8] == tag
  {
    hide Padded, LittleEndian;
  }

  // ---- What the device makes of them ----

  lemma FourBytes(n: nat)
    requires n < 0x1_0000_0000
    ensures var b := BigEndian(n, 4);
            b[0] as nat * 0x100_0000 + b[1] as nat * 0x1_0000 + b[2] as nat * 0x100 + b[3] as nat == n
  {
    var n1 := n / 0x100;
    var n2 := n1 / 0x100;
    assert BigEndian(n, 4) == BigEndian(n2, 2) + [n1 % 0x100, n % 0x100];
    TwoBytes(n2);
  }

  lemma FourBytesAre(n: nat)
    requires n < 0x1_0000_0000
    ensures BigEndian(n, 4) == [n / 0x100_0000 % 0x100, n / 0x1_0000 % 0x100, n / 0x100 % 0x100, n % 0x100]
  {
    var n1 := n / 0x100;
    Twice(n);
    Twice(n1);
    TwoBytes(n1 / 0x100);
    assert BigEndian(n, 4) == BigEndian(n1 / 0x100, 2) + [n1 % 0x100, n % 0x100];
  }

  lemma Twice(n: nat)
    ensures n / 0x100 / 0x100 == n / 0x1_0000 && n / 0x100 / 0x1_0000 == n / 0x100_0000
  {
  }

  lemma TwoBytes(n: nat)
    requires n < 0x1_0000
    ensures BigEndian(n, 2) == [n / 0x100, n % 0x100]
  {
    assert BigEndian(n / 0x100, 1) == [n / 0x100];
  }

  lemma ThreeBytes(n: nat)
    requires n < 0x100_0000
    ensures BigEndian(n, 3) == [n / 0x1_0000, n / 0x100 % 0x100, n % 0x100]
  {
    TwoBytes(n / 0x100);
  }

  /** The ten-byte commands are understood as sent, for every block address and count. */
  lemma TenByteCommands(lba: nat, count: nat)
    requires lba < 0x1_0000_0000 && count < 0x1_0000
    ensures Decode(Padded(Cdb10(0x28, lba, count))) == Read(lba, count, true)
    ensures Decode(Padded(Cdb10(0x2A, lba, count))) == Write(lba, count)
  {
    FourBytes(lba);
    TwoBytes(count);
    hide BigEndian;
  }

  /** The six-byte write is understood as sent, but for a count of 256, which is taken as 0; the six-byte read
      also loses the upper five bits of its block address. */
  lemma SixByteCommands(lba: nat, count: nat)
    requires lba < 0x20_0000 && 0 < count <= 0x100
    ensures Decode(Padded(Cdb6(0x0A, lba, count))) == Write(lba, if count == 0x100 then 0 else count)
    ensures Decode(Padded(Cdb6(0x08, lba, count)))
         == Read(lba % 0x1_0000, if count == 0x100 then 0 else count, false)
  {
    ThreeBytes(lba);
    Rejoined(lba);
    hide BigEndian;
    var high, middle, low := lba / 0x1_0000, lba / 0x100 % 0x100, lba % 0x100;
    assert Cdb6(0x0A, lba, count) == [0x0A, high, middle, low, count % 0x100, 0];
    assert Cdb6(0x08, lba, count) == [0x08, high, middle, low, count % 0x100, 0];
    hide Cdb6;
  }

  lemma Rejoined(lba: nat)
    requires lba < 0x20_0000
    ensures lba / 0x1_0000 < 0x20
    ensures lba / 0x1_0000 * 0x1_0000 + lba / 0x100 % 0x100 * 0x100 + lba % 0x100 == lba
    ensures lba / 0x100 % 0x100 * 0x100 + lba % 0x100 == lba % 0x1_0000
  {
  }

  /** The upper three bits of byte 1, once a unit number, do not matter for the block address of a write. */
  lemma UnitIgnored(unit: nat, lba: nat, count: nat)
    requires unit < 8 && lba < 0x20_0000
    ensures var cdb := Padded(Cdb6(0x0A, lba, count));
            Decode([cdb[0], lba / 0x1_0000 + 0x20 * unit] + cdb[2..]) == Decode(cdb)
  {
    ThreeBytes(lba);
    hide BigEndian;
    assert (lba / 0x1_0000 + 0x20 * unit) % 0x20 == lba / 0x1_0000;
  }

  /** Of byte 1 of an INQUIRY only bit 0 does. */
  lemma VitalDataBit(cb: seq<byte>)
    requires |cb| >= 9 && cb[0] == 0x12
    ensures Decode(cb) == Inquiry(Bit(cb[1], 0))
  {
  }

  /** The others are told apart as the standard numbers them. */
  lemma PlainCommands()
    ensures Decode(Padded(Cdb(TestUnitReady))) == NoData && Decode(Padded(Cdb(SendDiagnostic))) == NoData
    ensures Decode(Padded(Cdb(FormatUnit6))) == FormatUnit
    ensures Decode(Padded(Cdb(ModeSense6))) == ModeSense
    ensures Decode(Padded(Cdb(ReadCapacity10))) == ReadCapacity
  {
    hide BigEndian;
  }

  lemma ReportCommands(len: nat, vpd: bool)
    requires len < 0x100
    ensures Decode(Padded(Cdb(RequestSense6(len)))) == RequestSense(len)
    ensures Decode(Padded(Cdb(Inquiry6(vpd)))) == Inquiry(vpd)
  {
    ThreeBytes(if vpd then 0x1_0000 else 0);
    hide BigEndian;
  }

  /** Exactly these operation codes are known. */
  lemma KnownCommands(cb: seq<byte>)
    requires |cb| >= 9
    ensures Decode(cb) == Invalid
       <==> cb[0] !in [0x00, 0x03, 0x04, 0x08, 0x0A, 0x12, 0x1A, 0x1D, 0x25, 0x28, 0x2A]
  {
  }

  /** How the device reads a request. */
  function Understood(q: Request): Command {
    match q
    case TestUnitReady => NoData
    case SendDiagnostic => NoData
    case FormatUnit6 => FormatUnit
    case ModeSense6 => ModeSense
    case ReadCapacity10 => ReadCapacity
    case RequestSense6(len) => RequestSense(len)
    case Inquiry6(vpd) => Inquiry(vpd)
    case Read6(lba, count) => Read(lba % 0x1_0000, if count == 0x100 then 0 else count, false)
    case Write6(lba, count) => Write(lba, if count == 0x100 then 0 else count)
    case Read10(lba, count) => Read(lba, count, true)
    case Write10(lba, count) => Write(lba, count)
  }

  /** Every request reaches the device as sent; exactly the two exceptions of the six-byte forms do not. */
  lemma RequestUnderstood(q: Request)
    requires Sendable(q)
    ensures Decode(Padded(Cdb(q))) == Understood(q)
  {
    hide Decode, Padded, Cdb6, Cdb10;
    match q
    case Read6(lba, count) => SixByteCommands(lba, count);
    case Write6(lba, count) => SixByteCommands(lba, count);
    case Read10(lba, count) => TenByteCommands(lba, count);
    case Write10(lba, count) => TenByteCommands(lba, count);
    case RequestSense6(len) => ReportCommands(len, false);
    case Inquiry6(vpd) => ReportCommands(0, vpd);
    case _ => PlainCommands();
  }

  // ---- Status wrappers and reports ----

  /** The command status wrapper: "USBS", the tag of the command, the residue, the status. */
  function StatusWrapper(tag: seq<byte>, residue: nat, status: byte): seq<byte> {
    [0x55, 0x53, 0x42, 0x53] + tag + LittleEndian(residue, 4) + [status]
  }

  /** A status of the device is the wrapper a host expects. */
  lemma StatusIs(tag: seq<byte>, residue: byte, status: byte)
    requires |tag| == 4
    ensures CswBytes(Passed(tag).(residue := residue, status := status)) == StatusWrapper(tag, residue, status)
    ensures Passed(tag) == Passed(tag).(residue := 0, status := 0)
  {
    assert LittleEndian(0, 3) == [0, 0, 0];
    assert LittleEndian(residue, 4) == [residue, 0, 0, 0];
  }

  /** A name in a field of fixed length, filled up with blanks. */
  function Field(name: seq<byte>, len: nat): seq<byte> {
    seq(len, i requires 0 <= i < len => if i < |name| then name[i] else 0x20)
  }

  /** Standard inquiry data: a removable disk, and its names. (Byte 4, the additional length, is one more than
      the 31 bytes that follow it.) */
  lemma InquiryIs(id: Identity)
    ensures InquiryData(id)
         == [0x00, 0x80, 0x04, 0x02, 0x20, 0x00, 0x00, 0x00]
            + Field(id.vendor, 8) + Field(id.product, 16) + Field(id.revision, 4)
  {
  }

  /** Fixed-format sense data: response code 0x70, ten bytes after byte 7, key, code and qualifier in their places. */
  lemma SenseIs(s: Sense)
    ensures var r := SenseData(s);
            && r[0] == 0x70 && r[7] == 10 && r[2] == s.key && r[12] == s.asc && r[13] == s.ascq
            && forall i :: 0 <= i < 18 && i !in [0, 2, 7, 12, 13] ==> r[i] == 0
  {
  }

  /** Read capacity data: the last block and the block size, each in four bytes. */
  lemma CapacityIs(lastBlock: nat)
    requires lastBlock < 0x1_0000_0000
    ensures CapacityData(lastBlock) == BigEndian(lastBlock, 4) + BigEndian(512, 4)
  {
    FourBytesAre(lastBlock);
    FourBytesAre(512);
    hide BigEndian;
  }
}
