/** Packets of the GDB Remote Serial Protocol: framing, escaping, checksum, restart and retransmission
    (GdbServer/Gdb/gdb_packet.c). */
module GdbPacket {
  import opened Bytes

  const START: byte := 0x24   // '$'
  const END: byte := 0x23     // '#'
  const ESCAPE: byte := 0x7D  // '}'
  const EOT: byte := 0x04
  const ACK: byte := 0x2B     // '+'
  const NAK: byte := 0x2D     // '-'

  // ---- Encoding ----

  /** `c ^ 0x20`. */
  function Flip(c: byte): byte {
    if c / 0x20 % 2 == 1 then c - 0x20 else c + 0x20
  }

  predicate Special(c: byte) {
    c == START || c == END || c == ESCAPE
  }

  function EscapeByte(c: byte): seq<byte> {
    if Special(c) then [ESCAPE, Flip(c)] else [c]
  }

  function Escape(p: seq<byte>): seq<byte> {
    if p == [] then [] else EscapeByte(p[0]) + Escape(p[1..])
  }

  /** The checksum is an `unsigned char`. */
  function Add(a: byte, b: byte): byte {
    if a + b < 0x100 then a + b else a + b - 0x100
  }

  lemma AddLaws(a: byte, b: byte, c: byte)
    ensures Add(Add(a, b), c) == Add(a, Add(b, c))
    ensures Add(a, b) == Add(b, a) && Add(a, 0) == a
  {
  }

  /** The mod-256 sum of the bytes between '$' and '#', as they are on the wire. */
  function Sum(s: seq<byte>): byte {
    if s == [] then 0 else Add(s[0], Sum(s[1..]))
  }

  /** A digit of `%02X`. */
  function HexUpper(n: nat): byte
    requires n < 16
  {
    if n < 10 then 0x30 + n else 0x41 + n - 10
  }

  function Trailer(sum: byte): seq<byte> {
    [END, HexUpper(sum / 16), HexUpper(sum % 16)]
  }

  /** One transmission of `p`. */
  function Frame(p: seq<byte>): seq<byte> {
    [START] + Escape(p) + Trailer(Sum(Escape(p)))
  }

  function Total(s: seq<byte>): nat {
    if s == [] then 0 else s[0] + Total(s[1..])
  }

  lemma {:induction false} SumIsModulo(s: seq<byte>)
    ensures Sum(s) == Total(s) % 0x100
  {
    if s != [] {
      SumIsModulo(s[1..]);
    }
  }

  // ---- Decoding ----

  predicate Space(c: byte) {
    c == 0x20 || 0x09 <= c <= 0x0D
  }

  /** The value of a hexadecimal digit of either case, or -1. */
  function HexValue(c: byte): int {
    if 0x30 <= c <= 0x39 then c - 0x30
    else if 0x41 <= c <= 0x46 then c - 0x41 + 10
    else if 0x61 <= c <= 0x66 then c - 0x61 + 10
    else -1
  }

  function Digit(c: byte): int {
    if HexValue(c) < 0 then 0 else HexValue(c)
  }

  /** `strtol` in base 16 on the two characters received: white space, a sign and a short number are let through. */
  function Strtol(a: byte, b: byte): int {
    if Space(a) || a == ACK then Digit(b)
    else if a == NAK then 0 - Digit(b)
    else if HexValue(a) < 0 then 0
    else if HexValue(b) < 0 then HexValue(a)
    else 16 * HexValue(a) + HexValue(b)
  }

  datatype Captured = Short | Captured(payload: seq<byte>, sum: byte, rest: seq<byte>)

  /** The capture loop, with `payload` stored and `sum` accumulated. A full buffer ends it at any byte. */
  function Capture(s: seq<byte>, size: nat, payload: seq<byte>, sum: byte): (r: Captured)
    ensures r.Captured? ==> |r.rest| < |s|
    decreases |s|
  {
    if s == [] then Short
    else if s[0] == END || |payload| == size then Captured(payload, sum, s[1..])
    else if s[0] == START then Capture(s[1..], size, [], 0)
    else if s[0] == ESCAPE then
      if |s| == 1 then Short
      else Capture(s[2..], size, payload + [Flip(s[1])], Add(sum, Add(s[1], ESCAPE)))
    else Capture(s[1..], size, payload + [s[0]], Add(sum, s[0]))
  }

  /** The bytes after the first '$' or, when an EOT comes first, after that. */
  datatype Waited = Quiet | Ended(rest: seq<byte>) | Started(rest: seq<byte>)

  function Wait(s: seq<byte>): (r: Waited)
    ensures !r.Quiet? ==> |r.rest| < |s|
  {
    if s == [] then Quiet
    else if s[0] == EOT then Ended(s[1..])
    else if s[0] == START then Started(s[1..])
    else Wait(s[1..])
  }

  /** `Blocked`: all of the input is read and the call still waits. */
  datatype Result = Blocked | Eot(rest: seq<byte>) | Packet(payload: seq<byte>, rest: seq<byte>)

  /** What one call returns on input `s`, and the acknowledgements it sends. */
  function Receive(s: seq<byte>, size: nat): (r: (seq<byte>, Result))
    ensures !r.1.Blocked? ==> |r.1.rest| < |s|
    decreases |s|
  {
    var w := Wait(s);
    if w.Quiet? then ([], Blocked)
    else if w.Ended? then ([], Eot(w.rest))
    else
      var c := Capture(w.rest, size, [], 0);
      if c.Short? || |c.rest| < 2 then ([], Blocked)
      else if c.sum == Strtol(c.rest[0], c.rest[1]) then ([ACK], Packet(c.payload, c.rest[2..]))
      else
        var r := Receive(c.rest[2..], size);
        ([NAK] + r.0, r.1)
  }

  // ---- Printer and parser ----

  lemma FlipTwice(c: byte)
    ensures Flip(Flip(c)) == c
  {
  }

  lemma TrailerParses(sum: byte)
    ensures Strtol(HexUpper(sum / 16), HexUpper(sum % 16)) == sum
  {
  }

  /** Escaped text: no bare '$' or '#', no '}' at the end. */
  predicate Clean(body: seq<byte>)
    decreases |body|
  {
    body == [] ||
    if body[0] == ESCAPE then |body| >= 2 && Clean(body[2..])
    else body[0] != START && body[0] != END && Clean(body[1..])
  }

  function Unescape(body: seq<byte>): seq<byte>
    requires Clean(body)
    decreases |body|
  {
    if body == [] then []
    else if body[0] == ESCAPE then [Flip(body[1])] + Unescape(body[2..])
    else [body[0]] + Unescape(body[1..])
  }

  /** Escaping never lets a delimiter through, and unescaping undoes it. */
  lemma {:induction false} UnescapeEscape(p: seq<byte>)
    ensures Clean(Escape(p)) && Unescape(Escape(p)) == p
    ensures START !in Escape(p) && END !in Escape(p)
  {
    if p != [] {
      UnescapeEscape(p[1..]);
      var e := Escape(p);
      if Special(p[0]) {
        FlipTwice(p[0]);
        assert e == [ESCAPE, Flip(p[0])] + Escape(p[1..]);
        assert e[2..] == Escape(p[1..]);
      } else {
        assert e == [p[0]] + Escape(p[1..]);
        assert e[1..] == Escape(p[1..]);
      }
    }
  }

  /** The capture loop runs through clean text as long as it fits, summing every raw byte. */
  lemma {:induction false} CaptureClean(body: seq<byte>, t: seq<byte>, size: nat, payload: seq<byte>, sum: byte)
    requires Clean(body) && |payload| + |Unescape(body)| <= size
    ensures Capture(body + t, size, payload, sum) == Capture(t, size, payload + Unescape(body), Add(sum, Sum(body)))
    decreases |body|
  {
    hide Add, Flip;
    var s := body + t;
    if body == [] {
      AddLaws(sum, 0, 0);
      assert s == t && payload + Unescape(body) == payload;
    } else if body[0] == ESCAPE {
      var c, rest := body[1], body[2..];
      assert s[2..] == rest + t;
      CaptureClean(rest, t, size, payload + [Flip(c)], Add(sum, Add(c, ESCAPE)));
      assert payload + [Flip(c)] + Unescape(rest) == payload + Unescape(body);
      assert body[1..][1..] == rest;
      AddLaws(c, ESCAPE, 0);
      AddLaws(ESCAPE, c, Sum(rest));
      AddLaws(sum, Add(ESCAPE, c), Sum(rest));
    } else {
      var c, rest := body[0], body[1..];
      assert s[1..] == rest + t;
      CaptureClean(rest, t, size, payload + [c], Add(sum, c));
      assert payload + [c] + Unescape(rest) == payload + Unescape(body);
      AddLaws(sum, c, Sum(rest));
    }
  }

  predicate Noise(s: seq<byte>) {
    START !in s && EOT !in s
  }

  lemma {:induction false} WaitNoise(noise: seq<byte>, t: seq<byte>)
    requires Noise(noise)
    ensures Wait(noise + t) == Wait(t)
  {
    if noise == [] {
      assert noise + t == t;
    } else {
      assert (noise + t)[1..] == noise[1..] + t;
      WaitNoise(noise[1..], t);
    }
  }

  lemma ReceiveOnce(s: seq<byte>, w: seq<byte>, p: seq<byte>, sum: byte, a: byte, b: byte, rest: seq<byte>, size: nat)
    requires Wait(s) == Started(w) && Capture(w, size, [], 0) == Captured(p, sum, [a, b] + rest)
    ensures |rest| < |s|
    ensures Receive(s, size) == if sum == Strtol(a, b) then ([ACK], Packet(p, rest))
                                else ([NAK] + Receive(rest, size).0, Receive(rest, size).1)
  {
    hide Wait, Capture, Strtol;
    var left := [a, b] + rest;
    assert left[0] == a && left[1] == b && left[2..] == rest;
  }

  /** Where a call ends without a packet. */
  lemma ReceiveStops(s: seq<byte>, size: nat)
    ensures Wait(s).Quiet? ==> Receive(s, size) == ([], Blocked)
    ensures Wait(s).Ended? ==> Receive(s, size) == ([], Eot(Wait(s).rest))
    ensures Wait(s).Started? ==>
              var c := Capture(Wait(s).rest, size, [], 0);
              c.Short? || |c.rest| < 2 ==> Receive(s, size) == ([], Blocked)
  {
    hide Wait, Capture, Strtol;
  }

  lemma WaitStart(noise: seq<byte>, t: seq<byte>)
    requires Noise(noise)
    ensures Wait(noise + [START] + t) == Started(t)
  {
    WaitNoise(noise, [START] + t);
    assert noise + [START] + t == noise + ([START] + t);
    assert ([START] + t)[1..] == t;
  }

  lemma CaptureFramed(body: seq<byte>, t: seq<byte>, size: nat)
    requires Clean(body) && |Unescape(body)| <= size
    ensures Capture(body + t, size, [], 0) == Capture(t, size, Unescape(body), Sum(body))
  {
    CaptureClean(body, t, size, [], 0);
    AddLaws(Sum(body), 0, 0);
    AddLaws(0, Sum(body), 0);
    hide Add, Capture, Unescape, Sum, Clean;
    assert [] + Unescape(body) == Unescape(body);
  }

  /** What the parser makes of any framed clean text that fits, whatever its two checksum characters. */
  lemma ReceiveFramed(noise: seq<byte>, body: seq<byte>, a: byte, b: byte, rest: seq<byte>, size: nat)
    requires Noise(noise) && Clean(body) && |Unescape(body)| <= size
    ensures Receive(noise + [START] + body + [END, a, b] + rest, size)
         == if Sum(body) == Strtol(a, b) then ([ACK], Packet(Unescape(body), rest))
            else ([NAK] + Receive(rest, size).0, Receive(rest, size).1)
  {
    hide Wait, Capture, Receive, Strtol, Unescape, Clean, Sum, Noise;
    var t := [END, a, b] + rest;
    WaitStart(noise, body + t);
    CaptureEnd(body, a, b, rest, size);
    ReceiveOnce(noise + [START] + (body + t), body + t, Unescape(body), Sum(body), a, b, rest, size);
    FramedText(noise, body, a, b, rest);
  }

  lemma FramedText(noise: seq<byte>, body: seq<byte>, a: byte, b: byte, rest: seq<byte>)
    ensures noise + [START] + (body + ([END, a, b] + rest)) == noise + [START] + body + [END, a, b] + rest
  {
    assert body + ([END, a, b] + rest) == body + [END, a, b] + rest;
  }

  lemma CaptureEnd(body: seq<byte>, a: byte, b: byte, rest: seq<byte>, size: nat)
    requires Clean(body) && |Unescape(body)| <= size
    ensures Capture(body + ([END, a, b] + rest), size, [], 0) == Captured(Unescape(body), Sum(body), [a, b] + rest)
  {
    var t := [END, a, b] + rest;
    CaptureFramed(body, t, size);
    hide Unescape, Clean, Sum;
    assert t[1..] == [a, b] + rest;
  }

  /** The parser undoes the printer: every payload that fits arrives, after any noise before the frame. */
  lemma RoundTrip(noise: seq<byte>, p: seq<byte>, rest: seq<byte>, size: nat)
    requires Noise(noise) && |p| <= size
    ensures Receive(noise + Frame(p) + rest, size) == ([ACK], Packet(p, rest))
  {
    var body := Escape(p);
    var sum := Sum(body);
    UnescapeEscape(p);
    TrailerParses(sum);
    hide Receive, Strtol, Unescape, Clean, Sum, Noise, Escape, HexUpper;
    ReceiveFramed(noise, body, HexUpper(sum / 16), HexUpper(sum % 16), rest, size);
    assert noise + Frame(p) + rest == noise + [START] + body + Trailer(sum) + rest;
  }

  // ---- What a peer puts on the line ----

  /** The two ways to print a hexadecimal digit: "0123456789abcdef" and "0123456789ABCDEF". */
  const LOWER: seq<byte> := [0x30, 0x31, 0x32, 0x33, 0x34, 0x35, 0x36, 0x37, 0x38, 0x39,
                             0x61, 0x62, 0x63, 0x64, 0x65, 0x66]
  const UPPER: seq<byte> := [0x30, 0x31, 0x32, 0x33, 0x34, 0x35, 0x36, 0x37, 0x38, 0x39,
                             0x41, 0x42, 0x43, 0x44, 0x45, 0x46]

  predicate Prints(c: byte, v: nat)
    requires v < 16
  {
    c == LOWER[v] || c == UPPER[v]
  }

  predicate NoDigit(c: byte) {
    c !in LOWER && c !in UPPER
  }

  /** A character is read as the digit it prints, in either case. */
  lemma HexValueIs(c: byte, v: nat)
    requires v < 16
    ensures HexValue(c) == v <==> Prints(c, v)
  {
  }

  /** And as none exactly if it prints none. */
  lemma HexValueNone(c: byte)
    ensures HexValue(c) == -1 <==> NoDigit(c)
    ensures HexValue(c) >= -1
  {
    if HexValue(c) != -1 {
      HexValueIs(c, HexValue(c));
    }
  }

  lemma PrintedUpper(v: nat)
    requires v < 16
    ensures HexUpper(v) == UPPER[v] && Prints(HexUpper(v), v)
  {
  }

  /** Two digits spell their number. */
  lemma StrtolSpells(a: byte, b: byte, h: nat, l: nat)
    requires h < 16 && l < 16 && Prints(a, h) && Prints(b, l)
    ensures Strtol(a, b) == 16 * h + l
  {
    HexValueIs(a, h);
    HexValueIs(b, l);
  }

  predicate Blank(c: byte) {
    c == 0x09 || c == 0x0A || c == 0x0B || c == 0x0C || c == 0x0D || c == 0x20
  }

  /** So does one digit before anything that is no digit, or after white space or a '+'; a '-' makes it negative;
      anything else in front spells zero. */
  lemma StrtolShort(a: byte, b: byte, v: nat)
    requires v < 16
    ensures Prints(a, v) && NoDigit(b) ==> Strtol(a, b) == v
    ensures (Blank(a) || a == 0x2B) && Prints(b, v) ==> Strtol(a, b) == v
    ensures a == 0x2D && Prints(b, v) ==> Strtol(a, b) + v == 0
    ensures NoDigit(b) && (Blank(a) || a == 0x2B || a == 0x2D) ==> Strtol(a, b) == 0
    ensures NoDigit(a) && !Blank(a) && a != 0x2B && a != 0x2D ==> Strtol(a, b) == 0
  {
    HexValueIs(a, v);
    HexValueIs(b, v);
    HexValueNone(a);
    HexValueNone(b);
    hide HexValue, NoDigit;
  }

  /** Framed clean text with two digits behind it, in any case, is accepted exactly if they spell its sum. */
  lemma ReceiveDigits(noise: seq<byte>, body: seq<byte>, a: byte, b: byte, h: nat, l: nat, rest: seq<byte>, size: nat)
    requires Noise(noise) && Clean(body) && |Unescape(body)| <= size
    requires h < 16 && l < 16 && Prints(a, h) && Prints(b, l)
    ensures Receive(noise + [START] + body + [END, a, b] + rest, size)
         == if Total(body) % 0x100 == 16 * h + l then ([ACK], Packet(Unescape(body), rest))
            else ([NAK] + Receive(rest, size).0, Receive(rest, size).1)
  {
    StrtolSpells(a, b, h, l);
    SumIsModulo(body);
    ReceiveFramed(noise, body, a, b, rest, size);
    hide *;
  }

  /** Every payload that fits is received from any peer, whichever case it prints its checksum in. */
  lemma PeerRoundTrip(noise: seq<byte>, p: seq<byte>, a: byte, b: byte, rest: seq<byte>, size: nat)
    requires Noise(noise) && |p| <= size
    requires var sum := Total(Escape(p)) % 0x100; Prints(a, sum / 16) && Prints(b, sum % 16)
    ensures Receive(noise + [START] + Escape(p) + [END, a, b] + rest, size) == ([ACK], Packet(p, rest))
  {
    UnescapeEscape(p);
    var sum := Total(Escape(p)) % 0x100;
    ReceiveDigits(noise, Escape(p), a, b, sum / 16, sum % 16, rest, size);
    hide *;
  }

  /** On the line: '$', '#' and '}' become '}' and the character with bit 5 changed, and no other byte does. */
  lemma EscapedAs(c: byte)
    ensures EscapeByte(c) == if c == 0x24 then [0x7D, 0x04] else if c == 0x23 then [0x7D, 0x03]
                             else if c == 0x7D then [0x7D, 0x5D] else [c]
  {
  }

  /** What an escape stands for: the byte that differs in bit 5 and nowhere else. */
  lemma FlipsBit(c: byte)
    ensures Flip(c) % 0x20 == c % 0x20 && Flip(c) / 0x40 == c / 0x40 && Flip(c) / 0x20 % 2 != c / 0x20 % 2
  {
  }

  /** A frame byte by byte: '$', the escaped payload, '#', and the sum in two upper-case digits. */
  lemma FrameIs(p: seq<byte>)
    ensures var sum := Total(Escape(p)) % 0x100;
            Frame(p) == [0x24] + Escape(p) + [0x23, UPPER[sum / 16], UPPER[sum % 16]]
  {
    SumIsModulo(Escape(p));
    var sum := Sum(Escape(p));
    PrintedUpper(sum / 16);
    PrintedUpper(sum % 16);
  }

  /** The end of transmission, outside a packet, is reported as such. */
  lemma EndOfTransmission(noise: seq<byte>, rest: seq<byte>, size: nat)
    requires Noise(noise)
    ensures Receive(noise + [0x04] + rest, size) == ([], Eot(rest))
  {
    WaitNoise(noise, [0x04] + rest);
    assert noise + [0x04] + rest == noise + ([0x04] + rest);
    assert ([0x04] + rest)[1..] == rest;
    hide Noise, Capture, Strtol;
  }

  /** What one hears and says on the line: "$?#3f" is answered with '+', and "$?#3e" with '-'. */
  lemma QueryAnswered(size: nat)
    requires size > 0
    ensures Receive([0x24, 0x3F, 0x23, 0x33, 0x66], size) == ([0x2B], Packet([0x3F], []))
    ensures Receive([0x24, 0x3F, 0x23, 0x33, 0x65], size) == ([0x2D], Blocked)
  {
    var p := OneCharacter();
    ReceiveDigits([], p, 0x33, 0x66, 3, 15, [], size);
    ReceiveDigits([], p, 0x33, 0x65, 3, 14, [], size);
    ReceiveNothing(size);
    hide *;
    assert [] + [START] + p + [END, 0x33, 0x66] + [] == [0x24, 0x3F, 0x23, 0x33, 0x66];
    assert [] + [START] + p + [END, 0x33, 0x65] + [] == [0x24, 0x3F, 0x23, 0x33, 0x65];
    assert [NAK] + [] == [0x2D];
  }

  lemma OneCharacter() returns (p: seq<byte>)
    ensures p == [0x3F] && Total(p) == 0x3F && Clean(p) && Unescape(p) == p
  {
    p := [0x3F];
    assert p[1..] == [];
  }

  lemma ReceiveNothing(size: nat)
    ensures Receive([], size) == ([], Blocked)
  {
  }

  // ---- Restart ----

  /** A '$' inside a packet starts the capture again, unless the buffer is full: then it is taken as the
      terminator, and the frame it opens is lost. */
  lemma Restart(body: seq<byte>, t: seq<byte>, size: nat)
    requires Clean(body) && |Unescape(body)| <= size
    ensures Capture(body + [START] + t, size, [], 0)
         == if |Unescape(body)| < size then Capture(t, size, [], 0) else Captured(Unescape(body), Sum(body), t)
  {
    assert body + [START] + t == body + ([START] + t);
    CaptureFramed(body, [START] + t, size);
    assert ([START] + t)[1..] == t;
  }

  /** Any byte that comes when the buffer is full ends the packet, as a '#' does. */
  lemma FullBuffer(body: seq<byte>, c: byte, t: seq<byte>, size: nat)
    requires Clean(body) && |Unescape(body)| == size
    ensures Capture(body + [c] + t, size, [], 0) == Captured(Unescape(body), Sum(body), t)
  {
    assert body + [c] + t == body + ([c] + t);
    CaptureFramed(body, [c] + t, size);
    assert ([c] + t)[1..] == t;
  }

  /** A frame cut short, before the buffer is full, costs nothing: the next frame is received. */
  lemma CutShort(noise: seq<byte>, body: seq<byte>, p: seq<byte>, rest: seq<byte>, size: nat)
    requires Noise(noise) && Clean(body) && |Unescape(body)| < size && |p| <= size
    ensures Receive(noise + [START] + body + Frame(p) + rest, size) == ([ACK], Packet(p, rest))
  {
    var t := Escape(p) + Trailer(Sum(Escape(p))) + rest;
    RoundTrip([], p, rest, size);
    WaitStart([], t);
    WaitStart(noise, body + [START] + t);
    Restart(body, t, size);
    hide Wait, Capture, Receive, Escape, Sum, Unescape, Clean, Noise, Trailer, Frame;
    FrameOpens(noise, body, p, rest);
    SameCapture([] + [START] + t, noise + [START] + (body + [START] + t), size);
  }

  lemma FrameOpens(noise: seq<byte>, body: seq<byte>, p: seq<byte>, rest: seq<byte>)
    ensures var t := Escape(p) + Trailer(Sum(Escape(p))) + rest;
            && [] + Frame(p) + rest == [] + [START] + t
            && noise + [START] + body + Frame(p) + rest == noise + [START] + (body + [START] + t)
  {
    hide Escape, Sum, Trailer;
    var e, h := Escape(p), Trailer(Sum(Escape(p)));
    assert [START] + e + h + rest == [START] + (e + h + rest);
    assert noise + [START] + body + ([START] + e + h) + rest == noise + [START] + (body + [START] + (e + h + rest));
  }

  /** After the start of a packet only the capture matters. */
  lemma SameCapture(s1: seq<byte>, s2: seq<byte>, size: nat)
    requires Wait(s1).Started? && Wait(s2).Started?
    requires Capture(Wait(s1).rest, size, [], 0) == Capture(Wait(s2).rest, size, [], 0)
    ensures Receive(s1, size) == Receive(s2, size)
  {
    hide Wait, Capture, Strtol;
  }

  // ---- Soundness ----

  /** `s` is something, then a frame holding `p`, its checksum and the rest. */
  ghost predicate Frames(s: seq<byte>, before: seq<byte>, body: seq<byte>, end: byte, a: byte, b: byte,
                         rest: seq<byte>, p: seq<byte>, size: nat)
  {
    && s == Begun(before, body) + [end, a, b] + rest
    && Clean(body) && Unescape(body) == p && |p| <= size
    && (end == END || |p| == size) && Sum(body) == Strtol(a, b)
  }

  lemma {:induction false} SumAppend(s: seq<byte>, t: seq<byte>)
    ensures Sum(s + t) == Add(Sum(s), Sum(t))
  {
    hide Add;
    if s == [] {
      assert s + t == t;
      AddLaws(Sum(t), 0, 0);
      AddLaws(0, Sum(t), 0);
    } else {
      assert (s + t)[1..] == s[1..] + t;
      SumAppend(s[1..], t);
      AddLaws(s[0], Sum(s[1..]), Sum(t));
    }
  }

  lemma {:induction false} CleanAppend(body: seq<byte>, more: seq<byte>)
    requires Clean(body) && Clean(more)
    ensures Clean(body + more) && Unescape(body + more) == Unescape(body) + Unescape(more)
    decreases |body|
  {
    hide Flip;
    var s := body + more;
    if body == [] {
      assert s == more;
    } else if body[0] == ESCAPE {
      assert s[2..] == body[2..] + more;
      CleanAppend(body[2..], more);
    } else {
      assert s[1..] == body[1..] + more;
      CleanAppend(body[1..], more);
    }
  }

  /** One more unit of the text: a byte, or an escape and the byte it escapes. */
  predicate Unit(s: seq<byte>) {
    if |s| == 2 then s[0] == ESCAPE else |s| == 1 && s[0] != ESCAPE && s[0] != START && s[0] != END
  }

  lemma CleanSnoc(body: seq<byte>, u: seq<byte>)
    requires Clean(body) && Unit(u)
    ensures Clean(body + u)
    ensures Unescape(body + u) == Unescape(body) + [if |u| == 2 then Flip(u[1]) else u[0]]
    ensures Sum(body + u) == Add(Sum(body), if |u| == 2 then Add(u[1], ESCAPE) else u[0])
  {
    hide Add, Flip;
    if |u| == 2 {
      assert u[2..] == [] && u[1..] == [u[1]] && u[1..][1..] == [];
      assert Sum([]) == 0 && Unescape([]) == [];
      assert Sum(u[1..]) == Add(u[1], 0);
      assert Unescape(u) == [Flip(u[1])] + Unescape(u[2..]);
      AddLaws(u[1], 0, 0);
      AddLaws(ESCAPE, u[1], 0);
    } else {
      assert u[1..] == [];
      AddLaws(u[0], 0, 0);
    }
    CleanAppend(body, u);
    SumAppend(body, u);
  }

  /** A packet that has begun: the bytes before its '$', and its text so far. */
  function Begun(before: seq<byte>, body: seq<byte>): seq<byte> {
    before + [START] + body
  }

  lemma BegunMore(before: seq<byte>, body: seq<byte>, s: seq<byte>, n: nat)
    requires n <= |s|
    ensures Begun(before, body + s[..n]) + s[n..] == Begun(before, body) + s
    ensures s != [] && s[0] == START ==> Begun(Begun(before, body), []) + s[1..] == Begun(before, body) + s
    ensures s != [] ==> Begun(before, body) + [s[0]] + s[1..] == Begun(before, body) + s
  {
    BegunUnit(before, body, s[..n], s[n..]);
    assert s == s[..n] + s[n..];
    if s != [] {
      BegunNext(before, body, s[0], s[1..]);
      assert s == [s[0]] + s[1..];
    }
  }

  lemma BegunUnit(before: seq<byte>, body: seq<byte>, u: seq<byte>, t: seq<byte>)
    ensures Begun(before, body + u) + t == Begun(before, body) + (u + t)
  {
    assert before + [START] + (body + u) == before + [START] + body + u;
  }

  lemma BegunNext(before: seq<byte>, body: seq<byte>, c: byte, t: seq<byte>)
    ensures Begun(before, body) + [c] + t == Begun(before, body) + ([c] + t)
    ensures c == START ==> Begun(Begun(before, body), []) + t == Begun(before, body) + ([c] + t)
  {
    assert Begun(before, body) + [START] + [] == Begun(before, body) + [START];
  }

  /** What the capture loop returns is the clean text since the last '$'. */
  lemma {:induction false} CaptureSound(s: seq<byte>, size: nat, before: seq<byte>, body: seq<byte>)
      returns (before': seq<byte>, body': seq<byte>, end: byte)
    requires Clean(body) && |Unescape(body)| <= size
    requires Capture(s, size, Unescape(body), Sum(body)).Captured?
    ensures var c := Capture(s, size, Unescape(body), Sum(body));
            && Begun(before, body) + s == Begun(before', body') + [end] + c.rest
            && Clean(body') && Unescape(body') == c.payload && |c.payload| <= size && Sum(body') == c.sum
            && (end == END || |c.payload| == size)
    decreases |s|
  {
    hide Add, Flip, Begun;
    if s[0] == END || |Unescape(body)| == size {
      before', body', end := before, body, s[0];
      BegunMore(before, body, s, 0);
    } else if s[0] == START {
      BegunMore(before, body, s, 0);
      before', body', end := CaptureSound(s[1..], size, Begun(before, body), []);
    } else {
      var n := if s[0] == ESCAPE then 2 else 1;
      CleanSnoc(body, s[..n]);
      BegunMore(before, body, s, n);
      hide Clean, Sum, Unescape;
      before', body', end := CaptureSound(s[n..], size, before, body + s[..n]);
    }
  }

  lemma {:induction false} WaitSound(s: seq<byte>) returns (before: seq<byte>)
    requires Wait(s).Started?
    ensures s == before + [START] + Wait(s).rest
  {
    if s[0] == START {
      before := [];
    } else {
      before := WaitSound(s[1..]);
      before := [s[0]] + before;
    }
  }

  predicate AllNak(s: seq<byte>) {
    forall i :: 0 <= i < |s| ==> s[i] == NAK
  }

  /** On any input: a packet returned is the unescaping of the text since the last unescaped '$', ended by a '#'
      or a full buffer, with the right checksum; every frame refused before it was answered with a '-'. */
  lemma {:induction false} Sound(s: seq<byte>, size: nat)
    requires Receive(s, size).1.Packet?
    ensures var r := Receive(s, size);
            && (exists before, body, end, a, b :: Frames(s, before, body, end, a, b, r.1.rest, r.1.payload, size))
            && |r.0| > 0 && r.0[|r.0| - 1] == ACK && AllNak(r.0[..|r.0| - 1])
    decreases |s|
  {
    hide Wait, Capture, Strtol, Unescape, Clean, Sum, Begun;
    var before, body, end := FrameSound(s, size);
    var c := Capture(Wait(s).rest, size, [], 0);
    var a, b, tail := c.rest[0], c.rest[1], c.rest[2..];
    assert [end] + c.rest == [end, a, b] + tail;
    assert Begun(before, body) + ([end] + c.rest) == Begun(before, body) + [end] + c.rest;
    assert s == Begun(before, body) + [end, a, b] + tail;
    if c.sum == Strtol(a, b) {
      assert Frames(s, before, body, end, a, b, tail, c.payload, size);
    } else {
      Sound(tail, size);
      var r := Receive(tail, size);
      var before2, body2, end2, a2, b2 :|
        Frames(tail, before2, body2, end2, a2, b2, r.1.rest, r.1.payload, size);
      var all := Begun(before, body) + [end, a, b] + before2;
      BegunAfter(Begun(before, body) + [end, a, b], before2, body2, [end2, a2, b2], r.1.rest);
      assert Frames(s, all, body2, end2, a2, b2, r.1.rest, r.1.payload, size);
      NakMore(r.0);
    }
  }

  lemma NakMore(r: seq<byte>)
    requires |r| > 0 && AllNak(r[..|r| - 1])
    ensures AllNak(([NAK] + r)[..|r|]) && ([NAK] + r)[|r|] == r[|r| - 1]
  {
    assert ([NAK] + r)[..|r|] == [NAK] + r[..|r| - 1];
  }

  lemma BegunAfter(x: seq<byte>, before: seq<byte>, body: seq<byte>, t: seq<byte>, rest: seq<byte>)
    ensures x + (Begun(before, body) + t + rest) == Begun(x + before, body) + t + rest
  {
    assert x + (before + [START] + body) == x + before + [START] + body;
    assert x + (Begun(before, body) + t + rest) == x + Begun(before, body) + t + rest;
  }

  /** The first frame the call captures. */
  lemma FrameSound(s: seq<byte>, size: nat) returns (before: seq<byte>, body: seq<byte>, end: byte)
    requires Wait(s).Started? && Capture(Wait(s).rest, size, [], 0).Captured?
    ensures var c := Capture(Wait(s).rest, size, [], 0);
            && s == Begun(before, body) + [end] + c.rest
            && Clean(body) && Unescape(body) == c.payload && |c.payload| <= size && Sum(body) == c.sum
            && (end == END || |c.payload| == size)
  {
    var start := WaitSound(s);
    var rest := Wait(s).rest;
    before, body, end := CaptureSound(rest, size, start, []);
    assert s == Begun(start, []) + rest;
  }

  // ---- Retransmission ----

  function Repeat(f: seq<byte>, n: nat): seq<byte> {
    if n == 0 then [] else Repeat(f, n - 1) + f
  }

  /** How often a frame is sent, given what the sender reads after each transmission (-1 for a timeout):
      until the first '+', and at most four times. */
  function Transmissions(replies: seq<int>): (n: nat)
    requires |replies| >= 4
    ensures 1 <= n <= 4
    ensures forall i :: 0 <= i < n - 1 ==> replies[i] != ACK
    ensures n < 4 ==> replies[n - 1] == ACK
  {
    if replies[0] == ACK then 1
    else if replies[1] == ACK then 2
    else if replies[2] == ACK then 3
    else 4
  }

  // ---- The code ----

  /** The connection: bytes that have arrived and are not read, bytes sent. */
  class Connection {
    var input: seq<byte>
    var output: seq<byte>

    /** `gdb_if_getchar`; no byte means that the call blocks. */
    method GetChar() returns (ok: bool, c: byte)
      modifies this`input
      ensures ok == (old(input) != [])
      ensures if ok then c == old(input)[0] && input == old(input)[1..] else input == old(input)
    {
      if input == [] {
        return false, 0;
      }
      ok, c, input := true, input[0], input[1..];
    }

    method PutChar(c: byte)
      modifies this`output
      ensures output == old(output) + [c]
    {
      output := output + [c];
    }

    /** Wait for packet start: false when the call blocks; otherwise `c` is '$' or EOT. */
    method AwaitStart(packet: array<byte>) returns (ok: bool)
      requires packet.Length > 0
      modifies this`input, packet
      ensures ok == !Wait(old(input)).Quiet?
      ensures ok ==> input == Wait(old(input)).rest
      ensures ok ==> packet[0] == if Wait(old(input)).Ended? then EOT else START
    {
      ghost var s := input;
      while true
        invariant Wait(input) == Wait(s)
        decreases |input|
      {
        var c;
        ok, c := GetChar();
        if !ok {
          return;
        }
        packet[0] := c;
        if c == EOT || c == START {
          return;
        }
      }
    }

    /** The capture loop: the payload in `packet[..i]`; no store at or past `size`. */
    method CaptureData(packet: array<byte>, size: nat) returns (ok: bool, i: nat, csum: byte)
      requires packet.Length > size
      modifies this`input, packet
      ensures ok == Capture(old(input), size, [], 0).Captured?
      ensures ok ==> i <= size && Capture(old(input), size, [], 0) == Captured(packet[..i], csum, input)
      ensures packet[size..] == old(packet[size..])
    {
      i, csum := 0, 0;
      ghost var s := input;
      while true
        invariant i <= size
        invariant packet[size..] == old(packet[size..])
        invariant Capture(input, size, packet[..i], csum) == Capture(s, size, [], 0)
        decreases |input|
      {
        var c;
        ok, c := GetChar();
        if !ok {
          return;
        }
        if c == END || i == size {
          return;
        }
        if c == START {
          i, csum := 0, 0;
        } else {
          var sum := c;
          if c == ESCAPE {
            ok, c := GetChar();
            if !ok {
              return;
            }
            sum := Add(c, ESCAPE);
            c := Flip(c);
          }
          csum := Add(csum, sum);
          packet[i] := c;
          assert packet[..i + 1] == packet[..i] + [c];
          i := i + 1;
        }
      }
    }

    /** `gdb_getpacket`; `done` is false when the call still waits at the end of the input. */
    method GdbGetPacket(packet: array<byte>, size: nat) returns (done: bool, n: nat)
      requires packet.Length > size
      modifies this, packet
      ensures var r := Receive(old(input), size);
              && output == old(output) + r.0
              && done == !r.1.Blocked?
              && (r.1.Eot? ==> n == 1 && packet[0] == EOT && input == r.1.rest)
              && (r.1.Packet? ==> n == |r.1.payload| <= size && packet[..n] == r.1.payload && packet[n] == 0
                                  && input == r.1.rest)
    {
      hide Wait, Capture, Strtol, Receive;
      ghost var s, sent := input, [];
      n := 0;
      assert Receive(s, size).0 == sent + Receive(s, size).0;
      while true
        invariant output == old(output) + sent
        invariant Receive(s, size).0 == sent + Receive(input, size).0
        invariant Receive(s, size).1 == Receive(input, size).1
        decreases |input|
      {
        ghost var here := input;
        var csum, a, b;
        ReceiveStops(here, size);
        done := AwaitStart(packet);
        if !done {
          return;
        }
        if packet[0] == EOT {
          return true, 1;
        }
        done, n, csum := CaptureData(packet, size);
        if !done {
          return;
        }
        done, a := GetChar();
        if !done {
          return;
        }
        done, b := GetChar();
        if !done {
          return;
        }
        ReceiveOnce(here, Wait(here).rest, packet[..n], csum, a, b, input, size);
        if csum == Strtol(a, b) {
          break;
        }
        PutChar(NAK);
        assert sent + ([NAK] + Receive(input, size).0) == sent + [NAK] + Receive(input, size).0;
        sent := sent + [NAK];
      }
      PutChar(ACK);
      packet[n] := 0;
    }

    /** The body of the retry loop: one transmission. */
    method Transmit(packet: seq<byte>)
      modifies this`output
      ensures output == old(output) + Frame(packet)
    {
      hide Escape, Sum, Add, Flip;
      PutChar(START);
      var csum := 0;
      var i := 0;
      ghost var body := [];
      EscapeNone();
      while i < |packet|
        invariant 0 <= i <= |packet|
        invariant body == Escape(packet[..i]) && output == old(output) + [START] + body
        invariant csum == Sum(body)
      {
        var c := packet[i];
        EscapeSnoc(packet, i);
        if Special(c) {
          PutChar(ESCAPE);
          PutChar(Flip(c));
          csum := Add(csum, Add(ESCAPE, Flip(c)));
        } else {
          PutChar(c);
          csum := Add(csum, c);
        }
        body := body + EscapeByte(c);
        i := i + 1;
      }
      assert packet[..i] == packet;
      PutChar(END);
      PutChar(HexUpper(csum / 16));
      PutChar(HexUpper(csum % 16));
    }

    /** `gdb_putpacket`, given what the port reads after each transmission. */
    method GdbPutPacket(packet: seq<byte>, replies: seq<int>)
      requires |replies| >= 4
      modifies this`output
      ensures output == old(output) + Repeat(Frame(packet), Transmissions(replies))
    {
      hide Frame;
      var tries := 0;
      while true
        invariant 0 <= tries <= 3
        invariant forall i :: 0 <= i < tries ==> replies[i] != ACK
        invariant output == old(output) + Repeat(Frame(packet), tries)
        decreases 4 - tries
      {
        Transmit(packet);
        assert output == old(output) + Repeat(Frame(packet), tries + 1);
        if replies[tries] == ACK || tries == 3 {
          break;
        }
        tries := tries + 1;
      }
    }
  }

  lemma EscapeNone()
    ensures Escape([]) == [] && Sum([]) == 0
  {
  }

  lemma {:induction false} EscapeAppend(p: seq<byte>, q: seq<byte>)
    ensures Escape(p + q) == Escape(p) + Escape(q)
  {
    if p == [] {
      assert p + q == q;
    } else {
      assert (p + q)[1..] == p[1..] + q;
      EscapeAppend(p[1..], q);
    }
  }

  lemma EscapeSnoc(p: seq<byte>, i: nat)
    requires i < |p|
    ensures Escape(p[..i + 1]) == Escape(p[..i]) + EscapeByte(p[i])
    ensures Sum(Escape(p[..i + 1]))
         == Add(Sum(Escape(p[..i])), if Special(p[i]) then Add(ESCAPE, Flip(p[i])) else p[i])
  {
    hide Add, Flip;
    var c := p[i];
    assert p[..i + 1] == p[..i] + [c];
    EscapeAppend(p[..i], [c]);
    assert Escape([c]) == EscapeByte(c) by {
      assert [c][1..] == [];
    }
    hide Escape;
    SumAppend(Escape(p[..i]), EscapeByte(c));
    AddLaws(Flip(c), 0, 0);
    AddLaws(c, 0, 0);
    if Special(c) {
      assert EscapeByte(c)[1..] == [Flip(c)] && [Flip(c)][1..] == [];
      assert Sum([Flip(c)]) == Add(Flip(c), 0);
    } else {
      assert EscapeByte(c)[1..] == [];
    }
  }
}
