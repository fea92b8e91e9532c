/** Both ends of a GDB connection on a line that damages transmissions: what is delivered, how often the
    sender sends, and what it leaves unread (GdbServer/Gdb/gdb_packet.c). */
module GdbLink {
  import opened Bytes
  import opened GdbPacket

  /** What damage on the way leaves of a transmission, piece by piece: text with no '$' before it, a frame that has
      lost its end, or a frame whose two checksum characters do not fit what is between its delimiters. */
  datatype Segment = Lost(noise: seq<byte>) | Cut(body: seq<byte>) | Refused(body: seq<byte>, a: byte, b: byte)

  function Wire(g: Segment): seq<byte> {
    match g
    case Lost(noise) => noise
    case Cut(body) => [START] + body
    case Refused(body, a, b) => [START] + body + [END, a, b]
  }

  predicate Plausible(g: Segment, size: nat) {
    match g
    case Lost(noise) => Noise(noise)
    case Cut(body) => Clean(body) && |Unescape(body)| < size
    case Refused(body, a, b) => Clean(body) && |Unescape(body)| <= size && Sum(body) != Strtol(a, b)
  }

  function Wires(gs: seq<Segment>): seq<byte> {
    if gs == [] then [] else Wire(gs[0]) + Wires(gs[1..])
  }

  /** How many of the pieces are answered. */
  function Answered(gs: seq<Segment>): nat {
    if gs == [] then 0 else (if gs[0].Refused? then 1 else 0) + Answered(gs[1..])
  }

  /** After a frame that lost its end comes a '$'. */
  predicate Chained(gs: seq<Segment>) {
    forall i :: 0 <= i < |gs| - 1 && gs[i].Cut? ==> !gs[i + 1].Lost?
  }

  function Naks(n: nat): (r: seq<byte>)
    ensures |r| == n && AllNak(r)
  {
    if n == 0 then [] else [NAK] + Naks(n - 1)
  }

  lemma LostIsSkipped(noise: seq<byte>, t: seq<byte>, size: nat)
    requires Noise(noise)
    ensures Receive(noise + t, size) == Receive(t, size)
  {
    WaitNoise(noise, t);
    hide Wait, Capture, Noise;
  }

  lemma CutIsSkipped(body: seq<byte>, t: seq<byte>, size: nat)
    requires Clean(body) && |Unescape(body)| < size && (t == [] || t[0] == START)
    ensures Receive([START] + body + t, size) == Receive(t, size)
  {
    if t == [] {
      CutIsSilent(body, size);
      assert [START] + body + t == [START] + body;
      return;
    }
    var u := t[1..];
    WaitStart([], body + [START] + u);
    WaitStart([], u);
    Restart(body, u, size);
    hide Wait, Capture, Receive, Clean, Unescape, Noise;
    assert t == [] + [START] + u;
    assert [START] + body + t == [] + [START] + (body + [START] + u);
    SameCapture([] + [START] + (body + [START] + u), [] + [START] + u, size);
  }

  lemma CutIsSilent(body: seq<byte>, size: nat)
    requires Clean(body) && |Unescape(body)| < size
    ensures Receive([START] + body, size) == Receive([], size) == ([], Blocked)
  {
    WaitStart([], body);
    CaptureFramed(body, [], size);
    hide Clean, Unescape, Sum;
    assert [] + [START] + body == [START] + body && body + [] == body;
  }

  lemma RefusedIsAnswered(body: seq<byte>, a: byte, b: byte, t: seq<byte>, size: nat)
    requires Clean(body) && |Unescape(body)| <= size && Sum(body) != Strtol(a, b)
    ensures Receive([START] + body + [END, a, b] + t, size) == ([NAK] + Receive(t, size).0, Receive(t, size).1)
  {
    ReceiveFramed([], body, a, b, t, size);
    hide *;
    assert [] + [START] == [START];
  }

  lemma StartsFrame(gs: seq<Segment>, t: seq<byte>)
    requires (t == [] || t[0] == START) && (gs != [] ==> !gs[0].Lost?)
    ensures Wires(gs) + t == [] || (Wires(gs) + t)[0] == START
  {
  }

  /** The pieces leave nothing behind but their answers. */
  lemma {:induction false} ReceiveDamaged(gs: seq<Segment>, t: seq<byte>, size: nat)
    requires (forall i :: 0 <= i < |gs| ==> Plausible(gs[i], size)) && Chained(gs) && (t == [] || t[0] == START)
    ensures Receive(Wires(gs) + t, size) == (Naks(Answered(gs)) + Receive(t, size).0, Receive(t, size).1)
    decreases |gs|
  {
    hide Receive, Plausible, Wire;
    if gs == [] {
      assert Wires(gs) + t == t;
      assert Naks(0) + Receive(t, size).0 == Receive(t, size).0;
    } else {
      var g, rest := gs[0], gs[1..];
      assert forall i :: 0 <= i < |rest| ==> rest[i] == gs[i + 1];
      ReceiveDamaged(rest, t, size);
      if g.Cut? {
        StartsFrame(rest, t);
      }
      ReceivePiece(g, Wires(rest) + t, size);
      assert Wires(gs) + t == Wire(g) + (Wires(rest) + t);
      assert gs == [g] + rest;
      AnswersJoin(g, rest, Receive(t, size).0);
    }
  }

  lemma AnswersJoin(g: Segment, rest: seq<Segment>, more: seq<byte>)
    ensures (if g.Refused? then [NAK] else []) + (Naks(Answered(rest)) + more) == Naks(Answered([g] + rest)) + more
  {
    assert ([g] + rest)[1..] == rest;
    assert [NAK] + (Naks(Answered(rest)) + more) == [NAK] + Naks(Answered(rest)) + more;
    assert [] + (Naks(Answered(rest)) + more) == Naks(Answered(rest)) + more;
  }

  /** One piece leaves nothing behind but its answer. */
  lemma ReceivePiece(g: Segment, t: seq<byte>, size: nat)
    requires Plausible(g, size) && (g.Cut? ==> t == [] || t[0] == START)
    ensures Receive(Wire(g) + t, size) == ((if g.Refused? then [NAK] else []) + Receive(t, size).0, Receive(t, size).1)
  {
    hide Receive, Noise, Clean, Unescape, Sum, Strtol;
    assert [] + Receive(t, size).0 == Receive(t, size).0;
    match g
    case Lost(noise) => LostIsSkipped(noise, t, size);
    case Cut(body) => CutIsSkipped(body, t, size);
    case Refused(body, a, b) => RefusedIsAnswered(body, a, b, t, size);
  }

  /** The pieces of all the damaged transmissions, in order. */
  function Pieces(damaged: seq<seq<Segment>>): seq<Segment> {
    if damaged == [] then [] else damaged[0] + Pieces(damaged[1..])
  }

  // ---- The receiver ----

  /** What calls of `gdb_getpacket` make of the input until it runs out: their acknowledgements and packets. */
  datatype Served = Served(answers: seq<byte>, packets: seq<seq<byte>>)

  function Serve(s: seq<byte>, size: nat): Served
    decreases |s|
  {
    var (sent, r) := Receive(s, size);
    match r
    case Blocked => Served(sent, [])
    case Eot(rest) => var v := Serve(rest, size); Served(sent + v.answers, v.packets)
    case Packet(p, rest) => var v := Serve(rest, size); Served(sent + v.answers, [p] + v.packets)
  }

  function Acks(n: nat): (r: seq<byte>)
    ensures |r| == n && forall i :: 0 <= i < n ==> r[i] == ACK
  {
    if n == 0 then [] else [ACK] + Acks(n - 1)
  }

  function Copies(p: seq<byte>, n: nat): (r: seq<seq<byte>>)
    ensures |r| == n && forall i :: 0 <= i < n ==> r[i] == p
  {
    if n == 0 then [] else [p] + Copies(p, n - 1)
  }

  lemma {:induction false} RepeatFront(f: seq<byte>, n: nat)
    requires n > 0
    ensures Repeat(f, n) == f + Repeat(f, n - 1)
  {
    if n > 1 {
      RepeatFront(f, n - 1);
      assert f + Repeat(f, n - 2) + f == f + (Repeat(f, n - 2) + f);
    } else {
      assert Repeat(f, n - 1) == [];
    }
  }

  lemma FrameStarts(p: seq<byte>)
    ensures Frame(p) != [] && Frame(p)[0] == START
  {
    hide Escape, Sum, Trailer;
  }

  /** Every intact frame is a packet and a '+'. */
  lemma {:induction false} ServeFrames(p: seq<byte>, n: nat, size: nat)
    requires |p| <= size
    ensures Serve(Repeat(Frame(p), n), size) == Served(Acks(n), Copies(p, n))
  {
    hide Receive, Frame;
    if n == 0 {
      ReceiveNothing(size);
    } else {
      var rest := Repeat(Frame(p), n - 1);
      RepeatFront(Frame(p), n);
      RoundTrip([], p, rest, size);
      assert [] + Frame(p) + rest == Frame(p) + rest;
      ServeFrames(p, n - 1, size);
    }
  }

  // ---- What is sent ----

  /** The first `k` transmissions of `p`: damaged as given, intact from then on. */
  function Sent(damaged: seq<seq<Segment>>, p: seq<byte>, k: nat): seq<byte> {
    if k <= |damaged| then Wires(Pieces(damaged[..k]))
    else Wires(Pieces(damaged)) + Repeat(Frame(p), k - |damaged|)
  }

  ghost predicate Damage(damaged: seq<seq<Segment>>, size: nat) {
    var gs := Pieces(damaged);
    (forall i :: 0 <= i < |gs| ==> Plausible(gs[i], size)) && Chained(gs)
  }

  lemma {:induction false} AnsweredBoth(a: seq<Segment>, b: seq<Segment>)
    ensures Answered(a + b) == Answered(a) + Answered(b)
  {
    if a == [] {
      assert a + b == b;
    } else {
      assert (a + b)[1..] == a[1..] + b;
      AnsweredBoth(a[1..], b);
    }
  }

  lemma {:induction false} PiecesSnoc(damaged: seq<seq<Segment>>)
    requires damaged != []
    ensures Pieces(damaged) == Pieces(damaged[..|damaged| - 1]) + damaged[|damaged| - 1]
  {
    var m := |damaged| - 1;
    if m == 0 {
      assert damaged[1..] == [] && damaged[..0] == [];
      assert damaged[0] + [] == damaged[0];
    } else {
      assert damaged[..m][1..] == damaged[1..][..m - 1];
      PiecesSnoc(damaged[1..]);
      assert damaged[0] + (Pieces(damaged[1..][..m - 1]) + damaged[m])
          == damaged[0] + Pieces(damaged[1..][..m - 1]) + damaged[m];
    }
  }

  /** Part of the damage is damage. */
  lemma {:induction false} DamagePrefix(damaged: seq<seq<Segment>>, k: nat, size: nat)
    requires Damage(damaged, size) && k <= |damaged|
    ensures Damage(damaged[..k], size)
    decreases |damaged| - k
  {
    if k == |damaged| {
      assert damaged[..k] == damaged;
    } else {
      DamagePrefix(damaged, k + 1, size);
      PiecesSnoc(damaged[..k + 1]);
      assert damaged[..k + 1][..k] == damaged[..k];
      var gs, more := Pieces(damaged[..k + 1]), Pieces(damaged[..k]);
      assert forall i :: 0 <= i < |more| ==> more[i] == gs[i];
    }
  }

  // ---- Answers in the queue ----

  /** How many answers each damaged transmission draws. */
  function Counts(damaged: seq<seq<Segment>>): (r: seq<nat>)
    ensures |r| == |damaged|
  {
    seq(|damaged|, i requires 0 <= i < |damaged| => Answered(damaged[i]))
  }

  function Drawn(counts: seq<nat>): nat {
    if counts == [] then 0 else Drawn(counts[..|counts| - 1]) + counts[|counts| - 1]
  }

  /** Answers still unread when the sender takes at most one after each transmission. */
  function Backlog(counts: seq<nat>): (r: nat)
    ensures r <= Drawn(counts)
  {
    if counts == [] then 0
    else
      var waiting := Backlog(counts[..|counts| - 1]) + counts[|counts| - 1];
      if waiting > 0 then waiting - 1 else 0
  }

  lemma {:induction false} BacklogAtMost(counts: seq<nat>, b: nat)
    ensures Backlog(counts) <= b
       <==> forall j :: 0 <= j < |counts| ==> Drawn(counts[j..]) <= |counts| - j + b
  {
    if counts != [] {
      var m := |counts| - 1;
      var a, before := counts[m], counts[..m];
      forall j | 0 <= j < |counts|
        ensures Drawn(counts[j..]) == Drawn(if j < m then before[j..] else []) + a
      {
        assert counts[j..][..|counts[j..]| - 1] == if j < m then before[j..] else [];
      }
      assert Drawn(counts[m..]) == a;
      if a <= b + 1 {
        BacklogAtMost(before, b + 1 - a);
      }
    }
  }

  /** Nothing is left unread exactly if, from any damaged transmission on, there are no more answers than
      transmissions: for instance when none draws more than one. */
  lemma NoBacklog(counts: seq<nat>)
    ensures Backlog(counts) == 0 <==> forall j :: 0 <= j < |counts| ==> Drawn(counts[j..]) <= |counts| - j
  {
    BacklogAtMost(counts, 0);
  }

  lemma {:induction false} AtMostOneEach(counts: seq<nat>)
    requires forall i :: 0 <= i < |counts| ==> counts[i] <= 1
    ensures Backlog(counts) == 0
  {
    if counts != [] {
      AtMostOneEach(counts[..|counts| - 1]);
    }
  }

  lemma {:induction false} DrawnIsAnswered(damaged: seq<seq<Segment>>)
    ensures Drawn(Counts(damaged)) == Answered(Pieces(damaged))
  {
    if damaged != [] {
      var m := |damaged| - 1;
      DrawnIsAnswered(damaged[..m]);
      assert Counts(damaged)[..m] == Counts(damaged[..m]);
      PiecesSnoc(damaged);
      AnsweredBoth(Pieces(damaged[..m]), damaged[m]);
    }
  }

  /** All answers to the first `k` transmissions. */
  function Answers(damaged: seq<seq<Segment>>, p: seq<byte>, size: nat, k: nat): seq<byte> {
    Serve(Sent(damaged, p, k), size).answers
  }

  lemma ServeSent(damaged: seq<seq<Segment>>, p: seq<byte>, size: nat, k: nat)
    requires Damage(damaged, size) && |p| <= size
    ensures Serve(Sent(damaged, p, k), size)
         == if k <= |damaged| then Served(Naks(Drawn(Counts(damaged[..k]))), [])
            else Served(Naks(Drawn(Counts(damaged))) + Acks(k - |damaged|), Copies(p, k - |damaged|))
  {
    hide Damage, Serve, Wires, Pieces, Counts, Drawn, Naks, Acks, Copies, Repeat, Frame;
    if k <= |damaged| {
      DamagePrefix(damaged, k, size);
      ServeDamaged(damaged[..k], size);
    } else {
      ServeIntact(damaged, p, size, k - |damaged|);
    }
  }

  lemma ServeDamaged(damaged: seq<seq<Segment>>, size: nat)
    requires Damage(damaged, size)
    ensures Serve(Wires(Pieces(damaged)), size) == Served(Naks(Drawn(Counts(damaged))), [])
  {
    DrawnIsAnswered(damaged);
    var gs := Pieces(damaged);
    hide Receive, Plausible, Chained, Counts, Drawn, Answered, Wires, Pieces, Naks;
    ReceiveDamaged(gs, [], size);
    ReceiveNothing(size);
    assert Wires(gs) + [] == Wires(gs);
    assert Naks(Answered(gs)) + [] == Naks(Answered(gs));
  }

  lemma ServeIntact(damaged: seq<seq<Segment>>, p: seq<byte>, size: nat, n: nat)
    requires Damage(damaged, size) && |p| <= size && n > 0
    ensures Serve(Wires(Pieces(damaged)) + Repeat(Frame(p), n), size)
         == Served(Naks(Drawn(Counts(damaged))) + Acks(n), Copies(p, n))
  {
    DrawnIsAnswered(damaged);
    RepeatFront(Frame(p), n);
    FrameStarts(p);
    var gs := Pieces(damaged);
    hide Receive, Serve, Plausible, Chained, Counts, Drawn, Answered, Wires, Pieces, Frame, Repeat, Naks;
    ServeFrames(p, n, size);
    ReceiveDamaged(gs, Repeat(Frame(p), n), size);
    ServeMore(Wires(gs), Repeat(Frame(p), n), Naks(Answered(gs)), size);
  }

  lemma ServeMore(s: seq<byte>, t: seq<byte>, naks: seq<byte>, size: nat)
    requires Receive(s + t, size) == (naks + Receive(t, size).0, Receive(t, size).1)
    ensures Serve(s + t, size) == Served(naks + Serve(t, size).answers, Serve(t, size).packets)
  {
    hide Receive;
    var v := Receive(t, size);
    assert forall more: seq<byte> :: naks + v.0 + more == naks + (v.0 + more);
  }

  // ---- The sender ----

  /** What the sender reads, one character after each transmission or -1 when none has come, and how many
      of the answers it has taken. */
  datatype Heard = Heard(replies: seq<int>, read: nat)

  function Listen(damaged: seq<seq<Segment>>, p: seq<byte>, size: nat, k: nat): (h: Heard)
    ensures |h.replies| == k
  {
    if k == 0 then Heard([], 0)
    else
      var h := Listen(damaged, p, size, k - 1);
      var answers := Answers(damaged, p, size, k);
      if h.read < |answers| then Heard(h.replies + [answers[h.read]], h.read + 1)
      else Heard(h.replies + [-1], h.read)
  }

  /** The number of answers, and how many of them are still unread, after `k` transmissions. */
  function Arrived(counts: seq<nat>, k: nat): nat {
    if k <= |counts| then Drawn(counts[..k]) else Drawn(counts) + (k - |counts|)
  }

  function Unread(counts: seq<nat>, k: nat): nat {
    Backlog(counts[..Min(k, |counts|)])
  }

  lemma OneMore(counts: seq<nat>, k: nat)
    requires k > 0
    ensures var waiting := Arrived(counts, k) - Arrived(counts, k - 1) + Unread(counts, k - 1);
            waiting >= 0 && Unread(counts, k) == if waiting > 0 then waiting - 1 else 0
  {
    if k <= |counts| {
      assert counts[..k][..k - 1] == counts[..k - 1];
    } else {
      assert counts[..|counts|] == counts;
    }
  }

  lemma AnswersAre(damaged: seq<seq<Segment>>, p: seq<byte>, size: nat, k: nat)
    requires Damage(damaged, size) && |p| <= size
    ensures var answers, counts := Answers(damaged, p, size, k), Counts(damaged);
            && |answers| == Arrived(counts, k)
            && forall i :: 0 <= i < |answers| ==> (answers[i] == ACK <==> i >= Drawn(counts))
  {
    ServeSent(damaged, p, size, k);
    var counts := Counts(damaged);
    if k <= |damaged| {
      assert Counts(damaged[..k]) == counts[..k];
      DrawnGrows(counts, k);
    }
    hide Serve, Sent, Damage, Counts, Drawn;
  }

  lemma {:induction false} DrawnGrows(counts: seq<nat>, k: nat)
    requires k <= |counts|
    ensures Drawn(counts[..k]) <= Drawn(counts)
    decreases |counts| - k
  {
    if k < |counts| {
      assert counts[..k + 1][..k] == counts[..k];
      DrawnGrows(counts, k + 1);
    } else {
      assert counts[..k] == counts;
    }
  }

  lemma {:induction false} ReadSoFar(damaged: seq<seq<Segment>>, p: seq<byte>, size: nat, k: nat)
    requires Damage(damaged, size) && |p| <= size
    ensures Listen(damaged, p, size, k).read == Arrived(Counts(damaged), k) - Unread(Counts(damaged), k)
  {
    hide Answers, Damage, Counts;
    var counts := Counts(damaged);
    if k == 0 {
      assert counts[..0] == [];
    } else {
      hide Arrived, Unread, Listen;
      ReadSoFar(damaged, p, size, k - 1);
      ListenOnce(damaged, p, size, k);
      AnswersAre(damaged, p, size, k);
      OneMore(counts, k);
    }
  }

  /** When the first answer to an intact transmission is read. */
  lemma {:induction false} Listened(damaged: seq<seq<Segment>>, p: seq<byte>, size: nat, k: nat)
    requires Damage(damaged, size) && |p| <= size
    ensures forall i :: 0 <= i < k ==>
              (Listen(damaged, p, size, k).replies[i] == ACK <==> i >= |damaged| + Backlog(Counts(damaged)))
  {
    hide Answers, Damage, Counts, Backlog;
    if k > 0 {
      Listened(damaged, p, size, k - 1);
      LastReply(damaged, p, size, k);
    }
  }

  lemma LastReply(damaged: seq<seq<Segment>>, p: seq<byte>, size: nat, k: nat)
    requires Damage(damaged, size) && |p| <= size && k > 0
    ensures Listen(damaged, p, size, k).replies[k - 1] == ACK <==> k - 1 >= |damaged| + Backlog(Counts(damaged))
  {
    hide Answers, Damage, Arrived, Unread, Counts, Drawn, Backlog;
    ListenOnce(damaged, p, size, k);
    hide Listen;
    ReadSoFar(damaged, p, size, k - 1);
    AnswersAre(damaged, p, size, k);
    ReadNext(Counts(damaged), k);
  }

  lemma ListenOnce(damaged: seq<seq<Segment>>, p: seq<byte>, size: nat, k: nat)
    requires k > 0
    ensures var h, answers := Listen(damaged, p, size, k), Answers(damaged, p, size, k);
            var read := Listen(damaged, p, size, k - 1).read;
            if read < |answers| then h.replies[k - 1] == answers[read] && h.read == read + 1
            else h.replies[k - 1] == -1 && h.read == read
  {
    hide Answers;
  }

  /** The character read next answers an intact transmission, or none does yet. */
  lemma ReadNext(counts: seq<nat>, k: nat)
    requires k > 0
    ensures var read := Arrived(counts, k - 1) - Unread(counts, k - 1);
            read < Arrived(counts, k) ==> (read >= Drawn(counts) <==> k - 1 >= |counts| + Backlog(counts))
    ensures var read := Arrived(counts, k - 1) - Unread(counts, k - 1);
            read >= Arrived(counts, k) ==> k - 1 < |counts| + Backlog(counts)
  {
    assert counts[..|counts|] == counts;
    if k <= |counts| {
      DrawnGrows(counts, k);
    }
  }

  /** Both ends together, over a line that damages any transmissions at the start in any plausible way. The
      sender sends once for each damaged transmission, once more, and once for every answer it is behind, but
      four times at most; each intact one is delivered and answered with '+'; and the answers it was behind
      are still unread in the end. */
  lemma Delivered(damaged: seq<seq<Segment>>, p: seq<byte>, size: nat)
    requires Damage(damaged, size) && |p| <= size
    ensures var n := Transmissions(Listen(damaged, p, size, 4).replies);
            var behind := Unread(Counts(damaged), 4);
            && n == Min(4, |damaged| + behind + 1)
            && Serve(Sent(damaged, p, n), size).packets == Copies(p, if n <= |damaged| then 0 else n - |damaged|)
            && |Answers(damaged, p, size, n)| - Listen(damaged, p, size, n).read == behind
  {
    hide Listen, Serve, Sent, Counts, Backlog, Damage, Answers, Drawn, Arrived, Unread;
    HowOften(damaged, p, size);
    var n := Transmissions(Listen(damaged, p, size, 4).replies);
    var counts := Counts(damaged);
    UnreadStays(counts, 4);
    UnreadStays(counts, n);
    ReadSoFar(damaged, p, size, n);
    AnswersAre(damaged, p, size, n);
    ServeSent(damaged, p, size, n);
    hide *;
  }

  lemma HowOften(damaged: seq<seq<Segment>>, p: seq<byte>, size: nat)
    requires Damage(damaged, size) && |p| <= size
    ensures Transmissions(Listen(damaged, p, size, 4).replies) == Min(4, |damaged| + Unread(Counts(damaged), 4) + 1)
  {
    hide Listen, Serve, Sent, Counts, Backlog, Damage, Answers, Drawn, Arrived, Unread;
    Listened(damaged, p, size, 4);
    UnreadStays(Counts(damaged), 4);
  }

  lemma UnreadStays(counts: seq<nat>, k: nat)
    ensures k >= |counts| ==> Unread(counts, k) == Backlog(counts)
  {
    assert counts[..|counts|] == counts;
  }

  /** Exactly when a damaged transmission costs one transmission and the packet is delivered once: no answers
      are left over from the damaged ones, or there is no fifth transmission anyway. */
  lemma DeliveredOnce(damaged: seq<seq<Segment>>, p: seq<byte>, size: nat)
    requires Damage(damaged, size) && |p| <= size && |damaged| <= 3
    ensures var n := Transmissions(Listen(damaged, p, size, 4).replies);
            var counts := Counts(damaged);
            && (Serve(Sent(damaged, p, n), size).packets == [p] <==> n == |damaged| + 1)
            && (n == |damaged| + 1
                <==> |damaged| == 3 || forall j :: 0 <= j < |counts| ==> Drawn(counts[j..]) <= |counts| - j)
  {
    hide Listen, Serve, Sent, Counts, Backlog, Drawn, Damage, Answers, Unread;
    var n := Transmissions(Listen(damaged, p, size, 4).replies);
    Delivered(damaged, p, size);
    NoBacklog(Counts(damaged));
    UnreadStays(Counts(damaged), 4);
    assert Copies(p, 1) == [p];
    hide *;
    assert |Copies(p, n - |damaged|)| == n - |damaged|;
  }

  /** The run that shows the exception: one transmission arrives as two refused frames, and the packet is
      delivered twice. */
  lemma RefusedTwice(p: seq<byte>, size: nat)
    requires |p| <= size
    ensures var damaged := [[Refused([], 0x46, 0x46), Refused([], 0x46, 0x46)]];
            && Damage(damaged, size)
            && Transmissions(Listen(damaged, p, size, 4).replies) == 3
            && Serve(Sent(damaged, p, 3), size).packets == [p, p]
  {
    var g := Refused([], 0x46, 0x46);
    var damaged := [[g, g]];
    TwoPieces(g);
    Delivered(damaged, p, size);
    hide *;
    assert Copies(p, 2) == [p, p];
  }

  lemma TwoPieces(g: Segment)
    requires g == Refused([], 0x46, 0x46)
    ensures Pieces([[g, g]]) == [g, g] && (forall size: nat :: Damage([[g, g]], size))
        && Unread(Counts([[g, g]]), 4) == 1
  {
    var damaged := [[g, g]];
    assert damaged[1..] == [] && [g, g] + [] == [g, g];
    assert [g, g][1..] == [g] && [g][1..] == [];
    assert Answered([g, g]) == 1 + Answered([g]) == 2;
    assert Counts(damaged) == [2] && [2][..0] == [] && [2][..1] == [2];
    assert Backlog([2]) == 1;
  }
}
