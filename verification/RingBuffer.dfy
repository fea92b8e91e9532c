/** The lock-free ring between the USB interrupt and the debug monitor (Bootloader/App/CircularBuffer.h):
    as a data structure, and as a protocol of single reads and writes by one producer and one consumer. */
module RingBuffer {

  function NextPos(current: nat, size: nat): nat {
    if current + 1 >= size then 0 else current + 1
  }

  /** The items from `first` up to, not including, `last`, around the end of the buffer. */
  function Window<T>(buffer: seq<T>, first: nat, last: nat): (r: seq<T>)
    requires first < |buffer| && last < |buffer|
    ensures |r| < |buffer|
    ensures r == [] <==> first == last
  {
    if first <= last then buffer[first..last] else buffer[first..] + buffer[..last]
  }

  lemma WindowFull<T>(buffer: seq<T>, first: nat, last: nat)
    requires first < |buffer| && last < |buffer|
    ensures NextPos(last, |buffer|) == first <==> |Window(buffer, first, last)| == |buffer| - 1
  {
  }

  lemma WindowPush<T>(buffer: seq<T>, first: nat, last: nat)
    requires first < |buffer| && last < |buffer| && NextPos(last, |buffer|) != first
    ensures Window(buffer, first, NextPos(last, |buffer|)) == Window(buffer, first, last) + [buffer[last]]
  {
    assert buffer[..last + 1] == buffer[..last] + [buffer[last]];
    if first <= last {
      assert buffer[first..last + 1] == buffer[first..last] + [buffer[last]];
      if last + 1 == |buffer| {
        assert buffer[first..] + buffer[..0] == buffer[first..last + 1];
      }
    } else {
      assert buffer[first..] + (buffer[..last] + [buffer[last]]) == buffer[first..] + buffer[..last] + [buffer[last]];
    }
  }

  lemma WindowPop<T>(buffer: seq<T>, first: nat, last: nat)
    requires first < |buffer| && last < |buffer| && first != last
    ensures Window(buffer, first, last) == [buffer[first]] + Window(buffer, NextPos(first, |buffer|), last)
  {
    if first < last {
      assert buffer[first..last] == [buffer[first]] + buffer[first + 1..last];
    } else {
      assert buffer[first..] == [buffer[first]] + buffer[first + 1..];
      if first + 1 < |buffer| {
        Associates([buffer[first]], buffer[first + 1..], buffer[..last]);
      }
    }
  }

  /** Storing in the slot at `last` does not touch the items held. */
  lemma WindowKeeps<T>(buffer: seq<T>, first: nat, last: nat, value: T)
    requires first < |buffer| && last < |buffer|
    ensures Window(buffer[last := value], first, last) == Window(buffer, first, last)
  {
  }

  class CircularBuffer<T(0)> {
    const size: nat
    const buffer: array<T>
    var first: nat
    var last: nat

    ghost predicate Valid()
      reads this
    {
      0 < size == buffer.Length && first < size && last < size
    }

    ghost function Contents(): seq<T>
      requires Valid()
      reads this, buffer
    {
      Window(buffer[..], first, last)
    }

    constructor (size: nat)
      requires size > 0
      ensures Valid() && Contents() == [] && this.size == size && fresh(buffer)
    {
      this.size := size;
      buffer := new T[size];
      first, last := 0, 0;
    }

    method Put(value: T) returns (ok: bool)
      requires Valid()
      modifies `last, buffer
      ensures Valid() && ok == (|old(Contents())| < size - 1)
      ensures Contents() == if ok then old(Contents()) + [value] else old(Contents())
    {
      var next := NextPos(last, size);
      WindowFull(buffer[..], first, last);
      if next == first {
        return false;
      }
      WindowKeeps(buffer[..], first, last, value);
      ghost var was := buffer[..];
      buffer[last] := value;
      assert buffer[..] == was[last := value];
      WindowPush(buffer[..], first, last);
      last := next;
      return true;
    }

    /** The oldest item, left in place; `value` is passed through when there is none. */
    method Get(value: T) returns (ok: bool, r: T)
      requires Valid()
      ensures ok == (Contents() != [])
      ensures r == if ok then Contents()[0] else value
    {
      if first == last {
        return false, value;
      }
      WindowPop(buffer[..], first, last);
      return true, buffer[first];
    }

    method Pull(value: T) returns (ok: bool, r: T)
      requires Valid()
      modifies `first
      ensures Valid() && ok == (old(Contents()) != [])
      ensures r == if ok then old(Contents()[0]) else value
      ensures Contents() == if ok then old(Contents())[1..] else old(Contents())
    {
      if first == last {
        return false, value;
      }
      WindowPop(buffer[..], first, last);
      ok, r := true, buffer[first];
      first := NextPos(first, size);
    }

    method IsEmpty() returns (empty: bool)
      requires Valid()
      ensures empty == (Contents() == [])
    {
      empty := first == last;
    }
  }

  // ---- The protocol: every read and write of a shared variable is a step of its own ----

  /** Where the producer is inside `put`. */
  datatype Producer<T> =
    PutIdle | HasNext(value: T, next: nat) | MayStore(value: T, next: nat) | MustPublish(value: T, next: nat)

  /** Where the consumer is inside `get` or `pull`. */
  datatype Consumer<T> = GetIdle | HasFirst(seen: nat, pulling: bool) | NotEmpty(pulling: bool) | Loaded(item: T)

  /** The shared variables, both program counters, and the history: items accepted, items pulled. */
  datatype Ring<T> = Ring(buffer: seq<T>, first: nat, last: nat, producer: Producer<T>, consumer: Consumer<T>,
                          accepted: seq<T>, pulled: seq<T>)

  datatype Step<T> =
    | PutReadLast(value: T) | PutReadFirst | PutWriteSlot | PutWriteLast
    | GetReadFirst(pulling: bool) | GetReadLast | GetReadSlot | GetWriteFirst

  predicate Enabled<T>(s: Ring<T>, step: Step<T>) {
    match step
    case PutReadLast(_) => s.producer.PutIdle?
    case PutReadFirst => s.producer.HasNext?
    case PutWriteSlot => s.producer.MayStore?
    case PutWriteLast => s.producer.MustPublish?
    case GetReadFirst(_) => s.consumer.GetIdle?
    case GetReadLast => s.consumer.HasFirst?
    case GetReadSlot => s.consumer.NotEmpty?
    case GetWriteFirst => s.consumer.Loaded?
  }

  function Next<T>(s: Ring<T>, step: Step<T>): Ring<T>
    requires Enabled(s, step) && s.first < |s.buffer| && s.last < |s.buffer|
  {
    match step
    case PutReadLast(value) => s.(producer := HasNext(value, NextPos(s.last, |s.buffer|)))
    case PutReadFirst =>
      s.(producer := if s.producer.next == s.first then PutIdle else MayStore(s.producer.value, s.producer.next))
    case PutWriteSlot =>
      s.(buffer := s.buffer[s.last := s.producer.value], producer := MustPublish(s.producer.value, s.producer.next))
    case PutWriteLast =>
      s.(last := s.producer.next, producer := PutIdle, accepted := s.accepted + [s.producer.value])
    case GetReadFirst(pulling) => s.(consumer := HasFirst(s.first, pulling))
    case GetReadLast => s.(consumer := if s.consumer.seen == s.last then GetIdle else NotEmpty(s.consumer.pulling))
    case GetReadSlot => s.(consumer := if s.consumer.pulling then Loaded(s.buffer[s.first]) else GetIdle)
    case GetWriteFirst =>
      s.(first := NextPos(s.first, |s.buffer|), consumer := GetIdle, pulled := s.pulled + [s.consumer.item])
  }

  ghost predicate Safe<T>(s: Ring<T>) {
    && s.first < |s.buffer| && s.last < |s.buffer|
    && s.accepted == s.pulled + Window(s.buffer, s.first, s.last)
    && (!s.producer.PutIdle? ==> s.producer.next == NextPos(s.last, |s.buffer|))
    && (s.producer.MayStore? || s.producer.MustPublish? ==> s.producer.next != s.first)
    && (s.producer.MustPublish? ==> s.buffer[s.last] == s.producer.value)
    && (s.consumer.HasFirst? ==> s.consumer.seen == s.first)
    && (s.consumer.NotEmpty? || s.consumer.Loaded? ==> s.first != s.last)
    && (s.consumer.Loaded? ==> s.consumer.item == s.buffer[s.first])
  }

  lemma SafeStep<T>(s: Ring<T>, step: Step<T>)
    requires Safe(s) && Enabled(s, step)
    ensures Safe(Next(s, step))
  {
    hide Window;
    match step
    case PutWriteSlot => WindowKeeps(s.buffer, s.first, s.last, s.producer.value);
    case PutWriteLast =>
      WindowPush(s.buffer, s.first, s.last);
      Associates(s.pulled, Window(s.buffer, s.first, s.last), [s.producer.value]);
    case GetWriteFirst =>
      WindowPop(s.buffer, s.first, s.last);
      Associates(s.pulled, [s.consumer.item], Window(s.buffer, NextPos(s.first, |s.buffer|), s.last));
    case _ =>
  }

  lemma Associates<T>(a: seq<T>, b: seq<T>, c: seq<T>)
    ensures a + b + c == a + (b + c)
  {
  }

  datatype Outcome<T> = NotScheduled | Reached(s: Ring<T>)

  /** Any interleaving of the two programs' steps, from an empty ring. Nothing is lost, duplicated or
      reordered: what was pulled is a prefix of what was accepted, and the rest, at most size - 1 items,
      is what the ring holds. */
  ghost function Run<T>(buffer: seq<T>, steps: seq<Step<T>>): (r: Outcome<T>)
    requires buffer != []
    ensures r.Reached? ==>
              && Safe(r.s) && |r.s.buffer| == |buffer|
              && r.s.pulled <= r.s.accepted
              && r.s.accepted[|r.s.pulled|..] == Window(r.s.buffer, r.s.first, r.s.last)
              && |r.s.accepted| - |r.s.pulled| < |buffer|
  {
    if steps == [] then Reached(Ring(buffer, 0, 0, PutIdle, GetIdle, [], []))
    else
      match Run(buffer, steps[..|steps| - 1])
      case NotScheduled => NotScheduled
      case Reached(t) =>
        if Enabled(t, steps[|steps| - 1]) then
          SafeStep(t, steps[|steps| - 1]);
          Reached(Next(t, steps[|steps| - 1]))
        else NotScheduled
  }

  /** A `put` that nothing interrupts: accepted, last in order, exactly if there is room, and then it is over. */
  lemma PutAlone<T>(s: Ring<T>, value: T)
    requires Safe(s) && s.producer.PutIdle?
    ensures Enabled(s, PutReadLast(value))
    ensures var a := Next(s, PutReadLast(value));
            && Enabled(a, PutReadFirst)
            && var b := Next(a, PutReadFirst);
               if |s.accepted| - |s.pulled| == |s.buffer| - 1
               then b.producer.PutIdle? && b.accepted == s.accepted && b.pulled == s.pulled
               else
                 && Enabled(b, PutWriteSlot)
                 && var c := Next(b, PutWriteSlot);
                    && Enabled(c, PutWriteLast)
                    && var d := Next(c, PutWriteLast);
                       d.producer.PutIdle? && d.accepted == s.accepted + [value] && d.pulled == s.pulled
  {
    var a := Next(s, PutReadLast(value));
    SafeStep(s, PutReadLast(value));
    Linearizable(a);
    hide Window;
  }

  /** A `pull` that nothing interrupts takes the oldest item, exactly if there is one, and then it is over. */
  lemma PullAlone<T>(s: Ring<T>)
    requires Safe(s) && s.consumer.GetIdle?
    ensures Enabled(s, GetReadFirst(true))
    ensures var a := Next(s, GetReadFirst(true));
            && Enabled(a, GetReadLast)
            && var b := Next(a, GetReadLast);
               if s.accepted == s.pulled
               then b.consumer.GetIdle? && b.pulled == s.pulled && b.accepted == s.accepted
               else
                 && Enabled(b, GetReadSlot)
                 && var c := Next(b, GetReadSlot);
                    && Enabled(c, GetWriteFirst)
                    && |s.pulled| < |s.accepted|
                    && var d := Next(c, GetWriteFirst);
                       && d.consumer.GetIdle? && d.accepted == s.accepted
                       && d.pulled == s.pulled + [s.accepted[|s.pulled|]]
  {
    var a := Next(s, GetReadFirst(true));
    SafeStep(s, GetReadFirst(true));
    Linearizable(a);
    var b := Next(a, GetReadLast);
    SafeStep(a, GetReadLast);
    if b.consumer.NotEmpty? {
      Linearizable(b);
    }
    hide Window;
  }

  /** Each operation takes effect at one of its own steps: `put` is refused exactly when the ring is full
      at that read, `get` and `pull` find nothing exactly when it is empty at that read, and the item
      loaded is the oldest one accepted and not yet pulled. */
  lemma Linearizable<T>(s: Ring<T>)
    requires Safe(s)
    ensures s.producer.HasNext? ==>
              (Next(s, PutReadFirst).producer.PutIdle? <==> |s.accepted| - |s.pulled| == |s.buffer| - 1)
    ensures s.consumer.HasFirst? ==>
              (Next(s, GetReadLast).consumer.GetIdle? <==> s.accepted == s.pulled)
    ensures s.consumer.NotEmpty? ==>
              |s.pulled| < |s.accepted| && s.buffer[s.first] == s.accepted[|s.pulled|]
    ensures s.consumer.Loaded? ==>
              |s.pulled| < |s.accepted| && s.consumer.item == s.accepted[|s.pulled|]
  {
    WindowFull(s.buffer, s.first, s.last);
    if s.first != s.last {
      WindowPop(s.buffer, s.first, s.last);
    }
  }
}
