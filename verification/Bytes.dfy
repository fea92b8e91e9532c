/** Bytes, byte memories, and the two ways a memory is changed: stored to, or programmed as flash. */
module Bytes {
  type byte = x: int | 0 <= x < 0x100

  const ERASED: byte := 0xFF
  const ADDRESS_SPACE: nat := 0x1_0000_0000

  function Min(a: nat, b: nat): nat {
    if a < b then a else b
  }

  /** Plain stores: `data` replaces what was at `a`. */
  function Store(mem: seq<byte>, a: nat, data: seq<byte>): seq<byte>
    requires a + |data| <= |mem|
  {
    seq(|mem|, i requires 0 <= i < |mem| => if a <= i < a + |data| then data[i - a] else mem[i])
  }

  /** Flash programming: a bit can only go from one to zero. */
  function Program(mem: seq<byte>, a: nat, data: seq<byte>): seq<byte>
    requires a + |data| <= |mem|
  {
    seq(|mem|, i requires 0 <= i < |mem| => if a <= i < a + |data| then And(mem[i], data[i - a]) else mem[i])
  }

  lemma StoreLength(mem: seq<byte>, a: nat, data: seq<byte>)
    requires a + |data| <= |mem|
    ensures |Store(mem, a, data)| == |mem|
  {
  }

  lemma StoreTwice(mem: seq<byte>, a: nat, d1: seq<byte>, d2: seq<byte>)
    requires a + |d1| + |d2| <= |mem|
    ensures Store(Store(mem, a, d1), a + |d1|, d2) == Store(mem, a, d1 + d2)
  {
  }

  lemma ProgramTwice(mem: seq<byte>, a: nat, d1: seq<byte>, d2: seq<byte>)
    requires a + |d1| + |d2| <= |mem|
    ensures Program(Program(mem, a, d1), a + |d1|, d2) == Program(mem, a, d1 + d2)
  {
  }

  /** The half-word addresses that programming `n` bytes at `a` writes, in order. */
  function HalfWords(a: nat, n: nat): (r: seq<nat>)
    ensures |r| == (n + 1) / 2
    ensures forall i :: 0 <= i < |r| ==> r[i] == a + 2 * i
  {
    seq((n + 1) / 2, i requires 0 <= i => a + 2 * i)
  }

  lemma HalfWordsTwice(a: nat, n: nat, m: nat)
    requires n % 2 == 0
    ensures HalfWords(a, n) + HalfWords(a + n, m) == HalfWords(a, n + m)
  {
    assert (n + m + 1) / 2 == n / 2 + (m + 1) / 2;
  }

  /** The largest multiple of `a` not above `n`: what `n & ~(a - 1)` computes for a power of two. */
  function RoundDown(n: nat, a: nat): (r: nat)
    requires a > 0
    ensures r <= n && n - r < a
  {
    if n < a then 0 else a + RoundDown(n - a, a)
  }

  predicate Multiple(n: nat, a: nat)
    requires a > 0
  {
    RoundDown(n, a) == n
  }

  lemma {:induction false} RoundDownLargest(n: nat, a: nat, k: nat)
    requires a > 0 && k <= n && Multiple(k, a)
    ensures k <= RoundDown(n, a)
  {
    if k >= a {
      RoundDownLargest(n - a, a, k - a);
    }
  }

  lemma {:induction false} RoundDownSum(n: nat, m: nat, a: nat)
    requires a > 0 && Multiple(n, a)
    ensures RoundDown(n + m, a) == n + RoundDown(m, a)
  {
    if n >= a {
      RoundDownSum(n - a, m, a);
    }
  }

  lemma {:induction false} MultipleDifference(n: nat, m: nat, a: nat)
    requires a > 0 && m <= n && Multiple(n, a) && Multiple(m, a)
    ensures Multiple(n - m, a)
  {
    if m >= a {
      MultipleDifference(n - a, m - a, a);
    }
  }

  lemma {:induction false} MultipleSum(n: nat, m: nat, a: nat)
    requires a > 0 && Multiple(n, a) && Multiple(m, a)
    ensures Multiple(n + m, a)
  {
    if m >= a {
      MultipleSum(n, m - a, a);
    }
  }

  lemma {:induction false} MultipleOfEven(n: nat, a: nat)
    requires a > 0 && a % 2 == 0 && Multiple(n, a)
    ensures n % 2 == 0
  {
    if n >= a {
      MultipleOfEven(n - a, a);
    }
  }

  lemma {:induction false} RoundDownMin(k: nat, n: nat, a: nat)
    requires a > 0
    ensures RoundDown(Min(k, RoundDown(n, a)), a) == RoundDown(Min(k, n), a)
    ensures Multiple(RoundDown(n, a), a)
  {
    if n >= a {
      RoundDownMin(if k >= a then k - a else 0, n - a, a);
    }
  }

  lemma ShortMultiple(n: nat, a: nat)
    requires 0 < n && a > 0 && Multiple(n, a)
    ensures n >= a
  {
  }

  lemma {:induction false} MultipleOfOne(n: nat)
    ensures Multiple(n, 1)
  {
    if n > 0 {
      MultipleOfOne(n - 1);
    }
  }

  lemma RoundDownIdempotent(n: nat, a: nat)
    requires a > 0
    ensures Multiple(RoundDown(n, a), a)
    ensures n >= a ==> RoundDown(n, a) >= a
  {
    RoundDownMin(n, n, a);
  }

  lemma {:induction false} ProductIsMultiple(count: nat, a: nat)
    requires a > 0
    ensures count * a >= 0 && Multiple(count * a, a)
  {
    if count > 0 {
      ProductIsMultiple(count - 1, a);
      assert count * a == (count - 1) * a + a;
    }
  }

  lemma {:induction false} RoundDownUnique(n: nat, x: nat, a: nat)
    requires a > 0 && Multiple(x, a) && x <= n < x + a
    ensures x == RoundDown(n, a)
  {
    if x >= a {
      RoundDownUnique(n - a, x - a, a);
    }
  }

  lemma Quotient(n: nat, a: nat)
    requires a > 0
    ensures 0 <= (n / a) * a <= n < (n / a) * a + a
  {
  }

  lemma QuotientStep(n: nat, a: nat)
    requires 0 < a <= n
    ensures n / a == (n - a) / a + 1
  {
    Quotient(n, a);
    Quotient(n - a, a);
    QuotientUnique(n, a, n / a, (n - a) / a + 1);
  }

  lemma QuotientUnique(n: nat, a: nat, q: int, r: int)
    requires a > 0 && q * a <= n < q * a + a && r * a <= n < r * a + a
    ensures q == r
  {
    ProductsApart(q, r, a);
    ProductsApart(r, q, a);
  }

  lemma {:induction false} ProductsApart(q: int, r: int, a: nat)
    ensures q < r ==> q * a + a <= r * a
    decreases r - q
  {
    if q < r {
      assert (q + 1) * a == q * a + a;
      ProductsApart(q + 1, r, a);
    }
  }

  /** `n / a` elements of `a` bytes each. */
  lemma QuotientTimes(n: nat, a: nat)
    requires a > 0
    ensures n / a >= 0 && (n / a) * a == RoundDown(n, a)
    ensures n / a == 0 <==> n < a
  {
    Quotient(n, a);
    var count: nat := n / a;
    ProductIsMultiple(count, a);
    RoundDownUnique(n, count * a, a);
    if n < a && count > 0 {
      ProductAtLeast(count, a);
    }
  }

  lemma ProductAtLeast(count: nat, a: nat)
    requires count > 0
    ensures count * a >= a
  {
  }

  lemma Remainder(n: nat, a: nat)
    requires a > 0
    ensures n % a == n - RoundDown(n, a)
  {
    QuotientTimes(n, a);
  }

  /** The packets of a transfer, joined. */
  function Flatten(packets: seq<seq<byte>>): seq<byte> {
    if packets == [] then [] else Flatten(packets[..|packets| - 1]) + packets[|packets| - 1]
  }

  lemma FlattenSnoc(packets: seq<seq<byte>>, p: seq<byte>)
    ensures Flatten(packets + [p]) == Flatten(packets) + p
  {
    assert (packets + [p])[..|packets|] == packets;
  }

  // ---- Bitwise and, bit by bit ----

  function BitAnd(x: nat, y: nat): (r: nat)
    ensures r <= x && r <= y
  {
    if x == 0 || y == 0 then 0
    else 2 * BitAnd(x / 2, y / 2) + (if x % 2 == 1 && y % 2 == 1 then 1 else 0)
  }

  function And(x: byte, y: byte): byte {
    BitAnd(x, y)
  }

  /** Bit `k`, the lowest being bit 0. */
  predicate Bit(n: nat, k: nat) {
    if k == 0 then n % 2 == 1 else Bit(n / 2, k - 1)
  }

  lemma {:induction false} NoBits(k: nat)
    ensures !Bit(0, k)
  {
    if k > 0 {
      NoBits(k - 1);
    }
  }

  /** A bit of the result is set exactly if it is set in both. */
  lemma {:induction false} AndBits(x: nat, y: nat, k: nat)
    ensures Bit(BitAnd(x, y), k) <==> Bit(x, k) && Bit(y, k)
  {
    if x == 0 || y == 0 {
      NoBits(k);
    } else if k > 0 {
      AndBits(x / 2, y / 2, k - 1);
      assert BitAnd(x, y) / 2 == BitAnd(x / 2, y / 2);
    }
  }

  lemma {:induction false} AndSelf(x: nat)
    ensures BitAnd(x, x) == x
  {
    if x > 0 {
      AndSelf(x / 2);
    }
  }

  /** Programming clears bits and sets none: a bit is set afterwards exactly if it was set in flash and in the
      data, and the bytes beside the data are left alone. */
  lemma ProgramBits(mem: seq<byte>, a: nat, data: seq<byte>, i: nat, k: nat)
    requires a + |data| <= |mem| && i < |mem|
    ensures |Program(mem, a, data)| == |mem|
    ensures Bit(Program(mem, a, data)[i], k)
       <==> Bit(mem[i], k) && (a <= i < a + |data| ==> Bit(data[i - a], k))
  {
    if a <= i < a + |data| {
      AndBits(mem[i], data[i - a], k);
    }
  }

  function Ones(k: nat): nat {
    if k == 0 then 0 else 2 * Ones(k - 1) + 1
  }

  /** The bits make the number. */
  lemma {:induction false} SameBits(x: nat, y: nat, k: nat)
    requires x <= Ones(k) && y <= Ones(k) && forall j :: 0 <= j < k ==> Bit(x, j) == Bit(y, j)
    ensures x == y
  {
    if k > 0 {
      assert Bit(x, 0) == Bit(y, 0);
      forall j | 0 <= j < k - 1
        ensures Bit(x / 2, j) == Bit(y / 2, j)
      {
        assert Bit(x, j + 1) == Bit(y, j + 1);
      }
      SameBits(x / 2, y / 2, k - 1);
    }
  }

  lemma {:induction false} AndOnes(x: nat, k: nat)
    requires x <= Ones(k)
    ensures BitAnd(x, Ones(k)) == x == BitAnd(Ones(k), x)
  {
    if x != 0 {
      AndOnes(x / 2, k - 1);
    }
  }

  /** Programming an erased byte stores the data; programming the erased pattern changes nothing. */
  lemma AndErased(x: byte)
    ensures And(ERASED, x) == x == And(x, ERASED)
  {
    assert Ones(8) == 2 * (2 * (2 * (2 * Ones(4) + 1) + 1) + 1) + 1;
    AndOnes(x, 8);
  }
}
