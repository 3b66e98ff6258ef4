/** The checksum of a spool frame: hash/crc32's ChecksumIEEE, the reflected CRC-32 of
    section 3.2.9 of IEEE 802.3, on a register held as a number below 2^32. */
module Crc32 {
  import opened Bytes

  const POLYNOMIAL := 0xEDB88320
  const ALL_ONES := 0xFFFF_FFFF
  const TOP := 0x8000_0000
  const MODULUS := 0x1_0000_0000

  type word = x: int | 0 <= x < 0x1_0000_0000

  function Xor(a: nat, b: nat): nat {
    if a == 0 then b
    else if b == 0 then a
    else (if a % 2 == b % 2 then 0 else 1) + 2 * Xor(a / 2, b / 2)
  }

  function Pow2(k: nat): nat {
    if k == 0 then 1 else 2 * Pow2(k - 1)
  }

  lemma {:induction false} XorBound(a: nat, b: nat, k: nat)
    requires a < Pow2(k) && b < Pow2(k)
    ensures Xor(a, b) < Pow2(k)
  {
    if a != 0 && b != 0 {
      XorBound(a / 2, b / 2, k - 1);
    }
  }

  lemma XorBound32(a: word, b: word)
    ensures Xor(a, b) < 0x1_0000_0000
  {
    Pow2Of32();
    XorBound(a, b, 32);
  }

  lemma Pow2Of32()
    ensures Pow2(8) == 256 && Pow2(31) == 0x8000_0000 && Pow2(32) == 0x1_0000_0000
  {
    assert Pow2(8) == 256;
    assert Pow2(16) == 65536;
    assert Pow2(24) == 0x100_0000;
    assert Pow2(31) == 0x8000_0000;
  }

  lemma {:induction false} XorComm(a: nat, b: nat)
    ensures Xor(a, b) == Xor(b, a)
  {
    if a != 0 && b != 0 {
      XorComm(a / 2, b / 2);
    }
  }

  lemma {:induction false} XorSelf(a: nat)
    ensures Xor(a, a) == 0
  {
    if a != 0 {
      XorSelf(a / 2);
    }
  }

  lemma {:induction false} XorHalf(a: nat, b: nat)
    ensures Xor(a, b) / 2 == Xor(a / 2, b / 2)
    ensures Xor(a, b) % 2 == if a % 2 == b % 2 then 0 else 1
  {
  }

  lemma {:induction false} XorAssoc(a: nat, b: nat, c: nat)
    ensures Xor(Xor(a, b), c) == Xor(a, Xor(b, c))
  {
    if a != 0 && b != 0 && c != 0 {
      XorAssoc(a / 2, b / 2, c / 2);
      XorHalf(a, b);
      XorHalf(b, c);
      XorHalf(Xor(a, b), c);
      XorHalf(a, Xor(b, c));
      var l, r := Xor(Xor(a, b), c), Xor(a, Xor(b, c));
      assert l / 2 == r / 2 && l % 2 == r % 2;
    }
  }

  /** Xor with a fixed word is undone by xoring again, so it loses nothing. */
  lemma XorCancel(a: nat, b: nat)
    ensures Xor(Xor(a, b), b) == a
  {
    XorAssoc(a, b, b);
    XorSelf(b);
  }

  lemma XorInjective(a: nat, b: nat, c: nat)
    requires Xor(a, c) == Xor(b, c)
    ensures a == b
  {
    XorCancel(a, c);
    XorCancel(b, c);
  }

  lemma XorEven(a: nat, b: nat)
    ensures Xor(a, 2 * b) == 2 * Xor(a / 2, b) + a % 2
  {
    XorHalf(a, 2 * b);
  }

  /** Disjoint bit ranges add. */
  lemma {:induction false} XorShifted(low: nat, high: nat, k: nat)
    requires low < Pow2(k)
    ensures Xor(low, Pow2(k) * high) == low + Pow2(k) * high
  {
    if low != 0 && high != 0 {
      var top := Pow2(k - 1) * high;
      assert Pow2(k) * high == 2 * top;
      XorShifted(low / 2, high, k - 1);
      XorEven(low, top);
    }
  }

  /** A number with its bit k on top keeps that bit when xored with a smaller one. */
  lemma {:induction false} XorTopBit(a: nat, p: nat, k: nat)
    requires a < Pow2(k) <= p < Pow2(k + 1)
    ensures Pow2(k) <= Xor(a, p) < Pow2(k + 1)
  {
    if a != 0 {
      XorTopBit(a / 2, p / 2, k - 1);
      XorHalf(a, p);
    }
  }

  // ----- The register -------------------------------------------------------------

  /** One bit of the reflected division. */
  function Shift(r: word): (s: word) {
    XorBound32(r / 2, POLYNOMIAL);
    if r % 2 == 1 then Xor(r / 2, POLYNOMIAL) else r / 2
  }

  function Shifts(r: word, n: nat): word
    decreases n
  {
    if n == 0 then r else Shifts(Shift(r), n - 1)
  }

  function Feed(r: word, b: byte): word {
    XorBound32(r, b);
    Shifts(Xor(r, b), 8)
  }

  function FeedAll(r: word, data: Text): word
    decreases |data|
  {
    if data == [] then r else FeedAll(Feed(r, data[0]), data[1..])
  }

  function ChecksumIEEE(data: Text): word {
    XorBound32(FeedAll(ALL_ONES, data), ALL_ONES);
    Xor(FeedAll(ALL_ONES, data), ALL_ONES)
  }

  lemma ShiftTopBit(r: word)
    ensures r % 2 == 1 <==> Shift(r) >= TOP
  {
    Pow2Of32();
    if r % 2 == 1 {
      XorTopBit(r / 2, POLYNOMIAL, 31);
    }
  }

  lemma ShiftInjective(a: word, b: word)
    requires Shift(a) == Shift(b)
    ensures a == b
  {
    ShiftTopBit(a);
    ShiftTopBit(b);
    if a % 2 == 1 {
      XorInjective(a / 2, b / 2, POLYNOMIAL);
    }
  }

  lemma {:induction false} ShiftsInjective(a: word, b: word, n: nat)
    requires Shifts(a, n) == Shifts(b, n)
    ensures a == b
    decreases n
  {
    if n != 0 {
      ShiftsInjective(Shift(a), Shift(b), n - 1);
      ShiftInjective(a, b);
    }
  }

  /** Four-way rearrangement: (a^p) ^ (b^q) = (a^b) ^ (p^q). */
  lemma XorSwap(a: nat, p: nat, b: nat, q: nat)
    ensures Xor(Xor(a, p), Xor(b, q)) == Xor(Xor(a, b), Xor(p, q))
  {
    XorAssoc(a, p, Xor(b, q));
    XorAssoc(p, b, q);
    XorComm(p, b);
    XorAssoc(b, p, q);
    XorAssoc(a, b, Xor(p, q));
  }

  lemma ShiftLinear(a: word, b: word)
    ensures Xor(a, b) < MODULUS
    ensures Shift(Xor(a, b)) == Xor(Shift(a), Shift(b))
  {
    XorBound32(a, b);
    XorHalf(a, b);
    var P: nat := POLYNOMIAL;
    if a % 2 == 1 && b % 2 == 1 {
      XorSwap(a / 2, P, b / 2, P);
      XorSelf(P);
      XorComm(Xor(a / 2, b / 2), 0);
    } else if a % 2 == 1 {
      XorAssoc(a / 2, P, b / 2);
      XorComm(P, b / 2);
      XorAssoc(a / 2, b / 2, P);
    } else if b % 2 == 1 {
      XorAssoc(a / 2, b / 2, P);
    }
  }

  lemma {:induction false} ShiftsLinear(a: word, b: word, n: nat)
    ensures Xor(a, b) < MODULUS
    ensures Shifts(Xor(a, b), n) == Xor(Shifts(a, n), Shifts(b, n))
    decreases n
  {
    ShiftLinear(a, b);
    if n != 0 {
      XorBound32(Shift(a), Shift(b));
      ShiftsLinear(Shift(a), Shift(b), n - 1);
    }
  }

  /** Shifting out zero bits involves no feedback. */
  lemma {:induction false} ShiftsOfMultiple(z: nat, n: nat)
    requires Pow2(n) * z < MODULUS
    ensures Shifts(Pow2(n) * z, n) == z
  {
    if n != 0 {
      var half := Pow2(n - 1) * z;
      assert Pow2(n) * z == 2 * half;
      ShiftsOfMultiple(z, n - 1);
    }
  }

  // ----- Linearity of the whole register, and bursts -------------------------------

  /** The byte-wise difference of two texts of one length. */
  function Difference(a: Text, b: Text): (d: Text)
    requires |a| == |b|
    ensures |d| == |a|
  {
    if a == [] then []
    else
      assert Xor(a[0], b[0]) < 256 by { Pow2Of32(); XorBound(a[0], b[0], 8); }
      [Xor(a[0], b[0])] + Difference(a[1..], b[1..])
  }

  lemma FeedLinear(r: word, s: word, a: byte, b: byte)
    ensures Xor(r, s) < MODULUS && Xor(a, b) < 256
    ensures Xor(Feed(r, a), Feed(s, b)) == Feed(Xor(r, s), Xor(a, b))
  {
    XorBound32(r, s);
    Pow2Of32();
    XorBound(a, b, 8);
    XorBound32(r, a);
    XorBound32(s, b);
    ShiftsLinear(Xor(r, a), Xor(s, b), 8);
    XorSwap(r, a, s, b);
  }

  /** CRC-32 is linear: the difference of two registers evolves by the difference of the
      bytes fed, whatever the bytes are. */
  lemma {:induction false} FeedAllLinear(r: word, s: word, a: Text, b: Text)
    requires |a| == |b|
    ensures Xor(r, s) < MODULUS
    ensures Xor(FeedAll(r, a), FeedAll(s, b)) == FeedAll(Xor(r, s), Difference(a, b))
    decreases |a|
  {
    XorBound32(r, s);
    if a != [] {
      FeedLinear(r, s, a[0], b[0]);
      FeedAllLinear(Feed(r, a[0]), Feed(s, b[0]), a[1..], b[1..]);
    }
  }

  lemma {:induction false} FeedAllAppend(r: word, a: Text, b: Text)
    ensures FeedAll(r, a + b) == FeedAll(FeedAll(r, a), b)
    decreases |a|
  {
    hide Feed;
    if a == [] {
      assert a + b == b;
    } else {
      FeedAllAppend(Feed(r, a[0]), a[1..], b);
      assert (a + b)[1..] == a[1..] + b;
    }
  }

  /** Feeding the same bytes to two different registers keeps them different. */
  lemma {:induction false} FeedAllInjective(r: word, s: word, data: Text)
    requires FeedAll(r, data) == FeedAll(s, data)
    ensures r == s
    decreases |data|
  {
    if data != [] {
      FeedAllInjective(Feed(r, data[0]), Feed(s, data[0]), data[1..]);
      XorBound32(r, data[0]);
      XorBound32(s, data[0]);
      ShiftsInjective(Xor(r, data[0]), Xor(s, data[0]), 8);
      XorInjective(r, s, data[0]);
    }
  }

  /** The bytes of a burst as one little-endian number. */
  function Pack(burst: Text): nat {
    if burst == [] then 0 else burst[0] + 256 * Pack(burst[1..])
  }

  lemma {:induction false} PackBound(burst: Text)
    ensures Pack(burst) < Pow2(8 * |burst|)
  {
    if burst != [] {
      PackBound(burst[1..]);
      assert Pow2(8 * |burst|) == 256 * Pow2(8 * |burst| - 8) by {
        Pow2Eight(8 * |burst| - 8);
      }
    }
  }

  lemma Pow2Eight(k: nat)
    ensures Pow2(k + 8) == 256 * Pow2(k)
  {
    assert Pow2(k + 2) == 4 * Pow2(k);
    assert Pow2(k + 4) == 4 * Pow2(k + 2);
    assert Pow2(k + 6) == 4 * Pow2(k + 4);
    assert Pow2(k + 8) == 4 * Pow2(k + 6);
  }

  lemma {:induction false} Pow2Monotone(i: nat, j: nat)
    requires i <= j
    ensures Pow2(i) <= Pow2(j)
    decreases j - i
  {
    if i < j { Pow2Monotone(i, j - 1); }
  }

  /** A burst of at most four bytes drives the register to zero only from the one state
      that spells the burst itself. */
  lemma {:induction false} BurstToZero(d: word, burst: Text)
    requires |burst| <= 4 && FeedAll(d, burst) == 0
    ensures d == Pack(burst)
    decreases |burst|
  {
    if burst != [] {
      var b, rest := burst[0], burst[1..];
      BurstToZero(Feed(d, b), rest);
      var z := Pack(rest);
      PackBound(rest);
      Pow2Monotone(8 * |rest|, 24);
      Pow2Of32();
      assert Pow2(24) == 0x100_0000 by { Pow2Eight(8); Pow2Eight(16); }
      XorBound32(d, b);
      ShiftsOfMultiple(z, 8);
      ShiftsInjective(Xor(d, b), 256 * z, 8);
      XorCancel(d, b);
      XorShifted(b, z, 8);
      XorComm(b, 256 * z);
    }
  }

  lemma {:induction false} PackZero(burst: Text, i: nat)
    requires Pack(burst) == 0 && i < |burst|
    ensures burst[i] == 0
  {
    if i > 0 { PackZero(burst[1..], i - 1); }
  }

  lemma {:induction false} DifferenceZero(a: Text, b: Text)
    requires |a| == |b| && forall i :: 0 <= i < |a| ==> Difference(a, b)[i] == 0
    ensures a == b
  {
    if a != [] {
      assert Difference(a, b)[0] == Xor(a[0], b[0]);
      XorSelf(b[0]);
      XorInjective(a[0], b[0], b[0]);
      forall i | 0 <= i < |a| - 1
        ensures Difference(a[1..], b[1..])[i] == 0
      {
        assert Difference(a, b)[i + 1] == Difference(a[1..], b[1..])[i];
      }
      DifferenceZero(a[1..], b[1..]);
      assert a == [a[0]] + a[1..] && b == [b[0]] + b[1..];
    }
  }

  /** Every change confined to four consecutive bytes changes the checksum. */
  lemma BurstDetected(before: Text, a: Text, b: Text, after: Text)
    requires |a| == |b| <= 4 && a != b
    ensures ChecksumIEEE(before + a + after) != ChecksumIEEE(before + b + after)
  {
    if ChecksumIEEE(before + a + after) == ChecksumIEEE(before + b + after) {
      var r := FeedAll(ALL_ONES, before);
      FeedAllAppend(ALL_ONES, before + a, after);
      FeedAllAppend(ALL_ONES, before + b, after);
      FeedAllAppend(ALL_ONES, before, a);
      FeedAllAppend(ALL_ONES, before, b);
      var x, y := FeedAll(r, a), FeedAll(r, b);
      XorInjective(FeedAll(x, after), FeedAll(y, after), ALL_ONES);
      FeedAllInjective(x, y, after);
      FeedAllLinear(r, r, a, b);
      XorSelf(r);
      XorSelf(x);
      BurstToZero(0, Difference(a, b));
      forall i | 0 <= i < |a| ensures Difference(a, b)[i] == 0 {
        PackZero(Difference(a, b), i);
      }
      DifferenceZero(a, b);
      assert false;
    }
  }
}
