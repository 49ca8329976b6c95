/** Octets, 32-bit words and the bit operations the filter machine applies to them. */
module Bits {

  /** An octet of a packet or of a DNS name. */
  type byte = x: int | 0 <= x < 256

  /** The contents of a 32-bit register of the filter machine. */
  type u32 = x: int | 0 <= x < 0x1_0000_0000

  const WORD: int := 0x1_0000_0000

  datatype Option<T> = None | Some(value: T)

  function Pow2(n: nat): (r: nat)
    ensures r >= 1
  {
    if n == 0 then 1 else 2 * Pow2(n - 1)
  }

  lemma {:induction false} Pow2Add(a: nat, b: nat)
    ensures Pow2(a + b) == Pow2(a) * Pow2(b)
  {
    if a > 0 {
      Pow2Add(a - 1, b);
      assert Pow2(a + b) == 2 * Pow2(a - 1 + b);
    }
  }

  lemma Pow2Word()
    ensures Pow2(2) == 4 && Pow2(5) == 32 && Pow2(8) == 256 && Pow2(16) == 0x1_0000 && Pow2(32) == WORD
  {
    assert Pow2(1) == 2;
    assert Pow2(2) == 4;
    assert Pow2(3) == 8;
    assert Pow2(4) == 16;
    assert Pow2(5) == 32;
    assert Pow2(6) == 64;
    assert Pow2(7) == 128;
    assert Pow2(8) == 256;
    Pow2Add(8, 8);
    Pow2Add(16, 16);
  }

  /** Bitwise OR of the low n bits of a and b, one bit at a time from the least significant. */
  function Or(a: nat, b: nat, n: nat): (r: nat)
    ensures r < Pow2(n)
  {
    if n == 0 then 0
    else 2 * Or(a / 2, b / 2, n - 1) + (if a % 2 == 1 || b % 2 == 1 then 1 else 0)
  }

  /** The OR of two octets. */
  function ByteOr(x: byte, y: byte): byte
  {
    assert Pow2(8) == 256;
    Or(x, y, 8)
  }

  /** The OR of two 32-bit words, as Python's `|` and the machine's `or` compute it on them. */
  function WordOr(a: u32, b: u32): u32
  {
    Pow2Word();
    Or(a, b, 32)
  }

  lemma HalfOf(t: nat, x: nat)
    ensures (2 * t + x) / 2 == t + x / 2 && (2 * t + x) % 2 == x % 2
  {
  }

  lemma DoubleTimes(p: nat, x: nat)
    ensures (2 * p) * x == 2 * (p * x)
  {
  }

  /** The value whose low k bits are lo and whose bits above them are hi. */
  function Join(k: nat, hi: nat, lo: nat): nat
  {
    Pow2(k) * hi + lo
  }

  /** OR works independently on the low k bits and on the bits above them. */
  lemma OrSplit(k: nat, n: nat, a1: nat, a0: nat, b1: nat, b0: nat)
    requires a0 < Pow2(k) && b0 < Pow2(k)
    ensures Or(Pow2(k) * a1 + a0, Pow2(k) * b1 + b0, n + k) == Pow2(k) * Or(a1, b1, n) + Or(a0, b0, k)
  {
    OrJoin(k, n, a1, a0, b1, b0);
  }

  lemma {:induction false} OrJoin(k: nat, n: nat, a1: nat, a0: nat, b1: nat, b0: nat)
    requires a0 < Pow2(k) && b0 < Pow2(k)
    ensures Or(Join(k, a1, a0), Join(k, b1, b0), n + k) == Join(k, Or(a1, b1, n), Or(a0, b0, k))
  {
    if k > 0 {
      var a, b := Join(k, a1, a0), Join(k, b1, b0);
      var ha, hb := a0 / 2, b0 / 2;
      assert a / 2 == Join(k - 1, a1, ha) && a % 2 == a0 % 2 && ha < Pow2(k - 1) by {
        LowBit(k, a1, a0);
      }
      assert b / 2 == Join(k - 1, b1, hb) && b % 2 == b0 % 2 && hb < Pow2(k - 1) by {
        LowBit(k, b1, b0);
      }
      var hi, lo := Or(a1, b1, n), Or(ha, hb, k - 1);
      assert Or(a / 2, b / 2, n + (k - 1)) == Join(k - 1, hi, lo) by {
        OrJoin(k - 1, n, a1, ha, b1, hb);
      }
      var bit := if a0 % 2 == 1 || b0 % 2 == 1 then 1 else 0;
      assert Or(a, b, n + k) == 2 * Or(a / 2, b / 2, n + (k - 1)) + bit;
      assert Or(a0, b0, k) == 2 * lo + bit;
      assert Join(k, hi, 2 * lo + bit) == 2 * Join(k - 1, hi, lo) + bit by {
        JoinDouble(k, hi, lo, bit);
      }
    }
  }

  /** Halving a value split at bit k splits it at bit k - 1; the lowest bit is the low part's. */
  lemma LowBit(k: nat, a1: nat, a0: nat)
    requires k > 0 && a0 < Pow2(k)
    ensures Join(k, a1, a0) / 2 == Join(k - 1, a1, a0 / 2) && Join(k, a1, a0) % 2 == a0 % 2
  {
    var p := Pow2(k - 1);
    DoubleTimes(p, a1);
    HalfOf(p * a1, a0);
  }

  lemma JoinDouble(k: nat, hi: nat, lo: nat, bit: nat)
    requires k > 0
    ensures Join(k, hi, 2 * lo + bit) == 2 * Join(k - 1, hi, lo) + bit
  {
    DoubleTimes(Pow2(k - 1), hi);
  }

  lemma {:induction false} OrZero(a: nat, n: nat)
    requires a < Pow2(n)
    ensures Or(a, 0, n) == a
  {
    if n > 0 {
      OrZero(a / 2, n - 1);
    }
  }

  lemma {:induction false} OrOnes(a: nat, n: nat)
    ensures Or(a, Pow2(n) - 1, n) == Pow2(n) - 1
  {
    if n > 0 {
      assert (Pow2(n) - 1) / 2 == Pow2(n - 1) - 1;
      OrOnes(a / 2, n - 1);
    }
  }

  /** Bits above the n-th are zero in two values below 2^n, so a wider OR gives the same value. */
  lemma OrWiden(a: nat, b: nat, n: nat, j: nat)
    requires a < Pow2(n) && b < Pow2(n)
    ensures Or(a, b, n + j) == Or(a, b, n)
  {
    var p := Pow2(n);
    assert p * 0 + a == a && p * 0 + b == b;
    assert Or(a, b, j + n) == p * Or(0, 0, j) + Or(a, b, n) by {
      OrSplit(n, j, 0, a, 0, b);
    }
    assert Or(0, 0, j) == 0 by {
      assert Pow2(j) >= 1;
      OrZero(0, j);
    }
    assert n + j == j + n;
  }

  lemma Pow2Mono(a: nat, b: nat)
    requires a <= b
    ensures Pow2(a) <= Pow2(b)
  {
    Pow2Add(a, b - a);
  }

  /** Bit 0x20 of an octet set: the only bit that tells an ASCII upper-case letter from its lower-case form. */
  function SetCaseBit(x: byte): byte
  {
    if (x / 32) % 2 == 1 then x else x + 32
  }

  /** The octet that differs from x in bit 0x20 only. */
  function ToggleCaseBit(x: byte): byte
  {
    if (x / 32) % 2 == 1 then x - 32 else x + 32
  }

  lemma ByteOrZero(x: byte)
    ensures ByteOr(x, 0) == x
  {
    Pow2Word();
    OrZero(x, 8);
  }

  lemma ByteOrOnes(x: byte)
    ensures ByteOr(x, 0xff) == 0xff
  {
    Pow2Word();
    OrOnes(x, 8);
  }

  lemma OrOne(h: nat)
    requires h < 8
    ensures Or(h, 1, 3) == if h % 2 == 1 then h else h + 1
  {
    assert Or(h, 1, 3) == 2 * Or(h / 2, 0, 2) + 1;
    assert Pow2(2) == 4;
    OrZero(h / 2, 2);
  }

  lemma ByteOrCaseBit(x: byte)
    ensures ByteOr(x, 0x20) == SetCaseBit(x)
  {
    Pow2Word();
    var h, r := x / 32, x % 32;
    assert x == 32 * h + r && h < 8;
    OrSplit(5, 3, h, r, 1, 0);
    OrZero(r, 5);
    OrOne(h);
  }

  /** Two octets agree once bit 0x20 is forced on exactly when they are equal or differ in that bit only. */
  lemma SetCaseBitEq(p: byte, v: byte)
    ensures SetCaseBit(p) == SetCaseBit(v) <==> p == v || p == ToggleCaseBit(v)
  {
  }

  /** Big-endian (network order) value of up to any number of octets, as `struct.unpack('!I')`,
      `'!H'` and `'!B'` read 4, 2 and 1 octets. */
  function Pack(bs: seq<byte>): (r: nat)
  {
    if bs == [] then 0 else 256 * Pack(bs[..|bs| - 1]) + bs[|bs| - 1]
  }

  lemma {:induction false} PackBound(bs: seq<byte>)
    ensures Pack(bs) < Pow2(8 * |bs|)
  {
    if bs != [] {
      var n := |bs| - 1;
      PackBound(bs[..n]);
      Pow2Add(8, 8 * n);
      Pow2Word();
      assert 8 * |bs| == 8 + 8 * n;
    }
  }

  lemma PackWord(bs: seq<byte>)
    requires |bs| <= 4
    ensures Pack(bs) < WORD
  {
    PackBound(bs);
    Pow2Mono(8 * |bs|, 32);
    Pow2Word();
  }

  /** The 32-bit word holding the big-endian value of at most four octets. */
  function Word(bs: seq<byte>): u32
    requires |bs| <= 4
  {
    PackWord(bs);
    Pack(bs)
  }

  /** Octet sequences of one length with the same big-endian value are equal. */
  lemma {:induction false} PackInjective(p: seq<byte>, q: seq<byte>)
    requires |p| == |q| && Pack(p) == Pack(q)
    ensures p == q
  {
    if p != [] {
      var n := |p| - 1;
      PackInjective(p[..n], q[..n]);
      assert p == p[..n] + [p[n]] && q == q[..n] + [q[n]];
    }
  }

  /** The big-endian value of a sequence is zero exactly when every octet of it is. */
  lemma {:induction false} PackZero(bs: seq<byte>)
    ensures Pack(bs) == 0 <==> forall i :: 0 <= i < |bs| ==> bs[i] == 0
  {
    if bs != [] {
      var n := |bs| - 1;
      PackZero(bs[..n]);
      assert forall i :: 0 <= i < n ==> bs[..n][i] == bs[i];
    }
  }

  /** Octet-by-octet OR of two sequences of one length. */
  function ByteOrs(p: seq<byte>, m: seq<byte>): (r: seq<byte>)
    requires |p| == |m|
    ensures |r| == |p|
    ensures forall i :: 0 <= i < |p| ==> r[i] == ByteOr(p[i], m[i])
  {
    seq(|p|, i requires 0 <= i < |p| => ByteOr(p[i], m[i]))
  }

  /** OR of two big-endian values is the big-endian value of the octet-wise OR. */
  lemma {:induction false} OrPack(p: seq<byte>, m: seq<byte>)
    requires |p| == |m|
    ensures Or(Pack(p), Pack(m), 8 * |p|) == Pack(ByteOrs(p, m))
  {
    if p != [] {
      var n := |p| - 1;
      var r := ByteOrs(p, m);
      assert r[..n] == ByteOrs(p[..n], m[..n]);
      OrPack(p[..n], m[..n]);
      Pow2Word();
      PackBound(p[..n]);
      PackBound(m[..n]);
      assert Pack(p) == Pow2(8) * Pack(p[..n]) + p[n];
      assert Pack(m) == Pow2(8) * Pack(m[..n]) + m[n];
      OrSplit(8, 8 * n, Pack(p[..n]), p[n], Pack(m[..n]), m[n]);
      assert 8 * n + 8 == 8 * |p|;
      assert Pack(r) == 256 * Pack(r[..n]) + ByteOr(p[n], m[n]);
    }
  }

  /** The 32-bit OR of two chunk values of at most four octets. */
  lemma WordOrPack(p: seq<byte>, m: seq<byte>)
    requires |p| == |m| <= 4
    ensures Pack(p) < WORD && Pack(m) < WORD
    ensures WordOr(Pack(p), Pack(m)) == Pack(ByteOrs(p, m))
  {
    PackWord(p);
    PackWord(m);
    PackBound(p);
    PackBound(m);
    OrWiden(Pack(p), Pack(m), 8 * |p|, 32 - 8 * |p|);
    OrPack(p, m);
  }
}
