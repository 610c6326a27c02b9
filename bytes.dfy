/**
 * Bytes, powers of two and the little-endian digit view of a natural
 * number, together with the C operators `>>`, `<<` and `|` on unsigned
 * values. Everything the byte-order helpers and the codec say about
 * memory is stated through `LeBytes` and `LeValue`.
 */
module Bytes {

  /** One octet of memory: `std::uint8_t`. */
  type byte = b: int | 0 <= b < 0x100

  /** 2^k. */
  function Pow2(k: nat): (r: nat)
    ensures r >= 1
  {
    if k == 0 then 1 else 2 * Pow2(k - 1)
  }

  /** 256^n, the number of distinct values of an n-byte word. */
  function Pow256(n: nat): (r: nat)
    ensures r >= 1
  {
    if n == 0 then 1 else 0x100 * Pow256(n - 1)
  }

  lemma {:induction false} Pow2Add(a: nat, b: nat)
    ensures Pow2(a + b) == Pow2(a) * Pow2(b)
  {
    if b > 0 {
      Pow2Add(a, b - 1);
      assert Pow2(a + b) == 2 * Pow2(a + b - 1);
    }
  }

  lemma {:induction false} Pow256IsPow2(n: nat)
    ensures Pow256(n) == Pow2(8 * n)
  {
    if n > 0 {
      Pow256IsPow2(n - 1);
      Pow2Add(8 * (n - 1), 8);
      assert Pow2(8) == 0x100;
    }
  }

  lemma {:induction false} Pow256Add(a: nat, b: nat)
    ensures Pow256(a + b) == Pow256(a) * Pow256(b)
  {
    if b > 0 {
      Pow256Add(a, b - 1);
      assert Pow256(a + b) == 0x100 * Pow256(a + b - 1);
    }
  }

  lemma Pow256Values()
    ensures Pow256(1) == 0x100 && Pow256(2) == 0x1_0000
    ensures Pow256(4) == 0x1_0000_0000
    ensures Pow256(8) == 0x1_0000_0000_0000_0000
  {
    Pow256Add(4, 4);
  }

  /**
   * The n low-order base-256 digits of v, least significant first: the
   * memory image of an n-byte word holding v on a little-endian host.
   */
  function LeBytes(v: int, n: nat): (r: seq<byte>)
    ensures |r| == n
    decreases n
  {
    if n == 0 then [] else [v % 0x100] + LeBytes(v / 0x100, n - 1)
  }

  /** The number whose little-endian digits are `bs`. */
  function LeValue(bs: seq<byte>): nat {
    if |bs| == 0 then 0 else bs[0] + 0x100 * LeValue(bs[1..])
  }

  /** The elements of s in the opposite order. */
  function Reverse<T>(s: seq<T>): (r: seq<T>)
    ensures |r| == |s|
  {
    if s == [] then [] else Reverse(s[1..]) + [s[0]]
  }

  lemma {:induction false} ReverseIndex<T>(s: seq<T>)
    ensures forall i :: 0 <= i < |s| ==> Reverse(s)[i] == s[|s| - 1 - i]
  {
    if s != [] {
      ReverseIndex(s[1..]);
    }
  }

  lemma ReverseReverse<T>(s: seq<T>)
    ensures Reverse(Reverse(s)) == s
  {
    ReverseIndex(s);
    ReverseIndex(Reverse(s));
    assert forall i :: 0 <= i < |s| ==> Reverse(Reverse(s))[i] == s[i];
  }

  lemma ReverseConcat<T>(a: seq<T>, b: seq<T>)
    ensures Reverse(a + b) == Reverse(b) + Reverse(a)
  {
    ReverseIndex(a + b);
    ReverseIndex(a);
    ReverseIndex(b);
    assert forall i :: 0 <= i < |a + b| ==> Reverse(a + b)[i] == (Reverse(b) + Reverse(a))[i];
  }

  lemma {:induction false} MulAtLeast(d: int, t: int)
    requires d > 0 && t >= 1
    ensures d * t >= d
  {
    if t > 1 {
      MulAtLeast(d, t - 1);
      assert d * t == d * (t - 1) + d;
    }
  }

  lemma MulMonotone(a: nat, b: nat, c: nat)
    requires b <= c
    ensures a * b <= a * c
  {
    assert a * c - a * b == a * (c - b);
  }

  /** Euclidean division is unique: the quotient and remainder are determined. */
  lemma DivModUnique(a: int, d: int, q: int, r: int)
    requires d > 0 && 0 <= r < d && a == d * q + r
    ensures a / d == q && a % d == r
  {
    var q', r' := a / d, a % d;
    assert a == d * q' + r';
    assert d * (q - q') == r' - r by { assert d * (q - q') == d * q - d * q'; }
    if q > q' {
      MulAtLeast(d, q - q');
    } else if q < q' {
      MulAtLeast(d, q' - q);
    }
  }

  /** LeValue never reaches 256^|bs|. */
  lemma {:induction false} LeValueBound(bs: seq<byte>)
    ensures LeValue(bs) < Pow256(|bs|)
  {
    if |bs| > 0 {
      LeValueBound(bs[1..]);
      assert LeValue(bs) <= 0xFF + 0x100 * (Pow256(|bs| - 1) - 1);
    }
  }

  /** Decoding the digits of a value that fits gives the value back. */
  lemma {:induction false} LeValueOfLeBytes(v: nat, n: nat)
    requires v < Pow256(n)
    ensures LeValue(LeBytes(v, n)) == v
  {
    if n > 0 {
      DivModUnique(v, 0x100, v / 0x100, v % 0x100);
      assert v / 0x100 < Pow256(n - 1);
      LeValueOfLeBytes(v / 0x100, n - 1);
      assert LeBytes(v, n)[1..] == LeBytes(v / 0x100, n - 1);
    } else {
      assert v == 0;
    }
  }

  /** Encoding a decoded digit string gives the digit string back. */
  lemma {:induction false} LeBytesOfLeValue(bs: seq<byte>)
    ensures LeBytes(LeValue(bs), |bs|) == bs
  {
    if |bs| > 0 {
      var v := LeValue(bs);
      DivModUnique(v, 0x100, LeValue(bs[1..]), bs[0]);
      LeBytesOfLeValue(bs[1..]);
      assert bs == [bs[0]] + bs[1..];
    }
  }

  /** A value below 256^m placed under hi * 256^m: the digits concatenate. */
  lemma {:induction false} LeBytesSplit(lo: nat, hi: nat, m: nat, k: nat)
    requires lo < Pow256(m)
    ensures LeBytes(lo + Pow256(m) * hi, m + k) == LeBytes(lo, m) + LeBytes(hi, k)
  {
    if m == 0 {
      assert lo == 0;
    } else {
      var v := lo + Pow256(m) * hi;
      assert Pow256(m) == 0x100 * Pow256(m - 1);
      var lo' := lo / 0x100;
      DivModUnique(lo, 0x100, lo', lo % 0x100);
      assert lo' < Pow256(m - 1);
      assert v == 0x100 * (lo' + Pow256(m - 1) * hi) + lo % 0x100;
      DivModUnique(v, 0x100, lo' + Pow256(m - 1) * hi, lo % 0x100);
      LeBytesSplit(lo', hi, m - 1, k);
    }
  }

  /** Adding a multiple of 256^n does not change the n low digits. */
  lemma {:induction false} LeBytesShift(v: int, t: int, n: nat)
    ensures LeBytes(v + Pow256(n) * t, n) == LeBytes(v, n)
    decreases n
  {
    if n > 0 {
      var p := Pow256(n - 1);
      assert Pow256(n) * t == 0x100 * (p * t);
      DivModUnique(v, 0x100, v / 0x100, v % 0x100);
      DivModUnique(v + Pow256(n) * t, 0x100, v / 0x100 + p * t, v % 0x100);
      LeBytesShift(v / 0x100, t, n - 1);
    }
  }

  /** Digits are determined by the value modulo 256^n. */
  lemma LeBytesMod(v: int, n: nat)
    ensures LeBytes(v, n) == LeBytes(v % Pow256(n), n)
  {
    var m := Pow256(n);
    var q, r := v / m, v % m;
    assert v == r + m * q;
    LeBytesShift(r, q, n);
  }

  /**
   * The C operator `|` on unsigned values, one bit at a time from the
   * least significant end.
   */
  function BitOr(x: nat, y: nat): nat
    decreases x + y
  {
    if x == 0 then y
    else if y == 0 then x
    else 2 * BitOr(x / 2, y / 2) + (if x % 2 == 1 || y % 2 == 1 then 1 else 0)
  }

  /** `|` of two w-bit values is a w-bit value. */
  lemma {:induction false} BitOrBound(x: nat, y: nat, w: nat)
    requires x < Pow2(w) && y < Pow2(w)
    ensures BitOr(x, y) < Pow2(w)
    decreases x + y
  {
    if x != 0 && y != 0 {
      assert w > 0;
      BitOrBound(x / 2, y / 2, w - 1);
    }
  }

  /**
   * When `lo` fits below bit k and `hi` has no bit below k, `|` is `+`:
   * this is how the source assembles a word from its halves.
   */
  lemma {:induction false} BitOrDisjoint(hi: nat, lo: nat, k: nat)
    requires lo < Pow2(k)
    ensures BitOr(hi * Pow2(k), lo) == hi * Pow2(k) + lo
    ensures BitOr(lo, hi * Pow2(k)) == hi * Pow2(k) + lo
    decreases k
  {
    if k == 0 {
      assert lo == 0;
    } else if hi != 0 && lo != 0 {
      var x := hi * Pow2(k);
      assert x == 2 * (hi * Pow2(k - 1));
      assert x / 2 == hi * Pow2(k - 1) && x % 2 == 0;
      BitOrDisjoint(hi, lo / 2, k - 1);
    }
  }

  /** The powers of two the byte swaps shift by. */
  lemma Pow2Values()
    ensures Pow2(8) == 0x100 && Pow2(16) == 0x1_0000 && Pow2(32) == 0x1_0000_0000
  {
    Pow256Values();
    Pow256IsPow2(1);
    Pow256IsPow2(2);
    Pow256IsPow2(4);
  }

  /** `BitOrDisjoint` with the power of two given as a number. */
  lemma BitOrBelow(hi: nat, lo: nat, p: nat, k: nat)
    requires p == Pow2(k) && lo < p
    ensures BitOr(hi * p, lo) == hi * p + lo
    ensures BitOr(lo, hi * p) == hi * p + lo
  {
    BitOrDisjoint(hi, lo, k);
  }
}
