/**
 * The `byte_swap` specialisations of cipc/serialize.h, for both ways the
 * header can be built: with the GNU builtins and with the portable
 * shift-and-or expressions.
 *
 * C's integer operators are written out on naturals: `x >> k` is
 * division by 2^k, `x << k` followed by the conversion to the result
 * type is multiplication modulo 2^width, and `|` is `BitOr`.
 */
module ByteSwaps {
  import opened Bytes

  type uint8 = x: int | 0 <= x < 0x100
  type uint16 = x: int | 0 <= x < 0x1_0000
  type uint32 = x: int | 0 <= x < 0x1_0000_0000
  type uint64 = x: int | 0 <= x < 0x1_0000_0000_0000_0000

  /** The widths, in bytes, of the fixed-width integer types. */
  type Width = n: nat | n == 1 || n == 2 || n == 4 || n == 8 witness 1

  /** `byte_swap<std::uint8_t>`: a single byte is its own reversal. */
  function ByteSwap8(x: uint8): uint8 {
    x
  }

  /**
   * Portable `byte_swap<std::uint16_t>`: `(x >> 8) | (x << 8)`, computed
   * on the promoted `int` and converted back to 16 bits on return.
   */
  function ByteSwap16(x: uint16): uint16 {
    BitOr(x / 0x100, x * 0x100) % 0x1_0000
  }

  /**
   * Portable `byte_swap<std::uint32_t>`: the swapped low half shifted up
   * by 16, or-ed with the swapped high half. The argument of the first
   * call is `x` converted to `std::uint16_t`, that is, its low half.
   */
  function ByteSwap32(x: uint32): uint32 {
    BitOr(ByteSwap16(x % 0x1_0000) * 0x1_0000, ByteSwap16(x / 0x1_0000)) % 0x1_0000_0000
  }

  /**
   * Portable `byte_swap<std::uint64_t>` with the shift done in 64 bits:
   * the swapped low word widened to `std::uint64_t` before `<< 32`.
   */
  function ByteSwap64(x: uint64): uint64 {
    BitOr((ByteSwap32(x % 0x1_0000_0000) * 0x1_0000_0000) % 0x1_0000_0000_0000_0000,
          ByteSwap32(x / 0x1_0000_0000)) % 0x1_0000_0000_0000_0000
  }

  /**
   * Portable `byte_swap<std::uint64_t>` as the source writes it:
   * `byte_swap<std::uint32_t>(x) << 32` shifts a 32-bit `std::uint32_t`
   * by its full width, which C++ leaves undefined. `shifted` is whatever
   * 32-bit value that shift produces; the `|` with the other 32-bit half
   * is then still a 32-bit value, widened to 64 bits on return.
   */
  function ByteSwap64AsWritten(x: uint64, shifted: uint32): nat {
    BitOr(shifted, ByteSwap32(x / 0x1_0000_0000))
  }

  /** `__builtin_bswapN`: the word whose bytes are those of `x` in reverse. */
  function BuiltinBswap(n: Width, x: nat): nat {
    LeValue(Reverse(LeBytes(x, n)))
  }

  /**
   * `byte_swap<T>` for the unsigned type of width n, in either build.
   * The portable 64-bit case is the corrected `ByteSwap64`; the swap as
   * written is `ByteSwap64AsWritten`.
   */
  function ByteSwap(gnu: bool, n: Width, x: nat): nat
    requires x < Pow256(n)
  {
    Pow256Values();
    if gnu then (if n == 1 then ByteSwap8(x) else BuiltinBswap(n, x))
    else if n == 1 then ByteSwap8(x)
    else if n == 2 then ByteSwap16(x)
    else if n == 4 then ByteSwap32(x)
    else ByteSwap64(x)
  }

  /** `|` of the two shifted halves in `ByteSwap16` is their sum. */
  lemma ByteSwap16OrIsSum(x: uint16)
    ensures BitOr(x / 0x100, x * 0x100) == x * 0x100 + x / 0x100
  {
    Pow2Values();
    BitOrBelow(x, x / 0x100, 0x100, 8);
  }

  /** `byte_swap<std::uint16_t>` exchanges the low and the high byte. */
  lemma ByteSwap16Exchanges(x: uint16)
    ensures ByteSwap16(x) == (x % 0x100) * 0x100 + x / 0x100
  {
    ByteSwap16OrIsSum(x);
    var lo, hi := x % 0x100, x / 0x100;
    DivModUnique(x, 0x100, hi, lo);
    assert x * 0x100 + hi == 0x1_0000 * hi + (lo * 0x100 + hi);
    DivModUnique(x * 0x100 + hi, 0x1_0000, hi, lo * 0x100 + hi);
  }

  /** The two digits of a 16-bit word. */
  lemma LeBytes2(v: uint16)
    ensures LeBytes(v, 2) == [v % 0x100, v / 0x100]
  {
    DivModUnique(v / 0x100, 0x100, 0, v / 0x100);
  }

  /** `byte_swap<std::uint16_t>` reverses the two bytes of the word. */
  lemma ByteSwap16Reverses(x: uint16)
    ensures LeBytes(ByteSwap16(x), 2) == Reverse(LeBytes(x, 2))
  {
    ByteSwap16Exchanges(x);
    var lo, hi := x % 0x100, x / 0x100;
    var y := ByteSwap16(x);
    DivModUnique(y, 0x100, lo, hi);
    LeBytes2(x);
    LeBytes2(y);
  }

  /**
   * Putting the byte-reversed low half above the byte-reversed high half
   * reverses the bytes of the whole word of 2m bytes; p is 256^m.
   */
  lemma SwappedHalvesReverse(m: nat, p: nat, x: nat, lo: nat, hi: nat, y: nat, a: nat, b: nat)
    requires p == Pow256(m)
    requires lo < p && hi < p && a < p && b < p
    requires x == lo + p * hi && y == b + p * a
    requires LeBytes(a, m) == Reverse(LeBytes(lo, m))
    requires LeBytes(b, m) == Reverse(LeBytes(hi, m))
    ensures LeBytes(y, m + m) == Reverse(LeBytes(x, m + m))
  {
    assert LeBytes(x, m + m) == LeBytes(lo, m) + LeBytes(hi, m) by {
      LeBytesSplit(lo, hi, m, m);
    }
    assert LeBytes(y, m + m) == LeBytes(b, m) + LeBytes(a, m) by {
      LeBytesSplit(b, a, m, m);
    }
    ReverseConcat(LeBytes(lo, m), LeBytes(hi, m));
  }

  /** `(a << 16) | b` of two 16-bit words, converted to 32 bits, is `b + 2^16 * a`. */
  lemma Combine16(a: uint16, b: uint16)
    ensures BitOr(a * 0x1_0000, b) % 0x1_0000_0000 == b + 0x1_0000 * a
  {
    Pow2Values();
    BitOrBelow(a, b, 0x1_0000, 16);
    DivModUnique(b + 0x1_0000 * a, 0x1_0000_0000, 0, b + 0x1_0000 * a);
  }

  /** `byte_swap<std::uint32_t>` puts the swapped low half above the swapped high half. */
  lemma ByteSwap32Halves(x: uint32)
    ensures ByteSwap32(x) == ByteSwap16(x / 0x1_0000) + 0x1_0000 * ByteSwap16(x % 0x1_0000)
  {
    Combine16(ByteSwap16(x % 0x1_0000), ByteSwap16(x / 0x1_0000));
  }

  /** `byte_swap<std::uint32_t>` reverses the four bytes of the word. */
  lemma ByteSwap32Reverses(x: uint32)
    ensures LeBytes(ByteSwap32(x), 4) == Reverse(LeBytes(x, 4))
  {
    Pow256Values();
    ByteSwap16Reverses(x % 0x1_0000);
    ByteSwap16Reverses(x / 0x1_0000);
    ByteSwap32Halves(x);
    SwappedHalvesReverse(2, 0x1_0000, x, x % 0x1_0000, x / 0x1_0000,
                         ByteSwap32(x), ByteSwap16(x % 0x1_0000), ByteSwap16(x / 0x1_0000));
  }

  /** `(a << 32) | b`, in 64 bits, of two 32-bit words is `b + 2^32 * a`. */
  lemma Combine32(a: uint32, b: uint32)
    ensures BitOr((a * 0x1_0000_0000) % 0x1_0000_0000_0000_0000, b) % 0x1_0000_0000_0000_0000
         == b + 0x1_0000_0000 * a
  {
    Pow2Values();
    DivModUnique(a * 0x1_0000_0000, 0x1_0000_0000_0000_0000, 0, a * 0x1_0000_0000);
    BitOrBelow(a, b, 0x1_0000_0000, 32);
    DivModUnique(b + 0x1_0000_0000 * a, 0x1_0000_0000_0000_0000, 0, b + 0x1_0000_0000 * a);
  }

  /** The 64-bit swap puts the swapped low word above the swapped high word. */
  lemma ByteSwap64Halves(x: uint64)
    ensures ByteSwap64(x) == ByteSwap32(x / 0x1_0000_0000) + 0x1_0000_0000 * ByteSwap32(x % 0x1_0000_0000)
  {
    Combine32(ByteSwap32(x % 0x1_0000_0000), ByteSwap32(x / 0x1_0000_0000));
  }

  /** `byte_swap<std::uint64_t>`, with the shift in 64 bits, reverses the eight bytes. */
  lemma ByteSwap64Reverses(x: uint64)
    ensures LeBytes(ByteSwap64(x), 8) == Reverse(LeBytes(x, 8))
  {
    Pow256Values();
    ByteSwap32Reverses(x % 0x1_0000_0000);
    ByteSwap32Reverses(x / 0x1_0000_0000);
    ByteSwap64Halves(x);
    SwappedHalvesReverse(4, 0x1_0000_0000, x, x % 0x1_0000_0000, x / 0x1_0000_0000,
                         ByteSwap64(x), ByteSwap32(x % 0x1_0000_0000), ByteSwap32(x / 0x1_0000_0000));
  }

  /**
   * Whatever build is used, `byte_swap<T>` reverses the bytes of the
   * word, with the portable 64-bit swap corrected (`ByteSwap64`, the
   * shift done in 64 bits); the portable and the builtin versions
   * therefore agree.
   */
  lemma ByteSwapReverses(gnu: bool, n: Width, x: nat)
    requires x < Pow256(n)
    ensures ByteSwap(gnu, n, x) < Pow256(n)
    ensures LeBytes(ByteSwap(gnu, n, x), n) == Reverse(LeBytes(x, n))
    ensures ByteSwap(gnu, n, x) == BuiltinBswap(n, x)
  {
    Pow256Values();
    var r := Reverse(LeBytes(x, n));
    LeValueBound(r);
    LeBytesOfLeValue(r);
    if n == 1 {
      assert LeBytes(x, 1) == [x % 0x100];
    } else if !gnu {
      if n == 2 {
        ByteSwap16Reverses(x);
      } else if n == 4 {
        ByteSwap32Reverses(x);
      } else {
        ByteSwap64Reverses(x);
      }
      LeValueOfLeBytes(ByteSwap(gnu, n, x), n);
    }
  }

  /**
   * Swapping twice gives the word back, for every width and build, with
   * the portable 64-bit swap corrected.
   */
  lemma ByteSwapInvolution(gnu: bool, n: Width, x: nat)
    requires x < Pow256(n)
    ensures ByteSwap(gnu, n, x) < Pow256(n)
    ensures ByteSwap(gnu, n, ByteSwap(gnu, n, x)) == x
  {
    var y := ByteSwap(gnu, n, x);
    ByteSwapReverses(gnu, n, x);
    ByteSwapReverses(gnu, n, y);
    ReverseReverse(LeBytes(x, n));
    LeValueOfLeBytes(x, n);
    LeValueOfLeBytes(ByteSwap(gnu, n, y), n);
  }

  /** As written, the 64-bit portable swap never produces a value above 32 bits. */
  lemma ByteSwap64AsWrittenFits(x: uint64, shifted: uint32)
    ensures ByteSwap64AsWritten(x, shifted) < 0x1_0000_0000
  {
    Pow2Values();
    BitOrBound(shifted, ByteSwap32(x / 0x1_0000_0000), 32);
  }

  /** The portable 32-bit swap maps only zero to zero. */
  lemma ByteSwap32Zero(x: uint32)
    ensures ByteSwap32(x) == 0 <==> x == 0
  {
    Pow256Values();
    ByteSwapInvolution(false, 4, x);
    assert ByteSwap32(0) == 0 by {
      ByteSwap16Exchanges(0);
      ByteSwap32Halves(0);
    }
  }

  /**
   * Whenever the low word of `x` is not zero, for instance for
   * 0x0102030405060708, the correct swap has that word's bytes in its
   * upper half; the portable 64-bit swap as written cannot return it,
   * whatever the undefined shift yields.
   */
  lemma ByteSwap64AsWrittenLosesHighWord(x: uint64, shifted: uint32)
    requires x % 0x1_0000_0000 != 0
    ensures ByteSwap64(x) >= 0x1_0000_0000
    ensures ByteSwap64AsWritten(x, shifted) != ByteSwap64(x)
  {
    ByteSwap64Halves(x);
    ByteSwap32Zero(x % 0x1_0000_0000);
    ByteSwap64AsWrittenFits(x, shifted);
  }
}
