/**
 * The eight fixed-width integer types that cipc serializes, and the
 * conversions between a signed type and its unsigned counterpart
 * (`std::make_unsigned`) on a two's-complement machine.
 */
module Ints {
  import opened Bytes

  datatype IntKind = U8 | U16 | U32 | U64 | I8 | I16 | I32 | I64

  /** `sizeof(T)`. */
  function Size(k: IntKind): (n: nat)
    ensures n >= 1
  {
    match k
    case U8 | I8 => 1
    case U16 | I16 => 2
    case U32 | I32 => 4
    case U64 | I64 => 8
  }

  predicate Signed(k: IntKind) {
    k.I8? || k.I16? || k.I32? || k.I64?
  }

  /** 2^(8 * sizeof(T)): the number of values of the type. */
  function Modulus(k: IntKind): (m: nat)
    ensures m == Pow256(Size(k))
  {
    Pow256Values();
    match k
    case U8 | I8 => 0x100
    case U16 | I16 => 0x1_0000
    case U32 | I32 => 0x1_0000_0000
    case U64 | I64 => 0x1_0000_0000_0000_0000
  }

  /** The smallest value of the type. */
  function MinValue(k: IntKind): int {
    if Signed(k) then -(Modulus(k) / 2) else 0
  }

  /** The largest value of the type. */
  function MaxValue(k: IntKind): int {
    if Signed(k) then Modulus(k) / 2 - 1 else Modulus(k) - 1
  }

  predicate InRange(k: IntKind, x: int) {
    MinValue(k) <= x <= MaxValue(k)
  }

  /**
   * `static_cast<std::make_unsigned<T>::type>(x)`: a negative value is
   * taken modulo 2^width.
   */
  function ToUnsigned(k: IntKind, x: int): (u: nat)
    requires InRange(k, x)
    ensures u < Modulus(k)
    ensures x >= 0 ==> u == x
  {
    if x < 0 then x + Modulus(k) else x
  }

  /**
   * `static_cast<T>(u)` from the unsigned counterpart: on a
   * two's-complement machine an unsigned value at or above 2^(width-1)
   * becomes negative.
   */
  function FromUnsigned(k: IntKind, u: nat): (x: int)
    requires u < Modulus(k)
    ensures InRange(k, x)
    ensures x == u || x == u - Modulus(k)
  {
    if Signed(k) && u >= Modulus(k) / 2 then u - Modulus(k) else u
  }

  /**
   * The conversion of any integer to the type: the value of the type
   * congruent to v modulo 2^width.
   */
  function Wrap(k: IntKind, v: int): (x: int)
    ensures InRange(k, x)
  {
    match k
    case U8 => v % 0x100
    case U16 => v % 0x1_0000
    case U32 => v % 0x1_0000_0000
    case U64 => v % 0x1_0000_0000_0000_0000
    case I8 => FromUnsigned(k, v % 0x100)
    case I16 => FromUnsigned(k, v % 0x1_0000)
    case I32 => FromUnsigned(k, v % 0x1_0000_0000)
    case I64 => FromUnsigned(k, v % 0x1_0000_0000_0000_0000)
  }

  lemma ToUnsignedFromUnsigned(k: IntKind, u: nat)
    requires u < Modulus(k)
    ensures ToUnsigned(k, FromUnsigned(k, u)) == u
  {
  }

  lemma FromUnsignedToUnsigned(k: IntKind, x: int)
    requires InRange(k, x)
    ensures FromUnsigned(k, ToUnsigned(k, x)) == x
  {
  }

  /** Adding a multiple of 2^width does not change the converted value. */
  lemma WrapShift(k: IntKind, v: int, t: int)
    ensures Wrap(k, v + Modulus(k) * t) == Wrap(k, v)
  {
    var m := Modulus(k);
    var q, r := v / m, v % m;
    assert v + m * t == m * (q + t) + r;
    DivModUnique(v + m * t, m, q + t, r);
  }

  /** A converted value differs from the original by a multiple of 2^width. */
  lemma WrapOffset(k: IntKind, v: int) returns (t: int)
    ensures Wrap(k, v) == v + Modulus(k) * t
  {
    var m := Modulus(k);
    var q, r := v / m, v % m;
    if Signed(k) && r >= m / 2 {
      t := -q - 1;
    } else {
      t := -q;
    }
  }

  /** Values of the type are unchanged by the conversion. */
  lemma WrapInRange(k: IntKind, x: int)
    requires InRange(k, x)
    ensures Wrap(k, x) == x
  {
    var m := Modulus(k);
    if x < 0 {
      DivModUnique(x, m, -1, x + m);
    } else {
      DivModUnique(x, m, 0, x);
    }
  }

  /** Converting an unsigned value to the type is `static_cast<T>`. */
  lemma WrapUnsigned(k: IntKind, u: nat)
    requires u < Modulus(k)
    ensures Wrap(k, u) == FromUnsigned(k, u)
  {
    DivModUnique(u, Modulus(k), 0, u);
  }

  /**
   * The little-endian image of the unsigned counterpart of x is the
   * two's-complement little-endian image of x.
   */
  lemma LeBytesOfToUnsigned(k: IntKind, x: int)
    requires InRange(k, x)
    ensures LeBytes(ToUnsigned(k, x), Size(k)) == LeBytes(x, Size(k))
  {
    if x < 0 {
      LeBytesShift(x, 1, Size(k));
    }
  }
}
