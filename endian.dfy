/**
 * `host_to_le` and `le_to_host` of cipc/serialize.h: the conversion
 * between a value of one of the integer types and the unsigned word
 * whose memory image holds the value's bytes least significant first.
 *
 * Which of the three `#if` branches is compiled depends on the build
 * configuration (`Config`); the host's real byte order decides what
 * memory image a word has (`HostImage`). Every branch is proved to give
 * the same little-endian bytes whenever the configuration's macros agree
 * with the host.
 */
module Endian {
  import opened Bytes
  import opened Ints
  import opened ByteSwaps

  datatype ByteOrder = LittleEndian | BigEndian

  /**
   * The host's byte order and the three macros that select a branch:
   * `CIPC_USE_GNU_BUILTINS`, `CIPC_USE_LITTLE_ENDIAN_IMPL` and
   * `CIPC_USE_BIG_ENDIAN_IMPL`.
   */
  datatype Config = Config(
    order: ByteOrder,
    gnuBuiltins: bool,
    littleEndianImpl: bool,
    bigEndianImpl: bool)

  /** The macros do not claim a byte order the host does not have. */
  predicate Consistent(cfg: Config) {
    (cfg.littleEndianImpl ==> cfg.order == LittleEndian) &&
    (cfg.bigEndianImpl ==> cfg.order == BigEndian)
  }

  /**
   * The configuration a build gets when no macro is set by hand:
   * the builtins follow the compiler, and each implementation macro is
   * set exactly when the platform header recognised that byte order.
   */
  function DefaultConfig(order: ByteOrder, recognised: bool, gnuCompiler: bool): (cfg: Config)
    ensures cfg.order == order && cfg.gnuBuiltins == gnuCompiler
    ensures Consistent(cfg)
    ensures !recognised ==> BranchOf(cfg) == PortableBranch
  {
    Config(order, gnuCompiler,
           recognised && order == LittleEndian,
           recognised && order == BigEndian)
  }

  datatype Branch = CastBranch | SwapBranch | PortableBranch

  /** The branch the preprocessor keeps. */
  function BranchOf(cfg: Config): Branch {
    if cfg.littleEndianImpl then CastBranch
    else if cfg.bigEndianImpl && cfg.gnuBuiltins then SwapBranch
    else PortableBranch
  }

  /** The bytes, in address order, of an n-byte word holding u. */
  function HostImage(order: ByteOrder, u: int, n: nat): (bs: seq<byte>)
    ensures |bs| == n
  {
    match order
    case LittleEndian => LeBytes(u, n)
    case BigEndian => Reverse(LeBytes(u, n))
  }

  /** The word whose memory image is `bs`: what `reinterpret_cast` reads. */
  function ImageValue(order: ByteOrder, bs: seq<byte>): nat {
    match order
    case LittleEndian => LeValue(bs)
    case BigEndian => LeValue(Reverse(bs))
  }

  lemma ImageOfImageValue(order: ByteOrder, bs: seq<byte>)
    ensures ImageValue(order, bs) < Pow256(|bs|)
    ensures HostImage(order, ImageValue(order, bs), |bs|) == bs
  {
    match order
    case LittleEndian =>
      LeValueBound(bs);
      LeBytesOfLeValue(bs);
    case BigEndian =>
      LeValueBound(Reverse(bs));
      LeBytesOfLeValue(Reverse(bs));
      ReverseReverse(bs);
  }

  lemma ImageValueOfImage(order: ByteOrder, u: nat, n: nat)
    requires u < Pow256(n)
    ensures ImageValue(order, HostImage(order, u, n)) == u
  {
    LeValueOfLeBytes(u, n);
    if order == BigEndian {
      ReverseReverse(LeBytes(u, n));
    }
  }

  /** The bytes cipc puts on the wire for x: little-endian two's complement. */
  function WireBytes(k: IntKind, x: int): (bs: seq<byte>)
    requires InRange(k, x)
    ensures |bs| == Size(k)
  {
    LeBytes(ToUnsigned(k, x), Size(k))
  }

  /** The value of type k whose wire bytes are `bs`. */
  function FromWire(k: IntKind, bs: seq<byte>): (x: int)
    requires |bs| == Size(k)
    ensures InRange(k, x)
  {
    LeValueBound(bs);
    FromUnsigned(k, LeValue(bs))
  }

  /** The wire bytes are the value's base-256 digits, two's complement for negatives. */
  lemma WireBytesAreDigits(k: IntKind, x: int)
    requires InRange(k, x)
    ensures WireBytes(k, x) == LeBytes(x, Size(k))
    ensures x >= 0 ==> LeValue(WireBytes(k, x)) == x
  {
    LeBytesOfToUnsigned(k, x);
    if x >= 0 {
      LeValueOfLeBytes(x, Size(k));
    }
  }

  lemma FromWireOfWireBytes(k: IntKind, x: int)
    requires InRange(k, x)
    ensures FromWire(k, WireBytes(k, x)) == x
  {
    LeValueOfLeBytes(ToUnsigned(k, x), Size(k));
  }

  lemma WireBytesOfFromWire(k: IntKind, bs: seq<byte>)
    requires |bs| == Size(k)
    ensures WireBytes(k, FromWire(k, bs)) == bs
  {
    LeValueBound(bs);
    ToUnsignedFromUnsigned(k, LeValue(bs));
    LeBytesOfLeValue(bs);
  }

  /**
   * The portable branch of `host_to_le`: the bytes of x are peeled off
   * into a local array with `& 0xFF` and `>>= 8` (an arithmetic shift for
   * negative values), and the array is read back as a word.
   */
  method HostToLePortable(order: ByteOrder, k: IntKind, x: int) returns (u: nat)
    requires InRange(k, x)
    ensures u < Modulus(k)
    ensures HostImage(order, u, Size(k)) == WireBytes(k, x)
  {
    var n := Size(k);
    ghost var digits := LeBytes(x, n);
    var bytes := new byte[n];
    var y := x;
    var i := 0;
    while i < n
      invariant 0 <= i <= n
      invariant bytes[..i] == digits[..i]
      invariant LeBytes(y, n - i) == digits[i..]
    {
      PeelByte(digits, i, y);
      bytes[i] := y % 0x100;
      assert bytes[..i + 1] == digits[..i + 1];
      y := y / 0x100;
      i := i + 1;
    }
    assert bytes[..] == bytes[..n] && digits == digits[..n];
    PeeledBytesAreWire(order, k, x, bytes[..]);
    u := ImageValue(order, bytes[..]);
  }

  /** Taking the low byte off y yields the next digit and leaves the rest to y / 256. */
  lemma PeelByte(digits: seq<byte>, i: nat, y: int)
    requires i < |digits| && LeBytes(y, |digits| - i) == digits[i..]
    ensures digits[i] == y % 0x100
    ensures LeBytes(y / 0x100, |digits| - i - 1) == digits[i + 1..]
  {
    assert digits[i..][1..] == digits[i + 1..];
  }

  /** Reading back the peeled-off digits of x gives a word whose image is the wire bytes. */
  lemma PeeledBytesAreWire(order: ByteOrder, k: IntKind, x: int, bs: seq<byte>)
    requires InRange(k, x) && bs == LeBytes(x, Size(k))
    ensures ImageValue(order, bs) < Modulus(k)
    ensures HostImage(order, ImageValue(order, bs), Size(k)) == WireBytes(k, x)
  {
    ImageOfImageValue(order, bs);
    LeBytesOfToUnsigned(k, x);
  }

  /** On a big-endian host, the byte-swapped word has the wire bytes as its image. */
  lemma SwappedImageIsWire(k: IntKind, x: int)
    requires InRange(k, x)
    requires Size(k) == 1 || Size(k) == 2 || Size(k) == 4 || Size(k) == 8
    ensures ByteSwap(true, Size(k), ToUnsigned(k, x)) < Modulus(k)
    ensures HostImage(BigEndian, ByteSwap(true, Size(k), ToUnsigned(k, x)), Size(k)) == WireBytes(k, x)
  {
    ByteSwapReverses(true, Size(k), ToUnsigned(k, x));
    ReverseReverse(LeBytes(ToUnsigned(k, x), Size(k)));
  }

  /** `host_to_le<T>`: the word whose image is the wire bytes of x. */
  method HostToLe(cfg: Config, k: IntKind, x: int) returns (u: nat)
    requires InRange(k, x)
    ensures u < Modulus(k)
    ensures Consistent(cfg) ==> HostImage(cfg.order, u, Size(k)) == WireBytes(k, x)
  {
    match BranchOf(cfg)
    case CastBranch =>
      u := ToUnsigned(k, x);
    case SwapBranch =>
      assert Size(k) == 1 || Size(k) == 2 || Size(k) == 4 || Size(k) == 8;
      SwappedImageIsWire(k, x);
      u := ByteSwap(true, Size(k), ToUnsigned(k, x));
    case PortableBranch =>
      u := HostToLePortable(cfg.order, k, x);
  }

  /** Shifting a byte in below a converted value, as `le_to_host` does. */
  lemma ShiftInByte(k: IntKind, v: int, b: byte)
    ensures Wrap(k, Wrap(k, Wrap(k, v) * 0x100) + b) == Wrap(k, b + 0x100 * v)
  {
    WrapTimes256(k, v);
    WrapPlus(k, 0x100 * v, b);
  }

  /** Converting before `<< 8` gives the same result as converting after. */
  lemma WrapTimes256(k: IntKind, v: int)
    ensures Wrap(k, Wrap(k, v) * 0x100) == Wrap(k, 0x100 * v)
  {
    var t := WrapOffset(k, v);
    assert Wrap(k, v) * 0x100 == 0x100 * v + Modulus(k) * (0x100 * t);
    WrapShift(k, 0x100 * v, 0x100 * t);
  }

  /** Converting before adding gives the same result as converting after. */
  lemma WrapPlus(k: IntKind, v: int, b: int)
    ensures Wrap(k, Wrap(k, v) + b) == Wrap(k, b + v)
  {
    var t := WrapOffset(k, v);
    WrapShift(k, b + v, t);
  }

  /** Shifting in the digit at j extends the suffix of the word read so far. */
  lemma ShiftInDigit(k: IntKind, bs: seq<byte>, j: nat, r: int)
    requires j < |bs| && r == Wrap(k, LeValue(bs[j + 1..]))
    ensures Wrap(k, Wrap(k, r * 0x100) + bs[j]) == Wrap(k, LeValue(bs[j..]))
  {
    ShiftInByte(k, LeValue(bs[j + 1..]), bs[j]);
    assert bs[j..][1..] == bs[j + 1..];
  }

  /**
   * The portable branch of `le_to_host`: the bytes of the word's image
   * are taken from the last to the first.
   */
  method LeToHostPortable(order: ByteOrder, k: IntKind, u: nat) returns (x: int)
    requires u < Modulus(k)
    ensures x == FromWire(k, HostImage(order, u, Size(k)))
  {
    var bytes := HostImage(order, u, Size(k));
    x := ShiftInBytes(k, bytes);
  }

  /**
   * The loop of the portable `le_to_host` over the bytes of the image:
   * each byte, last to first, is shifted in below the result with
   * `<<= 8` and `|=`. Both operators convert back to T, so each step is
   * a `Wrap`; after the shift the low byte of the result is clear, so
   * `|=` with a byte is an addition.
   */
  method ShiftInBytes(k: IntKind, bytes: seq<byte>) returns (result: int)
    requires |bytes| == Size(k)
    ensures result == FromWire(k, bytes)
  {
    var n := Size(k);
    result := 0;
    var i := 0;
    WrapInRange(k, 0);
    while i < n
      invariant 0 <= i <= n
      invariant result == Wrap(k, LeValue(bytes[n - i..]))
    {
      ghost var j := n - 1 - i;
      ShiftInDigit(k, bytes, j, result);
      result := Wrap(k, result * 0x100);
      result := Wrap(k, result + bytes[n - 1 - i]);
      i := i + 1;
      assert n - i == j;
    }
    assert bytes[n - n..] == bytes;
    WrapOfWord(k, bytes);
  }

  /** Converting the word spelled by a full image to T is reading it as wire bytes. */
  lemma WrapOfWord(k: IntKind, bs: seq<byte>)
    requires |bs| == Size(k)
    ensures Wrap(k, LeValue(bs)) == FromWire(k, bs)
  {
    LeValueBound(bs);
    WrapUnsigned(k, LeValue(bs));
  }

  /** On a big-endian host, byte-swapping a word gives the number its image spells. */
  lemma SwappedWordIsWire(k: IntKind, u: nat)
    requires u < Modulus(k)
    requires Size(k) == 1 || Size(k) == 2 || Size(k) == 4 || Size(k) == 8
    ensures ByteSwap(true, Size(k), u) < Modulus(k)
    ensures FromUnsigned(k, ByteSwap(true, Size(k), u)) == FromWire(k, HostImage(BigEndian, u, Size(k)))
  {
    ByteSwapReverses(true, Size(k), u);
  }

  /** `le_to_host<T>`: the value whose wire bytes are the image of u. */
  method LeToHost(cfg: Config, k: IntKind, u: nat) returns (x: int)
    requires u < Modulus(k)
    ensures InRange(k, x)
    ensures Consistent(cfg) ==> x == FromWire(k, HostImage(cfg.order, u, Size(k)))
  {
    match BranchOf(cfg)
    case CastBranch =>
      LeValueOfLeBytes(u, Size(k));
      x := FromUnsigned(k, u);
    case SwapBranch =>
      assert Size(k) == 1 || Size(k) == 2 || Size(k) == 4 || Size(k) == 8;
      SwappedWordIsWire(k, u);
      x := FromUnsigned(k, ByteSwap(true, Size(k), u));
    case PortableBranch =>
      x := LeToHostPortable(cfg.order, k, u);
  }

  /** `le_to_host<T>(host_to_le(x)) == x` on a consistently configured host. */
  method HostRoundTrip(cfg: Config, k: IntKind, x: int) returns (y: int)
    requires InRange(k, x) && Consistent(cfg)
    ensures y == x
  {
    var u := HostToLe(cfg, k, x);
    y := LeToHost(cfg, k, u);
    ImageValueOfImage(cfg.order, u, Size(k));
    FromWireOfWireBytes(k, x);
  }
}
