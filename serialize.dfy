/**
 * `serialize` and `deserialize` for the eight integer types and `bool`
 * (cipc/serialize.cc): a value occupies `sizeof(T)` bytes of the buffer,
 * least significant first, and a buffer too small for it is refused
 * with a result of 0.
 *
 * A `void* buf` with `buf_size` bytes is an array with the offset at
 * which the pointer points; the caller guarantees that the `buf_size`
 * bytes exist.
 */
module Serialization {
  import opened Bytes
  import opened Ints
  import opened Endian

  /** `serialize<T>(x, buf, buf_size)`. */
  method Serialize(cfg: Config, k: IntKind, x: int, buf: array<byte>, offset: nat, bufSize: nat)
    returns (written: nat)
    requires InRange(k, x)
    requires offset + bufSize <= buf.Length
    modifies buf
    ensures written == (if bufSize < Size(k) then 0 else Size(k))
    ensures bufSize < Size(k) ==> buf[..] == old(buf[..])
    ensures bufSize >= Size(k) ==>
      buf[..offset] == old(buf[..offset]) &&
      buf[offset + Size(k)..] == old(buf[offset + Size(k)..])
    ensures bufSize >= Size(k) && Consistent(cfg) ==>
      buf[offset..offset + Size(k)] == WireBytes(k, x)
  {
    var n := Size(k);
    if bufSize < n {
      return 0;
    }
    var le := HostToLe(cfg, k, x);
    // memcpy(buf, &le, sizeof(le)) copies the memory image of `le`.
    var image := HostImage(cfg.order, le, n);
    forall j | 0 <= j < n {
      buf[offset + j] := image[j];
    }
    assert buf[offset..offset + n] == image;
    written := n;
  }

  /**
   * `deserialize<T>(x, buf, buf_size)`: `x` is the value `*x` held
   * before the call, returned unchanged when the buffer is too small.
   */
  method Deserialize(cfg: Config, k: IntKind, x: int, buf: array<byte>, offset: nat, bufSize: nat)
    returns (read: nat, value: int)
    requires offset + bufSize <= buf.Length
    ensures read == (if bufSize < Size(k) then 0 else Size(k))
    ensures bufSize < Size(k) ==> value == x
    ensures bufSize >= Size(k) ==> InRange(k, value)
    ensures bufSize >= Size(k) && Consistent(cfg) ==>
      value == FromWire(k, buf[offset..offset + Size(k)])
  {
    var n := Size(k);
    if bufSize < n {
      return 0, x;
    }
    // memcpy(&le, buf, sizeof(le)) gives `le` the buffer's bytes as its image.
    var bytes := buf[offset..offset + n];
    ImageOfImageValue(cfg.order, bytes);
    var le := ImageValue(cfg.order, bytes);
    value := LeToHost(cfg, k, le);
    read := n;
  }

  /** `serialize<bool>`: the value converted to `std::uint8_t`, 1 or 0. */
  method SerializeBool(cfg: Config, x: bool, buf: array<byte>, offset: nat, bufSize: nat)
    returns (written: nat)
    requires offset + bufSize <= buf.Length
    modifies buf
    ensures written == (if bufSize < 1 then 0 else 1)
    ensures bufSize < 1 ==> buf[..] == old(buf[..])
    ensures bufSize >= 1 ==>
      buf[..offset] == old(buf[..offset]) && buf[offset + 1..] == old(buf[offset + 1..])
    ensures bufSize >= 1 && Consistent(cfg) ==> buf[offset] == (if x then 1 else 0)
  {
    written := Serialize(cfg, U8, if x then 1 else 0, buf, offset, bufSize);
    if bufSize >= 1 && Consistent(cfg) {
      assert buf[offset..offset + 1] == [buf[offset]];
    }
  }

  /**
   * `deserialize<bool>`: the byte is stored into the `bool` through a
   * `std::uint8_t*`; reading it back as a `bool` is modelled as "not zero".
   */
  method DeserializeBool(cfg: Config, x: bool, buf: array<byte>, offset: nat, bufSize: nat)
    returns (read: nat, value: bool)
    requires offset + bufSize <= buf.Length
    ensures read == (if bufSize < 1 then 0 else 1)
    ensures bufSize < 1 ==> value == x
    ensures bufSize >= 1 && Consistent(cfg) ==> value == (buf[offset] != 0)
  {
    var byte;
    read, byte := Deserialize(cfg, U8, if x then 1 else 0, buf, offset, bufSize);
    if bufSize < 1 {
      value := x;
    } else {
      value := byte != 0;
      if Consistent(cfg) {
        assert buf[offset..offset + 1] == [buf[offset]];
      }
    }
  }

  /**
   * The round trip of the number tests: x is serialized into a zeroed
   * 128-byte buffer and deserialized into a zero-initialised result.
   */
  method RoundTrip(cfg: Config, k: IntKind, x: int) returns (written: nat, read: nat, result: int)
    requires InRange(k, x) && Consistent(cfg)
    ensures written == Size(k) && read == Size(k)
    ensures result == x
  {
    var buf := new byte[128];
    written := Serialize(cfg, k, x, buf, 0, buf.Length);
    read, result := Deserialize(cfg, k, 0, buf, 0, buf.Length);
    FromWireOfWireBytes(k, x);
  }

  /** The round trip of the `bool` tests. */
  method RoundTripBool(cfg: Config, x: bool) returns (written: nat, read: nat, result: bool)
    requires Consistent(cfg)
    ensures written == 1 && read == 1
    ensures result == x
  {
    var buf := new byte[128];
    written := SerializeBool(cfg, x, buf, 0, buf.Length);
    read, result := DeserializeBool(cfg, false, buf, 0, buf.Length);
  }
}
