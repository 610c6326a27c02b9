/**
 * The cipc message frame (cipc/msg.cc, cipc/msg.h).
 *
 * A request is a 16-byte header followed by the serialized arguments:
 *
 *   offset 0  preamble 'C'           (1 byte)
 *   offset 1  message type, 1        (1 byte)
 *   offset 2  call id                (uint16, little-endian)
 *   offset 4  method id              (uint32, little-endian)
 *   offset 8  object id              (uint64, little-endian)
 *   offset 16 arguments
 *
 * A response is a 4-byte header (preamble, type 2, call id) followed by
 * the serialized return value.
 */
module Messages {
  import opened Bytes
  import opened Ints
  import opened ByteSwaps
  import opened Endian
  import opened Serialization

  /** `Msg::Type`. */
  datatype MsgType = Request | Response

  /** The enumerator's value, which is what the type byte holds. */
  function TypeCode(t: MsgType): byte {
    match t
    case Request => 1
    case Response => 2
  }

  /** `kPreamble`: the character 'C'. */
  const Preamble: byte := 0x43

  /** `sizeof(Msg::Preamble)`: the preamble is a single character. */
  const PreambleSize: nat := 1

  /** The width of the type field. */
  const TypeSize: nat := 1

  const HeaderSize: nat := PreambleSize + TypeSize + 2
  const TypeOffset: nat := PreambleSize
  const CallIdOffset: nat := TypeOffset + TypeSize
  const MethodIdOffset: nat := CallIdOffset + 2
  const ObjectIdOffset: nat := MethodIdOffset + 4
  const ArgsOffset: nat := ObjectIdOffset + 8
  const RvOffset: nat := CallIdOffset + 2

  /** The size `PrepareRequestPrefix` gives a request with `argsSize` bytes of arguments. */
  function RequestSize(argsSize: nat): nat {
    HeaderSize + 8 + 4 + argsSize
  }

  /** The size `PrepareResponsePrefix` gives a response with `rvSize` bytes of return value. */
  function ResponseSize(rvSize: nat): nat {
    HeaderSize + rvSize
  }

  /** The bytes a resized `std::vector<std::uint8_t>` is filled with. */
  function Zeros(n: nat): (z: seq<byte>)
    ensures |z| == n
  {
    seq(n, _ => 0)
  }

  /**
   * Writing bytes just after a written prefix, over zeros, extends the
   * prefix and leaves zeros behind it.
   */
  lemma ZerosAfterWrite(prefix: seq<byte>, bytes: seq<byte>, n: nat)
    requires |bytes| <= n
    ensures (prefix + Zeros(n))[..|prefix|] == prefix
    ensures (prefix + Zeros(n))[|prefix| + |bytes|..] == Zeros(n - |bytes|)
  {
    assert (prefix + Zeros(n))[..|prefix|] == prefix;
    assert (prefix + Zeros(n))[|prefix| + |bytes|..] == Zeros(n - |bytes|);
  }

  /** The header of a request: preamble, type, call id, method id, object id. */
  function RequestHeader(call: uint16, methodId: uint32, obj: uint64): (bs: seq<byte>)
    ensures |bs| == ArgsOffset
  {
    [Preamble, TypeCode(Request)] + WireBytes(U16, call) + WireBytes(U32, methodId) + WireBytes(U64, obj)
  }

  /** The header of a response: preamble, type, call id. */
  function ResponseHeader(call: uint16): (bs: seq<byte>)
    ensures |bs| == RvOffset
  {
    [Preamble, TypeCode(Response)] + WireBytes(U16, call)
  }

  /** Each field of a request header is found at its offset. */
  lemma RequestHeaderFields(call: uint16, methodId: uint32, obj: uint64)
    ensures RequestHeader(call, methodId, obj)[0] == Preamble
    ensures RequestHeader(call, methodId, obj)[TypeOffset] == TypeCode(Request)
    ensures FromWire(U16, RequestHeader(call, methodId, obj)[CallIdOffset..MethodIdOffset]) == call
    ensures FromWire(U32, RequestHeader(call, methodId, obj)[MethodIdOffset..ObjectIdOffset]) == methodId
    ensures FromWire(U64, RequestHeader(call, methodId, obj)[ObjectIdOffset..ArgsOffset]) == obj
  {
    var h := RequestHeader(call, methodId, obj);
    assert h[CallIdOffset..MethodIdOffset] == WireBytes(U16, call);
    assert h[MethodIdOffset..ObjectIdOffset] == WireBytes(U32, methodId);
    assert h[ObjectIdOffset..ArgsOffset] == WireBytes(U64, obj);
    FromWireOfWireBytes(U16, call);
    FromWireOfWireBytes(U32, methodId);
    FromWireOfWireBytes(U64, obj);
  }

  /** Each field of a response header is found at its offset. */
  lemma ResponseHeaderFields(call: uint16)
    ensures ResponseHeader(call)[0] == Preamble
    ensures ResponseHeader(call)[TypeOffset] == TypeCode(Response)
    ensures FromWire(U16, ResponseHeader(call)[CallIdOffset..RvOffset]) == call
  {
    assert ResponseHeader(call)[CallIdOffset..RvOffset] == WireBytes(U16, call);
    FromWireOfWireBytes(U16, call);
  }

  /** Two requests with the same header bytes carry the same fields. */
  lemma RequestHeaderInjective(c1: uint16, m1: uint32, o1: uint64, c2: uint16, m2: uint32, o2: uint64)
    requires RequestHeader(c1, m1, o1) == RequestHeader(c2, m2, o2)
    ensures c1 == c2 && m1 == m2 && o1 == o2
  {
    RequestHeaderFields(c1, m1, o1);
    RequestHeaderFields(c2, m2, o2);
  }

  /** One argument of a call: a value of one of the serializable integer types. */
  datatype Arg = Arg(kind: IntKind, value: int)

  predicate ValidArgs(args: seq<Arg>) {
    forall i :: 0 <= i < |args| ==> InRange(args[i].kind, args[i].value)
  }

  /** The sum of the sizes of the first n arguments. */
  function PrefixSize(args: seq<Arg>, n: nat): nat
    requires n <= |args|
  {
    if n == 0 then 0 else PrefixSize(args, n - 1) + Size(args[n - 1].kind)
  }

  /** The first n arguments serialized one after the other. */
  function EncodePrefix(args: seq<Arg>, n: nat): (bs: seq<byte>)
    requires ValidArgs(args) && n <= |args|
    ensures |bs| == PrefixSize(args, n)
  {
    if n == 0 then [] else EncodePrefix(args, n - 1) + WireBytes(args[n - 1].kind, args[n - 1].value)
  }

  /** The sum of the arguments' sizes. */
  function ArgsSize(args: seq<Arg>): nat {
    PrefixSize(args, |args|)
  }

  /** All the arguments serialized one after the other. */
  function EncodeArgs(args: seq<Arg>): (bs: seq<byte>)
    requires ValidArgs(args)
    ensures |bs| == ArgsSize(args)
  {
    EncodePrefix(args, |args|)
  }

  /** The first arguments take no more room than all of them. */
  lemma {:induction false} PrefixSizeBound(args: seq<Arg>, i: nat)
    requires i <= |args|
    ensures PrefixSize(args, i) <= ArgsSize(args)
    decreases |args| - i
  {
    if i < |args| {
      PrefixSizeBound(args, i + 1);
    }
  }

  /**
   * Bytes replaced in [pos, pos + n) leave the bytes before pos and after
   * pos + n as they were.
   */
  lemma SpliceStep(before: seq<byte>, after: seq<byte>, offset: nat, pos: nat, n: nat, end: nat)
    requires |before| == |after| && offset <= pos && pos + n <= end <= |after|
    requires after[..pos] == before[..pos] && after[pos + n..] == before[pos + n..]
    ensures after[..offset] == before[..offset] && after[end..] == before[end..]
    ensures after[offset..pos] == before[offset..pos]
    ensures after[offset..pos + n] == after[offset..pos] + after[pos..pos + n]
  {
    assert after[..offset] == after[..pos][..offset];
    assert before[..offset] == before[..pos][..offset];
    assert after[offset..pos] == after[..pos][offset..];
    assert before[offset..pos] == before[..pos][offset..];
    assert after[end..] == after[pos + n..][end - pos - n..];
    assert before[end..] == before[pos + n..][end - pos - n..];
  }

  /**
   * The state of serializing the arguments into bs, which started as
   * `initial`: the first i arguments are written from `offset` up to `pos`,
   * and nothing outside [offset, end) has changed.
   */
  ghost predicate Written(cfg: Config, bs: seq<byte>, initial: seq<byte>, offset: nat, end: nat,
                          args: seq<Arg>, i: nat, pos: nat)
    requires ValidArgs(args) && i <= |args|
  {
    |bs| == |initial| && pos == offset + PrefixSize(args, i) <= end <= |bs|
    && bs[..offset] == initial[..offset] && bs[end..] == initial[end..]
    && (Consistent(cfg) ==> bs[offset..pos] == EncodePrefix(args, i))
  }

  /**
   * Argument i serialized at `pos`, just after the first i arguments and
   * before `end`, where the arguments' room ends.
   */
  method SerializeArgAt(cfg: Config, buf: array<byte>, offset: nat, end: nat, args: seq<Arg>, i: nat, pos: nat,
                        ghost initial: seq<byte>)
    returns (next: nat)
    requires ValidArgs(args) && i < |args| && end == offset + ArgsSize(args)
    requires Written(cfg, buf[..], initial, offset, end, args, i, pos)
    modifies buf
    ensures Written(cfg, buf[..], initial, offset, end, args, i + 1, next)
  {
    PrefixSizeBound(args, i + 1);
    ghost var before := buf[..];
    var arg := args[i];
    var written := Serialize(cfg, arg.kind, arg.value, buf, pos, end - pos);
    next := pos + written;
    WrittenStep(cfg, before, buf[..], initial, offset, end, args, i, pos);
  }

  /** Argument i written at `pos` over a state with i arguments written gives one with i + 1. */
  lemma WrittenStep(cfg: Config, before: seq<byte>, after: seq<byte>, initial: seq<byte>, offset: nat, end: nat,
                    args: seq<Arg>, i: nat, pos: nat)
    requires ValidArgs(args) && i < |args| && offset + PrefixSize(args, i + 1) <= end
    requires Written(cfg, before, initial, offset, end, args, i, pos) && |after| == |before|
    requires var n := Size(args[i].kind);
      after[..pos] == before[..pos] && after[pos + n..] == before[pos + n..]
      && (Consistent(cfg) ==> after[pos..pos + n] == WireBytes(args[i].kind, args[i].value))
    ensures Written(cfg, after, initial, offset, end, args, i + 1, pos + Size(args[i].kind))
  {
    var n := Size(args[i].kind);
    SpliceStep(before, after, offset, pos, n, end);
    if Consistent(cfg) {
      assert EncodePrefix(args, i + 1) == EncodePrefix(args, i) + WireBytes(args[i].kind, args[i].value);
    }
  }

  /**
   * The arguments serialized one after the other from `offset`, each into
   * the room the previous ones left.
   */
  method SerializeArgs(cfg: Config, buf: array<byte>, offset: nat, args: seq<Arg>)
    requires ValidArgs(args)
    requires offset + ArgsSize(args) <= buf.Length
    modifies buf
    ensures buf[..offset] == old(buf[..offset])
    ensures buf[offset + ArgsSize(args)..] == old(buf[offset + ArgsSize(args)..])
    ensures Consistent(cfg) ==> buf[offset..offset + ArgsSize(args)] == EncodeArgs(args)
  {
    ghost var initial := buf[..];
    var i := 0;
    var pos := offset;
    var end := offset + ArgsSize(args);
    assert buf[..offset] == initial[..offset];
    while i < |args|
      invariant 0 <= i <= |args|
      invariant Written(cfg, buf[..], initial, offset, end, args, i, pos)
    {
      pos := SerializeArgAt(cfg, buf, offset, end, args, i, pos, initial);
      i := i + 1;
    }
    assert buf[..offset] == initial[..offset] && buf[end..] == initial[end..];
  }

  /** `Msg`: a frame held in a byte vector. */
  class Msg {
    /** `data_`. */
    var data: array<byte>

    /** `Msg()`: an empty frame. */
    constructor ()
      ensures fresh(data) && data.Length == 0
    {
      data := new byte[0];
    }

    /** `Msg(data, size)`: a copy of the `size` bytes at `data`. */
    constructor FromBytes(src: array<byte>, size: nat)
      requires size <= src.Length
      ensures fresh(data) && data[..] == src[..size]
    {
      var copy := new byte[size];
      forall i | 0 <= i < size {
        copy[i] := src[i];
      }
      data := copy;
    }

    /** `data_.resize(n)`: kept bytes are unchanged, new bytes are zero. */
    method Resize(n: nat)
      modifies this
      ensures fresh(data) && data.Length == n
      ensures n <= old(data.Length) ==> data[..] == old(data[..n])
      ensures n > old(data.Length) ==> data[..] == old(data[..]) + Zeros(n - old(data.Length))
    {
      var bigger := new byte[n];
      var keep := if n <= data.Length then n else data.Length;
      forall i | 0 <= i < n {
        bigger[i] := if i < keep then data[i] else 0;
      }
      data := bigger;
    }

    /**
     * `Write(offset, data, size)`: the bytes replace the frame's bytes at
     * the offset. `Write<T>(offset, value)` passes the memory image of the
     * value, `HostImage`.
     */
    method Write(offset: nat, bytes: seq<byte>)
      requires offset + |bytes| <= data.Length
      modifies data
      ensures data[..] == old(data[..offset]) + bytes + old(data[offset + |bytes|..])
    {
      forall j | 0 <= j < |bytes| {
        data[offset + j] := bytes[j];
      }
    }

    /**
     * `Write`, in a frame whose bytes from the offset on are still zero:
     * the written bytes extend the filled-in prefix.
     */
    method WriteOverZeros(offset: nat, bytes: seq<byte>, ghost prefix: seq<byte>, ghost n: nat)
      requires data[..] == prefix + Zeros(n) && offset == |prefix| && |bytes| <= n
      modifies data
      ensures data[..] == (prefix + bytes) + Zeros(n - |bytes|)
    {
      ZerosAfterWrite(prefix, bytes, n);
      Write(offset, bytes);
    }

    /** `Read<T>(offset)`: the n-byte value whose memory image is at the offset. */
    function ReadValue(order: ByteOrder, offset: nat, n: nat): (u: nat)
      reads this, data
      requires offset + n <= data.Length
      ensures u < Pow256(n)
      ensures HostImage(order, u, n) == data[offset..offset + n]
    {
      ImageOfImageValue(order, data[offset..offset + n]);
      ImageValue(order, data[offset..offset + n])
    }

    /** `preamble()`: a one-byte read sees the same byte on every host. */
    function PreambleByte(): byte
      reads this, data
      requires PreambleSize <= data.Length
    {
      data[0]
    }

    /** `type()`: the type byte; it need not be one of the enumerators. */
    function TypeByte(): byte
      reads this, data
      requires TypeOffset + TypeSize <= data.Length
    {
      data[TypeOffset]
    }

    /** `call_id()`, read back with `le_to_host`. */
    method CallId(cfg: Config) returns (id: int)
      requires MethodIdOffset <= data.Length
      ensures InRange(U16, id)
      ensures Consistent(cfg) ==> id == FromWire(U16, data[CallIdOffset..MethodIdOffset])
    {
      var le := ReadValue(cfg.order, CallIdOffset, 2);
      id := LeToHost(cfg, U16, le);
    }

    /** `method_id()` corrected: the raw read decoded with `le_to_host`. */
    method MethodId(cfg: Config) returns (id: int)
      requires ObjectIdOffset <= data.Length
      requires TypeByte() == TypeCode(Request)
      ensures InRange(U32, id)
      ensures Consistent(cfg) ==> id == FromWire(U32, data[MethodIdOffset..ObjectIdOffset])
    {
      var le := ReadValue(cfg.order, MethodIdOffset, 4);
      id := LeToHost(cfg, U32, le);
    }

    /** `object_id()`: all eight bytes, read back with `le_to_host`. */
    method ObjectId(cfg: Config) returns (id: int)
      requires ArgsOffset <= data.Length
      requires TypeByte() == TypeCode(Request)
      ensures InRange(U64, id)
      ensures Consistent(cfg) ==> id == FromWire(U64, data[ObjectIdOffset..ArgsOffset])
    {
      var le := ReadValue(cfg.order, ObjectIdOffset, 8);
      id := LeToHost(cfg, U64, le);
    }

    /** `call_id()` as written: the raw memory value, without `le_to_host`. */
    function CallIdAsWritten(order: ByteOrder): uint16
      reads this, data
      requires MethodIdOffset <= data.Length
    {
      Pow256Values();
      ReadValue(order, CallIdOffset, 2)
    }

    /** `method_id()` as written: the raw memory value, without `le_to_host`. */
    function MethodIdAsWritten(order: ByteOrder): uint32
      reads this, data
      requires ObjectIdOffset <= data.Length
      requires TypeByte() == TypeCode(Request)
    {
      Pow256Values();
      ReadValue(order, MethodIdOffset, 4)
    }

    /** `object_id()` as written: a `MethodId`-wide raw read at the object id's offset. */
    function ObjectIdAsWritten(order: ByteOrder): uint32
      reads this, data
      requires ObjectIdOffset + 4 <= data.Length
      requires TypeByte() == TypeCode(Request)
    {
      Pow256Values();
      ReadValue(order, ObjectIdOffset, 4)
    }

    /** `args_data()`: the bytes after the request header. */
    function ArgsData(): (args: seq<byte>)
      reads this, data
      requires ArgsOffset <= data.Length
      requires TypeByte() == TypeCode(Request)
      ensures |args| == data.Length - ArgsOffset
      ensures data[..] == data[..ArgsOffset] + args
    {
      data[ArgsOffset..]
    }

    /** `return_value()`: the bytes after the response header. */
    function ReturnValue(): (rv: seq<byte>)
      reads this, data
      requires RvOffset <= data.Length
      requires TypeByte() == TypeCode(Response)
      ensures |rv| == data.Length - RvOffset
      ensures data[..] == data[..RvOffset] + rv
    {
      data[RvOffset..]
    }

    /**
     * `PrepareRequestPrefix`: a frame sized for the arguments, with the
     * header filled in and the argument bytes zero.
     */
    static method PrepareRequestPrefix(cfg: Config, call: uint16, methodId: uint32, obj: uint64, argsSize: nat)
      returns (msg: Msg)
      ensures fresh(msg) && fresh(msg.data)
      ensures msg.data.Length == RequestSize(argsSize)
      ensures msg.data[0] == Preamble && msg.data[TypeOffset] == TypeCode(Request)
      ensures Consistent(cfg) ==> msg.data[..ArgsOffset] == RequestHeader(call, methodId, obj)
      ensures msg.data[ArgsOffset..] == Zeros(argsSize)
    {
      msg := new Msg();
      var n := RequestSize(argsSize);
      msg.Resize(n);
      assert msg.data[..] == [] + Zeros(n);
      msg.WriteOverZeros(0, [Preamble], [], n);
      msg.WriteOverZeros(TypeOffset, [TypeCode(Request)], [Preamble], n - 1);
      ghost var header := [Preamble, TypeCode(Request)];
      var le := HostToLe(cfg, U16, call);
      msg.WriteOverZeros(CallIdOffset, HostImage(cfg.order, le, 2), header, n - 2);
      header := header + HostImage(cfg.order, le, 2);
      le := HostToLe(cfg, U32, methodId);
      msg.WriteOverZeros(MethodIdOffset, HostImage(cfg.order, le, 4), header, n - 4);
      header := header + HostImage(cfg.order, le, 4);
      le := HostToLe(cfg, U64, obj);
      msg.WriteOverZeros(ObjectIdOffset, HostImage(cfg.order, le, 8), header, n - 8);
      header := header + HostImage(cfg.order, le, 8);
    }

    /**
     * `BuildRequest(call, method, obj, args...)`: the prefix sized for
     * the arguments, then the arguments serialized in order after the header.
     */
    static method BuildRequest(cfg: Config, call: uint16, methodId: uint32, obj: uint64, args: seq<Arg>)
      returns (msg: Msg)
      requires ValidArgs(args)
      ensures fresh(msg) && fresh(msg.data)
      ensures msg.data.Length == RequestSize(ArgsSize(args))
      ensures Consistent(cfg) ==> msg.data[..] == RequestHeader(call, methodId, obj) + EncodeArgs(args)
    {
      msg := PrepareRequestPrefix(cfg, call, methodId, obj, ArgsSize(args));
      SerializeArgs(cfg, msg.data, ArgsOffset, args);
      assert msg.data[..] == msg.data[..ArgsOffset] + msg.data[ArgsOffset..ArgsOffset + ArgsSize(args)];
    }

    /**
     * `PrepareResponsePrefix`: a frame sized for the return value, with
     * the header filled in and the return value bytes zero.
     */
    static method PrepareResponsePrefix(cfg: Config, call: uint16, rvSize: nat) returns (msg: Msg)
      ensures fresh(msg) && fresh(msg.data)
      ensures msg.data.Length == ResponseSize(rvSize)
      ensures msg.data[0] == Preamble && msg.data[TypeOffset] == TypeCode(Response)
      ensures Consistent(cfg) ==> msg.data[..RvOffset] == ResponseHeader(call)
      ensures msg.data[RvOffset..] == Zeros(rvSize)
    {
      msg := new Msg();
      var n := ResponseSize(rvSize);
      msg.Resize(n);
      assert msg.data[..] == [] + Zeros(n);
      msg.WriteOverZeros(0, [Preamble], [], n);
      msg.WriteOverZeros(TypeOffset, [TypeCode(Response)], [Preamble], n - 1);
      ghost var header := [Preamble, TypeCode(Response)];
      var le := HostToLe(cfg, U16, call);
      msg.WriteOverZeros(CallIdOffset, HostImage(cfg.order, le, 2), header, n - 2);
      header := header + HostImage(cfg.order, le, 2);
    }

    /** `BuildResponse(call, rv)`: the prefix sized for the value, then the value. */
    static method BuildResponse(cfg: Config, call: uint16, rv: Arg) returns (msg: Msg)
      requires InRange(rv.kind, rv.value)
      ensures fresh(msg) && fresh(msg.data)
      ensures msg.data.Length == ResponseSize(Size(rv.kind))
      ensures Consistent(cfg) ==> msg.data[..] == ResponseHeader(call) + WireBytes(rv.kind, rv.value)
    {
      msg := PrepareResponsePrefix(cfg, call, Size(rv.kind));
      var written := Serialize(cfg, rv.kind, rv.value, msg.data, RvOffset, Size(rv.kind));
      assert msg.data[..] == msg.data[..RvOffset] + msg.data[RvOffset..RvOffset + Size(rv.kind)];
    }
  }

  /** The arguments of the request test: a uint32, a uint16 and a uint64. */
  const TestArgs: seq<Arg> := [Arg(U32, 0xDEAD_BEEF), Arg(U16, 0xBEEF), Arg(U64, 0xA1B1_C1D1_A2B2_C2D2)]

  /** The 30 bytes the request test expects, field by field. */
  const ExpectedRequest: seq<byte> :=
    [0x43, 0x01] + [0xCD, 0xAB]
    + [0x44, 0x33, 0x22, 0x11]
    + [0x88, 0x77, 0x66, 0x55, 0x44, 0x33, 0x22, 0x11]
    + [0xEF, 0xBE, 0xAD, 0xDE]
    + [0xEF, 0xBE]
    + [0xD2, 0xC2, 0xB2, 0xA2, 0xD1, 0xC1, 0xB1, 0xA1]

  /** The 8 bytes the response test expects. */
  const ExpectedResponse: seq<byte> := [0x43, 0x02] + [0xCD, 0xAB] + [0xEF, 0xBE, 0xAD, 0xDE]

  /**
   * The request test: the frame built for call 0xABCD, method 0x11223344,
   * object 0x1122334455667788 and the three arguments, and the fields
   * read back from it.
   */
  method SimpleRequestCreation(cfg: Config) returns (preamble: byte, msgType: byte, callId: int, frame: seq<byte>)
    requires Consistent(cfg)
    ensures preamble == Preamble && msgType == TypeCode(Request) && callId == 0xABCD
    ensures frame == ExpectedRequest
  {
    var msg := Msg.BuildRequest(cfg, 0xABCD, 0x1122_3344, 0x1122_3344_5566_7788, TestArgs);
    TestRequestBytes();
    frame := msg.data[..];
    ExpectedRequestHeader(frame);
    preamble := msg.PreambleByte();
    msgType := msg.TypeByte();
    callId := msg.CallId(cfg);
  }

  /** The response test: the frame built for call 0xABCD returning the uint32 0xDEADBEEF. */
  method SimpleResponseCreation(cfg: Config) returns (preamble: byte, msgType: byte, callId: int, frame: seq<byte>)
    requires Consistent(cfg)
    ensures preamble == Preamble && msgType == TypeCode(Response) && callId == 0xABCD
    ensures frame == ExpectedResponse
  {
    var msg := Msg.BuildResponse(cfg, 0xABCD, Arg(U32, 0xDEAD_BEEF));
    TestResponseBytes();
    frame := msg.data[..];
    ExpectedResponseHeader(frame);
    preamble := msg.PreambleByte();
    msgType := msg.TypeByte();
    callId := msg.CallId(cfg);
  }

  /** The header fields of the request test's expected frame. */
  lemma ExpectedRequestHeader(frame: seq<byte>)
    requires frame == ExpectedRequest
    ensures |frame| == 30 && frame[0] == Preamble && frame[TypeOffset] == TypeCode(Request)
    ensures FromWire(U16, frame[CallIdOffset..MethodIdOffset]) == 0xABCD
  {
    assert frame[CallIdOffset..MethodIdOffset] == [0xCD, 0xAB];
    assert LeValue([0xCD, 0xAB]) == 0xABCD;
  }

  /** The header fields of the response test's expected frame. */
  lemma ExpectedResponseHeader(frame: seq<byte>)
    requires frame == ExpectedResponse
    ensures |frame| == 8 && frame[0] == Preamble && frame[TypeOffset] == TypeCode(Response)
    ensures FromWire(U16, frame[CallIdOffset..MethodIdOffset]) == 0xABCD
  {
    assert frame[CallIdOffset..MethodIdOffset] == [0xCD, 0xAB];
    assert LeValue([0xCD, 0xAB]) == 0xABCD;
  }

  /** The request test's header and arguments spell the expected bytes. */
  lemma TestRequestBytes()
    ensures ValidArgs(TestArgs)
    ensures RequestHeader(0xABCD, 0x1122_3344, 0x1122_3344_5566_7788) + EncodeArgs(TestArgs) == ExpectedRequest
  {
    TestHeaderDigits();
    TestArgDigits();
    ThreeArgFrame(0xABCD, 0x1122_3344, 0x1122_3344_5566_7788, TestArgs);
  }

  /** A request with three arguments is its header fields and arguments in order. */
  lemma ThreeArgFrame(call: uint16, methodId: uint32, obj: uint64, args: seq<Arg>)
    requires |args| == 3 && ValidArgs(args)
    ensures RequestHeader(call, methodId, obj) + EncodeArgs(args) ==
      [Preamble, TypeCode(Request)] + WireBytes(U16, call) + WireBytes(U32, methodId) + WireBytes(U64, obj)
      + WireBytes(args[0].kind, args[0].value) + WireBytes(args[1].kind, args[1].value)
      + WireBytes(args[2].kind, args[2].value)
  {
    var h := RequestHeader(call, methodId, obj);
    var w0 := WireBytes(args[0].kind, args[0].value);
    var w1 := WireBytes(args[1].kind, args[1].value);
    var w2 := WireBytes(args[2].kind, args[2].value);
    assert [] + w0 == w0;
    assert EncodePrefix(args, 1) == w0;
    assert EncodePrefix(args, 2) == w0 + w1;
    assert EncodeArgs(args) == (w0 + w1) + w2;
    assert h + ((w0 + w1) + w2) == ((h + w0) + w1) + w2;
  }

  /** The wire bytes of the request test's header fields. */
  lemma TestHeaderDigits()
    ensures WireBytes(U16, 0xABCD) == [0xCD, 0xAB]
    ensures WireBytes(U32, 0x1122_3344) == [0x44, 0x33, 0x22, 0x11]
    ensures WireBytes(U64, 0x1122_3344_5566_7788) == [0x88, 0x77, 0x66, 0x55, 0x44, 0x33, 0x22, 0x11]
  {
    WireOfDigits(U16, 0xABCD, [0xCD, 0xAB]);
    WireOfDigits(U32, 0x1122_3344, [0x44, 0x33, 0x22, 0x11]);
    TestObjectDigits();
  }

  lemma TestObjectDigits()
    ensures WireBytes(U64, 0x1122_3344_5566_7788) == [0x88, 0x77, 0x66, 0x55, 0x44, 0x33, 0x22, 0x11]
  {
    WireOfDigits(U64, 0x1122_3344_5566_7788, [0x88, 0x77, 0x66, 0x55, 0x44, 0x33, 0x22, 0x11]);
  }

  /** The wire bytes of the request test's arguments. */
  lemma TestArgDigits()
    ensures WireBytes(U32, 0xDEAD_BEEF) == [0xEF, 0xBE, 0xAD, 0xDE]
    ensures WireBytes(U16, 0xBEEF) == [0xEF, 0xBE]
    ensures WireBytes(U64, 0xA1B1_C1D1_A2B2_C2D2) == [0xD2, 0xC2, 0xB2, 0xA2, 0xD1, 0xC1, 0xB1, 0xA1]
  {
    WireOfDigits(U32, 0xDEAD_BEEF, [0xEF, 0xBE, 0xAD, 0xDE]);
    WireOfDigits(U16, 0xBEEF, [0xEF, 0xBE]);
    TestArg3Digits();
  }

  lemma TestArg3Digits()
    ensures WireBytes(U64, 0xA1B1_C1D1_A2B2_C2D2) == [0xD2, 0xC2, 0xB2, 0xA2, 0xD1, 0xC1, 0xB1, 0xA1]
  {
    WireOfDigits(U64, 0xA1B1_C1D1_A2B2_C2D2, [0xD2, 0xC2, 0xB2, 0xA2, 0xD1, 0xC1, 0xB1, 0xA1]);
  }

  /** The response test's header and return value spell the expected bytes. */
  lemma TestResponseBytes()
    ensures ResponseHeader(0xABCD) + WireBytes(U32, 0xDEAD_BEEF) == ExpectedResponse
  {
    WireOfDigits(U16, 0xABCD, [0xCD, 0xAB]);
    WireOfDigits(U32, 0xDEAD_BEEF, [0xEF, 0xBE, 0xAD, 0xDE]);
  }

  /** A non-negative value's wire bytes are the base-256 digits that spell it. */
  lemma WireOfDigits(k: IntKind, x: int, digits: seq<byte>)
    requires InRange(k, x) && x >= 0
    requires |digits| == Size(k) && LeValue(digits) == x
    ensures WireBytes(k, x) == digits
  {
    LeBytesOfLeValue(digits);
  }

  /*
   * Deviations of msg.cc from the frame layout above. Each is stated
   * twice: a member that behaves as the code is written, and the
   * property the corrected member has instead.
   */

  /** The bounds check of `Write` and `Read` as written: a strict `<`. */
  predicate AccessCheckAsWritten(offset: nat, size: nat, length: nat) {
    offset + size < length
  }

  /**
   * The strict check refuses every access that ends at the frame's last
   * byte: the object id write of a request without arguments and the
   * call id access of a response without a return value.
   */
  lemma AccessCheckAsWrittenRejectsLastField(argsSize: nat, rvSize: nat)
    ensures AccessCheckAsWritten(ObjectIdOffset, 8, RequestSize(argsSize)) <==> argsSize > 0
    ensures AccessCheckAsWritten(CallIdOffset, 2, ResponseSize(rvSize)) <==> rvSize > 0
  {
  }

  /**
   * The request's type as written: `Write(kTypeOffset, Msg::Type::Request)`
   * copies the whole enum, whose underlying type is `int` (4 bytes), with
   * no `host_to_le`.
   */
  function RequestTypeImageAsWritten(order: ByteOrder): (bs: seq<byte>)
    ensures |bs| == 4
  {
    HostImage(order, TypeCode(Request), 4)
  }

  /**
   * The 4-byte request type fits in the 16-byte header, but on a
   * big-endian host its first byte, the one left at offset 1 once the
   * call id and method id are written over the next three, is 0.
   */
  lemma RequestTypeImageAsWrittenMisplaced(argsSize: nat)
    ensures TypeOffset + |RequestTypeImageAsWritten(BigEndian)| <= RequestSize(argsSize)
    ensures RequestTypeImageAsWritten(BigEndian)[0] == 0
    ensures RequestTypeImageAsWritten(LittleEndian)[0] == TypeCode(Request)
  {
    var c := TypeCode(Request);
    assert LeBytes(c, 4) == [c] + LeBytes(0, 3);
    assert LeBytes(0, 3) == [0, 0, 0];
    ReverseIndex(LeBytes(c, 4));
  }

  /**
   * The response's type as written: `Write(kTypeOffset,
   * host_to_le(Msg::Type::Response))` converts the enum to the 4-byte
   * `unsigned int` with the same size as its underlying type and writes
   * that word. The portable branch does not compile for an enum
   * (`x & 0xFF` on a scoped enumeration), so only the other two are
   * modelled. The word's bytes are the right ones, type code first, but
   * they run one byte past a response without a return value, and the
   * strict bounds check of `Write` refuses them unless the return value
   * has at least two bytes.
   */
  method ResponseTypeImageAsWritten(cfg: Config) returns (bs: seq<byte>)
    requires BranchOf(cfg) != PortableBranch
    ensures |bs| == 4
    ensures Consistent(cfg) ==> bs == [TypeCode(Response), 0, 0, 0]
    ensures TypeOffset + |bs| == ResponseSize(0) + 1
    ensures forall rvSize: nat :: AccessCheckAsWritten(TypeOffset, |bs|, ResponseSize(rvSize)) <==> rvSize >= 2
  {
    var u := HostToLe(cfg, U32, TypeCode(Response));
    bs := HostImage(cfg.order, u, 4);
    if Consistent(cfg) {
      var c := TypeCode(Response);
      assert LeBytes(c, 4) == [c] + LeBytes(0, 3);
      assert LeBytes(0, 3) == [0, 0, 0];
    }
  }

  /**
   * `object_id()` as written reads only the low four bytes of the object
   * id, and without `le_to_host`: on a little-endian host it yields the
   * object id modulo 2^32, on a big-endian one that low word byte-swapped.
   */
  lemma ObjectIdAsWrittenTruncates(msg: Msg, call: uint16, methodId: uint32, obj: uint64)
    requires ArgsOffset <= msg.data.Length
    requires msg.data[..ArgsOffset] == RequestHeader(call, methodId, obj)
    requires msg.TypeByte() == TypeCode(Request)
    ensures msg.ObjectIdAsWritten(LittleEndian) == obj % 0x1_0000_0000
    ensures obj >= 0x1_0000_0000 ==> msg.ObjectIdAsWritten(LittleEndian) != obj
    ensures msg.ObjectIdAsWritten(BigEndian) == ByteSwap32(obj % 0x1_0000_0000)
  {
    var h := RequestHeader(call, methodId, obj);
    assert h[ObjectIdOffset..ArgsOffset] == WireBytes(U64, obj);
    assert msg.data[ObjectIdOffset..ObjectIdOffset + 4] == msg.data[..ArgsOffset][ObjectIdOffset..ObjectIdOffset + 4];
    assert h[ObjectIdOffset..ObjectIdOffset + 4] == h[ObjectIdOffset..ArgsOffset][..4];
    LowWord(obj);
    var lo := obj % 0x1_0000_0000;
    ByteSwap32Reverses(lo);
    LeValueOfLeBytes(ByteSwap32(lo), 4);
  }

  /** The first four wire bytes of a uint64 spell its low word. */
  lemma LowWord(obj: uint64)
    ensures WireBytes(U64, obj)[..4] == LeBytes(obj % 0x1_0000_0000, 4)
    ensures LeValue(WireBytes(U64, obj)[..4]) == obj % 0x1_0000_0000
  {
    Pow256Values();
    var lo, hi := obj % 0x1_0000_0000, obj / 0x1_0000_0000;
    WireBytesAreDigits(U64, obj);
    LeBytesSplit(lo, hi, 4, 4);
    assert WireBytes(U64, obj)[..4] == LeBytes(lo, 4);
    LeValueOfLeBytes(lo, 4);
  }

  /** The corrected `object_id()` reads back the whole object id of a request header. */
  lemma ObjectIdReadsWholeField(msg: Msg, call: uint16, methodId: uint32, obj: uint64)
    requires ArgsOffset <= msg.data.Length
    requires msg.data[..ArgsOffset] == RequestHeader(call, methodId, obj)
    ensures FromWire(U64, msg.data[ObjectIdOffset..ArgsOffset]) == obj
  {
    RequestHeaderFields(call, methodId, obj);
    assert msg.data[ObjectIdOffset..ArgsOffset] == RequestHeader(call, methodId, obj)[ObjectIdOffset..ArgsOffset];
  }

  /**
   * `call_id()` as written returns the raw memory value of the little-endian
   * field: right on a little-endian host, byte-swapped on a big-endian one.
   */
  lemma CallIdAsWrittenSwapsOnBigEndian(msg: Msg, call: uint16)
    requires MethodIdOffset <= msg.data.Length
    requires msg.data[CallIdOffset..MethodIdOffset] == WireBytes(U16, call)
    ensures msg.CallIdAsWritten(LittleEndian) == call
    ensures msg.CallIdAsWritten(BigEndian) == (call % 0x100) * 0x100 + call / 0x100
    ensures call == 0xABCD ==> msg.CallIdAsWritten(BigEndian) == 0xCDAB
  {
    Pow256Values();
    WireBytesAreDigits(U16, call);
    LeValueOfLeBytes(call, 2);
    ByteSwap16Reverses(call);
    ByteSwap16Exchanges(call);
    LeValueOfLeBytes(ByteSwap16(call), 2);
  }

  /**
   * `method_id()` as written returns the raw memory value of the
   * little-endian field: right on a little-endian host, with its four
   * bytes reversed on a big-endian one.
   */
  lemma MethodIdAsWrittenSwapsOnBigEndian(msg: Msg, id: uint32)
    requires ObjectIdOffset <= msg.data.Length
    requires msg.TypeByte() == TypeCode(Request)
    requires msg.data[MethodIdOffset..ObjectIdOffset] == WireBytes(U32, id)
    ensures msg.MethodIdAsWritten(LittleEndian) == id
    ensures msg.MethodIdAsWritten(BigEndian) == ByteSwap32(id)
    ensures id == 0x1122_3344 ==> msg.MethodIdAsWritten(BigEndian) == 0x4433_2211
  {
    Pow256Values();
    WireBytesAreDigits(U32, id);
    LeValueOfLeBytes(id, 4);
    ByteSwap32Reverses(id);
    LeValueOfLeBytes(ByteSwap32(id), 4);
    if id == 0x1122_3344 {
      ByteSwap32Halves(id);
      ByteSwap16Exchanges(0x1122);
      ByteSwap16Exchanges(0x3344);
    }
  }
}
