/**
 * `MsgBuilder`'s argument buffer (cipc/msg.h): a growable byte buffer
 * holding the serialized arguments appended so far, `args_size_` bytes
 * of `args_capacity_`.
 */
module Builder {
  import opened Bytes
  import opened Ints
  import opened Endian
  import opened Serialization
  import opened Messages

  class MsgBuilder {
    /** `arg_buffer_`. */
    var argBuffer: array<byte>
    /** `args_size_`: the bytes appended so far. */
    var argsSize: nat
    /** `args_capacity_`: the bytes `arg_buffer_` holds. */
    var argsCapacity: nat

    /** The appended bytes fit in the buffer, whose length is the capacity. */
    ghost predicate Valid()
      reads this
    {
      argsSize <= argsCapacity == argBuffer.Length
    }

    /** The serialized arguments appended so far. */
    function Contents(): (bs: seq<byte>)
      reads this, argBuffer
      requires Valid()
      ensures |bs| == argsSize
    {
      argBuffer[..argsSize]
    }

    /** A builder with no arguments and no buffer. */
    constructor ()
      ensures Valid() && Contents() == [] && argsCapacity == 0
    {
      argBuffer := new byte[0];
      argsSize := 0;
      argsCapacity := 0;
    }

    /** `args_space()`: the unused bytes after the appended ones. */
    function ArgsSpace(): (space: nat)
      reads this
      requires Valid()
      ensures argsSize + space == argBuffer.Length
    {
      argsCapacity - argsSize
    }

    /** `args_end()`: the position just after the appended bytes, as an index. */
    function ArgsEnd(): (end: nat)
      reads this
      requires Valid()
      ensures end + ArgsSpace() == argBuffer.Length
      ensures end == argsSize
    {
      argsSize
    }

    /**
     * `EnsureArgSpace(space)`: afterwards at least `space` bytes are unused
     * and the appended bytes are unchanged. A buffer with too little room
     * is replaced by one of exactly `args_size_ + space` bytes.
     */
    method EnsureArgSpace(space: nat)
      requires Valid()
      modifies this
      ensures Valid() && ArgsSpace() >= space
      ensures argsSize == old(argsSize)
      ensures Contents() == old(Contents())
      ensures old(ArgsSpace()) >= space ==> argBuffer == old(argBuffer) && argsCapacity == old(argsCapacity)
      ensures old(ArgsSpace()) < space ==> fresh(argBuffer) && ArgsSpace() == space
    {
      if ArgsSpace() < space {
        var bigger := new byte[argsSize + space];
        forall i | 0 <= i < argsSize {
          bigger[i] := argBuffer[i];
        }
        argBuffer := bigger;
        argsCapacity := argsSize + space;
      }
    }

    /**
     * `add_arg(arg)`: the argument's serialization is appended at
     * `args_end()`, and `args_size_` grows by the bytes written.
     */
    method AddArg(cfg: Config, k: IntKind, x: int)
      requires Valid() && InRange(k, x)
      modifies this, argBuffer
      ensures Valid()
      ensures fresh(argBuffer) || argBuffer == old(argBuffer)
      ensures argsSize == old(argsSize) + Size(k)
      ensures Contents()[..old(argsSize)] == old(Contents())
      ensures Consistent(cfg) ==> Contents() == old(Contents()) + WireBytes(k, x)
    {
      // serialized_size(arg) of an integer is sizeof(arg).
      var requiredSpace := Size(k);
      EnsureArgSpace(requiredSpace);
      ghost var before := argBuffer[..];
      var writtenSize := Serialize(cfg, k, x, argBuffer, ArgsEnd(), ArgsSpace());
      assert writtenSize <= ArgsSpace();
      assert argBuffer[..argsSize] == before[..argsSize];
      argsSize := argsSize + writtenSize;
      assert Contents() == argBuffer[..old(argsSize)] + argBuffer[old(argsSize)..argsSize];
    }

    /**
     * `add_arg(arg)` as written: the same append, with the outcome of its
     * `assert(written_size < args_space())`. The strict check fails
     * exactly when the free space was at most the argument's size, which
     * includes every call that makes `EnsureArgSpace` grow the buffer.
     */
    method AddArgAsWritten(cfg: Config, k: IntKind, x: int) returns (assertHolds: bool)
      requires Valid() && InRange(k, x)
      modifies this, argBuffer
      ensures assertHolds <==> old(ArgsSpace()) > Size(k)
      ensures Valid()
      ensures fresh(argBuffer) || argBuffer == old(argBuffer)
      ensures argsSize == old(argsSize) + Size(k)
      ensures Contents()[..old(argsSize)] == old(Contents())
      ensures Consistent(cfg) ==> Contents() == old(Contents()) + WireBytes(k, x)
    {
      var requiredSpace := Size(k);
      EnsureArgSpace(requiredSpace);
      ghost var before := argBuffer[..];
      var writtenSize := Serialize(cfg, k, x, argBuffer, ArgsEnd(), ArgsSpace());
      assertHolds := writtenSize < ArgsSpace();
      assert argBuffer[..argsSize] == before[..argsSize];
      argsSize := argsSize + writtenSize;
      assert Contents() == argBuffer[..old(argsSize)] + argBuffer[old(argsSize)..argsSize];
    }

    /**
     * The first i arguments are appended after the `start` bytes that
     * were `initial`.
     */
    ghost predicate ArgsAppended(cfg: Config, initial: seq<byte>, start: nat, args: seq<Arg>, i: nat)
      reads this, argBuffer
      requires ValidArgs(args) && i <= |args|
    {
      Valid() && argsSize == start + PrefixSize(args, i) && Contents()[..start] == initial
      && (Consistent(cfg) ==> Contents() == initial + EncodePrefix(args, i))
    }

    /** The `add_arg` call for argument i. */
    method AddArgAt(cfg: Config, args: seq<Arg>, i: nat, ghost initial: seq<byte>, ghost start: nat)
      requires ValidArgs(args) && i < |args| && ArgsAppended(cfg, initial, start, args, i)
      modifies this, argBuffer
      ensures ArgsAppended(cfg, initial, start, args, i + 1)
      ensures fresh(argBuffer) || argBuffer == old(argBuffer)
    {
      ghost var prior := Contents();
      AddArg(cfg, args[i].kind, args[i].value);
      assert Contents()[..start] == prior[..start];
      if Consistent(cfg) {
        var w := WireBytes(args[i].kind, args[i].value);
        assert initial + (EncodePrefix(args, i) + w) == (initial + EncodePrefix(args, i)) + w;
      }
    }

    /** Successive `add_arg` calls: the arguments sit one after the other in call order. */
    method AddArgs(cfg: Config, args: seq<Arg>)
      requires Valid() && ValidArgs(args)
      modifies this, argBuffer
      ensures Valid()
      ensures argsSize == old(argsSize) + ArgsSize(args)
      ensures Contents()[..old(argsSize)] == old(Contents())
      ensures Consistent(cfg) ==> Contents() == old(Contents()) + EncodeArgs(args)
    {
      ghost var initial, start := Contents(), argsSize;
      var i := 0;
      while i < |args|
        invariant 0 <= i <= |args|
        invariant ArgsAppended(cfg, initial, start, args, i)
        invariant fresh(argBuffer) || argBuffer == old(argBuffer)
      {
        AddArgAt(cfg, args, i, initial, start);
        i := i + 1;
      }
      assert ArgsAppended(cfg, initial, start, args, |args|);
      assert argsSize == start + ArgsSize(args);
      assert Consistent(cfg) ==> Contents() == initial + EncodeArgs(args);
    }
  }
}
