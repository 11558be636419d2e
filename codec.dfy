/** The EverDrive-64 command frame: the `"cmd"` tag, a one-character opcode and
    two big-endian 32-bit parameters in a zero-filled 512-byte buffer, plus the
    in-place steps `main` uses to build one in `send_buff`. */
module Codec {
  import opened Bytes
  import opened Planner

  datatype Option<T> = None | Some(value: T)

  /** Size of `send_buff` and `recv_buff`. */
  const FrameSize: nat := 512
  /** Commands other than the first liveness test send only the first 16 bytes. */
  const ShortFrame: nat := 16
  /** Every offset field carries the cartridge memory window's base address. */
  const Base: nat := 0x1000_0000

  const Tag: seq<byte> := ['c' as byte, 'm' as byte, 'd' as byte]
  const OpTest: byte := 't' as byte
  const OpFill: byte := 'c' as byte
  const OpWrite: byte := 'W' as byte
  const OpBoot: byte := 's' as byte
  /** The acknowledgement the device puts at byte 3 of its reply. */
  const Ack: byte := 'r' as byte

  /** A command: opcode, offset field and length-in-blocks field. */
  datatype Command = Command(op: byte, offset: nat, blocks: nat)

  /** The 512-byte buffer holding `c`: tag, opcode, offset at bytes 4-7,
      block count at bytes 8-11, zeros after. */
  function Encode(c: Command): (f: seq<byte>)
    ensures |f| == FrameSize
    ensures f[..3] == Tag && f[3] == c.op
    ensures f[4..8] == BE32(c.offset) && f[8..12] == BE32(c.blocks)
    ensures forall i :: 12 <= i < FrameSize ==> f[i] == 0
  {
    Tag + [c.op] + BE32(c.offset) + BE32(c.blocks) + Zeros(FrameSize - 12)
  }

  /** Reads a frame back: `None` unless it holds the tag and both parameter fields. */
  function Decode(f: seq<byte>): (r: Option<Command>)
    ensures r.Some? <==> |f| >= 12 && f[..3] == Tag
    ensures r.Some? ==> r.value.op == f[3] && r.value.offset < Two32 && r.value.blocks < Two32
  {
    if |f| < 12 || f[..3] != Tag then None
    else Some(Command(f[3], FromBE32(f[4..8]), FromBE32(f[8..12])))
  }

  /** Decoding any prefix of at least 12 bytes of an encoded frame gives the
      command back, with each field reduced to its low 32 bits. */
  lemma {:induction false} DecodeEncode(c: Command, n: nat)
    requires 12 <= n <= FrameSize
    ensures Decode(Encode(c)[..n]) == Some(Command(c.op, c.offset % Two32, c.blocks % Two32))
  {
    var f := Encode(c)[..n];
    assert f[..3] == Tag && f[4..8] == BE32(c.offset) && f[8..12] == BE32(c.blocks);
    FromBE32OfBE32(c.offset);
    FromBE32OfBE32(c.blocks);
  }

  /** Conversely, a 512-byte buffer that decodes to `c` and is zero past byte 11 is
      exactly the encoding of `c`. */
  lemma {:induction false} EncodeDecode(f: seq<byte>)
    requires |f| == FrameSize && Decode(f).Some?
    requires forall i :: 12 <= i < FrameSize ==> f[i] == 0
    ensures Encode(Decode(f).value) == f
  {
    var c := Decode(f).value;
    BE32OfFromBE32(f[4..8]);
    BE32OfFromBE32(f[8..12]);
    var e := Encode(c);
    forall i | 0 <= i < FrameSize
      ensures e[i] == f[i]
    {
      if i < 3 {
        assert e[i] == e[..3][i] && f[i] == f[..3][i];
      } else if 4 <= i < 8 {
        assert e[i] == e[4..8][i - 4] && f[i] == f[4..8][i - 4];
      } else if 8 <= i < 12 {
        assert e[i] == e[8..12][i - 8] && f[i] == f[8..12][i - 8];
      }
    }
  }

  /** Byte 3 of `recv_buff` after it was zeroed and a read of at most `max` bytes of
      `reply` was stored at its start: a reply shorter than 4 bytes leaves it 0. */
  function AckByte(reply: seq<byte>, max: nat): (b: byte)
    ensures 3 < |reply| && 3 < max ==> b == reply[3]
    ensures |reply| <= 3 || max <= 3 ==> b == 0
  {
    var got := Take(reply, max);
    if 3 < |got| then got[3] else 0
  }

  /** A reply of fewer than four bytes can never be taken for an acknowledgement. */
  lemma ShortReplyIsNoAck(reply: seq<byte>, max: nat)
    requires |reply| < 4
    ensures AckByte(reply, max) != Ack
  {
  }

  /** What `AckByte` describes is what the receive buffer holds after the read. */
  lemma {:induction false} AckByteInBuffer(reply: seq<byte>, max: nat)
    requires max <= FrameSize
    ensures Put(Zeros(FrameSize), 0, Take(reply, max))[3] == AckByte(reply, max)
  {
  }

  // The frames `main` sends.

  /** The liveness test: a `t` command with both fields zero, sent at full 512 bytes. */
  const TestFrame: seq<byte> := Encode(Command(OpTest, 0, 0))
  /** The fill command over the CRC region, first 16 bytes. */
  const FillFrame: seq<byte> := Encode(Command(OpFill, Base, CrcLen / 512))[..ShortFrame]
  /** The liveness re-check after the fill, first 16 bytes of the reused buffer. */
  const FillCheckFrame: seq<byte> := Encode(Command(OpTest, Base, CrcLen / 512))[..ShortFrame]
  /** The boot command, first 16 bytes. */
  const BootFrame: seq<byte> := Encode(Command(OpBoot, 0, 0))[..ShortFrame]

  /** The write header for an upload of `length` bytes, first 16 bytes: the tag,
      `W`, the base address 0x10000000 big-endian, the block count big-endian, zeros. */
  function WriteFrame(length: nat): (f: seq<byte>)
    ensures |f| == ShortFrame
    ensures f == Tag + [OpWrite] + [0x10, 0, 0, 0] + BE32(length / 512) + Zeros(4)
  {
    assert BE32(Base) == [0x10, 0, 0, 0];
    Encode(Command(OpWrite, Base, length / 512))[..ShortFrame]
  }

  /** The exact bytes of the liveness test: the tag, `t`, and 508 zeros. */
  lemma TestFrameBytes()
    ensures TestFrame == Tag + [OpTest] + Zeros(508)
  {
    assert BE32(0) == Zeros(4);
  }

  /** The exact bytes of the fill frame: the tag, `c`, BE 0x10000000, BE 0x808, zeros. */
  lemma FillFrameBytes()
    ensures FillFrame == Tag + [OpFill] + [0x10, 0, 0, 0] + [0, 0, 8, 8] + Zeros(4)
  {
    FillBlocksExact();
    assert BE32(Base) == [0x10, 0, 0, 0];
    assert BE32(0x808) == [0, 0, 8, 8];
  }

  /** The exact bytes of the boot command: the tag, `s`, and twelve zeros. */
  lemma BootFrameBytes()
    ensures BootFrame == Tag + [OpBoot] + Zeros(12)
  {
    assert BE32(0) == Zeros(4);
  }

  /** The re-check frame is the fill frame with only the opcode changed to `t`. */
  lemma FillCheckIsRetaggedFill()
    ensures |FillCheckFrame| == ShortFrame
    ensures FillCheckFrame == FillFrame[3 := OpTest]
  {
  }

  /** The four frames a session can send besides data are told apart by their
      length or their opcode. */
  lemma FramesDistinct(length: nat)
    ensures TestFrame != FillFrame && TestFrame != FillCheckFrame
    ensures TestFrame != WriteFrame(length) && TestFrame != BootFrame
    ensures FillFrame != FillCheckFrame && FillFrame != WriteFrame(length) && FillFrame != BootFrame
    ensures FillCheckFrame != WriteFrame(length) && FillCheckFrame != BootFrame
    ensures WriteFrame(length) != BootFrame
  {
    assert |TestFrame| == FrameSize;
    assert FillFrame[3] == OpFill && FillCheckFrame[3] == OpTest;
    assert WriteFrame(length)[3] == OpWrite && BootFrame[3] == OpBoot;
  }

  /** The write header decodes to the base address and the upload length in blocks. */
  lemma {:induction false} WriteFrameDecodes(length: nat)
    requires length < 0x8000_0000
    ensures Decode(WriteFrame(length)) == Some(Command(OpWrite, Base, length / 512))
  {
    var c := Command(OpWrite, Base, length / 512);
    DecodeEncode(c, ShortFrame);
    assert WriteFrame(length) == Encode(c)[..ShortFrame];
    LowBitsOfSmall(c.offset);
    LowBitsOfSmall(c.blocks);
  }

  // In-place construction in a scratch buffer.

  /** `memset(a, 0, a.Length)`. */
  method Clear(a: array<byte>)
    modifies a
    ensures a[..] == Zeros(a.Length)
  {
    forall i | 0 <= i < a.Length {
      a[i] := 0;
    }
  }

  /** Stores the tag and the opcode at bytes 0-3. */
  method PutHeader(a: array<byte>, op: byte)
    requires 4 <= a.Length
    modifies a
    ensures a[..] == Put(old(a[..]), 0, Tag + [op])
  {
    a[0] := 'c' as byte;
    a[1] := 'm' as byte;
    a[2] := 'd' as byte;
    a[3] := op;
  }

  /** Stores `v` big-endian at bytes `at` to `at + 3`, one shifted and cast byte at a time. */
  method PutBE32(a: array<byte>, at: nat, v: nat)
    requires at + 4 <= a.Length
    modifies a
    ensures a[..] == Put(old(a[..]), at, BE32(v))
  {
    a[at] := (v / 0x100_0000 % 0x100) as byte;
    a[at + 1] := (v / 0x1_0000 % 0x100) as byte;
    a[at + 2] := (v / 0x100 % 0x100) as byte;
    a[at + 3] := (v % 0x100) as byte;
  }

  /** A cleared buffer given a header and both fields holds the encoded command. */
  lemma {:induction false} BuiltInPlace(c: Command)
    ensures Put(Put(Put(Zeros(FrameSize), 0, Tag + [c.op]), 4, BE32(c.offset)), 8, BE32(c.blocks)) == Encode(c)
  {
    var b := Put(Put(Put(Zeros(FrameSize), 0, Tag + [c.op]), 4, BE32(c.offset)), 8, BE32(c.blocks));
    var e := Encode(c);
    forall i | 0 <= i < FrameSize
      ensures b[i] == e[i]
    {
      if i < 3 {
        assert e[i] == e[..3][i];
      } else if 4 <= i < 8 {
        assert e[i] == e[4..8][i - 4];
      } else if 8 <= i < 12 {
        assert e[i] == e[8..12][i - 8];
      }
    }
  }

  /** A cleared buffer given only a header holds the command with both fields zero. */
  lemma {:induction false} HeaderOnlyInPlace(op: byte)
    ensures Put(Zeros(FrameSize), 0, Tag + [op]) == Encode(Command(op, 0, 0))
  {
    assert BE32(0) == Zeros(4);
    var b := Put(Zeros(FrameSize), 0, Tag + [op]);
    var e := Encode(Command(op, 0, 0));
    forall i | 0 <= i < FrameSize
      ensures b[i] == e[i]
    {
      if i < 3 {
        assert e[i] == e[..3][i];
      } else if 4 <= i < 8 {
        assert e[i] == e[4..8][i - 4];
      } else if 8 <= i < 12 {
        assert e[i] == e[8..12][i - 8];
      }
    }
  }

  /** Rewriting only the header of an encoded buffer changes only its opcode. */
  lemma {:induction false} RetaggedInPlace(c: Command, op: byte)
    ensures Put(Encode(c), 0, Tag + [op]) == Encode(c.(op := op))
  {
    var b := Put(Encode(c), 0, Tag + [op]);
    var e := Encode(c.(op := op));
    var old_ := Encode(c);
    forall i | 0 <= i < FrameSize
      ensures b[i] == e[i]
    {
      if i < 3 {
        assert e[i] == e[..3][i];
      } else if 4 <= i < 8 {
        assert e[i] == e[4..8][i - 4] && old_[i] == old_[4..8][i - 4];
      } else if 8 <= i < 12 {
        assert e[i] == e[8..12][i - 8] && old_[i] == old_[8..12][i - 8];
      }
    }
  }
}
