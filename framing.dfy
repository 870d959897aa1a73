/**
 * Chunk framing of the 956-byte block over 63-byte HID feature reports.
 *
 * Saving slot s sends 18 frames: byte 0 is 8 + s, byte 1 the frame index i,
 * bytes 2.. the block's bytes 56i .. 56i + 55 (only 4 of them in frame 17,
 * the rest zero), and frame 17 also carries the block's CRC32,
 * little-endian, at bytes 6..9.
 *
 * Loading slot s sends one request frame whose byte 0 is 0x10 + s - 1, then
 * receives 18 reports and copies bytes 4 .. 4 + 55 of report i (4 bytes in
 * report 17) to block offset 56i. Reading past the end of a short report is
 * the RangeError the source's DataView throws.
 */
module Framing {
  import opened Wrappers
  import opened Bits
  import opened Codec

  const PayloadSize := 63
  const ChunkSize := 56
  const FrameCount := 18
  const LastFrame := 17
  const CrcOffset := 6
  const WriteHeader := 2
  const ReadHeader := 4
  const WriteReportBase := 8
  const ReadRequestBase := 0x10

  // ------------------------------------------------------------ save side

  /** Where byte j of frame i's chunk sits in the block. */
  function Offset(i: nat, j: nat): nat
  {
    i * ChunkSize + j
  }

  /** Byte k of frame i of slot `slot` for the given block and CRC. */
  function WriteFrameByte(block: seq<byte>, slot: nat, i: nat, crc: nat, k: nat): byte
    requires |block| == BlockSize && 1 <= slot <= 3 && i < FrameCount
  {
    if k == 0 then WriteReportBase + slot
    else if k == 1 then i
    else if i == LastFrame && CrcOffset <= k < CrcOffset + 4 then ByteOf(crc, k - CrcOffset)
    else if WriteHeader <= k < WriteHeader + ChunkSize && Offset(i, k - WriteHeader) < BlockSize
      then block[Offset(i, k - WriteHeader)]
    else 0
  }

  /** Frame i of slot `slot` for the given block and CRC. */
  function WriteFrame(block: seq<byte>, slot: nat, i: nat, crc: nat): (f: seq<byte>)
    requires |block| == BlockSize && 1 <= slot <= 3 && i < FrameCount
    ensures |f| == PayloadSize
  {
    seq(PayloadSize, k requires 0 <= k < PayloadSize => WriteFrameByte(block, slot, i, crc, k))
  }

  /** The 18 frames `save_to_device` sends for one slot's block. */
  function SlotFrames(block: seq<byte>, slot: nat, crc32: seq<byte> -> nat): (f: seq<seq<byte>>)
    requires |block| == BlockSize && 1 <= slot <= 3
    ensures |f| == FrameCount
  {
    seq(FrameCount, i requires 0 <= i < FrameCount => WriteFrame(block, slot, i, crc32(block)))
  }

  /** The save loop for one slot: the 18 frames it sends, in order. */
  method WriteFrames(block: array<byte>, slot: nat, crc32: seq<byte> -> nat) returns (frames: seq<seq<byte>>)
    requires block.Length == BlockSize && 1 <= slot <= 3
    ensures frames == SlotFrames(block[..], slot, crc32)
  {
    frames := [];
    for i := 0 to FrameCount
      invariant |frames| == i
      invariant forall n :: 0 <= n < i ==> frames[n] == WriteFrame(block[..], slot, n, crc32(block[..]))
    {
      var buf := new byte[PayloadSize](_ => 0);
      buf[0] := WriteReportBase + slot;
      buf[1] := i;
      for j := 0 to ChunkSize
        invariant forall k :: 0 <= k < PayloadSize ==>
          buf[k] == if k == 0 then WriteReportBase + slot
            else if k == 1 then i
            else if WriteHeader <= k < WriteHeader + j && Offset(i, k - WriteHeader) < BlockSize
              then block[Offset(i, k - WriteHeader)]
            else 0
      {
        if Offset(i, j) < BlockSize {
          buf[WriteHeader + j] := block[Offset(i, j)];
        }
      }
      if i == LastFrame {
        SetLittleEndian(buf, CrcOffset, crc32(block[..]), 4);
      }
      frames := frames + [buf[..]];
    }
    assert frames == SlotFrames(block[..], slot, crc32);
  }

  /** The last frame carries the block's final 4 bytes at 2..5 and the CRC
      at 6..9, so the CRC overwrites no block byte. */
  lemma LastFrameLayout(block: seq<byte>, slot: nat, crc: nat)
    requires |block| == BlockSize && 1 <= slot <= 3
    ensures var f := WriteFrame(block, slot, LastFrame, crc);
      && f[2..6] == block[952..]
      && (forall k :: CrcOffset <= k < CrcOffset + 4 ==> f[k] == ByteOf(crc, k - CrcOffset))
      && (forall k :: CrcOffset + 4 <= k < PayloadSize ==> f[k] == 0)
  {
    var f := WriteFrame(block, slot, LastFrame, crc);
    assert forall k :: 0 <= k < 4 ==> f[2..6][k] == f[2 + k];
  }

  /** Every byte b of the block is sent exactly once: at position 2 + b % 56
      of frame b / 56, and at no other (frame, position) pair. */
  lemma EveryByteSentOnce(block: seq<byte>, slot: nat, crc: nat, b: nat)
    requires |block| == BlockSize && 1 <= slot <= 3 && b < BlockSize
    ensures b / ChunkSize < FrameCount
    ensures WriteFrame(block, slot, b / ChunkSize, crc)[WriteHeader + b % ChunkSize] == block[b]
    ensures forall i, j :: 0 <= i < FrameCount && 0 <= j < ChunkSize && Offset(i, j) == b ==>
      i == b / ChunkSize && j == b % ChunkSize
  {
  }

  // ------------------------------------------------------------ load side

  /** The request frame for reading slot `slot`. */
  function ReadRequest(slot: nat): (f: seq<byte>)
    requires 1 <= slot <= 3
    ensures |f| == PayloadSize
  {
    seq(PayloadSize, k requires 0 <= k < PayloadSize => if k == 0 then ReadRequestBase + slot - 1 else 0)
  }

  /** How many block bytes report i carries: 56, or 4 in the last. */
  function ChunkLength(i: nat): (n: nat)
    requires i < FrameCount
    ensures i * ChunkSize + n <= BlockSize
  {
    if i < LastFrame then ChunkSize else BlockSize - LastFrame * ChunkSize
  }

  /** Report i is long enough for every byte the loop reads from it. */
  predicate LongEnough(reports: seq<seq<byte>>, i: nat)
    requires i < FrameCount <= |reports|
  {
    ReadHeader + ChunkLength(i) <= |reports[i]|
  }

  datatype ReadError = ShortReport(frame: nat)

  /** The first report at or after i that is too short, if any. */
  function FirstShort(reports: seq<seq<byte>>, i: nat): (r: Option<nat>)
    requires |reports| == FrameCount && i <= FrameCount
    ensures r.None? <==> forall n :: i <= n < FrameCount ==> LongEnough(reports, n)
    ensures r.Some? ==>
      && i <= r.value < FrameCount
      && !LongEnough(reports, r.value)
      && (forall n :: i <= n < r.value ==> LongEnough(reports, n))
    decreases FrameCount - i
  {
    if i == FrameCount then None
    else if !LongEnough(reports, i) then Some(i)
    else FirstShort(reports, i + 1)
  }

  /** The report byte the read loop copies to block offset b (0 where the
      report has no such byte, which only a short report lacks). */
  function Received(reports: seq<seq<byte>>, b: nat): byte
  {
    var i, j := b / ChunkSize, b % ChunkSize;
    if i < |reports| && ReadHeader + j < |reports[i]| then reports[i][ReadHeader + j] else 0
  }

  /** The block the read loop assembles from 18 reports, or the error of
      the first report it reads past the end of. */
  function Reassemble(reports: seq<seq<byte>>): (r: Result<seq<byte>, ReadError>)
    requires |reports| == FrameCount
    ensures r.Success? ==> |r.value| == BlockSize
    ensures r.Failure? ==>
      && r.error.frame < FrameCount
      && !LongEnough(reports, r.error.frame)
      && (forall n :: 0 <= n < r.error.frame ==> LongEnough(reports, n))
  {
    match FirstShort(reports, 0)
    case Some(i) => Failure(ShortReport(i))
    case None =>
      Success(seq(BlockSize, b requires 0 <= b < BlockSize => Received(reports, b)))
  }

  /** When reassembly succeeds, block byte b is byte 4 + b % 56 of report
      b / 56, a byte every report has. */
  lemma ReassembleCopies(reports: seq<seq<byte>>, b: nat)
    requires |reports| == FrameCount && Reassemble(reports).Success? && b < BlockSize
    ensures b / ChunkSize < FrameCount
    ensures ReadHeader + b % ChunkSize < |reports[b / ChunkSize]|
    ensures Reassemble(reports).value[b] == reports[b / ChunkSize][ReadHeader + b % ChunkSize]
  {
    assert LongEnough(reports, b / ChunkSize);
  }

  /** The read loop for one slot over the 18 received reports. */
  method ReceiveBlock(reports: seq<seq<byte>>) returns (r: Result<array<byte>, ReadError>)
    requires |reports| == FrameCount
    ensures Reassemble(reports).Failure? ==> r == Failure(Reassemble(reports).error)
    ensures Reassemble(reports).Success? ==>
      r.Success? && fresh(r.value) && r.value[..] == Reassemble(reports).value
  {
    var data := new byte[BlockSize](_ => 0);
    for i := 0 to FrameCount
      invariant FirstShort(reports, 0) == FirstShort(reports, i)
      invariant forall n :: 0 <= n < i ==> LongEnough(reports, n)
      invariant forall b :: 0 <= b < BlockSize ==>
        data[b] == if b < i * ChunkSize then Received(reports, b) else 0
    {
      if !LongEnough(reports, i) {
        return Failure(ShortReport(i));
      }
      for j := 0 to ChunkSize
        invariant forall b :: 0 <= b < BlockSize ==>
          data[b] == if b < i * ChunkSize + j then Received(reports, b) else 0
      {
        if Offset(i, j) < BlockSize {
          ChunkIndex(i, j);
          data[Offset(i, j)] := reports[i][ReadHeader + j];
        }
      }
    }
    r := Success(data);
  }

  lemma ChunkIndex(i: nat, j: nat)
    requires j < ChunkSize
    ensures Offset(i, j) / ChunkSize == i && Offset(i, j) % ChunkSize == j
  {
  }

  /** Reports that are long enough and carry block byte Offset(i, j) at
      position 4 + j of report i reassemble into that block. */
  lemma ReassembleCarried(reports: seq<seq<byte>>, block: seq<byte>)
    requires |reports| == FrameCount && |block| == BlockSize
    requires forall n :: 0 <= n < FrameCount ==> LongEnough(reports, n)
    requires forall i, j :: 0 <= i < FrameCount && 0 <= j < ChunkSize && Offset(i, j) < BlockSize ==>
      ReadHeader + j < |reports[i]| && reports[i][ReadHeader + j] == block[Offset(i, j)]
    ensures Reassemble(reports) == Success(block)
  {
    assert FirstShort(reports, 0).None?;
    var got := Reassemble(reports).value;
    forall b | 0 <= b < BlockSize
      ensures got[b] == block[b]
    {
      var i, j := b / ChunkSize, b % ChunkSize;
      assert Offset(i, j) == b;
      assert got[b] == Received(reports, b);
    }
    assert got == block;
  }

  /** The report a device echoes for frame i: its own 4-byte header, then
      the frame's bytes from 2 on, so block byte Offset(i, j) lands at
      position 4 + j. */
  lemma EchoedReport(block: seq<byte>, slot: nat, crc: nat, h: seq<byte>, i: nat)
    requires |block| == BlockSize && 1 <= slot <= 3 && i < FrameCount && |h| == ReadHeader
    ensures var r := h + WriteFrame(block, slot, i, crc)[WriteHeader..];
      && |r| == PayloadSize + 2
      && forall j :: 0 <= j < ChunkSize && Offset(i, j) < BlockSize ==> r[ReadHeader + j] == block[Offset(i, j)]
  {
    var f := WriteFrame(block, slot, i, crc);
    var r := h + f[WriteHeader..];
    forall j | 0 <= j < ChunkSize && Offset(i, j) < BlockSize
      ensures r[ReadHeader + j] == block[Offset(i, j)]
    {
      assert r[ReadHeader + j] == f[WriteHeader + j];
      if i == LastFrame {
        assert WriteHeader + j < CrcOffset;
      }
    }
  }

  /** A device that keeps each frame's payload and returns it behind a
      4-byte header of its own makes the read loop reassemble exactly the
      block that was saved; the CRC bytes of frame 17 lie beyond the 4 bytes
      read from the last report. */
  lemma WriteThenReadRoundTrip(block: seq<byte>, slot: nat, crc: nat, headers: seq<seq<byte>>)
    requires |block| == BlockSize && 1 <= slot <= 3
    requires |headers| == FrameCount && forall i :: 0 <= i < FrameCount ==> |headers[i]| == ReadHeader
    ensures var reports := seq(FrameCount, i requires 0 <= i < FrameCount =>
        headers[i] + WriteFrame(block, slot, i, crc)[WriteHeader..]);
      Reassemble(reports) == Success(block)
  {
    var reports := seq(FrameCount, i requires 0 <= i < FrameCount =>
      headers[i] + WriteFrame(block, slot, i, crc)[WriteHeader..]);
    forall i | 0 <= i < FrameCount
      ensures LongEnough(reports, i)
      ensures forall j :: 0 <= j < ChunkSize && Offset(i, j) < BlockSize ==>
        ReadHeader + j < |reports[i]| && reports[i][ReadHeader + j] == block[Offset(i, j)]
    {
      EchoedReport(block, slot, crc, headers[i], i);
    }
    ReassembleCarried(reports, block);
  }
}
