/**
 * The 956-byte device block and the two conversions between it and a
 * Profile: `profileToDeviceData` (encode) and `deviceDataToProfile` (decode).
 *
 * Layout (offsets in bytes):
 *   0        format marker, always 2
 *   4..83    name, 40 UTF-16 code units, little-endian, zero-padded
 *   84..99   filler (random in the source; a parameter here)
 *   100..149 ten 5-byte button records: mapping1, mapping2, 3 zero bytes
 *   150..151 little-endian toggle word: bit k for button k + 1 (k < 10),
 *            bit 9 + n for expansion port n (n in 1..4)
 *   152..376 five 45-byte port records (stick, then ports 1..4), tag first
 *   948..955 little-endian 64-bit timestamp (a parameter here)
 * Every other byte is zero.
 */
module Codec {
  import opened Wrappers
  import opened Bits
  import opened Profiles

  const BlockSize := 956
  const Marker := 2
  const NameOffset := 4
  const NameUnits := 40
  const FillerOffset := 84
  const FillerSize := 16
  const ButtonOffset := 100
  const ButtonRecord := 5
  const ToggleOffset := 150
  const PortOffset := 152
  const PortRecord := 45
  const PortsEnd := 377
  const TimestampOffset := 948

  /** "Profile", the name used when a profile has none. */
  const DefaultName: Text := [80, 114, 111, 102, 105, 108, 101]

  /** The name written: the profile's own, or "Profile" when it is empty. */
  function NameOrDefault(t: Text): Text
  {
    if t == [] then DefaultName else t
  }

  datatype DecodeError = BadMarker(found: byte)

  // ---------------------------------------------------------------- encode

  /** The orientation byte written: the orientation modulo 256, except that
      0 is written as 3 (see the findings in README.md). */
  function OrientationByte(o: nat): byte
  {
    if o == 0 then 3 else o % 256
  }

  /** The fields the encoder reads from expansion entry n (0 is the stick:
      its entry has only mapping1). A missing entry reads as all zero. */
  function PortEntry(p: Profile, n: nat): Port
    requires p.Valid() && n <= PortCount
  {
    if n == 0 then Port(p.stick, 0, false, false)
    else match p.ports[n - 1]
      case None => Port(0, 0, false, false)
      case Some(q) => q
  }

  /** Whether expansion entry q sets its toggle bit: only a button
      assignment (mapping1 in 1..99) with toggle does. */
  predicate SetsToggle(q: Port)
  {
    0 < q.mapping1 < 100 && q.toggle
  }

  /** The flag the encoder leaves in bit i of the toggle word. */
  function ToggleFlags(p: Profile): (f: seq<bool>)
    requires p.Valid()
    ensures |f| == 16
  {
    seq(16, i requires 0 <= i < 16 =>
      if i < ButtonCount then p.buttons[i].toggle
      else if i < 14 then SetsToggle(PortEntry(p, i - 9))
      else false)
  }

  /** The toggle word written at bytes 150..151. */
  function ToggleWord(p: Profile): nat
    requires p.Valid()
  {
    FromBits(ToggleFlags(p))
  }

  /** Byte j of the name field for name t. */
  function NameByte(t: Text, j: nat): byte
  {
    if j / 2 < |t| then ByteOf(t[j / 2], j % 2) else 0
  }

  /** Byte r of a button record. */
  function ButtonByte(b: Button, r: nat): byte
  {
    if r == 0 then b.mapping1 % 256
    else if r == 1 then b.mapping2 % 256
    else 0
  }

  /** Byte r of a port record for entry q; ob is the orientation byte. A
      stick (mapping1 > 100) gets tag 1 and the stick parameters, a button
      (1..99) gets tag 2 (analog) or 3, anything else stays all zero. */
  function PortByte(q: Port, ob: byte, r: nat): byte
  {
    if q.mapping1 > 100 then
      if r == 0 then 1
      else if r == 1 then (q.mapping1 - 100) % 256
      else if r == 2 then ob
      else if r == 5 then 3
      else if r == 8 || r == 9 then 0x80
      else if r == 10 || r == 11 then 0xc4
      else if r == 12 || r == 13 then 0xe1
      else 0
    else if 0 < q.mapping1 < 100 then
      if r == 0 then (if q.analog then 2 else 3)
      else if r == 2 then q.mapping1
      else if r == 3 then q.mapping2 % 256
      else 0
    else 0
  }

  /** Byte k of the block written for p with the given filler, timestamp
      and orientation byte. */
  function EncodedByte(p: Profile, filler: seq<byte>, ts: nat, ob: byte, k: nat): byte
    requires p.Valid() && |filler| == FillerSize && k < BlockSize
  {
    if k == 0 then Marker
    else if k < NameOffset then 0
    else if k < FillerOffset then NameByte(NameOrDefault(p.name), k - NameOffset)
    else if k < ButtonOffset then filler[k - FillerOffset]
    else if k < ToggleOffset then ButtonByte(p.buttons[(k - ButtonOffset) / ButtonRecord], (k - ButtonOffset) % ButtonRecord)
    else if k < PortOffset then ByteOf(ToggleWord(p), k - ToggleOffset)
    else if k < PortsEnd then PortByte(PortEntry(p, (k - PortOffset) / PortRecord), ob, (k - PortOffset) % PortRecord)
    else if k < TimestampOffset then 0
    else ByteOf(ts, k - TimestampOffset)
  }

  function EncodeWith(p: Profile, filler: seq<byte>, ts: nat, ob: byte): (r: seq<byte>)
    requires p.Valid() && |filler| == FillerSize
    ensures |r| == BlockSize && r[0] == Marker
  {
    seq(BlockSize, k requires 0 <= k < BlockSize => EncodedByte(p, filler, ts, ob, k))
  }

  /** The block `profileToDeviceData` produces. */
  function Encode(p: Profile, filler: seq<byte>, ts: nat): (r: seq<byte>)
    requires p.Valid() && |filler| == FillerSize
  {
    EncodeWith(p, filler, ts, OrientationByte(p.orientation))
  }

  // ---------------------------------------------------------------- decode

  /** Code unit i of the name field, read low byte first from offset 4 + 2i. */
  function UnitAt(b: seq<byte>, i: nat): CodeUnit
    requires |b| == BlockSize && i < NameUnits
  {
    Uint16At(b, NameOffset + 2 * i)
  }

  /** The name read from unit i on: stops at a zero unit or after 40. */
  function NameFrom(b: seq<byte>, i: nat): Text
    requires |b| == BlockSize && i <= NameUnits
    decreases NameUnits - i
  {
    if i == NameUnits || UnitAt(b, i) == 0 then [] else [UnitAt(b, i)] + NameFrom(b, i + 1)
  }

  /** Toggle flag i as the decoder reads it: bit i % 8 of byte 150 + i / 8. */
  predicate DecodedToggle(b: seq<byte>, i: nat)
    requires |b| == BlockSize && i < 16
  {
    Bit(b[ToggleOffset + i / 8], i % 8)
  }

  function DecodedButton(b: seq<byte>, k: nat): Button
    requires |b| == BlockSize && k < ButtonCount
  {
    Button(b[ButtonOffset + 5 * k], b[ButtonOffset + 5 * k + 1], DecodedToggle(b, k))
  }

  /** Expansion port n (1..4) as the decoder's switch leaves it: an unknown
      tag sets nothing, so the entry stays absent. */
  function DecodedPort(b: seq<byte>, n: nat): Option<Port>
    requires |b| == BlockSize && 1 <= n <= PortCount
  {
    var base := PortOffset + PortRecord * n;
    var tag := b[base];
    if tag == 0 then Some(Port(0, 0, false, false))
    else if tag == 1 then Some(Port(100 + b[base + 1] as int, 0, false, false))
    else if tag == 2 || tag == 3 then Some(Port(b[base + 2], b[base + 3], DecodedToggle(b, 9 + n), tag == 2))
    else None
  }

  /** The profile `deviceDataToProfile` returns, or the error it throws. */
  function Decode(b: seq<byte>): (r: Result<Profile, DecodeError>)
    requires |b| == BlockSize
    ensures r.Failure? <==> b[0] != Marker
  {
    if b[0] != Marker then Failure(BadMarker(b[0]))
    else
      var raw := NameFrom(b, 0);
      var stickTag := b[PortOffset];
      Success(Profile(
        if raw == [] then DefaultName else raw,
        if stickTag == 1 then b[PortOffset + 2] else 3,
        false,
        if stickTag == 1 then 100 + b[PortOffset + 1] as int else 0,
        seq(ButtonCount, k requires 0 <= k < ButtonCount => DecodedButton(b, k)),
        seq(PortCount, k requires 0 <= k < PortCount => DecodedPort(b, k + 1))))
  }

  /** A name read from unit i on has at most 40 - i units, none zero. */
  lemma {:induction false} NameFromShape(b: seq<byte>, i: nat)
    requires |b| == BlockSize && i <= NameUnits
    ensures |NameFrom(b, i)| <= NameUnits - i
    ensures forall j :: 0 <= j < |NameFrom(b, i)| ==> NameFrom(b, i)[j] != 0
    decreases NameUnits - i
  {
    if i < NameUnits && UnitAt(b, i) != 0 {
      NameFromShape(b, i + 1);
    }
  }

  /** Every decoded profile has ten buttons and four ports, a non-empty name
      of at most 40 non-zero units, byte-sized button codes and a stick that
      is either none or 100 + a byte. */
  lemma DecodedShape(b: seq<byte>)
    requires |b| == BlockSize && b[0] == Marker
    ensures var p := Decode(b).value;
      && p.Valid()
      && 0 < |p.name| <= NameUnits
      && (forall j :: 0 <= j < |p.name| ==> p.name[j] != 0)
      && p.orientation < 256
      && (p.stick == 0 || 100 <= p.stick < 356)
      && (forall k :: 0 <= k < ButtonCount ==> p.buttons[k].mapping1 < 256 && p.buttons[k].mapping2 < 256)
  {
    NameFromShape(b, 0);
  }
}
