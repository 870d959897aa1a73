/**
 * `profileToDeviceData` and `deviceDataToProfile` as the step-by-step
 * procedures the source runs over a DataView, each proved to compute the
 * block or profile that Codec.Encode and Codec.Decode specify.
 */
module DeviceData {
  import opened Wrappers
  import opened Bits
  import opened Profiles
  import opened Codec

  /** data[lo..hi] is all zero. */
  ghost predicate Zero(data: array<byte>, lo: nat, hi: nat)
    requires hi <= data.Length
    reads data
  {
    forall k :: lo <= k < hi ==> data[k] == 0
  }

  // ---------------------------------------------------------------- encoder

  /** The name loop: unit i of t at 4 + 2i, for i below |t| and 40. */
  method WriteName(data: array<byte>, t: Text)
    requires data.Length == BlockSize && Zero(data, NameOffset, FillerOffset)
    modifies data
    ensures forall k :: 0 <= k < BlockSize ==>
      data[k] == if NameOffset <= k < FillerOffset then NameByte(t, k - NameOffset) else old(data[k])
  {
    var i := 0;
    while i < |t| && i < NameUnits
      invariant 0 <= i <= NameUnits && i <= |t|
      invariant forall k :: 0 <= k < BlockSize ==>
        data[k] == if NameOffset <= k < NameOffset + 2 * i then NameByte(t, k - NameOffset) else old(data[k])
    {
      SetLittleEndian(data, NameOffset + 2 * i, t[i], 2);
      i := i + 1;
    }
  }

  /** The filler loop (random bytes in the source, given here). */
  method WriteFiller(data: array<byte>, filler: seq<byte>)
    requires data.Length == BlockSize && |filler| == FillerSize
    modifies data
    ensures forall k :: 0 <= k < BlockSize ==>
      data[k] == if FillerOffset <= k < ButtonOffset then filler[k - FillerOffset] else old(data[k])
  {
    for i := 0 to FillerSize
      invariant forall k :: 0 <= k < BlockSize ==>
        data[k] == if FillerOffset <= k < FillerOffset + i then filler[k - FillerOffset] else old(data[k])
    {
      data[FillerOffset + i] := filler[i];
    }
  }

  /** The toggle flags once the first nb buttons and the expansion entries
      below np have been visited. */
  function PartialFlags(p: Profile, nb: nat, np: nat): (f: seq<bool>)
    requires p.Valid()
    ensures |f| == 16
    ensures nb >= ButtonCount && np > PortCount ==> f == ToggleFlags(p)
  {
    seq(16, i requires 0 <= i < 16 =>
      if i < ButtonCount then i < nb && p.buttons[i].toggle
      else if i < 14 then i - 9 < np && SetsToggle(PortEntry(p, i - 9))
      else false)
  }

  lemma {:induction false} AllClear(bits: seq<bool>)
    requires forall k :: 0 <= k < |bits| ==> !bits[k]
    ensures FromBits(bits) == 0
  {
    if bits != [] {
      AllClear(bits[1..]);
    }
  }

  /** Visiting button b sets bit b of the accumulated word exactly when
      the button toggles. */
  lemma ButtonFlagStep(p: Profile, b: nat)
    requires p.Valid() && b < ButtonCount
    ensures FromBits(PartialFlags(p, b + 1, 0)) ==
      if p.buttons[b].toggle then SetBit(FromBits(PartialFlags(p, b, 0)), b) else FromBits(PartialFlags(p, b, 0))
  {
    if p.buttons[b].toggle {
      SetBitFromBits(PartialFlags(p, b, 0), b);
      assert PartialFlags(p, b, 0)[b := true] == PartialFlags(p, b + 1, 0);
    } else {
      assert PartialFlags(p, b, 0) == PartialFlags(p, b + 1, 0);
    }
  }

  /** Visiting expansion entry n sets bit 9 + n exactly when the entry is a
      toggling button assignment. */
  lemma PortFlagStep(p: Profile, n: nat)
    requires p.Valid() && n <= PortCount
    ensures FromBits(PartialFlags(p, ButtonCount, n + 1)) ==
      if SetsToggle(PortEntry(p, n)) then SetBit(FromBits(PartialFlags(p, ButtonCount, n)), 9 + n)
      else FromBits(PartialFlags(p, ButtonCount, n))
  {
    if SetsToggle(PortEntry(p, n)) {
      SetBitFromBits(PartialFlags(p, ButtonCount, n), 9 + n);
      assert PartialFlags(p, ButtonCount, n)[9 + n := true] == PartialFlags(p, ButtonCount, n + 1);
    } else {
      assert PartialFlags(p, ButtonCount, n) == PartialFlags(p, ButtonCount, n + 1);
    }
  }

  /** The button loop: mapping1 and mapping2 of button b at 100 + 5(b - 1),
      and bit b - 1 of the toggle word set for a toggle button. */
  method WriteButtons(data: array<byte>, p: Profile) returns (toggle: nat)
    requires data.Length == BlockSize && p.Valid() && Zero(data, ButtonOffset, ToggleOffset)
    modifies data
    ensures toggle == FromBits(PartialFlags(p, ButtonCount, 0))
    ensures forall k :: 0 <= k < BlockSize ==>
      data[k] == if ButtonOffset <= k < ToggleOffset
        then ButtonByte(p.buttons[(k - ButtonOffset) / ButtonRecord], (k - ButtonOffset) % ButtonRecord)
        else old(data[k])
  {
    toggle := 0;
    AllClear(PartialFlags(p, 0, 0));
    for b := 0 to ButtonCount
      invariant toggle == FromBits(PartialFlags(p, b, 0))
      invariant forall k :: 0 <= k < BlockSize ==>
        data[k] == if ButtonOffset <= k < ButtonOffset + ButtonRecord * b
          then ButtonByte(p.buttons[(k - ButtonOffset) / ButtonRecord], (k - ButtonOffset) % ButtonRecord)
          else old(data[k])
    {
      var btn := p.buttons[b];
      ButtonFlagStep(p, b);
      if btn.toggle {
        toggle := SetBit(toggle, b);
      }
      var base := ButtonOffset + ButtonRecord * b;
      data[base] := btn.mapping1 % 256;
      data[base + 1] := btn.mapping2 % 256;
    }
  }

  /** One port record at base for entry q (the body of the port loop's two
      `if`s). A record is written only for a stick or a button entry. */
  method WritePortRecord(data: array<byte>, base: nat, q: Port, ob: byte)
    requires base + PortRecord <= data.Length && Zero(data, base, base + PortRecord)
    modifies data
    ensures forall k :: 0 <= k < data.Length ==>
      data[k] == if base <= k < base + PortRecord then PortByte(q, ob, k - base) else old(data[k])
  {
    if q.mapping1 > 100 {
      data[base] := 1;
      data[base + 1] := (q.mapping1 - 100) % 256;
      data[base + 2] := ob;
      data[base + 5] := 3;
      data[base + 8] := 0x80;
      data[base + 9] := 0x80;
      data[base + 10] := 0xc4;
      data[base + 11] := 0xc4;
      data[base + 12] := 0xe1;
      data[base + 13] := 0xe1;
    }
    if 0 < q.mapping1 < 100 {
      data[base] := if q.analog then 2 else 3;
      data[base + 2] := q.mapping1;
      data[base + 3] := q.mapping2 % 256;
    }
  }

  /** Byte k (152 <= k < 377) of the port region, as Encode lays it out. */
  function PortRegionByte(p: Profile, ob: byte, k: nat): byte
    requires p.Valid() && PortOffset <= k < PortsEnd
  {
    PortByte(PortEntry(p, (k - PortOffset) / PortRecord), ob, (k - PortOffset) % PortRecord)
  }

  lemma PortIndex(n: nat, k: nat)
    requires PortOffset + PortRecord * n <= k < PortOffset + PortRecord * (n + 1)
    ensures (k - PortOffset) / PortRecord == n && (k - PortOffset) % PortRecord == k - PortOffset - PortRecord * n
  {
  }

  /** The port loop over entries 0 (the stick) to 4, setting bit 9 + n of
      the toggle word for a toggling button entry n. */
  method WritePorts(data: array<byte>, p: Profile, ob: byte, toggle0: nat) returns (toggle: nat)
    requires data.Length == BlockSize && p.Valid() && Zero(data, PortOffset, PortsEnd)
    requires toggle0 == FromBits(PartialFlags(p, ButtonCount, 0))
    modifies data
    ensures toggle == ToggleWord(p)
    ensures forall k :: 0 <= k < BlockSize ==>
      data[k] == if PortOffset <= k < PortsEnd
        then PortRegionByte(p, ob, k)
        else old(data[k])
  {
    toggle := toggle0;
    for n := 0 to PortCount + 1
      invariant toggle == FromBits(PartialFlags(p, ButtonCount, n))
      invariant forall k :: 0 <= k < BlockSize ==>
        data[k] == if PortOffset <= k < PortOffset + PortRecord * n
          then PortRegionByte(p, ob, k)
          else old(data[k])
    {
      var q := PortEntry(p, n);
      var base := PortOffset + PortRecord * n;
      WritePortRecord(data, base, q, ob);
      forall k | base <= k < base + PortRecord
        ensures PortRegionByte(p, ob, k) == PortByte(q, ob, k - base)
      {
        PortIndex(n, k);
      }
      PortFlagStep(p, n);
      if SetsToggle(q) {
        toggle := SetBit(toggle, 9 + n);
      }
    }
  }

  /** `profileToDeviceData`: a zeroed 956-byte buffer, filled region by
      region, is exactly the block Encode specifies. */
  method ProfileToDeviceData(p: Profile, filler: seq<byte>, timestamp: nat) returns (data: array<byte>)
    requires p.Valid() && |filler| == FillerSize
    ensures fresh(data) && data[..] == Encode(p, filler, timestamp)
  {
    data := new byte[BlockSize](_ => 0);
    data[0] := Marker;
    WriteName(data, NameOrDefault(p.name));
    WriteFiller(data, filler);
    var toggle := WriteButtons(data, p);
    toggle := WritePorts(data, p, OrientationByte(p.orientation), toggle);
    SetLittleEndian(data, ToggleOffset, toggle, 2);
    SetLittleEndian(data, TimestampOffset, timestamp, 8);
    ghost var spec := Encode(p, filler, timestamp);
    assert forall k :: 0 <= k < BlockSize ==> data[k] == spec[k];
  }

  // ---------------------------------------------------------------- decoder

  /** The name loop of `deviceDataToProfile`: units up to the first zero,
      at most 40. */
  method ReadName(data: array<byte>) returns (name: Text)
    requires data.Length == BlockSize
    ensures name == NameFrom(data[..], 0)
  {
    ghost var b := data[..];
    name := [];
    var i := 0;
    while i < NameUnits
      invariant 0 <= i <= NameUnits
      invariant name + NameFrom(b, i) == NameFrom(b, 0)
    {
      var unit := Uint16At(data[..], NameOffset + 2 * i);
      assert unit == UnitAt(b, i);
      NameStep(b, i, name);
      if unit == 0 {
        break;
      }
      name := name + [unit];
      i := i + 1;
    }
  }

  /** One unit of the name loop: a zero unit ends the name, any other is
      appended to what was read. */
  lemma NameStep(b: seq<byte>, i: nat, name: Text)
    requires |b| == BlockSize && i < NameUnits
    ensures UnitAt(b, i) == 0 ==> name + NameFrom(b, i) == name
    ensures UnitAt(b, i) != 0 ==> name + NameFrom(b, i) == (name + [UnitAt(b, i)]) + NameFrom(b, i + 1)
  {
    if UnitAt(b, i) == 0 {
      assert name + [] == name;
    } else {
      var rest := NameFrom(b, i + 1);
      assert NameFrom(b, i) == [UnitAt(b, i)] + rest;
      assert (name + [UnitAt(b, i)]) + rest == name + ([UnitAt(b, i)] + rest);
    }
  }

  /** The sixteen toggle flags of bytes 150..151. */
  method ReadToggles(data: array<byte>) returns (toggle: array<bool>)
    requires data.Length == BlockSize
    ensures fresh(toggle) && toggle.Length == 16
    ensures forall j :: 0 <= j < 16 ==> toggle[j] == DecodedToggle(data[..], j)
  {
    toggle := new bool[16];
    for i := 0 to 16
      invariant forall j :: 0 <= j < i ==> toggle[j] == DecodedToggle(data[..], j)
    {
      toggle[i] := Bit(data[ToggleOffset + i / 8], i % 8);
    }
  }

  /** The ten button records, with their toggle flags. */
  method ReadButtons(data: array<byte>, toggle: array<bool>) returns (buttons: seq<Button>)
    requires data.Length == BlockSize && toggle.Length == 16
    requires forall j :: 0 <= j < 16 ==> toggle[j] == DecodedToggle(data[..], j)
    ensures var b := data[..]; buttons == seq(ButtonCount, k requires 0 <= k < ButtonCount => DecodedButton(b, k))
  {
    ghost var b := data[..];
    buttons := [];
    for n := 0 to ButtonCount
      invariant |buttons| == n
      invariant forall k :: 0 <= k < n ==> buttons[k] == DecodedButton(b, k)
    {
      var base := ButtonOffset + ButtonRecord * n;
      buttons := buttons + [Button(data[base], data[base + 1], toggle[n])];
    }
    assert buttons == seq(ButtonCount, k requires 0 <= k < ButtonCount => DecodedButton(b, k));
  }

  /** The five port records: the stick and its orientation from record 0,
      expansion ports 1..4 from the others (an unknown tag sets nothing). */
  method ReadPorts(data: array<byte>, toggle: array<bool>) returns (orientation: nat, stick: nat, ports: seq<Option<Port>>)
    requires data.Length == BlockSize && toggle.Length == 16
    requires forall j :: 0 <= j < 16 ==> toggle[j] == DecodedToggle(data[..], j)
    ensures orientation == if data[PortOffset] == 1 then data[PortOffset + 2] as int else 3
    ensures stick == if data[PortOffset] == 1 then 100 + data[PortOffset + 1] as int else 0
    ensures var b := data[..]; ports == seq(PortCount, k requires 0 <= k < PortCount => DecodedPort(b, k + 1))
  {
    ghost var b := data[..];
    orientation, stick := 3, 0;
    ports := [None, None, None, None];
    for n := 0 to PortCount + 1
      invariant |ports| == PortCount
      invariant orientation == if 0 < n && b[PortOffset] == 1 then b[PortOffset + 2] as int else 3
      invariant stick == if 0 < n && b[PortOffset] == 1 then 100 + b[PortOffset + 1] as int else 0
      invariant forall k :: 0 <= k < PortCount ==> ports[k] == if k < n - 1 then DecodedPort(b, k + 1) else None
    {
      var base := PortOffset + PortRecord * n;
      var tag := data[base];
      if n == 0 {
        if tag == 0 {
          stick := 0;
        } else if tag == 1 {
          stick := 100 + data[base + 1] as int;
          orientation := data[base + 2];
        }
      } else {
        if tag == 0 {
          ports := ports[n - 1 := Some(Port(0, 0, false, false))];
        } else if tag == 1 {
          ports := ports[n - 1 := Some(Port(100 + data[base + 1] as int, 0, false, false))];
        } else if tag == 2 || tag == 3 {
          ports := ports[n - 1 := Some(Port(data[base + 2], data[base + 3], toggle[9 + n], tag == 2))];
        }
      }
    }
    assert ports == seq(PortCount, k requires 0 <= k < PortCount => DecodedPort(b, k + 1));
  }

  /** `deviceDataToProfile`: reads the name up to the first zero unit, the
      sixteen toggle flags, the ten button records and the five port
      records; the result is exactly Decode of the block, including the
      error thrown for a wrong marker. */
  method DeviceDataToProfile(data: array<byte>) returns (r: Result<Profile, DecodeError>)
    requires data.Length == BlockSize
    ensures r == Decode(data[..])
  {
    if data[0] != Marker {
      return Failure(BadMarker(data[0]));
    }
    var name := ReadName(data);
    var toggle := ReadToggles(data);
    var buttons := ReadButtons(data, toggle);
    var orientation, stick, ports := ReadPorts(data, toggle);
    r := Success(Profile(if name == [] then DefaultName else name, orientation, false, stick, buttons, ports));
  }
}
