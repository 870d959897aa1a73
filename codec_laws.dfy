/**
 * What survives a trip through the device block: decoding the block that
 * encoding wrote. The filler and timestamp bytes are arbitrary inputs and
 * no statement here depends on them.
 */
module CodecLaws {
  import opened Wrappers
  import opened Bits
  import opened Profiles
  import opened Codec

  function Min(a: nat, b: nat): nat
  {
    if a < b then a else b
  }

  /** The name field holds the first 40 units of t, then zeros. */
  lemma UnitOfNameBytes(b: seq<byte>, t: Text, i: nat)
    requires |b| == BlockSize && i < NameUnits
    requires forall j :: 0 <= j < 2 * NameUnits ==> b[NameOffset + j] == NameByte(t, j)
    ensures UnitAt(b, i) == if i < |t| then t[i] else 0
  {
    assert b[NameOffset + 2 * i] == NameByte(t, 2 * i);
    assert b[NameOffset + 2 * i + 1] == NameByte(t, 2 * i + 1);
    if i < |t| {
      Uint16Bytes(t[i]);
    }
  }

  lemma {:induction false} NameFromBytes(b: seq<byte>, t: Text, i: nat)
    requires |b| == BlockSize && i <= NameUnits
    requires forall j :: 0 <= j < 2 * NameUnits ==> b[NameOffset + j] == NameByte(t, j)
    requires forall j :: 0 <= j < |t| && j < NameUnits ==> t[j] != 0
    ensures NameFrom(b, i) == if i < |t| then t[i..Min(|t|, NameUnits)] else []
    decreases NameUnits - i
  {
    if i < NameUnits {
      UnitOfNameBytes(b, t, i);
      if i < |t| {
        NameFromBytes(b, t, i + 1);
      }
    }
  }

  /** The name comes back as its first 40 units ("Profile" for an empty
      name), provided none of those units is zero. */
  lemma NameRoundTrip(p: Profile, f: seq<byte>, ts: nat, ob: byte)
    requires p.Valid() && |f| == FillerSize
    requires var t := NameOrDefault(p.name); forall j :: 0 <= j < |t| && j < NameUnits ==> t[j] != 0
    ensures var t := NameOrDefault(p.name);
      Decode(EncodeWith(p, f, ts, ob)).value.name == t[..Min(|t|, NameUnits)]
  {
    var b := EncodeWith(p, f, ts, ob);
    var t := NameOrDefault(p.name);
    forall j | 0 <= j < 2 * NameUnits
      ensures b[NameOffset + j] == NameByte(t, j)
    {
      assert b[NameOffset + j] == EncodedByte(p, f, ts, ob, NameOffset + j);
    }
    NameFromBytes(b, t, 0);
    assert t[0..Min(|t|, NameUnits)] == t[..Min(|t|, NameUnits)];
  }

  /** A name of 1 to 40 units, none zero, comes back unchanged. */
  lemma NameSurvives(p: Profile, f: seq<byte>, ts: nat)
    requires p.Valid() && |f| == FillerSize
    requires 0 < |p.name| <= NameUnits && forall j :: 0 <= j < |p.name| ==> p.name[j] != 0
    ensures Decode(Encode(p, f, ts)).value.name == p.name
  {
    NameRoundTrip(p, f, ts, OrientationByte(p.orientation));
  }

  /** Bytes 150 and 151 hold the toggle word, low byte first. */
  lemma ToggleWordBytes(p: Profile, f: seq<byte>, ts: nat, ob: byte)
    requires p.Valid() && |f| == FillerSize
    ensures var b := EncodeWith(p, f, ts, ob);
      Uint16At(b, ToggleOffset) == ToggleWord(p)
  {
    var b := EncodeWith(p, f, ts, ob);
    assert b[ToggleOffset] == EncodedByte(p, f, ts, ob, ToggleOffset);
    assert b[ToggleOffset + 1] == EncodedByte(p, f, ts, ob, ToggleOffset + 1);
    FromBitsBound(ToggleFlags(p));
    Pow2Values();
    Uint16Bytes(ToggleWord(p));
  }

  /** Bit i of the little-endian word at 150..151 is set exactly when button
      i + 1 (i < 10) or expansion port i - 9 (i in 10..13) is a toggle; the
      stick never sets bit 9 and no other bit is ever set. */
  lemma ToggleWordExact(p: Profile, f: seq<byte>, ts: nat, ob: byte, i: nat)
    requires p.Valid() && |f| == FillerSize
    ensures var b := EncodeWith(p, f, ts, ob);
      Bit(Uint16At(b, ToggleOffset), i) <==>
        (i < ButtonCount && p.buttons[i].toggle)
        || (10 <= i < 14 && 0 < PortEntry(p, i - 9).mapping1 < 100 && PortEntry(p, i - 9).toggle)
  {
    ToggleWordBytes(p, f, ts, ob);
    BitOfFromBits(ToggleFlags(p), i);
    if i < 16 {
      assert ToggleFlags(p)[i] == if i < ButtonCount then p.buttons[i].toggle
        else if i < 14 then SetsToggle(PortEntry(p, i - 9)) else false;
    }
  }

  /** The decoder reads back every toggle flag the encoder wrote. */
  lemma ToggleRoundTrip(p: Profile, f: seq<byte>, ts: nat, ob: byte, i: nat)
    requires p.Valid() && |f| == FillerSize && i < 16
    ensures DecodedToggle(EncodeWith(p, f, ts, ob), i) == ToggleFlags(p)[i]
  {
    var b := EncodeWith(p, f, ts, ob);
    ToggleWordBytes(p, f, ts, ob);
    BitOfFromBits(ToggleFlags(p), i);
    Pow2Values();
    BitOfWord(b[ToggleOffset], b[ToggleOffset + 1], 8, i);
  }

  /** Byte r of button record k of the block is that button's ButtonByte. */
  lemma ButtonRecordAt(p: Profile, f: seq<byte>, ts: nat, ob: byte, k: nat, r: nat)
    requires p.Valid() && |f| == FillerSize && k < ButtonCount && r < ButtonRecord
    ensures EncodeWith(p, f, ts, ob)[ButtonOffset + ButtonRecord * k + r] == ButtonByte(p.buttons[k], r)
  {
    var i := ButtonOffset + ButtonRecord * k + r;
    assert (i - ButtonOffset) / ButtonRecord == k && (i - ButtonOffset) % ButtonRecord == r;
    assert EncodeWith(p, f, ts, ob)[i] == EncodedByte(p, f, ts, ob, i);
  }

  /** Every button comes back with its codes taken modulo 256 (setUint8)
      and its toggle flag. */
  lemma ButtonsRoundTrip(p: Profile, f: seq<byte>, ts: nat, ob: byte)
    requires p.Valid() && |f| == FillerSize
    ensures var d := Decode(EncodeWith(p, f, ts, ob)).value;
      forall k :: 0 <= k < ButtonCount ==>
        d.buttons[k] == Button(p.buttons[k].mapping1 % 256, p.buttons[k].mapping2 % 256, p.buttons[k].toggle)
  {
    var b := EncodeWith(p, f, ts, ob);
    forall k | 0 <= k < ButtonCount
      ensures DecodedButton(b, k) == Button(p.buttons[k].mapping1 % 256, p.buttons[k].mapping2 % 256, p.buttons[k].toggle)
    {
      ButtonRecordAt(p, f, ts, ob, k, 0);
      ButtonRecordAt(p, f, ts, ob, k, 1);
      ToggleRoundTrip(p, f, ts, ob, k);
    }
  }

  /** Byte r of record n of the block is that record's PortByte. */
  lemma PortRecordAt(p: Profile, f: seq<byte>, ts: nat, ob: byte, n: nat, r: nat)
    requires p.Valid() && |f| == FillerSize && n <= PortCount && r < PortRecord
    ensures EncodeWith(p, f, ts, ob)[PortOffset + PortRecord * n + r] == PortByte(PortEntry(p, n), ob, r)
  {
    var k := PortOffset + PortRecord * n + r;
    assert (k - PortOffset) / PortRecord == n && (k - PortOffset) % PortRecord == r;
    assert EncodeWith(p, f, ts, ob)[k] == EncodedByte(p, f, ts, ob, k);
  }

  /** What the decoder makes of the record written for expansion entry q:
      a stick keeps its offset from 100 modulo 256 and loses mapping2,
      toggle and analog; a button keeps mapping1, toggle and analog and
      mapping2 modulo 256; anything else (0, 100, a missing entry) becomes
      an all-zero entry. */
  function PortAfterLoad(q: Port): Port
  {
    if q.mapping1 > 100 then Port(100 + (q.mapping1 - 100) % 256, 0, false, false)
    else if 0 < q.mapping1 < 100 then Port(q.mapping1, q.mapping2 % 256, q.toggle, q.analog)
    else Port(0, 0, false, false)
  }

  /** Expansion port n (1..4) comes back as: a stick with the same offset
      from 100 modulo 256, a button with the same mapping1, mapping2 modulo
      256, toggle and analog, or an empty entry for anything else (0, 100
      or a missing entry). */
  lemma PortRoundTrip(p: Profile, f: seq<byte>, ts: nat, ob: byte, n: nat)
    requires p.Valid() && |f| == FillerSize && 1 <= n <= PortCount
    ensures var q := PortEntry(p, n);
      Decode(EncodeWith(p, f, ts, ob)).value.ports[n - 1] == Some(PortAfterLoad(q))
  {
    var b := EncodeWith(p, f, ts, ob);
    DecodedPortOfEncoded(p, f, ts, ob, n);
    assert Decode(b).value.ports[n - 1] == DecodedPort(b, n);
  }

  /** The decoder's switch over a port record holding what the encoder
      writes for entry q, with q's toggle flag in the toggle word. */
  lemma DecodedPortOfRecord(b: seq<byte>, n: nat, q: Port, ob: byte)
    requires |b| == BlockSize && 1 <= n <= PortCount
    requires forall r :: 0 <= r < 4 ==> b[PortOffset + PortRecord * n + r] == PortByte(q, ob, r)
    requires DecodedToggle(b, 9 + n) == SetsToggle(q)
    ensures DecodedPort(b, n) == Some(PortAfterLoad(q))
  {
    var base := PortOffset + PortRecord * n;
    assert b[base] == PortByte(q, ob, 0) && b[base + 1] == PortByte(q, ob, 1);
    assert b[base + 2] == PortByte(q, ob, 2) && b[base + 3] == PortByte(q, ob, 3);
  }

  lemma DecodedPortOfEncoded(p: Profile, f: seq<byte>, ts: nat, ob: byte, n: nat)
    requires p.Valid() && |f| == FillerSize && 1 <= n <= PortCount
    ensures var q := PortEntry(p, n);
      DecodedPort(EncodeWith(p, f, ts, ob), n) == Some(PortAfterLoad(q))
  {
    var b := EncodeWith(p, f, ts, ob);
    var q := PortEntry(p, n);
    forall r | 0 <= r < 4
      ensures b[PortOffset + PortRecord * n + r] == PortByte(q, ob, r)
    {
      PortRecordAt(p, f, ts, ob, n, r);
    }
    ToggleRoundTrip(p, f, ts, ob, 9 + n);
    assert ToggleFlags(p)[9 + n] == SetsToggle(q);
    DecodedPortOfRecord(b, n, q, ob);
  }

  /** The stick entry: a stick (mapping1 > 100) comes back with its offset
      from 100 modulo 256 and the orientation byte; anything else comes
      back as no stick with orientation 3. */
  lemma StickRoundTrip(p: Profile, f: seq<byte>, ts: nat, ob: byte)
    requires p.Valid() && |f| == FillerSize
    ensures var d := Decode(EncodeWith(p, f, ts, ob)).value;
      if p.stick > 100 then d.stick == 100 + (p.stick - 100) % 256 && d.orientation == ob
      else d.stick == 0 && d.orientation == 3
  {
    PortRecordAt(p, f, ts, ob, 0, 0);
    PortRecordAt(p, f, ts, ob, 0, 1);
    PortRecordAt(p, f, ts, ob, 0, 2);
  }

  /** The first two bytes of record n of the saved block, and what the
      loader makes of the record. */
  lemma SavedPortRecord(p: Profile, f: seq<byte>, ts: nat, n: nat)
    requires p.Valid() && |f| == FillerSize && 1 <= n <= PortCount
    ensures var b, q, ob := Encode(p, f, ts), PortEntry(p, n), OrientationByte(p.orientation);
      && b[PortOffset + PortRecord * n] == PortByte(q, ob, 0)
      && b[PortOffset + PortRecord * n + 1] == PortByte(q, ob, 1)
      && Decode(b).value.ports[n - 1] == Some(PortAfterLoad(q))
  {
    var ob := OrientationByte(p.orientation);
    assert Encode(p, f, ts) == EncodeWith(p, f, ts, ob);
    PortRecordAt(p, f, ts, ob, n, 0);
    PortRecordAt(p, f, ts, ob, n, 1);
    PortRoundTrip(p, f, ts, ob, n);
  }

  /** A button-assigned expansion port (mapping1 in 1..99, mapping2 a byte)
      is written with tag 2 when analog and 3 otherwise, and comes back
      unchanged. */
  lemma ButtonPortSurvives(p: Profile, f: seq<byte>, ts: nat, n: nat)
    requires p.Valid() && |f| == FillerSize && 1 <= n <= PortCount
    requires p.ports[n - 1].Some? && 0 < p.ports[n - 1].value.mapping1 < 100 && p.ports[n - 1].value.mapping2 < 256
    ensures Encode(p, f, ts)[PortOffset + PortRecord * n] == if p.ports[n - 1].value.analog then 2 else 3
    ensures Decode(Encode(p, f, ts)).value.ports[n - 1] == p.ports[n - 1]
  {
    var q := p.ports[n - 1].value;
    assert PortEntry(p, n) == q;
    SavedPortRecord(p, f, ts, n);
    SmallMod(q.mapping2, 256);
  }

  /** A stick on an expansion port (mapping1 101..355) is written as tag 1
      with byte 1 = mapping1 - 100 and comes back as the same stick with
      mapping2 0 and no toggle or analog flag. */
  lemma StickPortSurvives(p: Profile, f: seq<byte>, ts: nat, n: nat)
    requires p.Valid() && |f| == FillerSize && 1 <= n <= PortCount
    requires p.ports[n - 1].Some? && 100 < p.ports[n - 1].value.mapping1 < 356
    ensures var b := Encode(p, f, ts);
      b[PortOffset + PortRecord * n] == 1 && b[PortOffset + PortRecord * n + 1] == p.ports[n - 1].value.mapping1 - 100
    ensures Decode(Encode(p, f, ts)).value.ports[n - 1] == Some(Port(p.ports[n - 1].value.mapping1, 0, false, false))
  {
    var q := p.ports[n - 1].value;
    assert PortEntry(p, n) == q;
    SavedPortRecord(p, f, ts, n);
    SmallMod(q.mapping1 - 100, 256);
  }

  /** An unassigned or missing expansion port is written with tag 0 and
      comes back as an all-zero entry. */
  lemma EmptyPortSurvives(p: Profile, f: seq<byte>, ts: nat, n: nat)
    requires p.Valid() && |f| == FillerSize && 1 <= n <= PortCount
    requires p.ports[n - 1].None? || p.ports[n - 1].value.mapping1 == 0
    ensures Encode(p, f, ts)[PortOffset + PortRecord * n] == 0
    ensures Decode(Encode(p, f, ts)).value.ports[n - 1] == Some(Port(0, 0, false, false))
  {
    assert PortEntry(p, n).mapping1 == 0;
    SavedPortRecord(p, f, ts, n);
  }

  /** The analog stick (mapping1 101..355) comes back unchanged with its
      orientation when that is 1..255; orientation 0 comes back as 3. */
  lemma StickSurvives(p: Profile, f: seq<byte>, ts: nat)
    requires p.Valid() && |f| == FillerSize && 100 < p.stick < 356 && p.orientation < 256
    ensures var d := Decode(Encode(p, f, ts)).value;
      d.stick == p.stick && d.orientation == if p.orientation == 0 then 3 else p.orientation
  {
    var ob := OrientationByte(p.orientation);
    assert Encode(p, f, ts) == EncodeWith(p, f, ts, ob);
    StickRoundTrip(p, f, ts, ob);
    SmallMod(p.stick - 100, 256);
    SmallMod(p.orientation, 256);
  }

  /** Expansion entries that come back exactly as they were written. */
  predicate StablePort(q: Port)
  {
    || ((q.mapping1 == 0 || 100 < q.mapping1 < 356) && q.mapping2 == 0 && !q.toggle && !q.analog)
    || (0 < q.mapping1 < 100 && q.mapping2 < 256)
  }

  /** Everything except the orientation of a stick profile survives a save
      and a load: byte-sized button codes, no stick and orientation 3 or a
      stick 101..355, and four present ports that are stable. */
  predicate StableFields(p: Profile)
    requires p.Valid()
  {
    && (forall k :: 0 <= k < ButtonCount ==> p.buttons[k].mapping1 < 256 && p.buttons[k].mapping2 < 256)
    && ((p.stick == 0 && p.orientation == 3) || 100 < p.stick < 356)
    && (forall k :: 0 <= k < PortCount ==> p.ports[k].Some? && StablePort(p.ports[k].value))
  }

  /** A profile d whose fields are what the decoder makes of p's record
      matches p exactly when p's fields are stable and, for a stick
      profile, ob is p's orientation. */
  lemma MatchIffStable(p: Profile, d: Profile, ob: byte)
    requires p.Valid() && d.Valid()
    requires forall k :: 0 <= k < ButtonCount ==>
      d.buttons[k] == Button(p.buttons[k].mapping1 % 256, p.buttons[k].mapping2 % 256, p.buttons[k].toggle)
    requires forall n :: 1 <= n <= PortCount ==> d.ports[n - 1] == Some(PortAfterLoad(PortEntry(p, n)))
    requires if p.stick > 100 then d.stick == 100 + (p.stick - 100) % 256 && d.orientation == ob
      else d.stick == 0 && d.orientation == 3
    ensures ProfilesMatch(d, p) <==> StableFields(p) && (p.stick > 100 ==> ob == p.orientation)
  {
    var buttonsSame := forall k :: 0 <= k < ButtonCount ==> p.buttons[k].mapping1 < 256 && p.buttons[k].mapping2 < 256;
    var portsSame := forall k :: 0 <= k < PortCount ==> p.ports[k].Some? && StablePort(p.ports[k].value);
    assert d.buttons == p.buttons <==> buttonsSame by {
      if buttonsSame {
        assert forall k :: 0 <= k < ButtonCount ==> d.buttons[k] == p.buttons[k];
      }
    }
    assert d.ports == p.ports <==> portsSame by {
      if portsSame {
        forall k | 0 <= k < PortCount
          ensures d.ports[k] == p.ports[k]
        {
          assert PortEntry(p, k + 1) == p.ports[k].value;
          assert d.ports[(k + 1) - 1] == Some(PortAfterLoad(PortEntry(p, k + 1)));
        }
      }
      if d.ports == p.ports {
        forall k | 0 <= k < PortCount
          ensures p.ports[k].Some? && StablePort(p.ports[k].value)
        {
          assert d.ports[(k + 1) - 1] == Some(PortAfterLoad(PortEntry(p, k + 1)));
          assert PortEntry(p, k + 1) == p.ports[k].value;
        }
      }
    }
  }

  /** The block written with orientation byte ob decodes to a profile that
      matches p exactly when p's fields are stable and, for a stick profile,
      ob is p's orientation. */
  lemma MatchAfterRoundTrip(p: Profile, f: seq<byte>, ts: nat, ob: byte)
    requires p.Valid() && |f| == FillerSize
    ensures ProfilesMatch(Decode(EncodeWith(p, f, ts, ob)).value, p)
      <==> StableFields(p) && (p.stick > 100 ==> ob == p.orientation)
  {
    var d := Decode(EncodeWith(p, f, ts, ob)).value;
    assert d.Valid();
    assert forall k :: 0 <= k < ButtonCount ==>
      d.buttons[k] == Button(p.buttons[k].mapping1 % 256, p.buttons[k].mapping2 % 256, p.buttons[k].toggle) by {
      ButtonsRoundTrip(p, f, ts, ob);
    }
    assert forall n :: 1 <= n <= PortCount ==> d.ports[n - 1] == Some(PortAfterLoad(PortEntry(p, n))) by {
      forall n | 1 <= n <= PortCount
        ensures d.ports[n - 1] == Some(PortAfterLoad(PortEntry(p, n)))
      {
        PortRoundTrip(p, f, ts, ob, n);
      }
    }
    assert if p.stick > 100 then d.stick == 100 + (p.stick - 100) % 256 && d.orientation == ob
      else d.stick == 0 && d.orientation == 3 by {
      StickRoundTrip(p, f, ts, ob);
    }
    MatchIffStable(p, d, ob);
  }

  /** `profileToDeviceData` followed by `deviceDataToProfile` yields a
      profile that matches the original exactly when its fields are stable
      and a stick profile's orientation is 1..255. */
  lemma SaveLoadMatches(p: Profile, f: seq<byte>, ts: nat)
    requires p.Valid() && |f| == FillerSize
    ensures ProfilesMatch(Decode(Encode(p, f, ts)).value, p)
      <==> StableFields(p) && (p.stick > 100 ==> 0 < p.orientation < 256)
  {
    MatchAfterRoundTrip(p, f, ts, OrientationByte(p.orientation));
  }

  // -------------------------------------------- orientation 0 ("stick below")

  /** A stick profile with orientation 0 and nothing else assigned. */
  const StickBelow: Profile := Profile(DefaultName, 0, false, 101,
    seq(ButtonCount, _ => Button(0, 0, false)), seq(PortCount, _ => Some(Port(0, 0, false, false))))

  /** As written, orientation 0 is stored as 3, so the profile read back no
      longer matches the one that was saved. */
  lemma OrientationZeroLost(f: seq<byte>, ts: nat)
    requires |f| == FillerSize
    ensures Decode(Encode(StickBelow, f, ts)).value.orientation == 3
    ensures !ProfilesMatch(Decode(Encode(StickBelow, f, ts)).value, StickBelow)
  {
    StickRoundTrip(StickBelow, f, ts, OrientationByte(0));
  }

  /** The orientation byte with 3 used only for a missing value: every
      parsed orientation is stored as itself. */
  function IntendedOrientationByte(o: nat): (r: byte)
    ensures o < 256 ==> r == o
  {
    o % 256
  }

  /** The block with the intended orientation byte. */
  function EncodeIntended(p: Profile, filler: seq<byte>, ts: nat): seq<byte>
    requires p.Valid() && |filler| == FillerSize
  {
    EncodeWith(p, filler, ts, IntendedOrientationByte(p.orientation))
  }

  /** With the intended orientation byte every orientation 0..255 of a stick
      profile survives, and a profile matches after save and load exactly
      when its fields are stable. */
  lemma IntendedSaveLoadMatches(p: Profile, f: seq<byte>, ts: nat)
    requires p.Valid() && |f| == FillerSize && p.orientation < 256
    ensures p.stick > 100 ==> Decode(EncodeIntended(p, f, ts)).value.orientation == p.orientation
    ensures ProfilesMatch(Decode(EncodeIntended(p, f, ts)).value, p) <==> StableFields(p)
  {
    StickRoundTrip(p, f, ts, IntendedOrientationByte(p.orientation));
    MatchAfterRoundTrip(p, f, ts, IntendedOrientationByte(p.orientation));
  }
}
