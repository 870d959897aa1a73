/**
 * The page's mutable state, `profileLibrary` and `slotAssignments`, and the
 * operations of code.js that update it in place. Each method is proved to
 * leave exactly the state the matching Library function specifies.
 */
module Session {
  import opened Wrappers
  import opened Bits
  import opened Profiles
  import opened Names
  import opened Codec
  import opened Framing
  import opened Library
  import DeviceData

  class Registry {
    var library: seq<Profile>
    var slots: array<Option<nat>>

    /** The state as a value. */
    function Current(): State
      reads this, slots
    {
      State(library, slots[..])
    }

    ghost predicate Valid()
      reads this, slots
    {
      slots.Length == SlotCount && Current().Ok()
    }

    /** The initial page state: an empty library and three empty slots. */
    constructor ()
      ensures Valid() && fresh(slots)
      ensures library == [] && slots[..] == [None, None, None]
    {
      library := [];
      slots := new Option<nat>[SlotCount](_ => None);
    }

    /** `deleteProfile` (after the confirmation dialog, whose answer is
        `confirmed`): remap the slots, then splice the library. */
    method DeleteProfile(index: nat, confirmed: bool)
      requires Valid() && index < |library|
      modifies this, slots
      ensures Valid() && slots == old(slots)
      ensures Current() == if confirmed then Deleted(old(Current()), index) else old(Current())
    {
      if !confirmed {
        return;
      }
      ghost var before := Current();
      DeleteKeepsBindings(before, index);
      for i := 0 to SlotCount
        invariant slots == old(slots) && slots.Length == SlotCount
        invariant library == before.library
        invariant forall s :: 0 <= s < SlotCount ==>
          slots[s] == if s < i then RemapAfterDelete(before.slots[s], index) else before.slots[s]
      {
        if slots[i] == Some(index) {
          slots[i] := None;
        } else if slots[i].Some? && slots[i].value > index {
          slots[i] := Some(slots[i].value - 1);
        }
      }
      library := library[..index] + library[index + 1..];
      assert Current() == Deleted(before, index);
    }

    /** `assignProfileToSlot`. The page only offers existing profiles. */
    method AssignProfileToSlot(profileIndex: nat, slotNumber: nat, checked: bool)
      requires Valid() && 1 <= slotNumber <= SlotCount && (checked ==> profileIndex < |library|)
      modifies slots
      ensures Valid()
      ensures Current() == Assigned(old(Current()), profileIndex, slotNumber, checked)
    {
      if checked {
        slots[slotNumber - 1] := Some(profileIndex);
      } else {
        slots[slotNumber - 1] := None;
      }
    }

    /** Bind-or-append for one profile (load and import): the index of its
        first match, or of the entry appended for it under a unique name;
        `added` says which. The slots are not touched. */
    method AdoptProfile(profile: Profile) returns (index: nat, added: bool)
      requires LibraryOk(library) && profile.Valid()
      modifies this
      ensures slots == old(slots) && LibraryOk(library)
      ensures Adopted(library, index) == Adopt(old(library), profile)
      ensures added <==> |library| == |old(library)| + 1
      ensures !added ==> library == old(library)
    {
      AdoptKeepsLibrary(library, profile);
      var matchingIndex := FindMatchingProfile(library, profile);
      if matchingIndex >= 0 {
        index, added := matchingIndex, false;
      } else {
        var newName := UniqueName(library, profile.name);
        library := library + [profile.(name := newName)];
        index, added := |library| - 1, true;
      }
    }

    /** The bind-or-append step of `load_from_device` for one decoded
        profile: bind its first match, or append it under a unique name and
        bind the new entry. */
    method BindLoaded(slotNumber: nat, profile: Profile)
      requires Valid() && profile.Valid() && 1 <= slotNumber <= SlotCount
      modifies this, slots
      ensures Valid() && slots == old(slots)
      ensures Current() == Bind(old(Current()), slotNumber, profile)
    {
      ghost var before := Current();
      BindFacts(before, slotNumber, profile);
      var index, _ := AdoptProfile(profile);
      slots[slotNumber - 1] := Some(index);
      assert Current() == Bind(before, slotNumber, profile);
    }

    /** One slot of `load_from_device`: reassemble the 18 reports, decode
        the block and bind the profile; on an error nothing changes. */
    method LoadSlot(slotNumber: nat, reports: seq<seq<byte>>) returns (err: Option<LoadError>)
      requires Valid() && 1 <= slotNumber <= SlotCount && |reports| == FrameCount
      modifies this, slots
      ensures Valid() && slots == old(slots)
      ensures err.None? <==> ReadSlot(reports, slotNumber).Success?
      ensures err.Some? ==> err.value == ReadSlot(reports, slotNumber).error && Current() == old(Current())
      ensures err.None? ==> Current() == Bind(old(Current()), slotNumber, ReadSlot(reports, slotNumber).value)
    {
      var received := ReceiveBlock(reports);
      if received.Failure? {
        return Some(ReadFailed(slotNumber, received.error.frame));
      }
      var decoded := DeviceData.DeviceDataToProfile(received.value);
      if decoded.Failure? {
        return Some(NotAProfile(slotNumber, decoded.error.found));
      }
      DecodedShape(received.value[..]);
      BindLoaded(slotNumber, decoded.value);
      err := None;
    }

    /** `load_from_device`: for each slot, send its read request, then read,
        decode and bind it. An error ends the load; slots already bound stay
        bound. */
    method LoadFromDevice(responses: seq<seq<seq<byte>>>) returns (requests: seq<seq<byte>>, err: Option<LoadError>)
      requires Valid() && WellFormedResponses(responses)
      modifies this, slots
      ensures Valid() && slots == old(slots)
      ensures (Current(), err) == Loaded(old(Current()), ReadAll(responses), 0)
      ensures RequestsSent(requests, if err.None? then SlotCount else err.value.slot)
    {
      ghost var results := ReadAll(responses);
      ghost var target := Loaded(Current(), results, 0);
      requests := [];
      for s := 0 to SlotCount
        invariant Valid() && slots == old(slots)
        invariant RequestsSent(requests, s)
        invariant Loaded(Current(), results, s) == target
      {
        ghost var before := Current();
        requests := AppendRequest(requests, s + 1);
        err := LoadSlot(s + 1, responses[s]);
        LoadStep(before, results, s);
        if err.Some? {
          return;
        }
      }
      err := None;
    }

    /** The frames `save_to_device` sends for slot s + 1, which is bound:
        the block of its profile, cut into 18 frames. */
    method SendSlot(s: nat, crc32: seq<byte> -> nat, fillers: seq<seq<byte>>, stamps: seq<nat>)
      returns (frames: seq<seq<byte>>)
      requires Valid() && SaveInputs(fillers, stamps) && s < SlotCount && slots[s].Some?
      ensures frames == SlotFrames(SlotBlock(Current(), s, fillers, stamps), s + 1, crc32)
    {
      var data := DeviceData.ProfileToDeviceData(library[slots[s].value], fillers[s], stamps[s]);
      frames := WriteFrames(data, s + 1, crc32);
    }

    /** `save_to_device`: the frames sent for each bound slot in turn, and
        the first empty slot, at which it stops with an error. The state is
        only read. */
    method SaveToDevice(crc32: seq<byte> -> nat, fillers: seq<seq<byte>>, stamps: seq<nat>)
      returns (sent: seq<seq<byte>>, emptySlot: Option<nat>)
      requires Valid() && SaveInputs(fillers, stamps)
      ensures (sent, emptySlot) == Saved(Current(), crc32, fillers, stamps, 0)
    {
      ghost var st := Current();
      ghost var whole := Saved(st, crc32, fillers, stamps, 0);
      sent := [];
      assert [] + whole.0 == whole.0;
      for s := 0 to SlotCount
        invariant whole == (sent + Saved(st, crc32, fillers, stamps, s).0, Saved(st, crc32, fillers, stamps, s).1)
      {
        if slots[s].None? {
          emptySlot := Some(s + 1);
          SaveEnd(st, crc32, fillers, stamps, s, sent, whole);
          return;
        }
        var frames := SendSlot(s, crc32, fillers, stamps);
        SaveTurn(st, crc32, fillers, stamps, s, sent, whole);
        sent := sent + frames;
      }
      emptySlot := None;
      SaveEnd(st, crc32, fillers, stamps, SlotCount, sent, whole);
    }

    /** The merge loop of `import_profiles` over already parsed profiles and
        slot list: adopt each profile in turn, fill the empty slots the file
        binds to it, then replace the slot list with the new one. */
    method ImportMerge(imported: seq<Profile>, importedSlots: seq<Option<nat>>) returns (addedCount: nat)
      requires Valid() && forall j :: 0 <= j < |imported| ==> imported[j].Valid()
      modifies this
      ensures Valid() && fresh(slots)
      ensures Current() == Merged(old(Current()), imported, importedSlots, 0)
      ensures addedCount == |library| - |old(library)|
    {
      ghost var target := Merged(Current(), imported, importedSlots, 0);
      var newSlots := new Option<nat>[SlotCount];
      newSlots[0], newSlots[1], newSlots[2] := slots[0], slots[1], slots[2];
      assert newSlots[..] == slots[..];
      addedCount := 0;
      ghost var start := |library|;
      for i := 0 to |imported|
        invariant State(library, newSlots[..]).Ok()
        invariant Merged(State(library, newSlots[..]), imported, importedSlots, i) == target
        invariant addedCount == |library| - start
      {
        ghost var st := State(library, newSlots[..]);
        ImportOneFacts(st, imported[i], i, importedSlots);
        var index, added := AdoptProfile(imported[i]);
        if added {
          addedCount := addedCount + 1;
        }
        FillRequested(newSlots, importedSlots, i, index);
        assert State(library, newSlots[..]) == ImportOne(st, imported[i], i, importedSlots);
      }
      slots := newSlots;
    }
  }

  /** One more read request: the one for slot `slot`. */
  method AppendRequest(requests: seq<seq<byte>>, slot: nat) returns (r: seq<seq<byte>>)
    requires 1 <= slot <= SlotCount && RequestsSent(requests, slot - 1)
    ensures RequestsSent(r, slot)
  {
    r := requests + [ReadRequest(slot)];
  }

  /** The slot loop of the merge for imported profile i, now at library
      index `index`. */
  method FillRequested(newSlots: array<Option<nat>>, importedSlots: seq<Option<nat>>, i: nat, index: nat)
    modifies newSlots
    ensures newSlots[..] == FillSlots(old(newSlots[..]), importedSlots, i, index)
  {
    ghost var before := newSlots[..];
    for slot := 0 to newSlots.Length
      invariant forall t :: 0 <= t < newSlots.Length ==>
        newSlots[t] == if t < slot then FillSlots(before, importedSlots, i, index)[t] else before[t]
    {
      if slot < |importedSlots| && importedSlots[slot] == Some(i) && newSlots[slot].None? {
        newSlots[slot] := Some(index);
      }
    }
  }

  /** The old file format's conversion: profile1..profile3 that are present
      go into the library in order, and slot i is bound to profile i + 1's
      new index. */
  method LegacyToLibrary(profiles: seq<Option<Profile>>) returns (imported: seq<Profile>, importedSlots: seq<Option<nat>>)
    requires |profiles| == SlotCount
    ensures imported == LegacyLibrary(profiles)
    ensures importedSlots == LegacySlots(profiles)
  {
    imported := [];
    importedSlots := [None, None, None];
    for i := 0 to SlotCount
      invariant imported == LegacyLibrary(profiles[..i])
      invariant |importedSlots| == SlotCount
      invariant forall t :: 0 <= t < SlotCount ==> importedSlots[t] == if t < i then LegacySlots(profiles)[t] else None
    {
      assert profiles[..i + 1][..i] == profiles[..i];
      if profiles[i].Some? {
        imported := imported + [profiles[i].value];
        importedSlots := importedSlots[i := Some(|imported| - 1)];
      }
    }
    assert profiles[..SlotCount] == profiles;
  }
}
