/**
 * The profile library and the three device slots, as values: each update
 * of code.js (delete, assign, bind after a device load, the device load and
 * save over all three slots, the import merge) is a function from one State
 * to the next, and the lemmas say what each keeps and what it achieves.
 * Session.Registry runs the same updates in place.
 */
module Library {
  import opened Wrappers
  import opened Bits
  import opened Profiles
  import opened Names
  import opened Codec
  import opened Framing
  import CodecLaws

  const SlotCount := 3

  /** No two library names are equal ignoring case. The editor's check
      compares the trimmed name but stores it untrimmed, so a library can
      hold names that differ only in surrounding blanks; this is therefore
      not part of a consistent state, and the lemmas below show that every
      update keeps it when it held before. */
  predicate DistinctNames(lib: seq<Profile>)
  {
    forall i, j :: 0 <= i < j < |lib| ==> !SameName(lib[i].name, lib[j].name)
  }

  /** Every entry has the full shape. */
  predicate LibraryOk(lib: seq<Profile>)
  {
    forall i :: 0 <= i < |lib| ==> lib[i].Valid()
  }

  /** A slot binding is empty or names an index of a library of size n. */
  predicate InRange(b: Option<nat>, n: nat)
  {
    b.Some? ==> b.value < n
  }

  /** `profileLibrary` and `slotAssignments`. */
  datatype State = State(library: seq<Profile>, slots: seq<Option<nat>>)
  {
    predicate Ok()
    {
      && LibraryOk(library)
      && |slots| == SlotCount
      && forall s :: 0 <= s < SlotCount ==> InRange(slots[s], |library|)
    }
  }

  // ---------------------------------------------------------------- delete

  /** `deleteProfile`'s update of one slot. */
  function RemapAfterDelete(b: Option<nat>, index: nat): Option<nat>
  {
    match b
    case None => None
    case Some(i) => if i == index then None else if i > index then Some(i - 1) else Some(i)
  }

  /** The library with entry index removed, and the remapped slots. */
  function Deleted(st: State, index: nat): (r: State)
    requires index < |st.library| && |st.slots| == SlotCount
    ensures |r.library| == |st.library| - 1 && |r.slots| == SlotCount
  {
    State(st.library[..index] + st.library[index + 1..],
      seq(SlotCount, s requires 0 <= s < SlotCount => RemapAfterDelete(st.slots[s], index)))
  }

  /** A binding of the deleted profile is cleared; every other binding
      still names the same profile in the shortened library. */
  lemma RemapKeepsProfile(lib: seq<Profile>, b: Option<nat>, index: nat)
    requires index < |lib| && InRange(b, |lib|)
    ensures RemapAfterDelete(b, index).None? <==> b.None? || b.value == index
    ensures RemapAfterDelete(b, index).Some? ==>
      && RemapAfterDelete(b, index).value < |lib| - 1
      && (lib[..index] + lib[index + 1..])[RemapAfterDelete(b, index).value] == lib[b.value]
  {
  }

  /** Deleting keeps a consistent state and every surviving binding. */
  lemma DeleteKeepsBindings(st: State, index: nat)
    requires st.Ok() && index < |st.library|
    ensures Deleted(st, index).Ok()
    ensures forall s :: 0 <= s < SlotCount ==>
      (Deleted(st, index).slots[s].None? <==> st.slots[s].None? || st.slots[s] == Some(index))
    ensures forall s :: 0 <= s < SlotCount && Deleted(st, index).slots[s].Some? ==>
      Deleted(st, index).library[Deleted(st, index).slots[s].value] == st.library[st.slots[s].value]
  {
    var d := Deleted(st, index);
    forall s | 0 <= s < SlotCount
      ensures InRange(d.slots[s], |d.library|)
      ensures d.slots[s].None? <==> st.slots[s].None? || st.slots[s] == Some(index)
      ensures d.slots[s].Some? ==> d.library[d.slots[s].value] == st.library[st.slots[s].value]
    {
      RemapKeepsProfile(st.library, st.slots[s], index);
    }
  }

  /** Deleting an entry keeps the names distinct. */
  lemma DeleteKeepsDistinct(st: State, index: nat)
    requires index < |st.library| && |st.slots| == SlotCount && DistinctNames(st.library)
    ensures DistinctNames(Deleted(st, index).library)
  {
    var d := Deleted(st, index);
    forall i, j | 0 <= i < j < |d.library|
      ensures !SameName(d.library[i].name, d.library[j].name)
    {
      var i', j' := if i < index then i else i + 1, if j < index then j else j + 1;
      assert d.library[i] == st.library[i'] && d.library[j] == st.library[j'];
    }
  }

  // ---------------------------------------------------------------- assign

  /** `assignProfileToSlot`: a checked box binds the slot, an unchecked one
      clears it. */
  function Assigned(st: State, profileIndex: nat, slotNumber: nat, checked: bool): (r: State)
    requires 1 <= slotNumber <= SlotCount && |st.slots| == SlotCount
    ensures r.library == st.library && |r.slots| == SlotCount
    ensures r.slots[slotNumber - 1] == (if checked then Some(profileIndex) else None)
    ensures forall s :: 0 <= s < SlotCount && s != slotNumber - 1 ==> r.slots[s] == st.slots[s]
  {
    State(st.library, st.slots[slotNumber - 1 := if checked then Some(profileIndex) else None])
  }

  // ------------------------------------------------------- adopt a profile

  datatype Adopted = Adopted(library: seq<Profile>, index: nat)

  /** Bind-or-append (load and import): the first library entry matching p,
      or p appended under a uniquified name. */
  function Adopt(lib: seq<Profile>, p: Profile): Adopted
  {
    var m := FindMatchingProfile(lib, p);
    if m >= 0 then Adopted(lib, m)
    else Adopted(lib + [p.(name := UniqueNameOf(lib, p.name))], |lib|)
  }

  /** The adopted index names a profile matching p in a library that
      extends lib by at most one entry; the library grows exactly when
      nothing in it matched, and then by p under a name no entry had. */
  lemma AdoptFacts(lib: seq<Profile>, p: Profile)
    ensures var a := Adopt(lib, p);
      && a.index < |a.library|
      && ProfilesMatch(a.library[a.index], p)
      && lib <= a.library && |a.library| <= |lib| + 1
      && ((exists k :: 0 <= k < |lib| && ProfilesMatch(lib[k], p)) <==> a.library == lib)
      && (a.library == lib ==> forall k :: 0 <= k < a.index ==> !ProfilesMatch(lib[k], p))
      && (a.library != lib ==>
        && a.index == |lib|
        && a.library[|lib|] == p.(name := a.library[|lib|].name)
        && !NameTaken(lib, a.library[|lib|].name))
  {
    var m := FindMatchingProfile(lib, p);
    if m < 0 {
      var n := UniqueNameOf(lib, p.name);
      MatchReflexive(p);
      MatchIgnoresDisplay(p, p, n, p.showSwitchMapping);
      assert p.(name := n, showSwitchMapping := p.showSwitchMapping) == p.(name := n);
      UniqueNameIsFirstFree(lib, p.name);
      assert (lib + [p.(name := n)])[|lib|] == p.(name := n);
    }
  }

  /** Adopting a valid profile keeps every entry valid. */
  lemma AdoptKeepsLibrary(lib: seq<Profile>, p: Profile)
    requires LibraryOk(lib) && p.Valid()
    ensures LibraryOk(Adopt(lib, p).library)
  {
    AdoptFacts(lib, p);
  }

  /** Adopting keeps the names distinct: an appended entry gets a name no
      entry had. */
  lemma AdoptKeepsDistinct(lib: seq<Profile>, p: Profile)
    requires DistinctNames(lib)
    ensures DistinctNames(Adopt(lib, p).library)
  {
    AdoptFacts(lib, p);
    var a := Adopt(lib, p);
    if a.library != lib {
      forall i, j | 0 <= i < j < |a.library|
        ensures !SameName(a.library[i].name, a.library[j].name)
      {
        if j == |lib| {
          assert !SameName(lib[i].name, a.library[|lib|].name);
        } else {
          assert a.library[i] == lib[i] && a.library[j] == lib[j];
        }
      }
    }
  }

  /** What the load loop does with one decoded profile for slot slotNumber. */
  function Bind(st: State, slotNumber: nat, p: Profile): (r: State)
    requires 1 <= slotNumber <= SlotCount && |st.slots| == SlotCount
  {
    var a := Adopt(st.library, p);
    State(a.library, st.slots[slotNumber - 1 := Some(a.index)])
  }

  /** Binding changes slot slotNumber only. */
  lemma BindSlots(st: State, slotNumber: nat, p: Profile)
    requires 1 <= slotNumber <= SlotCount && |st.slots| == SlotCount
    ensures var r := Bind(st, slotNumber, p);
      |r.slots| == SlotCount && forall t :: 0 <= t < SlotCount && t != slotNumber - 1 ==> r.slots[t] == st.slots[t]
  {
  }

  /** Binding keeps a consistent state, leaves the other slots alone, only
      appends, and points the slot at a profile matching the loaded one. */
  lemma BindFacts(st: State, slotNumber: nat, p: Profile)
    requires st.Ok() && p.Valid() && 1 <= slotNumber <= SlotCount
    ensures var r := Bind(st, slotNumber, p);
      && r.Ok()
      && st.library <= r.library
      && r.slots[slotNumber - 1].Some?
      && ProfilesMatch(r.library[r.slots[slotNumber - 1].value], p)
      && (forall s :: 0 <= s < SlotCount && s != slotNumber - 1 ==> r.slots[s] == st.slots[s])
  {
    AdoptFacts(st.library, p);
    AdoptKeepsLibrary(st.library, p);
  }

  // ------------------------------------------------------------ device load

  datatype LoadError = ReadFailed(slot: nat, frame: nat) | NotAProfile(slot: nat, marker: byte)

  /** The profile read back from one slot's 18 reports, or why not. */
  function ReadSlot(reports: seq<seq<byte>>, slot: nat): (r: Result<Profile, LoadError>)
    requires |reports| == FrameCount
    ensures r.Success? ==> r.value.Valid()
    ensures r.Failure? ==> r.error.slot == slot
  {
    match Reassemble(reports)
    case Failure(e) => Failure(ReadFailed(slot, e.frame))
    case Success(b) =>
      if b[0] != Marker then Failure(NotAProfile(slot, b[0]))
      else DecodedShape(b); Success(Decode(b).value)
  }

  predicate WellFormedResponses(responses: seq<seq<seq<byte>>>)
  {
    |responses| == SlotCount && forall t :: 0 <= t < SlotCount ==> |responses[t]| == FrameCount
  }

  /** What each slot's reports read back as. */
  function ReadAll(responses: seq<seq<seq<byte>>>): (r: seq<Result<Profile, LoadError>>)
    requires WellFormedResponses(responses)
    ensures ResultsOk(r)
  {
    seq(SlotCount, t requires 0 <= t < SlotCount => ReadSlot(responses[t], t + 1))
  }

  /** Read results as ReadSlot gives them: valid profiles, errors that name
      their own slot. */
  predicate ResultsOk(results: seq<Result<Profile, LoadError>>)
  {
    && |results| == SlotCount
    && (forall t :: 0 <= t < SlotCount && results[t].Success? ==> results[t].value.Valid())
    && (forall t :: 0 <= t < SlotCount && results[t].Failure? ==> results[t].error.slot == t + 1)
  }

  /** `load_from_device` from slot s + 1 on, given what each slot reads
      back as: bind each slot in turn, stopping at the first error, with
      earlier slots kept. */
  function Loaded(st: State, results: seq<Result<Profile, LoadError>>, s: nat): (State, Option<LoadError>)
    requires |st.slots| == SlotCount && |results| == SlotCount && s <= SlotCount
    decreases SlotCount - s
  {
    if s == SlotCount then (st, None)
    else match results[s]
      case Failure(e) => (st, Some(e))
      case Success(p) => Loaded(Bind(st, s + 1, p), results, s + 1)
  }

  /** One step of the load: an error stops it where it is, a profile is
      bound and the load goes on with the next slot. */
  lemma LoadStep(st: State, results: seq<Result<Profile, LoadError>>, s: nat)
    requires |st.slots| == SlotCount && ResultsOk(results) && s < SlotCount
    ensures results[s].Failure? ==> Loaded(st, results, s) == (st, Some(results[s].error))
    ensures results[s].Success? ==> Loaded(st, results, s) == Loaded(Bind(st, s + 1, results[s].value), results, s + 1)
  {
  }

  /** The request frames a load sends having reached slot n: one per slot,
      in slot order. */
  predicate RequestsSent(requests: seq<seq<byte>>, n: nat)
  {
    |requests| == n && forall t :: 0 <= t < n ==> 1 <= t + 1 <= SlotCount && requests[t] == ReadRequest(t + 1)
  }

  /** How many slots a load from slot s + 1 on gets through. */
  function SlotsRead(err: Option<LoadError>): int
  {
    if err.None? then SlotCount else err.value.slot - 1
  }

  /** A load from slot s + 1 on keeps a consistent state and only appends
      to the library. */
  lemma {:induction false} LoadKeeps(st: State, results: seq<Result<Profile, LoadError>>, s: nat)
    requires st.Ok() && ResultsOk(results) && s <= SlotCount
    ensures var r := Loaded(st, results, s).0;
      r.Ok() && st.library <= r.library
    decreases SlotCount - s
  {
    if s < SlotCount && results[s].Success? {
      var p := results[s].value;
      BindFacts(st, s + 1, p);
      LoadKeeps(Bind(st, s + 1, p), results, s + 1);
    }
  }

  /** A load keeps the library's names distinct. */
  lemma {:induction false} LoadKeepsDistinct(st: State, results: seq<Result<Profile, LoadError>>, s: nat)
    requires |st.slots| == SlotCount && |results| == SlotCount && s <= SlotCount
    requires DistinctNames(st.library)
    ensures DistinctNames(Loaded(st, results, s).0.library)
    decreases SlotCount - s
  {
    if s < SlotCount && results[s].Success? {
      var p := results[s].value;
      AdoptKeepsDistinct(st.library, p);
      LoadKeepsDistinct(Bind(st, s + 1, p), results, s + 1);
    }
  }

  /** A load from slot s + 1 that left r and err either read every slot
      from s on, or stopped at the first one that failed to read, which err
      reports; the slots before s, and those from the failing one on, are
      as in st. */
  predicate StoppedAt(st: State, r: State, err: Option<LoadError>, results: seq<Result<Profile, LoadError>>, s: nat)
  {
    && |st.slots| == SlotCount && |r.slots| == SlotCount && |results| == SlotCount
    && s <= SlotsRead(err) <= SlotCount
    && (forall t :: s <= t < SlotsRead(err) ==> results[t].Success?)
    && (err.Some? ==> SlotsRead(err) < SlotCount && results[err.value.slot - 1] == Failure(err.value))
    && (forall t :: 0 <= t < SlotCount && !(s <= t < SlotsRead(err)) ==> r.slots[t] == st.slots[t])
  }

  /** A load from slot s + 1 on either reads every slot from s on, or
      reports the first one that failed to read; the slots before s, and
      those from the failing one on, are untouched. */
  lemma {:induction false} LoadStops(st: State, results: seq<Result<Profile, LoadError>>, s: nat)
    requires |st.slots| == SlotCount && ResultsOk(results) && s <= SlotCount
    ensures var (r, err) := Loaded(st, results, s);
      StoppedAt(st, r, err, results, s)
    decreases SlotCount - s
  {
    if s < SlotCount {
      LoadStep(st, results, s);
      if results[s].Success? {
        var st1 := Bind(st, s + 1, results[s].value);
        BindSlots(st, s + 1, results[s].value);
        LoadStops(st1, results, s + 1);
        var (r, err) := Loaded(st1, results, s + 1);
        StopStep(st, st1, r, err, results, s);
      }
    }
  }

  /** Binding slot s + 1 and then loading from slot s + 2 on. */
  lemma StopStep(st: State, st1: State, r: State, err: Option<LoadError>, results: seq<Result<Profile, LoadError>>, s: nat)
    requires s < SlotCount && |st.slots| == SlotCount && |st1.slots| == SlotCount && |results| == SlotCount && results[s].Success?
    requires forall t :: 0 <= t < SlotCount && t != s ==> st1.slots[t] == st.slots[t]
    requires StoppedAt(st1, r, err, results, s + 1)
    ensures StoppedAt(st, r, err, results, s)
  {
  }

  /** The slots from s up to n all read back a profile and are bound to a
      library entry matching it. */
  predicate BoundFrom(r: State, results: seq<Result<Profile, LoadError>>, s: nat, n: int)
  {
    && |r.slots| == SlotCount && |results| == SlotCount && n <= SlotCount
    && forall t :: s <= t < n ==>
      && results[t].Success?
      && r.slots[t].Some?
      && r.slots[t].value < |r.library|
      && ProfilesMatch(r.library[r.slots[t].value], results[t].value)
  }

  /** Every slot a load got through is bound to a library entry matching
      the profile it read back. */
  lemma {:induction false} LoadBinds(st: State, results: seq<Result<Profile, LoadError>>, s: nat)
    requires st.Ok() && ResultsOk(results) && s <= SlotCount
    ensures var (r, err) := Loaded(st, results, s);
      BoundFrom(r, results, s, SlotsRead(err))
    decreases SlotCount - s
  {
    if s < SlotCount && results[s].Success? {
      var p := results[s].value;
      var st1 := Bind(st, s + 1, p);
      BindFacts(st, s + 1, p);
      LoadBinds(st1, results, s + 1);
      LoadKeeps(st1, results, s + 1);
      LoadStops(st1, results, s + 1);
      var (r, err) := Loaded(st1, results, s + 1);
      assert Loaded(st, results, s) == (r, err);
      BoundStep(st1, r, results, s, SlotsRead(err));
    }
  }

  /** A binding made before the rest of a load survives it, since the rest
      only appends to the library and leaves the slot alone. */
  lemma BoundStep(st1: State, r: State, results: seq<Result<Profile, LoadError>>, s: nat, n: int)
    requires s < SlotCount && s < n && BoundFrom(r, results, s + 1, n) && results[s].Success?
    requires s < |st1.slots| && r.slots[s] == st1.slots[s] && st1.library <= r.library
    requires st1.slots[s].Some? && st1.slots[s].value < |st1.library|
    requires ProfilesMatch(st1.library[st1.slots[s].value], results[s].value)
    ensures BoundFrom(r, results, s, n)
  {
    assert r.library[st1.slots[s].value] == st1.library[st1.slots[s].value];
  }

  // ------------------------------------------------------------ device save

  predicate SaveInputs(fillers: seq<seq<byte>>, stamps: seq<nat>)
  {
    |fillers| == SlotCount && |stamps| == SlotCount
    && forall t :: 0 <= t < SlotCount ==> |fillers[t]| == FillerSize
  }

  /** The block saved for slot t + 1 (bound to a profile). */
  function SlotBlock(st: State, t: nat, fillers: seq<seq<byte>>, stamps: seq<nat>): seq<byte>
    requires st.Ok() && SaveInputs(fillers, stamps) && t < SlotCount && st.slots[t].Some?
  {
    Encode(st.library[st.slots[t].value], fillers[t], stamps[t])
  }

  /** `save_to_device` from slot s + 1 on: the frames sent, and the first
      empty slot, at which it stops. */
  function Saved(st: State, crc32: seq<byte> -> nat, fillers: seq<seq<byte>>, stamps: seq<nat>, s: nat)
    : (seq<seq<byte>>, Option<nat>)
    requires st.Ok() && SaveInputs(fillers, stamps) && s <= SlotCount
    decreases SlotCount - s
  {
    if s == SlotCount then ([], None)
    else if st.slots[s].None? then ([], Some(s + 1))
    else
      var rest := Saved(st, crc32, fillers, stamps, s + 1);
      (SlotFrames(SlotBlock(st, s, fillers, stamps), s + 1, crc32) + rest.0, rest.1)
  }

  /** The save loop's invariant after `sent`, at slot s + 1, which is
      bound: its frames followed by the rest of the save. */
  lemma SaveTurn(st: State, crc32: seq<byte> -> nat, fillers: seq<seq<byte>>, stamps: seq<nat>, s: nat,
                 sent: seq<seq<byte>>, whole: (seq<seq<byte>>, Option<nat>))
    requires st.Ok() && SaveInputs(fillers, stamps) && s < SlotCount && st.slots[s].Some?
    requires whole == (sent + Saved(st, crc32, fillers, stamps, s).0, Saved(st, crc32, fillers, stamps, s).1)
    ensures var next := sent + SlotFrames(SlotBlock(st, s, fillers, stamps), s + 1, crc32);
      whole == (next + Saved(st, crc32, fillers, stamps, s + 1).0, Saved(st, crc32, fillers, stamps, s + 1).1)
  {
    var head := SlotFrames(SlotBlock(st, s, fillers, stamps), s + 1, crc32);
    var rest := Saved(st, crc32, fillers, stamps, s + 1);
    assert Saved(st, crc32, fillers, stamps, s) == (head + rest.0, rest.1);
    assert sent + (head + rest.0) == (sent + head) + rest.0;
  }

  /** The save loop's invariant at an empty slot s + 1, or past the last
      slot: what was sent is the whole save. */
  lemma SaveEnd(st: State, crc32: seq<byte> -> nat, fillers: seq<seq<byte>>, stamps: seq<nat>, s: nat,
                sent: seq<seq<byte>>, whole: (seq<seq<byte>>, Option<nat>))
    requires st.Ok() && SaveInputs(fillers, stamps) && s <= SlotCount && (s < SlotCount ==> st.slots[s].None?)
    requires whole == (sent + Saved(st, crc32, fillers, stamps, s).0, Saved(st, crc32, fillers, stamps, s).1)
    ensures whole == (sent, if s < SlotCount then Some(s + 1) else None)
  {
    assert Saved(st, crc32, fillers, stamps, s).0 == [];
    assert sent + [] == sent;
  }

  /** How many slots a save from slot s + 1 on gets through. */
  function SlotsSent(err: Option<nat>, s: nat): int
  {
    if err.None? then SlotCount - s else err.value - 1 - s
  }

  /** A save from slot s + 1 on that sent `frames` and stopped at `err`
      stopped at the first empty slot, or at none when all are bound, and
      sent 18 frames for every bound slot before it. */
  predicate SavedFrom(st: State, frames: seq<seq<byte>>, err: Option<nat>, s: nat)
  {
    && |st.slots| == SlotCount
    && (err.None? <==> forall t :: s <= t < SlotCount ==> st.slots[t].Some?)
    && (err.Some? ==>
      && s < err.value <= SlotCount
      && st.slots[err.value - 1].None?
      && forall t :: s <= t < err.value - 1 ==> st.slots[t].Some?)
    && |frames| == FrameCount * SlotsSent(err, s)
  }

  /** A save reports the first empty slot, or none when all are bound, and
      sends 18 frames for every bound slot before it. */
  lemma {:induction false} SaveOutcome(st: State, crc32: seq<byte> -> nat, fillers: seq<seq<byte>>, stamps: seq<nat>, s: nat)
    requires st.Ok() && SaveInputs(fillers, stamps) && s <= SlotCount
    ensures var (frames, err) := Saved(st, crc32, fillers, stamps, s);
      SavedFrom(st, frames, err, s)
    decreases SlotCount - s
  {
    if s < SlotCount && st.slots[s].Some? {
      SaveOutcome(st, crc32, fillers, stamps, s + 1);
      var head := SlotFrames(SlotBlock(st, s, fillers, stamps), s + 1, crc32);
      var (rest, err) := Saved(st, crc32, fillers, stamps, s + 1);
      assert Saved(st, crc32, fillers, stamps, s) == (head + rest, err);
      SaveStep(st, head, rest, err, s);
    }
  }

  /** A bound slot's 18 frames followed by the rest of the save. */
  lemma SaveStep(st: State, head: seq<seq<byte>>, rest: seq<seq<byte>>, err: Option<nat>, s: nat)
    requires s < SlotCount && |head| == FrameCount && SavedFrom(st, rest, err, s + 1) && st.slots[s].Some?
    ensures SavedFrom(st, head + rest, err, s)
  {
  }

  /** Frames go out in slot order: frame i of the t-th slot sent (counting
      from slot s + 1) is frame i of that slot's block. */
  lemma {:induction false} SavedFrameAt(st: State, crc32: seq<byte> -> nat, fillers: seq<seq<byte>>, stamps: seq<nat>, s: nat, t: nat, i: nat)
    requires st.Ok() && SaveInputs(fillers, stamps) && s <= t < SlotCount && i < FrameCount
    requires forall u :: s <= u <= t ==> st.slots[u].Some?
    ensures var frames := Saved(st, crc32, fillers, stamps, s).0;
      var block := SlotBlock(st, t, fillers, stamps);
      && FrameCount * (t - s) + i < |frames|
      && frames[FrameCount * (t - s) + i] == WriteFrame(block, t + 1, i, crc32(block))
    decreases t - s
  {
    var head := SlotFrames(SlotBlock(st, s, fillers, stamps), s + 1, crc32);
    var rest := Saved(st, crc32, fillers, stamps, s + 1).0;
    assert Saved(st, crc32, fillers, stamps, s).0 == head + rest;
    if t > s {
      SavedFrameAt(st, crc32, fillers, stamps, s + 1, t, i);
      IndexAfterHead(head, rest, FrameCount * (t - s - 1) + i);
      assert FrameCount * (t - s) + i == FrameCount + (FrameCount * (t - s - 1) + i);
    }
  }

  lemma IndexAfterHead(head: seq<seq<byte>>, rest: seq<seq<byte>>, k: nat)
    requires |head| == FrameCount && k < |rest|
    ensures FrameCount + k < |head + rest| && (head + rest)[FrameCount + k] == rest[k]
  {
  }

  /** The reports of a device that keeps each frame's payload and returns
      it behind a 4-byte header of its own. */
  function Echo(frames: seq<seq<byte>>, headers: seq<seq<byte>>): (r: seq<seq<byte>>)
    requires |frames| == |headers| == FrameCount
    requires forall i :: 0 <= i < FrameCount ==> |frames[i]| >= WriteHeader
    ensures |r| == FrameCount
  {
    seq(FrameCount, i requires 0 <= i < FrameCount => headers[i] + frames[i][WriteHeader..])
  }

  lemma EchoReassembles(block: seq<byte>, slot: nat, crc32: seq<byte> -> nat, headers: seq<seq<byte>>)
    requires |block| == BlockSize && 1 <= slot <= SlotCount
    requires |headers| == FrameCount && forall i :: 0 <= i < FrameCount ==> |headers[i]| == ReadHeader
    ensures Reassemble(Echo(SlotFrames(block, slot, crc32), headers)) == Success(block)
  {
    WriteThenReadRoundTrip(block, slot, crc32(block), headers);
    assert Echo(SlotFrames(block, slot, crc32), headers) == seq(FrameCount, i requires 0 <= i < FrameCount =>
      headers[i] + WriteFrame(block, slot, i, crc32(block))[WriteHeader..]);
  }

  /** End to end for one slot: a device that echoes the saved frames makes
      the slot read back the decoded saved block, and that matches the saved
      profile exactly when the fields the block cannot carry are stable. */
  lemma SavedSlotReadsBack(p: Profile, filler: seq<byte>, ts: nat, slot: nat, crc32: seq<byte> -> nat, headers: seq<seq<byte>>)
    requires p.Valid() && |filler| == FillerSize && 1 <= slot <= SlotCount
    requires |headers| == FrameCount && forall i :: 0 <= i < FrameCount ==> |headers[i]| == ReadHeader
    ensures var block := Encode(p, filler, ts);
      ReadSlot(Echo(SlotFrames(block, slot, crc32), headers), slot) == Success(Decode(block).value)
    ensures ProfilesMatch(Decode(Encode(p, filler, ts)).value, p) <==>
      CodecLaws.StableFields(p) && (p.stick > 100 ==> 0 < p.orientation < 256)
  {
    EchoReassembles(Encode(p, filler, ts), slot, crc32, headers);
    CodecLaws.SaveLoadMatches(p, filler, ts);
  }

  // ---------------------------------------------------------- import merge

  /** The slot loop for imported profile i, now at library index target:
      an empty slot that the file bound to i is bound to target. */
  function FillSlots(slots: seq<Option<nat>>, importedSlots: seq<Option<nat>>, i: nat, target: nat): (r: seq<Option<nat>>)
    ensures |r| == |slots|
  {
    seq(|slots|, s requires 0 <= s < |slots| =>
      if s < |importedSlots| && importedSlots[s] == Some(i) && slots[s].None? then Some(target) else slots[s])
  }

  /** One turn of the merge loop. */
  function ImportOne(st: State, p: Profile, i: nat, importedSlots: seq<Option<nat>>): State
  {
    var a := Adopt(st.library, p);
    State(a.library, FillSlots(st.slots, importedSlots, i, a.index))
  }

  /** The merge loop from imported profile i on. */
  function Merged(st: State, imported: seq<Profile>, importedSlots: seq<Option<nat>>, i: nat): State
    requires i <= |imported|
    decreases |imported| - i
  {
    if i == |imported| then st
    else Merged(ImportOne(st, imported[i], i, importedSlots), imported, importedSlots, i + 1)
  }

  /** The file asks for slot s to hold imported profile j (j >= i). */
  predicate Requested(importedSlots: seq<Option<nat>>, s: nat, i: nat, n: nat)
  {
    s < |importedSlots| && importedSlots[s].Some? && i <= importedSlots[s].value < n
  }

  /** One turn of the merge keeps a consistent state, appends at most one
      entry, leaves the adopted index on a match of p, and fills exactly
      the empty slots the file binds to profile i. */
  lemma ImportOneFacts(st: State, p: Profile, i: nat, importedSlots: seq<Option<nat>>)
    requires st.Ok() && p.Valid()
    ensures var r := ImportOne(st, p, i, importedSlots);
      var a := Adopt(st.library, p);
      && r.Ok()
      && st.library <= r.library
      && |r.library| <= |st.library| + 1
      && a.index < |r.library|
      && ProfilesMatch(r.library[a.index], p)
      && forall s :: 0 <= s < SlotCount ==>
        r.slots[s] == if s < |importedSlots| && importedSlots[s] == Some(i) && st.slots[s].None?
          then Some(a.index) else st.slots[s]
  {
    AdoptFacts(st.library, p);
    AdoptKeepsLibrary(st.library, p);
  }

  /** What the merge from imported profile i on achieves, going from st to
      r: a consistent state, a library that only grew (at most one entry
      per imported profile), bound slots unchanged, every imported profile
      matched by some entry, each empty slot the file asks for bound to a
      match of the profile asked for, and the other empty slots empty. */
  predicate MergedFrom(st: State, r: State, imported: seq<Profile>, importedSlots: seq<Option<nat>>, i: nat)
  {
    && st.Ok() && r.Ok() && i <= |imported|
    && st.library <= r.library
    && |r.library| <= |st.library| + (|imported| - i)
    && (forall s :: 0 <= s < SlotCount && st.slots[s].Some? ==> r.slots[s] == st.slots[s])
    && (forall j :: i <= j < |imported| ==> FindMatchingProfile(r.library, imported[j]) >= 0)
    && (forall s :: 0 <= s < SlotCount && st.slots[s].None? && Requested(importedSlots, s, i, |imported|) ==>
      r.slots[s].Some? && ProfilesMatch(r.library[r.slots[s].value], imported[importedSlots[s].value]))
    && (forall s :: 0 <= s < SlotCount && st.slots[s].None? && !Requested(importedSlots, s, i, |imported|) ==>
      r.slots[s].None?)
  }

  /** The merge keeps a consistent state, only appends to the library
      (at most one entry per imported profile), never changes a bound slot,
      leaves every imported profile matched by some library entry, binds an
      empty slot the file asks for to a profile matching the one asked for,
      and leaves the other empty slots empty. */
  lemma {:induction false} MergeOutcome(st: State, imported: seq<Profile>, importedSlots: seq<Option<nat>>, i: nat)
    requires st.Ok() && i <= |imported| && forall j :: 0 <= j < |imported| ==> imported[j].Valid()
    ensures MergedFrom(st, Merged(st, imported, importedSlots, i), imported, importedSlots, i)
    decreases |imported| - i
  {
    if i < |imported| {
      var p := imported[i];
      var a := Adopt(st.library, p);
      var st1 := ImportOne(st, p, i, importedSlots);
      ImportOneFacts(st, p, i, importedSlots);
      MergeOutcome(st1, imported, importedSlots, i + 1);
      var r := Merged(st1, imported, importedSlots, i + 1);
      assert r == Merged(st, imported, importedSlots, i);
      MergeStep(st, st1, r, a.index, imported, importedSlots, i);
    }
  }

  /** One turn of the merge followed by the rest of it: the turn adopts
      profile i at index idx of st1 and fills the slots the file binds to
      it, and the rest only appends and keeps bound slots. */
  lemma MergeStep(st: State, st1: State, r: State, idx: nat, imported: seq<Profile>, importedSlots: seq<Option<nat>>, i: nat)
    requires st.Ok() && st1.Ok() && i < |imported|
    requires st.library <= st1.library && |st1.library| <= |st.library| + 1
    requires idx < |st1.library| && ProfilesMatch(st1.library[idx], imported[i])
    requires forall s :: 0 <= s < SlotCount ==>
      st1.slots[s] == if s < |importedSlots| && importedSlots[s] == Some(i) && st.slots[s].None?
        then Some(idx) else st.slots[s]
    requires MergedFrom(st1, r, imported, importedSlots, i + 1)
    ensures MergedFrom(st, r, imported, importedSlots, i)
  {
    assert r.library[idx] == st1.library[idx];
    assert FindMatchingProfile(r.library, imported[i]) >= 0;
    forall s | 0 <= s < SlotCount && st.slots[s].None? && Requested(importedSlots, s, i, |imported|)
      ensures r.slots[s].Some? && ProfilesMatch(r.library[r.slots[s].value], imported[importedSlots[s].value])
    {
      if importedSlots[s].value == i {
        assert st1.slots[s] == Some(idx);
      } else {
        assert st1.slots[s].None? && Requested(importedSlots, s, i + 1, |imported|);
      }
    }
    forall s | 0 <= s < SlotCount && st.slots[s].None? && !Requested(importedSlots, s, i, |imported|)
      ensures r.slots[s].None?
    {
      assert st1.slots[s].None?;
    }
  }

  /** The merge keeps the library's names distinct. */
  lemma {:induction false} MergeKeepsDistinct(st: State, imported: seq<Profile>, importedSlots: seq<Option<nat>>, i: nat)
    requires i <= |imported| && DistinctNames(st.library)
    ensures DistinctNames(Merged(st, imported, importedSlots, i).library)
    decreases |imported| - i
  {
    if i < |imported| {
      AdoptKeepsDistinct(st.library, imported[i]);
      MergeKeepsDistinct(ImportOne(st, imported[i], i, importedSlots), imported, importedSlots, i + 1);
    }
  }

  // ----------------------------------------------------- legacy file format

  /** The library built from an old-format file's profile1..profile3: the
      present ones, in order. */
  function LegacyLibrary(ps: seq<Option<Profile>>): seq<Profile>
  {
    if ps == [] then []
    else LegacyLibrary(ps[..|ps| - 1]) + (if ps[|ps| - 1].Some? then [ps[|ps| - 1].value] else [])
  }

  /** The slot list of an old-format file: slot i holds the index its
      profile got, or nothing when the file had none. */
  function LegacySlots(ps: seq<Option<Profile>>): (r: seq<Option<nat>>)
    ensures |r| == |ps|
  {
    seq(|ps|, i requires 0 <= i < |ps| => if ps[i].Some? then Some(|LegacyLibrary(ps[..i])|) else None)
  }

  lemma {:induction false} LegacyPrefix(ps: seq<Option<Profile>>, i: nat)
    requires i <= |ps|
    ensures LegacyLibrary(ps[..i]) <= LegacyLibrary(ps)
    decreases |ps| - i
  {
    if i < |ps| {
      LegacyPrefix(ps[..|ps| - 1], i);
      assert ps[..|ps| - 1][..i] == ps[..i];
    } else {
      assert ps[..i] == ps;
    }
  }

  /** Every slot of an old-format file points at its own profile in the
      converted library. */
  lemma LegacySlotsPoint(ps: seq<Option<Profile>>, i: nat)
    requires i < |ps| && ps[i].Some?
    ensures LegacySlots(ps)[i].value < |LegacyLibrary(ps)|
    ensures LegacyLibrary(ps)[LegacySlots(ps)[i].value] == ps[i].value
  {
    assert ps[..i + 1][..i] == ps[..i];
    assert LegacyLibrary(ps[..i + 1]) == LegacyLibrary(ps[..i]) + [ps[i].value];
    LegacyPrefix(ps, i + 1);
  }
}
