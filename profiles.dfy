/**
 * The profile record of the controller configuration tool and the matcher
 * that decides whether two profiles configure the device identically.
 *
 * The source keeps every code as a decimal string ("0", "5", "101") and
 * compares those strings; here a code is the natural number the string
 * spells, so string equality of two codes is equality of the numbers.
 */
module Profiles {
  import opened Wrappers

  /** A UTF-16 code unit: JavaScript strings are sequences of these. */
  type CodeUnit = c: int | 0 <= c < 0x1_0000

  /** A JavaScript string. */
  type Text = seq<CodeUnit>

  const ButtonCount := 10
  const PortCount := 4

  /** `buttons.bN`: the action (mapping1), a second action pressed with it
      (mapping2) and whether the button latches (toggle). */
  datatype Button = Button(mapping1: nat, mapping2: nat, toggle: bool)

  /** `expansionPorts.eN` for N in 1..4. */
  datatype Port = Port(mapping1: nat, mapping2: nat, toggle: bool, analog: bool)

  /**
   * One profile. `stick` is `expansionPorts.e0.mapping1`, the only field the
   * stick entry has; `buttons[k]` is button k + 1; `ports[k]` is expansion
   * port k + 1, absent (None) when the entry was never set.
   */
  datatype Profile = Profile(
    name: Text,
    orientation: nat,
    showSwitchMapping: bool,
    stick: nat,
    buttons: seq<Button>,
    ports: seq<Option<Port>>)
  {
    /** Ten button entries and four expansion-port entries. */
    predicate Valid()
    {
      |buttons| == ButtonCount && |ports| == PortCount
    }
  }

  /**
   * `profilesMatch`: same orientation, same stick, the same ten button
   * entries and the same four expansion-port entries. Name and
   * showSwitchMapping are not compared.
   */
  predicate ProfilesMatch(a: Profile, b: Profile)
  {
    && a.orientation == b.orientation
    && a.stick == b.stick
    && a.buttons == b.buttons
    && a.ports == b.ports
  }

  /** Two profiles match exactly when they are equal once name and
      showSwitchMapping are copied over: nothing else is ignored. */
  lemma MatchIsEqualityUpToDisplay(a: Profile, b: Profile)
    ensures ProfilesMatch(a, b) <==> a.(name := b.name, showSwitchMapping := b.showSwitchMapping) == b
  {
  }

  lemma MatchReflexive(a: Profile)
    ensures ProfilesMatch(a, a)
  {
  }

  lemma MatchSymmetric(a: Profile, b: Profile)
    ensures ProfilesMatch(a, b) == ProfilesMatch(b, a)
  {
  }

  lemma MatchTransitive(a: Profile, b: Profile, c: Profile)
    requires ProfilesMatch(a, b) && ProfilesMatch(b, c)
    ensures ProfilesMatch(a, c)
  {
  }

  /** Renaming either side or changing its display preference never changes
      the verdict. */
  lemma MatchIgnoresDisplay(a: Profile, b: Profile, n: Text, s: bool)
    ensures ProfilesMatch(a.(name := n, showSwitchMapping := s), b) == ProfilesMatch(a, b)
    ensures ProfilesMatch(a, b.(name := n, showSwitchMapping := s)) == ProfilesMatch(a, b)
  {
  }

  /**
   * `findMatchingProfile`: the least index whose entry matches `p`, or -1
   * when none does.
   */
  function FindMatchingProfile(lib: seq<Profile>, p: Profile): (r: int)
    ensures -1 <= r < |lib|
    ensures r >= 0 ==> ProfilesMatch(lib[r], p)
    ensures forall j :: 0 <= j < |lib| && (r == -1 || j < r) ==> !ProfilesMatch(lib[j], p)
  {
    FindFrom(lib, p, 0)
  }

  /** The search loop from index i on. */
  function FindFrom(lib: seq<Profile>, p: Profile, i: nat): (r: int)
    requires i <= |lib|
    requires forall j :: 0 <= j < i ==> !ProfilesMatch(lib[j], p)
    ensures r == -1 || i <= r < |lib|
    ensures r >= 0 ==> ProfilesMatch(lib[r], p)
    ensures forall j :: 0 <= j < |lib| && (r == -1 || j < r) ==> !ProfilesMatch(lib[j], p)
    decreases |lib| - i
  {
    if i == |lib| then -1
    else if ProfilesMatch(lib[i], p) then i
    else FindFrom(lib, p, i + 1)
  }
}
