# Controller profile library and device sync, in Dafny

This project models the device-sync and library logic of a browser-based
configuration tool for an accessibility game controller (code.js). The tool
keeps a library of profiles and a binding of the controller's three slots to
library entries. A profile holds:

- a name;
- a stick orientation;
- the analog stick;
- ten buttons;
- four expansion ports.

It exchanges profiles with the controller as 956-byte blocks, sent in 18
HID feature reports of 63 bytes each.

The model covers five parts:

- **Codec** (`codec.dfy`, `device_data.dfy`, `codec_laws.dfy`):
  - `profileToDeviceData` and `deviceDataToProfile` as imperative methods over an `array<byte>`;
  - each method is proved equal to a specification function (`Codec.Encode`, `Codec.Decode`);
  - the round-trip laws are proved about those functions.
- **Framing** (`framing.dfy`):
  - the save loop cuts a block into 18 frames;
  - the load loop reassembles a block from 18 reports;
  - the write-then-read round trip is proved.
- **Matcher** (`profiles.dfy`): `profilesMatch` and `findMatchingProfile`, as functions.
- **Unique names** (`names.dfy`): the `while` loop that appends ` (1)`, ` (2)`, ... until no library name equals the candidate, ignoring case. It is proved to end and to give the first free candidate.
- **Registry** (`library.dfy`, `session.dfy`):
  - `Session.Registry` is a class that holds `profileLibrary` as a `seq<Profile>` and `slotAssignments` as an `array<Option<nat>>`;
  - its methods are `deleteProfile`, `assignProfileToSlot`, the load loop, the save loop and the import merge;
  - each method is proved to leave exactly the state that a pure function in `Library` computes from the old state;
  - the properties are lemmas about those functions.

Bytes are the integers 0..255 (`Bits.byte`). Bit tests are arithmetic:

- `Bits.Bit` tests a bit;
- `Bits.SetBit` models `|=`;
- `Bits.FromBits` is the little-endian number of a list of flags.

Text is a sequence of UTF-16 code units. Mapping codes are stored as decimal strings in the source; here they are the natural numbers those strings spell.

Some inputs are parameters of the model:

- the random filler bytes;
- `Date.now()`;
- the CRC32 function;
- the user's answer to the confirmation dialog;
- the reports the device returns.

Where the specification and the code differ, the model follows the code:

- An unknown port tag does not make decoding fail. The expansion entry is never set, which is `None` here.
- Reassembly ignores the chunk index in each received report and does not check the CRC.
- Orientation 0 is written as 3 (see Findings).

## Model

| member | source | states |
|---|---|---|
| Bits.SetLittleEndian | code.js:947 | writes the low `width` bytes of x at `offset`, least significant first (the `setUint16`/`setUint32(..., true)` writes); every other byte of the buffer is unchanged |
| Bits.BitOfFromBits | code.js:891 | bit k of the little-endian number of a flag list is flag k, and no bit beyond the list is set |
| Bits.SetBitFromBits | code.js:961 | `toggle \|= 1 << k` on the number of a flag list is the number of the list with flag k set |
| Bits.FromBitsBound | code.js:997 | the number of 16 flags fits in the 16-bit word that `setUint16` stores |
| Bits.BitOfWord | code.js:891 | bit i of a word made of a low part below 2^n and a high part is bit i of the low part for i < n, else bit i - n of the high part (the `150 + floor(i / 8)`, `i % 8` read) |
| Bits.Uint16Bytes | code.js:877 | a 16-bit value written as two little-endian bytes reads back as itself |
| Bits.ZeroHasNoBits | code.js:954 | the initial toggle word 0 has no bit set |
| Profiles.ProfilesMatch | code.js:802-831 | the match verdict: same orientation, same stick code, the same mapping1, mapping2 and toggle for each of the ten buttons, and the same mapping1, mapping2, toggle and analog (or both absent) for each of the four ports; name and showSwitchMapping are not compared |
| Profiles.MatchIsEqualityUpToDisplay | code.js:802-831 | two profiles match if and only if they are equal once name and showSwitchMapping are copied across |
| Profiles.MatchReflexive | code.js:802-831 | every profile matches itself |
| Profiles.MatchSymmetric | code.js:802-831 | the verdict does not depend on the order of the arguments |
| Profiles.MatchTransitive | code.js:802-831 | matching is transitive |
| Profiles.MatchIgnoresDisplay | code.js:802-831 | renaming either profile or changing its showSwitchMapping never changes the verdict |
| Profiles.FindMatchingProfile | code.js:792-800 | the result is -1 or an index; at that index the entry matches; no earlier entry matches; -1 only when no entry matches |
| Profiles.FindFrom | code.js:794-799 | the search from index i returns -1 or an index at least i whose entry matches, with no match before it |
| Codec.NameOrDefault | code.js:945 | the name the encoder writes: the profile's name, or "Profile" when it is empty (the decoder's default at code.js:883 is the same constant) |
| Codec.PortEntry | code.js:967-970 | the fields the encoder reads for record n. Record 0 is the stick, read as its code only. Records 1..4 are the expansion ports, and a missing port reads as all zero |
| Codec.ToggleFlags | code.js:954-994 | the 16 toggle flags: flag k < 10 is button k + 1's toggle; flag 9 + n (n = 1..4) is set exactly when port n has mapping1 in 1..99 and toggle set; flags 14 and 15 are clear |
| Codec.ToggleWord | code.js:954-997 | the toggle word stored at byte 150: the number whose bit i is toggle flag i |
| Codec.OrientationByte | code.js:975 | the orientation byte written for a stick: the orientation modulo 256, except that 0 becomes 3 (see Findings) |
| Codec.NameByte | code.js:945-948 | byte j of the name field: the low (j even) or high (j odd) byte of unit j / 2 of the name, or 0 past the end of the name |
| Codec.ButtonByte | code.js:963-964 | byte r of a button record: mapping1 modulo 256 at 0, mapping2 modulo 256 at 1, and 0 elsewhere |
| Codec.PortByte | code.js:972-994 | byte r of a port record. A stick entry (mapping1 > 100) gets tag 1, mapping1 - 100, the orientation byte, 3 at byte 5 and the fixed 0x80, 0xc4 and 0xe1 pairs at bytes 8..13. A button entry (mapping1 1..99) gets tag 2 if analog, else 3, then mapping1 at byte 2 and mapping2 modulo 256 at byte 3. Any other entry leaves the record zero |
| Codec.EncodedByte | code.js:940-1001 | byte k of the block: marker 2 at 0, zeros at 1..3, the name field at 4..83, the filler at 84..99, the button records at 100..149, the toggle word at 150..151, the five port records at 152..376, zeros up to 947, and the timestamp at 948..955 |
| Codec.EncodeWith | code.js:941-943 | the encoded block has 956 bytes and byte 0 is the marker 2 |
| Codec.Encode | code.js:940-1001 | the block profileToDeviceData writes: the block of `EncodeWith` with the orientation byte of the profile's orientation |
| Codec.NameFrom | code.js:875-880 | the name the decoder reads from unit i on: units up to the first zero unit, or up to unit 40 |
| Codec.DecodedToggle | code.js:889-892 | the decoder's toggle flag i: bit i % 8 of byte 150 + i / 8 |
| Codec.DecodedButton | code.js:894-901 | button k is read as bytes 100 + 5k and 101 + 5k with toggle flag k |
| Codec.DecodedPort | code.js:916-933 | port n is read by its tag: 0 gives an all-zero entry, 1 a stick-code entry of 100 + byte 1, 2 or 3 a button entry of bytes 2 and 3 with toggle flag 9 + n and analog for tag 2; any other tag leaves the entry absent |
| Codec.Decode | code.js:870-873 | decoding fails if and only if byte 0 is not 2 |
| Codec.NameFromShape | code.js:876-880 | the name loop yields at most 40 code units, none of them zero |
| Codec.DecodedShape | code.js:870-938 | a decoded profile has 10 buttons and 4 ports, a non-empty name of at most 40 non-zero units, an orientation below 256, a stick of 0 or 100..355, and button codes below 256 |
| CodecLaws.UnitOfNameBytes | code.js:945-948 | unit i of the written name field is unit i of the name, or 0 past its end |
| CodecLaws.NameFromBytes | code.js:876-880 | the decoder's name loop over a written name field gives back the name's units from i up to 40 |
| CodecLaws.NameRoundTrip | code.js:945-948 | a name (or "Profile" for the empty one) whose first 40 units are non-zero comes back as those first 40 units |
| CodecLaws.NameSurvives | code.js:945-948 | a name of 1 to 40 non-zero units comes back unchanged |
| CodecLaws.ToggleWordBytes | code.js:997 | bytes 150 and 151 hold the toggle word, low byte first |
| CodecLaws.ToggleWordExact | code.js:954-997 | bit i of the little-endian word at 150..151 is set if and only if (a) i < 10 and button i + 1 has toggle set, or (b) i is 10..13 and port i - 9 has mapping1 in 1..99 with toggle set; no other bit is set |
| CodecLaws.ToggleRoundTrip | code.js:889-892 | the decoder's toggle[i] is flag i as the encoder computed it |
| CodecLaws.ButtonsRoundTrip | code.js:956-965 | every button comes back with mapping1 and mapping2 modulo 256 and the same toggle |
| CodecLaws.ButtonRecordAt | code.js:963-964 | byte r of button record k is mapping1 modulo 256 for r = 0, mapping2 modulo 256 for r = 1, and 0 for the other three bytes |
| CodecLaws.PortRecordAt | code.js:967-995 | byte r of record n (the stick, then ports 1..4) is what that record's branch writes for the entry |
| CodecLaws.PortRoundTrip | code.js:903-935 | port n comes back as one of: a stick with its offset from 100 taken modulo 256; a button with the same mapping1, mapping2 modulo 256, the same toggle and analog; otherwise an all-zero entry |
| CodecLaws.DecodedPortOfEncoded | code.js:916-933 | the decoder's switch on tag 0, 1, 2 or 3 inverts what the encoder wrote for port n |
| CodecLaws.DecodedPortOfRecord | code.js:916-933 | any block whose port record n holds what the encoder writes for entry q, and whose toggle flag 9 + n is q's, decodes port n as the entry the round trip predicts for q |
| CodecLaws.SavedPortRecord | code.js:967-995 | in the saved block, bytes 0 and 1 of record n are what the port branches write for entry n, and the loader reads the record back as the entry the round trip predicts |
| CodecLaws.StickRoundTrip | code.js:906-915 | a stick (mapping1 > 100) comes back with its offset taken modulo 256 and the orientation byte that was written; anything else comes back as no stick with orientation 3 |
| CodecLaws.ButtonPortSurvives | code.js:985-994 | a port with mapping1 in 1..99 gets tag 2 if analog, else tag 3, and decodes back unchanged |
| CodecLaws.StickPortSurvives | code.js:972-984 | a port with mapping1 101..355 gets tag 1 with byte 1 = mapping1 - 100, and comes back with the same mapping1 |
| CodecLaws.EmptyPortSurvives | code.js:919 | a missing port, or one with mapping1 0, gets tag 0 and comes back as an all-zero entry |
| CodecLaws.StickSurvives | code.js:972-976 | a stick 101..355 comes back unchanged; orientation 1..255 comes back unchanged; orientation 0 comes back as 3 |
| CodecLaws.MatchIffStable | code.js:802-831 | a profile built from what the decoder makes of p's records matches p if and only if p's fields are stable and, for a stick profile, the written orientation byte is p's orientation |
| CodecLaws.MatchAfterRoundTrip | code.js:940-1001 | for any orientation byte ob: the block written with ob decodes to a profile that matches p if and only if p's fields are stable and, for a stick profile, ob is p's orientation |
| CodecLaws.SaveLoadMatches | code.js:940-1001 | a save followed by a load yields a profile that matches the original if and only if its fields are stable and a stick profile's orientation is 1..255 |
| CodecLaws.OrientationZeroLost | code.js:975 | the stick-below profile (orientation 0) comes back with orientation 3 and matches the saved profile no more |
| CodecLaws.IntendedOrientationByte | code.js:975 | every orientation 0..255 is stored as itself |
| CodecLaws.IntendedSaveLoadMatches | code.js:975 | with the corrected orientation byte, a stick profile's orientation 0..255 survives, and a profile matches after save and load if and only if its fields are stable |
| DeviceData.WriteName | code.js:945-948 | bytes 4..83 become the UTF-16LE units of the name, truncated to 40 units and zero-padded; nothing else changes |
| DeviceData.WriteFiller | code.js:950-952 | bytes 84..99 become the filler; nothing else changes |
| DeviceData.PartialFlags | code.js:954-994 | the flags accumulated so far have 16 entries, and once every button and port has been seen they are the toggle flags |
| DeviceData.AllClear | code.js:954 | a list of clear flags has the number 0 |
| DeviceData.WriteButtons | code.js:956-965 | the button records hold each button's codes modulo 256 and zeros; the returned toggle has exactly the buttons' toggle bits |
| DeviceData.WritePortRecord | code.js:972-994 | the 45-byte record at `base` holds what the port branches write for one entry; nothing else changes |
| DeviceData.WritePorts | code.js:967-995 | the five port records hold each entry's record; the returned toggle is the full toggle word |
| DeviceData.ProfileToDeviceData | code.js:940-1001 | the fresh 956-byte buffer is exactly `Encode(p, filler, timestamp)` |
| DeviceData.DeviceDataToProfile | code.js:870-938 | the result is exactly `Decode` of the buffer: the profile, or the marker error |
| DeviceData.ReadName | code.js:875-880 | the name loop returns the units at 4 + 2i up to the first zero unit, or all 40 |
| DeviceData.NameStep | code.js:877-879 | a zero unit ends the name read so far; any other unit is appended and the loop goes on |
| DeviceData.ReadToggles | code.js:888-892 | toggle[i] is bit i % 8 of byte 150 + i / 8, for each of the 16 flags |
| DeviceData.ReadButtons | code.js:894-901 | button k is bytes 100 + 5k and 101 + 5k of the block with toggle[k] |
| DeviceData.ReadPorts | code.js:903-935 | a stick tag sets the stick to 100 + byte 1 and the orientation to byte 2; otherwise no stick and orientation 3; each expansion entry is what the switch on its tag makes of its record, and absent for an unknown tag |
| DeviceData.ButtonFlagStep | code.js:960-962 | `toggle \|= 1 << (button_number - 1)` for a toggling button sets that bit of the accumulated word; a button without toggle leaves the word unchanged |
| DeviceData.PortFlagStep | code.js:991-993 | `toggle \|= 1 << (9 + port_number)` for a toggling button-assigned port sets that bit of the accumulated word; any other entry leaves it unchanged |
| Framing.WriteFrame | code.js:848-862 | frame i of a slot: byte 0 is 8 + slot, byte 1 is i, bytes 2..57 carry block bytes 56i..56i + 55 while they exist, frame 17 carries the little-endian CRC at bytes 6..9 over what was there, and every other byte is 0 |
| Framing.WriteFrames | code.js:848-862 | exactly 18 frames in index order. Frame i has byte 0 = 8 + slot and byte 1 = i. Byte 2 + j holds block[56i + j] when that byte exists, otherwise 0. Frame 17 carries the CRC at bytes 6..9 |
| Framing.SlotFrames | code.js:848-862 | one slot's save sends exactly 18 frames |
| Framing.LastFrameLayout | code.js:858-860 | frame 17 holds block[952..955] at bytes 2..5, the little-endian CRC at 6..9, and zeros after |
| Framing.EveryByteSentOnce | code.js:853-856 | block byte b is sent at byte 2 + b % 56 of frame b / 56, and no other frame position carries block offset b |
| Framing.ReadRequest | code.js:744-747 | the read request is 63 bytes with byte 0 = 0x10 + slot - 1 |
| Framing.ChunkLength | code.js:753-756 | report i carries 56 block bytes (4 in the last), within the 956-byte block |
| Framing.FirstShort | code.js:751-758 | the first report too short for the bytes read from it, or none exactly when every report is long enough |
| Framing.Reassemble | code.js:749-758 | success gives 956 bytes; failure names the first report that is too short |
| Framing.ReassembleCopies | code.js:753-756 | on success, block byte b is byte 4 + b % 56 of report b / 56 |
| Framing.ReceiveBlock | code.js:749-758 | the read loop fails exactly as `Reassemble` does, or yields a fresh buffer holding its block |
| Framing.ChunkIndex | code.js:754 | offset 56i + j with j < 56 lies in chunk i at position j |
| Framing.ReassembleCarried | code.js:751-758 | reports that are long enough and carry block byte 56i + j at position 4 + j of report i reassemble into exactly that block |
| Framing.EchoedReport | code.js:853-856 | a frame returned behind a 4-byte header carries block byte 56i + j at position 4 + j; the CRC bytes of frame 17 are not among them |
| Framing.WriteThenReadRoundTrip | code.js:751-758 | reports that carry each frame's payload behind a 4-byte header reassemble to exactly the saved block |
| Names.Lower | code.js:773 | the lower-cased name: each unit A-Z becomes a-z, every other unit is kept, and the length is unchanged |
| Names.SameName | code.js:773 | two names are the same when their lower-cased forms are equal |
| Names.NameTaken | code.js:773 | some library entry has the name, ignoring case |
| Names.Candidate | code.js:771-775 | candidate 0 is the base name; candidate j > 0 is the base name, a space and j in decimal in parentheses |
| Names.UniqueNameOf | code.js:771-777 | the name the loop settles on: the first candidate that no library entry takes |
| Names.Decimal | code.js:774 | the decimal form of the counter is non-empty and all digits |
| Names.DecimalInjective | code.js:774 | different counters give different decimal forms |
| Names.LowerAppend | code.js:773 | lower-casing distributes over concatenation |
| Names.CandidatesDistinct | code.js:771-777 | no two candidates are the same name, even ignoring case |
| Names.BoundedSetSize | code.js:773 | a set of library indices has at most as many members as the library has entries |
| Names.Takers | code.js:773 | if candidates 0..n are all taken, that takes n + 1 distinct library entries |
| Names.SomeCandidateFree | code.js:771-777 | not every candidate from 0 to the library's size can be taken, so the loop ends |
| Names.FreeFromTaken | code.js:771-777 | the search from candidate j ends at a free candidate, and every candidate before it is taken |
| Names.UniqueNameIsFirstFree | code.js:771-777 | the unique name is free; it is the first free candidate; it is the base name itself when that is free |
| Names.UniqueName | code.js:771-777 | the `while` loop ends with the first free candidate, a name that differs case-insensitively from every library name |
| Library.RemapAfterDelete | code.js:614-620 | one slot after a delete: a binding of the deleted index is cleared, a higher index moves down by one, and a lower index or an empty slot is kept |
| Library.Deleted | code.js:614-622 | deletion shrinks the library by one, keeps three slots |
| Library.RemapKeepsProfile | code.js:614-620 | a binding is cleared if and only if it was empty or named the deleted index; a surviving binding names the same profile in the spliced library |
| Library.DeleteKeepsBindings | code.js:614-622 | a delete keeps a consistent state. A slot becomes empty if and only if it was empty or held the deleted index. Every surviving binding names the same profile |
| Library.DeleteKeepsDistinct | code.js:614-622 | if no two names were equal ignoring case before a delete, none are after it |
| Library.Assigned | code.js:627-632 | a checked box binds the slot to the profile and an unchecked one clears it; the library and the other slots are unchanged |
| Library.Adopt | code.js:763-781 | bind-or-append: the index of the first entry matching the profile with the library unchanged, or the library with the profile appended under its unique name and the new last index |
| Library.AdoptFacts | code.js:763-781 | the adopted index names a profile matching p. The library grows by one exactly when nothing matched. Then the new entry is p under a name no entry had. Otherwise the index is the least match |
| Library.AdoptKeepsLibrary | code.js:771-779 | adopting a profile with the full shape keeps every entry with the full shape |
| Library.AdoptKeepsDistinct | code.js:771-779 | if no two names were equal ignoring case before adopting, none are after it, because an appended entry gets a name no entry had |
| Library.Bind | code.js:763-781 | one slot of the load: adopt the decoded profile and bind the slot to the adopted index |
| Library.BindFacts | code.js:763-781 | binding a loaded profile keeps a consistent state and only appends. The slot is bound to a match of the profile; the other slots are unchanged |
| Library.BindSlots | code.js:765-781 | binding a loaded profile changes no slot but its own |
| Library.ReadSlot | code.js:749-760 | a slot's reports read back as a valid profile, or as an error naming that slot |
| Library.ReadAll | code.js:743-760 | the read results for the three slots are valid profiles or errors naming their own slot |
| Library.Loaded | code.js:742-789 | the load from slot s + 1 on: bind each slot in turn to the profile read from it, stopping with the error of the first slot that fails |
| Library.LoadStep | code.js:743-781 | one step of the load: a failed read stops it with that error and the state as it is; a profile read back is bound, and the load goes on with the next slot |
| Library.LoadKeeps | code.js:743-782 | a load keeps a consistent state and only appends to the library |
| Library.LoadKeepsDistinct | code.js:742-782 | if no two names were equal ignoring case before a load, none are after it |
| Library.LoadStops | code.js:742-789 | a load reads every slot up to the first failing one and reports that slot's error; slots it did not get through are untouched |
| Library.LoadBinds | code.js:762-781 | every slot a load got through is bound to a library entry matching the profile read from it |
| Library.SlotBlock | code.js:845-846 | the block saved for slot t + 1: the encoding of the library entry the slot is bound to, with that slot's filler and timestamp |
| Library.Saved | code.js:838-863 | the save from slot s + 1 on: for each bound slot in turn, the 18 frames of its bound profile's block, stopping at the first empty slot, which it reports |
| Library.SaveOutcome | code.js:838-863 | a save reports the first empty slot, or none exactly when all slots are bound. It sends 18 frames for each bound slot before that |
| Library.SavedFrameAt | code.js:838-862 | frames go out slot by slot: frame 18t + i is frame i of the t-th slot's block |
| Library.SaveTurn | code.js:838-862 | for a bound slot, what was sent plus the rest of the save equals what was sent plus its 18 frames, followed by the save from the next slot on |
| Library.SaveEnd | code.js:838-842 | at an empty slot, or past the last one, what was sent is the whole save |
| Library.EchoReassembles | code.js:749-758 | the reports of a device that echoes a slot's frames reassemble to the saved block |
| Library.SavedSlotReadsBack | code.js:738-869 | end to end for one slot: the slot reads back as the decoded saved block. The result matches the saved profile if and only if its fields are stable and a stick profile's orientation is 1..255 |
| Library.FillSlots | code.js:1107-1118 | the slot loop for imported profile i: an empty slot that the file binds to i is bound to the target index; every other slot is kept |
| Library.ImportOne | code.js:1087-1119 | one turn of the merge: adopt imported profile i, then fill the empty slots the file binds to it with the adopted index |
| Library.Merged | code.js:1086-1120 | the merge: one turn for each imported profile, in file order |
| Library.ImportOneFacts | code.js:1087-1119 | one turn of the merge keeps a consistent state and appends at most one entry. The adopted index names a match of the profile. Exactly the empty slots the file binds to profile i are filled with it |
| Library.MergeOutcome | code.js:1084-1122 | the merge keeps a consistent state and only appends, at most one entry per imported profile. It never changes a bound slot. Every imported profile ends up matched by an entry. It binds each empty slot the file asks for to a match of the requested profile, and leaves the other empty slots empty |
| Library.MergeStep | code.js:1087-1119 | one turn of the merge followed by the rest of it keeps every property the merge promises |
| Library.MergeKeepsDistinct | code.js:1086-1120 | if no two names were equal ignoring case before an import merge, none are after it |
| Library.LegacyLibrary | code.js:1071-1077 | the library of an old-format file: the profiles present among profile1..profile3, in order |
| Library.LegacySlots | code.js:1071-1077 | an old-format file gives one slot binding per profile position |
| Library.LegacyPrefix | code.js:1071-1077 | converting the first i positions gives a prefix of the converted library |
| Library.LegacySlotsPoint | code.js:1071-1077 | each slot of an old-format file points at its own profile in the converted library |
| Session.Registry.constructor | code.js:7-10 | the page starts with an empty library and three empty slots |
| Session.Registry.DeleteProfile | code.js:609-624 | confirmed, the state becomes `Deleted` of the old state; declined, nothing changes |
| Session.Registry.AssignProfileToSlot | code.js:626-635 | the state becomes `Assigned` of the old state |
| Session.Registry.AdoptProfile | code.js:763-781 | the library becomes `Adopt` of the old library and the index is its adopted index; `added` says whether it grew; the slots are untouched |
| Session.Registry.BindLoaded | code.js:763-781 | the state becomes `Bind` of the old state for the slot and the decoded profile |
| Session.Registry.LoadSlot | code.js:744-781 | one slot of the load: an error leaves the state unchanged; otherwise the state becomes `Bind` with the profile read back |
| Session.Registry.LoadFromDevice | code.js:738-790 | the new state and the error are `Loaded` of the old state. The requests sent are the read requests for slots 1, 2, ... in order, one for each slot the load reached |
| Session.Registry.SaveToDevice | code.js:833-868 | the frames sent and the empty slot reported are `Saved` of the state |
| Session.Registry.SendSlot | code.js:845-862 | the frames sent for a bound slot are the 18 frames of its saved block |
| Session.Registry.ImportMerge | code.js:1083-1122 | the new state is `Merged` of the old state, and `addedCount` is the number of entries appended |
| Session.FillRequested | code.js:1107-1118 | the slot loop fills every empty slot the file binds to profile i with the profile's library index, and leaves the other slots unchanged |
| Session.AppendRequest | code.js:743-747 | the next read request is the one for the next slot |
| Session.LegacyToLibrary | code.js:1069-1077 | the old-format conversion yields `LegacyLibrary` and `LegacySlots` of the three entries |

## Left out

- The user interface is not modelled: the DOM, the editor, the viewer, the label tables, HTML generation and the unsaved-changes dialog. The editor's save (`saveProfileToLibrary`) replaces or appends a library entry directly (code.js:595-600); that write is not modelled. Every Registry contract needs only `Valid()`, so the contracts cover any state that write can reach.
- The editor (`validateProfileName`, `getProfileFromEditor`, `saveProfileToLibrary`) is not modelled. Its duplicate check compares the trimmed name, but it stores the name untrimmed. So the library can hold two names that differ only in surrounding blanks. Distinct names (`Library.DistinctNames`) are therefore not part of a consistent state. Instead, separate lemmas show that delete, adopt, load and import keep them when they held before.
- WebHID I/O is not modelled: opening the device, `sendFeatureReport`, `receiveFeatureReport` and disconnect handling.
  - Frames sent are returned as sequences.
  - Reports received are method parameters.
  - A device that throws part-way is not modelled.
  - A short report is the only read error modelled: it stands for the `RangeError` that reading past its end throws.
- `crc32` is not part of this model. It is a function parameter over the 956 bytes.
- The random filler and `Date.now()` are parameters. The timestamp is written as its low 64 bits, which is what `setBigInt64` stores for a non-negative time.
- JSON parsing, FileReader, export and the choice between file formats are not modelled. `Session.Registry.ImportMerge` starts from already parsed profiles and slot list; `Session.LegacyToLibrary` is the old-format conversion.
- async/await sequencing, the toasts and the error display are left out.
- Profiles lacking button entries, or with fewer than four port entries, are not modelled: every profile has 10 buttons and 4 optional ports (`Profiles.Profile.Valid`). A missing port is `None`; the encoder reads it as all zeros, as `|| {}` does.
- Codes are natural numbers rather than strings:
  - `parseInt(x) || 0` of a code-like string is the number itself;
  - strings that do not parse, and negative numbers, are not modelled;
  - `Codec.OrientationByte` takes the parsed orientation.
- Codec.PortEntry: the stick entry e0 is read as its mapping1 only. Its mapping2, toggle and analog, which an imported file could carry, are treated as 0, false and false. The editor and the decoder never give e0 those fields. For an imported e0 with mapping1 1..99, the code would write its mapping2 at byte 3 and choose tag 2 or 3 from its analog. With toggle set it would also set bit 9, which is button 10's toggle bit. The model writes 0 and tag 3, and sets no bit.
- Names.Lower: only A-Z are folded, not the full Unicode `toLowerCase`.
- Session.Registry.AssignProfileToSlot: requires an existing profile index when checked; the page only offers existing profiles.
- Session.Registry.DeleteProfile: the confirmation dialog's answer is the `confirmed` parameter.
- Session.Registry.ImportMerge: imported profiles must have the full shape, and the imported slot list is read only at positions 0..2 (as the loop does); JavaScript object aliasing of imported profiles is not modelled.
- Framing.ReceiveBlock: the chunk index byte of each received report is not checked, and neither is the CRC, as in the code.

## Findings

| source | as written | input that shows it | evidently intended | confidence | as-written member | corrected member |
|---|---|---|---|---|---|---|
| code.js:975 | `parseInt(profile.orientation) \|\| 3` turns orientation 0 into 3, because 0 is falsy | a stick profile (e0 mapping1 101) with orientation "0", which the viewer names "stick below" (code.js:417-419), saved then loaded, comes back with orientation 3 and no longer matches | 3 only for a missing or unparsable orientation; 0..3 stored as themselves | not executed | CodecLaws.OrientationZeroLost | CodecLaws.IntendedSaveLoadMatches |

The device methods (`DeviceData.ProfileToDeviceData`, `Session.Registry.SaveToDevice`) keep the as-written orientation byte, because they model what the code does. The corrected encoder `CodecLaws.EncodeIntended` and the as-written `Codec.Encode` are both `Codec.EncodeWith` with a different orientation byte, so every law proved over `EncodeWith` holds for both.
