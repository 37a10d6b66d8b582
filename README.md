# LLB roster codec in Dafny

This project models the byte-level core of `llbcs.py`, the roster and team
colour editor for the NES game *Little League Baseball: Championship Series*:

- the 16-byte player row, with its 6-character name, the attribute bytes and the
  untouched filler bytes 13 and 15;
- the scan that lists a team's players from its start offset up to the first
  all-0xFF row;
- the search for that terminator row within the first 128 rows, and the three
  8-byte pitch profiles in the two rows after it;
- the `PitchProfile` getters and setters, which bit-pack, clamp or mask one byte
  of the profile;
- reading and writing a team's two colour bytes;
- writing players and profiles back into the ROM buffer;
- the IPS patch writer `_build_ips`, with a reader of the same format as its
  partner.

The source's own form is kept:

- `RosterModel` is a class whose `buf` is an `array<byte>` edited in place. Its
  roster scan, terminator search, profile parse, player write-back, profile
  write-back and colour write are methods with the source's loops. Each is
  proved against a function of the buffer's contents.
- `PitchProfile` is a class whose setters reassign its 8-byte `raw` sequence.
- `_build_ips` is a method with the source's two nested loops. It is proved
  equal to the function `Ips.Patch`.

Files and modules:

- `bytes.dfy`: `Bytes` (the byte type, masks, clamps, slice assignment, lists of
  writes) and `Wrappers` (`Option`).
- `teams.dfy`: `Teams`, the two team offset tables.
- `roster.dfy`: `Roster`, the name codec, the row codec, the team scan and the
  row write-back, as functions with their laws.
- `profiles.dfy`: `Profiles`, the terminator search, the profile offsets, and
  the `PitchProfile` class.
- `rostermodel.dfy`: `RosterModels`, the `RosterModel` class and the colour
  functions.
- `ips.dfy`: `Ips`, the IPS writer and reader.

Inputs and outputs are modelled as follows:

- The ROM file is read by the caller: the constructor takes its bytes.
- `save_rom` and the IPS file write are left to the caller as well.
- Python exceptions become preconditions. A field that is stored as given must
  fit in a byte (`Roster.Writable`), a row or profile must lie inside the
  buffer, and `raw` must hold 8 bytes.

Two behaviours of the code worth knowing:

- A name holding a 0x00 byte is cut at its first space, not at the NUL (the
  `if 0x00 in name_b` branch of `_parse_player`). `Roster.NulsKept` shows that
  such a name keeps its NUL bytes.
- The delivery setter writes 0 ("Normal") for a label it does not know.

## Model

| member | source | states |
|---|---|---|
| Bytes.Clamp | llbcs.py:280 | `max(lo, min(hi, v))` lies in `[lo, hi]`, is `v` inside that range and the nearer end outside it |
| Bytes.LowByte | llbcs.py:267-268 | `v & 0xFF` is `v` for a byte value and always differs from `v` by a multiple of 256 |
| Bytes.Low7 | llbcs.py:144 | `b & 0x7F` is below 0x80, is `b` when bit 7 is clear and `b - 0x80` when it is set |
| Bytes.LowNibble | llbcs.py:148 | `b & 0x0F` is below 16 (with `NibblesSplit`, it is what remains of `b` after its high nibble) |
| Bytes.HighNibble | llbcs.py:153 | `b & 0xF0`, shifted down, is below 16 (with `NibblesSplit`, 16 times it plus the low nibble is `b`) |
| Bytes.NibblesSplit | llbcs.py:148-153 | every byte is 16 times its high nibble plus its low nibble, so `b & 0xF0` and `b & 0x0F` together are `b` |
| Bytes.NibblesJoin | llbcs.py:153 | two nibbles `h` and `l` put together as `16h + l` give back high nibble `h` and low nibble `l` |
| Bytes.Splice | llbcs.py:285 | a slice assignment keeps the length, puts the chunk at its span and keeps every byte outside the span |
| Bytes.SpliceOther | llbcs.py:285 | a slice assignment leaves any span it does not overlap unchanged |
| Bytes.SpliceWritten | llbcs.py:285 | a buffer holding the chunk at the span and the old bytes elsewhere is the slice assignment |
| Bytes.SpliceSame | llbcs.py:285 | writing a span's own bytes back changes nothing |
| Bytes.WriteSpan | llbcs.py:290 | the in-place slice assignment on the array leaves exactly `Splice` of its old contents |
| Bytes.ApplyWrites | llbcs.py:289-290 | writing a list of spans in turn keeps the buffer's length |
| Bytes.ApplyWritesOutside | llbcs.py:289-290 | a byte that no span covers keeps its value |
| Bytes.ApplyWritesSnoc | llbcs.py:289-290 | writing one more span is one more slice assignment on the prefix's result |
| Bytes.ApplyWritesAgree | llbcs.py:289-290 | when every span carries the target's bytes, every covered byte ends up as in the target |
| Bytes.ApplyWritesReproduce | llbcs.py:289-290 | spans that carry the target's bytes and cover every byte where base and target differ turn base into target |
| Bytes.ApplyWritesDisjoint | llbcs.py:289-290 | with non-overlapping spans, every span's bytes are found at its offset afterwards |
| Teams.ColourOffsetsSpaced | llbcs.py:68-85 | team i of the sixteen has its colour pair at 0x1FAD0 + 3i |
| Teams.ColourTableTeams | llbcs.py:68-85 | the colour table names only the sixteen teams |
| Teams.RosterTableTeams | llbcs.py:48-85 | the roster table and the colour table list the same teams |
| Teams.ColourPairsDisjoint | llbcs.py:68-85 | two different teams' colour pairs share no byte |
| Roster.UpperChar | llbcs.py:194 | ASCII lower-case letters move down by 32 to their capitals, every other character is kept, and an ASCII character stays ASCII and is no lower-case letter |
| Roster.Upper | llbcs.py:194 | `.upper()` keeps the length and maps each character |
| Roster.AsciiEncode | llbcs.py:195 | `encode('ascii', 'ignore')` keeps at most the input's length, yields 7-bit bytes, adds no lower-case letter and drops nothing from ASCII text (with `AsciiEncodeOne` and `AsciiEncodeAppend`, it keeps exactly the characters below 0x80, in order) |
| Roster.AsciiDecode | llbcs.py:206 | `decode('ascii', 'ignore')` is no longer than its input and keeps the length of 7-bit input (with `AsciiDecodeOne` and `AsciiDecodeAppend`, it keeps exactly the bytes below 0x80, in order) |
| Roster.Spaces | llbcs.py:197 | `b" " * n` is n spaces |
| Roster.EncodeName6 | llbcs.py:193-198 | `_encode_name6` always gives 6 bytes, all 7-bit and none a lower-case letter (`EncodeName6Cut` shows only the first six characters count, and `EncodeName6Ascii` gives the bytes themselves) |
| Roster.BeforeFirst | llbcs.py:205 | `split(b" ", 1)[0]` is the longest prefix without a space; when shorter than the input it stops at a space |
| Roster.RStripSpaces | llbcs.py:206 | `rstrip(' ')` is a prefix that does not end in a space, and only spaces were removed |
| Roster.DecodeName | llbcs.py:203-206 | the decoded name is at most 6 characters long and does not end in a space (`DecodeNulCut` and `NulsKept` say where the cut falls) |
| Roster.AsciiEncodeNameChars | llbcs.py:195 | name characters encode one byte each, to their own code |
| Roster.AsciiDecodeAscii | llbcs.py:206 | 7-bit bytes decode one character each, to their own code |
| Roster.AsciiEncodeOne | llbcs.py:195 | one character below 0x80 encodes to the one byte with its code; one at or above 0x80 encodes to nothing |
| Roster.AsciiEncodeAppend | llbcs.py:195 | the encoding of a concatenation is the concatenation of the encodings |
| Roster.AsciiDecodeOne | llbcs.py:206 | one byte below 0x80 decodes to the character with its code; one at or above 0x80 decodes to nothing |
| Roster.AsciiDecodeAppend | llbcs.py:206 | the decoding of a concatenation is the concatenation of the decodings |
| Roster.AsciiEncodeAscii | llbcs.py:195 | 7-bit characters encode one byte each, to their own code |
| Roster.EncodeName6Ascii | llbcs.py:193-198 | for any name whose first six characters are ASCII, byte k is the upper case of character k for k below the cut length, and a space after it |
| Roster.EncodeName6Cut | llbcs.py:194-195 | for every name, the stored bytes are those of its first six characters alone, so the cut to six comes before the ASCII filter |
| Roster.ExampleAsciiFilterLong | llbcs.py:195 | encoding "PE", then "ñ", then "ALV" drops the one non-ASCII letter and gives "PEALV" |
| Roster.ExampleEncodeCutThenDrop | llbcs.py:193-198 | "Peñalver" is stored as "PEALV ": it is cut to its first six characters first, then the non-ASCII letter is dropped and a space pads the name, rather than the seventh letter |
| Roster.ExampleEncodeLong | llbcs.py:193-198 | "Smith jr" is stored as "SMITH " |
| Roster.ExampleAsciiFilter | llbcs.py:195 | encoding "ZO", then "ë", then " AB" drops the one non-ASCII letter and gives "ZO AB" |
| Roster.ExampleEncodeDrop | llbcs.py:193-198 | "Zoë Ab" is stored as "ZO AB ": the non-ASCII letter is dropped and the rest moves up |
| Roster.BeforeFirstAt | llbcs.py:205 | with the first space at index i, `split(b" ", 1)[0]` is the first i bytes |
| Roster.DecodeNulCut | llbcs.py:204-206 | a name field holding a NUL is cut before its first space, wherever the NUL lies |
| Roster.ExampleNulName | llbcs.py:203-206 | "A", NUL, space, "B", space, space decodes to "A" followed by NUL: the "B" is lost |
| Roster.ExampleSpacedName | llbcs.py:203-206 | "A", space, "B" and three spaces, with no NUL, decodes to "A B" |
| Roster.RStripPadded | llbcs.py:197-206 | stripping the padding added to a name that does not end in a space gives the name back |
| Roster.RStripRepad | llbcs.py:206 | the stripped text padded back to its length is the text |
| Roster.NameRoundTrip | llbcs.py:193-206 | a name of at most 6 upper-case ASCII name characters that does not end in a space decodes from its encoding unchanged |
| Roster.NameReencode | llbcs.py:193-206 | 6 stored name bytes, all name characters or spaces, are re-encoded from their decoding unchanged |
| Roster.NulsKept | llbcs.py:204-206 | a name field with no space decodes byte for byte, NUL bytes included, because the cut happens at a space |
| Roster.ParsePlayer | llbcs.py:200-215 | a player comes back exactly when the chunk has 16 bytes, at the given offset, with byte-sized fields and a name of at most 6 characters; for every chunk the name is decoded from bytes 0..5 and the fields are read from bytes 6, 8, 9, 10, 11, 12 and 14, as the row layout at llbcs.py:7-17 documents |
| Roster.PiByte | llbcs.py:281 | the stored profile index is one of the four choices, and a valid one is stored as given |
| Roster.RowTail | llbcs.py:275-284 | the attribute part of a written row is 10 bytes |
| Roster.EncodeRow | llbcs.py:273-285 | a written row has 16 bytes: the encoded name, 0xFF at byte 7, and bytes 13 and 15 kept from the old row |
| Roster.RowRoundTrip | llbcs.py:273-285 | parsing a written row gives the player as stored: the name re-decoded, `hit` clamped to 0..4 and an unknown `pi` replaced by 0 |
| Roster.StoredCanonical | llbcs.py:280-281 | a player with a canonical name, `hit` in 0..4 and a valid `pi` is stored as it is |
| Roster.RowReencode | llbcs.py:273-285 | writing back the player parsed from a canonical row reproduces the row byte for byte |
| Roster.TailReencode | llbcs.py:275-284 | writing back the attributes parsed from a row with 0xFF at byte 7, `hit` at most 4 and a valid `pi` reproduces bytes 6..15 |
| Roster.ExampleName | llbcs.py:203-206 | the bytes "ABCDEF" decode to the name "ABCDEF" |
| Roster.ExampleRow | llbcs.py:200-215 | a concrete row parses to the player read from bytes 6, 8, 9, 10, 11, 12 and 14 |
| Roster.SpliceOtherRow | llbcs.py:285 | writing a span leaves any row it does not overlap unchanged |
| Roster.RowShift | llbcs.py:220-228 | row k+1 from a base is row k from the next row |
| Roster.PlayerAt | llbcs.py:224 | the player at a whole row is what `_parse_player` returns for it |
| Roster.TeamRows | llbcs.py:217-228 | the k-th player sits at `start + 16k` on a whole row that is not all 0xFF, and the row after the last player is all 0xFF or not whole |
| Roster.TeamRowsStep | llbcs.py:220-228 | a player row at the cursor puts its player first, followed by the rest of the scan |
| Roster.TeamRowsParsed | llbcs.py:221-227 | the k-th player is the parse of the row at `start + 16k` |
| Roster.ApplyRows | llbcs.py:270-285 | writing the players' rows in turn keeps the buffer's length |
| Roster.ApplyRowsKeeps | llbcs.py:272-285 | a byte in no player's row keeps its value |
| Roster.ApplyRowsSnoc | llbcs.py:272-285 | writing one more player re-encodes that player's row as the earlier writes left it |
| Roster.ApplyRowsNext | llbcs.py:272-285 | one iteration of the write-back loop extends the written prefix by one player |
| Roster.ApplyRowsOutside | llbcs.py:272-285 | a row overlapping no player's row is unchanged |
| Roster.ApplyRowsLast | llbcs.py:272-285 | with disjoint rows, the last player's row holds its encoding over the original row |
| Roster.ApplyRowsLastElsewhere | llbcs.py:272-285 | the last write leaves every row it does not overlap as the earlier writes left it |
| Roster.RowsInit | llbcs.py:272 | dropping the last player keeps the rows whole and disjoint |
| Roster.ApplyRowsDisjoint | llbcs.py:272-285 | with disjoint rows, every player's row holds its encoding over the original row |
| Roster.ApplyRowsReparse | llbcs.py:272-285 | after the write-back, every player's row is whole, not all 0xFF, and parses to the stored player |
| Roster.ApplyRowsUnchanged | llbcs.py:272-285 | when every player encodes to the row already there, the write-back leaves the buffer unchanged |
| Roster.TeamRowsDisjoint | llbcs.py:217-228 | the scanned players' rows do not overlap |
| Roster.TeamRowsFit | llbcs.py:217-228 | the scanned players' rows lie inside the buffer |
| Roster.UneditedSaveIsIdentity | llbcs.py:270-285 | writing back an unedited team whose rows are canonical leaves the buffer unchanged |
| Roster.TeamRowsOf | llbcs.py:217-228 | a list of players matching rows 0..k-1, followed by a row that ends the scan, is the scan |
| Roster.EditedRowsFit | llbcs.py:270-285 | players with the scanned rows' offsets have whole, disjoint rows at `start + 16k` |
| Roster.WrittenRowParses | llbcs.py:270-285 | after the write-back, row k from `start` is a player row that parses to the stored player k |
| Roster.TerminatorKept | llbcs.py:270-285 | the row that ended the scan still ends it after the write-back |
| Roster.WrittenRowsParse | llbcs.py:270-285 | after the write-back, rows 0..k-1 from `start` parse to the stored players |
| Roster.ReloadAfterApply | llbcs.py:270-285 | re-scanning the team after writing back edits of its players gives exactly the stored players, in order |
| Profiles.FindFf | llbcs.py:230-239 | whatever the scan returns is a whole row of the buffer holding sixteen 0xFF bytes |
| Profiles.FfLine | llbcs.py:230-239 | the terminator found from `start` is one of the 128 rows `start + 16k` and is a whole all-0xFF row |
| Profiles.FindFfFound | llbcs.py:230-239 | a found terminator lies on a whole, all-0xFF row at `start + 16k` with k below the budget |
| Profiles.FindFfStep | llbcs.py:232-238 | one iteration of the search: no match past the end, the cursor on an all-0xFF row, otherwise the next row |
| Profiles.FindFfFirst | llbcs.py:230-239 | the search finds row k exactly when k is within the 128 rows, row k is all 0xFF and no earlier row is |
| Profiles.FindFfNone | llbcs.py:230-239 | the search finds nothing exactly when none of the first 128 rows is a whole all-0xFF row |
| Profiles.ProfileOffsets | llbcs.py:241-254 | there are no profiles or three, 8 bytes apart, the last ending inside the buffer |
| Profiles.ProfileOffsetsOfLine | llbcs.py:246-253 | with a terminator at `ff`, the profiles sit at `ff+24`, `ff+32` and `ff+40` when `ff+48` fits, and there are none otherwise |
| Profiles.ProfileRows | llbcs.py:249-253 | the three profile slices of the two rows after the terminator are the buffer's bytes at the three offsets |
| Profiles.ProfileOffsetsAt | llbcs.py:241-254 | when row k is the first all-0xFF row, the offsets are `ff+24`, `ff+32` and `ff+40` for `ff = start + 16k`, or none when `ff+48` does not fit |
| Profiles.ProfileOffsetsNone | llbcs.py:241-245 | with no terminator in the first 128 rows there are no profiles |
| Profiles.RosterRowsNotFF | llbcs.py:222 | no row of the roster is all 0xFF |
| Profiles.NoRowPastEnd | llbcs.py:233-234 | no row at or past one that does not fit is a terminator |
| Profiles.ProfilesAfterRoster | llbcs.py:230-254 | the profiles sit right after the row that ends the roster: three when the roster has fewer than 128 players and `ff+48` fits, none otherwise |
| Profiles.DeliveryCode | llbcs.py:152 | the setter's code is 0, 1 or 2, and its label reads back exactly for the three known labels |
| Profiles.DeliveryRelabel | llbcs.py:147-153 | setting the label read from a low nibble gives that nibble back when it is 0..2, and 0 otherwise |
| Profiles.DeliveryLabel | llbcs.py:149 | the getter's label is one of "Normal", "Hard", "Sidearm" exactly for the codes 0..2, in that order, and `0x0` and the hex digit for any other low nibble |
| Profiles.PitchProfile.Hand | llbcs.py:140-141 | "Left" exactly when bit 7 of byte 0 is set, otherwise "Right" |
| Profiles.PitchProfile.Delivery | llbcs.py:147-149 | a known label exactly for a low nibble 0..2, and then the setter's code of that label is the low nibble |
| Profiles.PitchProfile.Stamina | llbcs.py:156 | the value of profile byte 1, as the profile layout at llbcs.py:23-25 documents |
| Profiles.PitchProfile.Quality | llbcs.py:161 | the value of profile byte 2, as the profile layout at llbcs.py:23-25 documents |
| Profiles.PitchProfile.Tune | llbcs.py:166 | the value of profile byte 3, as the profile layout at llbcs.py:23-25 documents |
| Profiles.PitchProfile.Skill | llbcs.py:171 | the value of profile byte 6, as the profile layout at llbcs.py:23-25 documents |
| Profiles.PitchProfile.Mult | llbcs.py:176 | the value of profile byte 7, as the profile layout at llbcs.py:23-25 documents |
| Profiles.PitchProfile.constructor | llbcs.py:134-137 | a profile holds its offset and a copy of its 8 bytes |
| Profiles.PitchProfile.SetHand | llbcs.py:142-144 | only bit 7 of byte 0 changes: set for "Left", clear otherwise; the getter reads back the hand |
| Profiles.PitchProfile.SetDelivery | llbcs.py:150-153 | byte 0 becomes its high nibble times 16 plus the label's code (0 when unknown), nothing else changes, and the getter reads back the label, or "Normal" |
| Profiles.PitchProfile.SetStamina | llbcs.py:157-158 | only byte 1 changes, to the value clamped to 0..255, which the getter reads back |
| Profiles.PitchProfile.SetQuality | llbcs.py:162-163 | only byte 2 changes, to the value clamped to 0..255, which the getter reads back |
| Profiles.PitchProfile.SetTune | llbcs.py:167-168 | only byte 3 changes, to the value clamped to 0..15, which the getter reads back |
| Profiles.PitchProfile.SetSkill | llbcs.py:172-173 | only byte 6 changes, to the value clamped to 0..4, which the getter reads back |
| Profiles.PitchProfile.SetMult | llbcs.py:177-178 | only byte 7 changes, to the value masked to 8 bits; a byte value reads back as given |
| Profiles.ProfileWrites | llbcs.py:289-290 | one write per profile: its 8 bytes at its offset, in list order |
| RosterModels.TeamColors | llbcs.py:257-261 | None exactly for a team missing from the colour table or a pair past the end, otherwise the two bytes at its offset |
| RosterModels.WithTeamColors | llbcs.py:263-268 | an unknown team or a pair past the end leaves the image as it is; otherwise the pair becomes the two masked values and every other byte is kept |
| RosterModels.ColorsReadBack | llbcs.py:257-268 | reading after a write gives the masked pair, or None as before for an unknown team or a pair past the end |
| RosterModels.ColorsWriteIsolated | llbcs.py:263-268 | a write to one team leaves every other team's colours as they were |
| RosterModels.ScanStep | llbcs.py:221-228 | one iteration of the roster loop appends the row's player and moves to the next row |
| RosterModels.RosterModel.ThreeCopied | llbcs.py:251-254 | three profiles copied from their offsets make up the profile list |
| RosterModels.RosterModel.constructor | llbcs.py:182-190 | the buffer holds the image, the players are the team scan and the profiles are copies of the bytes at the profile offsets |
| RosterModels.RosterModel.ParseTeam | llbcs.py:217-228 | the loop leaves exactly the team scan in `players` and does not touch the profiles |
| RosterModels.RosterModel.FindFfLineAfterTeam | llbcs.py:230-239 | the loop returns the first all-0xFF row among the first 128, or None when a row runs past the end first |
| RosterModels.RosterModel.ParseProfiles | llbcs.py:241-254 | the profiles are copies of the bytes at the profile offsets (none or three) and the players are untouched |
| RosterModels.RosterModel.ReadTeamColors | llbcs.py:257-261 | None exactly for a team missing from the colour table or a pair past the end of the buffer, otherwise the two buffer bytes at its offset |
| RosterModels.RosterModel.WriteTeamColors | llbcs.py:263-268 | the buffer becomes `WithTeamColors` of its old contents, and a read returns the masked pair, or None as before |
| RosterModels.RosterModel.ApplyPlayers | llbcs.py:270-285 | the players become the given list and the buffer becomes `ApplyRows` of its old contents |
| RosterModels.RosterModel.ApplyProfiles | llbcs.py:287-290 | the profiles become the given list, and the buffer becomes the old contents with each profile's 8 bytes written at its offset in turn |
| Ips.Off3 | llbcs.py:646 | `off3` gives three bytes |
| Ips.Len2 | llbcs.py:657 | the length field is two bytes |
| Ips.Off3RoundTrip | llbcs.py:646 | an offset below 2^24 is read back from its three big-endian bytes |
| Ips.Len2RoundTrip | llbcs.py:657 | a length up to 65535 is read back from its two big-endian bytes |
| Ips.Off3IsEof | llbcs.py:646-659 | below 2^24, an offset's bytes spell "EOF" exactly for offset 0x454F46 |
| Ips.RunEnd | llbcs.py:653-654 | the inner loop stops at most 65535 bytes after the run's start, every byte it passes differs, and it stops short of the end only at an equal byte or at the cap |
| Ips.Runs | llbcs.py:649-655 | there are at most as many runs as bytes left, and none exactly when the rest of the two inputs agree |
| Ips.Common | llbcs.py:644 | `min(len(orig), len(edited))` is at most both lengths and equal to one of them |
| Ips.Patch | llbcs.py:642-660 | every patch starts with "PATCH" and ends with "EOF" |
| Ips.EmitRun | llbcs.py:655-658 | appending the record found at `start` leaves the runs from its end still to be written |
| Ips.BuildIps | llbcs.py:642-660 | the nested loops produce exactly `Patch(orig, edited, false)`: "PATCH", one record per run, "EOF" |
| Ips.ReadSerialized | llbcs.py:656-659 | records with offsets below 2^24 other than 0x454F46 and lengths in 1..65535, followed by "EOF", are read back as written |
| Ips.RunsFaithful | llbcs.py:649-655 | every record holds the edited bytes at its span, has length in 1..65535 and starts inside the common prefix |
| Ips.RunsCover | llbcs.py:649-654 | every differing byte of the common prefix lies in some record |
| Ips.RunsOrdered | llbcs.py:649-655 | every record covers only differing bytes, and records come in increasing order without overlap |
| Ips.RunsSkip | llbcs.py:650-651 | a stretch of equal bytes adds no record |
| Ips.RunsRestore | llbcs.py:644-658 | applying the records to the original prefix gives the edited prefix |
| Ips.PatchRoundTrip | llbcs.py:642-660 | when the common prefix ends at or before 0x454F46, reading the patch and applying it to the original gives the edited prefix |
| Ips.PatchFixedRoundTrip | llbcs.py:642-660 | with the corrected run start, the same holds for every common prefix of at most 2^24 bytes |
| Ips.PatchReads | llbcs.py:647-659 | a patch made of readable records is read back as those records |
| Ips.PatchEqualInputs | llbcs.py:642-660 | the patch is exactly "PATCHEOF" when, and only when, the inputs agree on their common prefix |
| Ips.PatchExample | llbcs.py:642-660 | `[0,0,0,0]` against `[0,1,0,0]` gives "PATCH" 00 00 01 00 01 01 "EOF" |
| Ips.PatchEofOffsetLost | llbcs.py:646-659 | as written, one changed byte at offset 0x454F46 gives a patch that reads as no records, so the change is lost |

## Left out

- User interface: the Qt editor window, its tables, dialogs and palette widgets, including the duplicated `on_palette_changed` handlers.
- File I/O: the ROM read in `RosterModel.__init__`, `save_rom`, and the file reads and writes of the IPS export. The bytes are parameters instead.
- `hsv_string_to_qcolor`, `make_swatch` and the palette map: floating-point colour parsing for display only.
- The lineup order codec: it is not part of this program.
- Roster.UpperChar: only ASCII letters are upper-cased. Python's Unicode upper-casing is not modelled. That would matter only for the few non-ASCII characters whose upper case is ASCII or longer than one character (such as 'ı' → "I" or 'ß' → "SS"); every other non-ASCII character is dropped by the ASCII encoding anyway.
- RosterModels.RosterModel.ParseTeam: the `if not p: break` branch is not modelled, because a whole 16-byte row always parses.
- Profiles.PitchProfile.constructor: `raw` is a value sequence. A `bytearray` shared between a profile and other code, and a `players` list shared with the caller, are not modelled as aliases.
- RosterModels.RosterModel.ParseProfiles: it does not state that the profiles are freshly allocated.
- RosterModels.RosterModel.ApplyPlayers: it requires every row to lie inside the buffer. Python would index a row cut short by the end of the buffer (and raise or shorten the row), and would read a negative offset from the end.
- RosterModels.RosterModel.ApplyProfiles: it requires 8 bytes per profile, inside the buffer. Python's slice assignment would instead grow or shrink the `bytearray`.
- RosterModels.RosterModel.constructor: `start_offset` is a natural number; a negative start offset (which Python would accept as an index from the end) is not modelled.
- Ips.BuildIps: bytes of `edited` beyond the length of `orig` are not patched, as in the source. The round-trip lemmas speak about the common prefix only.
- Ips.RunsOrdered: stated for the writer as written. The corrected writer's records can share one byte at 0x454F45 with the record before, so only `Ips.RunsFaithful` and `Ips.RunsCover` are stated for it.
- Ips.ReadRecords: a zero-length (run-length) record, which the writer never emits, is read as an error.

## Findings

| source | as written | input that shows it | evidently intended | confidence | as-written member | corrected member |
|---|---|---|---|---|---|---|
| llbcs.py:646-659 | a run starting at offset 0x454F46 gets the offset bytes 45 4F 46, which spell the "EOF" marker, so an IPS reader stops there and drops the record and every later one | `orig` of 0x454F47 zero bytes, `edited` equal except byte 0x454F46 set to 1 | start such a run one byte earlier, at 0x454F45 (as other IPS writers do), so every change below 2^24 survives | not executed | Ips.PatchEofOffsetLost | Ips.PatchFixedRoundTrip |
