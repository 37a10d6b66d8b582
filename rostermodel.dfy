/** `RosterModel`: one team's view of a ROM image held in a mutable buffer. It
    parses the roster rows and pitch profiles when built and writes players,
    profiles and team colours back into the same buffer. */
module RosterModels {
  import opened Wrappers
  import opened Bytes
  import opened Roster
  import opened Profiles
  import opened Teams

  /** The two colour bytes of `team` in `image`: None for a team missing from
      TEAM_OFFSETS_COLOUR or when the secondary byte lies past the end. */
  function TeamColors(image: seq<byte>, team: string): (r: Option<(byte, byte)>)
    ensures r.None? <==> team !in TeamColourOffsets || TeamColourOffsets[team] + 1 >= |image|
    ensures r.Some? ==> var off := TeamColourOffsets[team]; r.value == (image[off], image[off + 1])
  {
    if team !in TeamColourOffsets then None
    else
      var off := TeamColourOffsets[team];
      if off + 1 >= |image| then None else Some((image[off], image[off + 1]))
  }

  /** The image after `write_team_colors(team, primary, secondary)`. */
  function WithTeamColors(image: seq<byte>, team: string, primary: int, secondary: int): (r: seq<byte>)
    ensures |r| == |image|
    ensures team !in TeamColourOffsets || TeamColourOffsets[team] + 1 >= |image| ==> r == image
    ensures team in TeamColourOffsets && TeamColourOffsets[team] + 1 < |image| ==>
      r[TeamColourOffsets[team]] == LowByte(primary) && r[TeamColourOffsets[team] + 1] == LowByte(secondary)
    ensures forall j :: 0 <= j < |image| && !(team in TeamColourOffsets && TeamColourOffsets[team] <= j <= TeamColourOffsets[team] + 1)
              ==> r[j] == image[j]
  {
    if TeamColors(image, team).None? then image
    else
      var off := TeamColourOffsets[team];
      image[off := LowByte(primary)][off + 1 := LowByte(secondary)]
  }

  /** Reading a team's colours after writing them gives the masked pair; an
      unknown team or a pair past the end reads as None before and after. */
  lemma ColorsReadBack(image: seq<byte>, team: string, primary: int, secondary: int)
    ensures TeamColors(WithTeamColors(image, team, primary, secondary), team)
      == if TeamColors(image, team).None? then None else Some((LowByte(primary), LowByte(secondary)))
  {
  }

  /** Writing one team's colours leaves every other team's colours as they were. */
  lemma ColorsWriteIsolated(image: seq<byte>, team: string, other: string, primary: int, secondary: int)
    requires other != team
    ensures TeamColors(WithTeamColors(image, team, primary, secondary), other) == TeamColors(image, other)
  {
    if TeamColors(image, team).Some? && other in TeamColourOffsets {
      ColourPairsDisjoint(team, other);
    }
  }

  /** One iteration of `_parse_team`'s loop: the player on a non-terminator row,
      appended to what has been collected, leaves the rest of the scan to go. */
  lemma ScanStep(image: seq<byte>, cursor: nat, collected: seq<Player>)
    requires RowFits(image, cursor) && !AllFF(RowAt(image, cursor))
    ensures collected + TeamRows(image, cursor)
      == (collected + [PlayerAt(image, cursor)]) + TeamRows(image, cursor + RowLen)
  {
    assert PlayerRow(image, cursor, 0);
    TeamRowsStep(image, cursor);
  }

  class RosterModel {
    /** `self.buf`: the whole ROM image, edited in place. */
    const buf: array<byte>
    /** `self.start`: the offset of the team's first roster row. */
    const start: nat
    var players: seq<Player>
    var profiles: seq<PitchProfile>

    /** The profiles are copies of the bytes of `image` at `offs`, one per offset. */
    predicate ProfilesCopied(image: seq<byte>, offs: seq<nat>)
      reads this, profiles
    {
      |profiles| == |offs| && forall k :: 0 <= k < |offs| ==> CopyOf(profiles[k], image, offs[k])
    }

    /** Three profiles, each a copy of the bytes at its offset, are copies of those
        offsets. */
    lemma ThreeCopied(image: seq<byte>, offs: seq<nat>, p1: PitchProfile, p2: PitchProfile, p3: PitchProfile)
      requires profiles == [p1, p2, p3] && |offs| == 3
      requires CopyOf(p1, image, offs[0]) && CopyOf(p2, image, offs[1]) && CopyOf(p3, image, offs[2])
      ensures ProfilesCopied(image, offs)
    {
      forall k | 0 <= k < 3 ensures CopyOf(profiles[k], image, offs[k]) {
        assert profiles[k] == if k == 0 then p1 else if k == 1 then p2 else p3;
      }
    }

    /** `RosterModel(rom, start_offset)` over the bytes of `image` (the file read
        is the caller's): the roster and the profiles are parsed at once. */
    constructor (image: seq<byte>, startOffset: nat)
      ensures buf[..] == image && start == startOffset && fresh(buf)
      ensures players == TeamRows(image, startOffset)
      ensures ProfilesCopied(image, ProfileOffsets(image, startOffset))
    {
      buf := new byte[|image|](i requires 0 <= i < |image| => image[i]);
      start := startOffset;
      players := [];
      profiles := [];
      new;
      ParseTeam();
      ParseProfiles();
    }

    /** `_parse_team`: rows from `start` on, stopping at the first all-0xFF row or
        when fewer than 16 bytes remain. */
    method ParseTeam()
      modifies this
      ensures players == TeamRows(buf[..], start)
      ensures profiles == old(profiles)
    {
      ghost var image := buf[..];
      players := [];
      var cursor := start;
      while cursor + RowLen <= buf.Length
        invariant players + TeamRows(image, cursor) == TeamRows(image, start)
        invariant profiles == old(profiles)
        decreases buf.Length - cursor
      {
        var row := buf[cursor..cursor + RowLen];
        assert row == RowAt(image, cursor);
        if AllFF(row) {
          break;
        }
        var p := ParsePlayer(row, cursor);
        // A whole row always parses: the source's `if not p: break` is never taken.
        assert p == Some(PlayerAt(image, cursor));
        ScanStep(image, cursor, players);
        players := players + [p.value];
        cursor := cursor + RowLen;
      }
    }

    /** `_find_ff_line_after_team`: the offset of the first all-0xFF row among the
        first 128 rows from `start`, or None when a row runs past the end first. */
    method FindFfLineAfterTeam() returns (r: Option<nat>)
      ensures r == FfLine(buf[..], start)
    {
      ghost var image := buf[..];
      var cursor: nat := start;
      var left: nat := ScanRows;
      r := None;
      while left > 0
        invariant FindFf(image, cursor, left) == FfLine(image, start)
      {
        FindFfStep(image, cursor, left);
        if cursor + RowLen > buf.Length {
          break;
        }
        var line := buf[cursor..cursor + RowLen];
        assert line == RowAt(image, cursor);
        if AllFF(line) {
          r := Some(cursor);
          break;
        }
        cursor := cursor + RowLen;
        left := left - 1;
      }
    }

    /** `_parse_profiles`: three profiles copied out of the two rows after the
        terminator, or none. */
    method ParseProfiles()
      modifies this
      ensures players == old(players)
      ensures ProfilesCopied(buf[..], ProfileOffsets(buf[..], start))
    {
      profiles := [];
      var ffLine := FindFfLineAfterTeam();
      ghost var image := buf[..];
      if ffLine.None? {
        assert ProfilesCopied(image, []);
        return;
      }
      var base := ffLine.value + RowLen;
      if base + 2 * RowLen > buf.Length {
        ProfileOffsetsOfLine(image, start, ffLine.value);
        assert ProfilesCopied(image, []);
        return;
      }
      var row1 := buf[base..base + RowLen];
      var row2 := buf[base + RowLen..base + 2 * RowLen];
      ProfileRows(image, start, ffLine.value, row1, row2);
      ghost var offs := ProfileOffsets(image, start);
      var p1 := new PitchProfile(base + 8, row1[8..16]);
      assert CopyOf(p1, image, offs[0]);
      var p2 := new PitchProfile(base + RowLen, row2[0..8]);
      assert CopyOf(p2, image, offs[1]);
      var p3 := new PitchProfile(base + RowLen + 8, row2[8..16]);
      assert CopyOf(p3, image, offs[2]);
      profiles := [p1, p2, p3];
      ThreeCopied(image, offs, p1, p2, p3);
    }

    /** `read_team_colors`. */
    function ReadTeamColors(team: string): (r: Option<(byte, byte)>)
      reads buf
      ensures r.None? <==> team !in TeamColourOffsets || TeamColourOffsets[team] + 1 >= buf.Length
      ensures r.Some? ==> r.value == (buf[TeamColourOffsets[team]], buf[TeamColourOffsets[team] + 1])
    {
      TeamColors(buf[..], team)
    }

    /** `write_team_colors`: both bytes masked to 8 bits, or nothing at all for an
        unknown team or a pair past the end. */
    method WriteTeamColors(team: string, primaryIdx: int, secondaryIdx: int)
      modifies buf
      ensures buf[..] == WithTeamColors(old(buf[..]), team, primaryIdx, secondaryIdx)
      ensures ReadTeamColors(team)
        == if old(ReadTeamColors(team)).None? then None else Some((LowByte(primaryIdx), LowByte(secondaryIdx)))
    {
      if team !in TeamColourOffsets {
        return;
      }
      var off := TeamColourOffsets[team];
      if off + 1 >= buf.Length {
        return;
      }
      buf[off] := LowByte(primaryIdx);
      buf[off + 1] := LowByte(secondaryIdx);
      ColorsReadBack(old(buf[..]), team, primaryIdx, secondaryIdx);
    }

    /** `apply_players`: each player's row rewritten in turn; the list becomes the
        model's players. */
    method ApplyPlayers(ps: seq<Player>)
      requires RowsFit(buf[..], ps)
      modifies this, buf
      ensures players == ps && profiles == old(profiles)
      ensures buf[..] == ApplyRows(old(buf[..]), ps)
    {
      players := ps;
      ghost var image := buf[..];
      for i := 0 to |ps|
        invariant players == ps && profiles == old(profiles)
        invariant buf.Length == |image| && RowsFit(image, ps[..i])
        invariant buf[..] == ApplyRows(image, ps[..i])
      {
        var p := ps[i];
        var at := p.rowOffset;
        ghost var prev := buf[..];
        var row := EncodeRow(p, buf[at..at + RowLen]);
        WriteSpan(buf, at, row);
        ApplyRowsNext(image, ps, i, prev, buf[..]);
      }
      assert ps[..|ps|] == ps;
    }

    /** `apply_profiles`: each profile's 8 bytes copied to its offset; the list
        becomes the model's profiles. */
    method ApplyProfiles(prs: seq<PitchProfile>)
      requires forall k :: 0 <= k < |prs| ==> prs[k].Valid() && prs[k].offset + ProfileLen <= buf.Length
      modifies this, buf
      ensures players == old(players) && profiles == prs
      ensures AllFit(ProfileWrites(prs), buf.Length)
      ensures buf[..] == ApplyWrites(old(buf[..]), ProfileWrites(prs))
    {
      profiles := prs;
      ghost var image := buf[..];
      ghost var ws := ProfileWrites(prs);
      assert AllFit(ws, |image|);
      for i := 0 to |prs|
        invariant players == old(players) && profiles == prs
        invariant ws == ProfileWrites(prs)
        invariant buf[..] == ApplyWrites(image, ws[..i])
      {
        var pr := prs[i];
        ApplyWritesSnoc(image, ws, i);
        WriteSpan(buf, pr.offset, pr.raw);
      }
      assert ws[..|prs|] == ws;
    }
  }
}
