/** The per-team offset tables: where each team's roster starts and where its two
    colour bytes (primary, secondary) sit. */
module Teams {

  /** The sixteen teams, in the order of both tables. */
  const TeamNames: seq<string> := [
    "Japan", "Arizona", "Pennsylvania", "Chinese Taipei", "Korea", "New York",
    "California", "Texas", "Hawaii", "Spain", "Puerto Rico", "Mexico", "Canada",
    "Italy", "Illinois", "Florida"]

  /** `TEAM_OFFSETS`: the first roster row of each team. */
  const TeamOffsets: map<string, nat> := map[
    "Japan" := 0x10430, "Arizona" := 0x10550, "Pennsylvania" := 0x10670,
    "Chinese Taipei" := 0x10790, "Korea" := 0x108B0, "New York" := 0x109D0,
    "California" := 0x10AF0, "Texas" := 0x10C10, "Hawaii" := 0x10D30,
    "Spain" := 0x10E50, "Puerto Rico" := 0x10F50, "Mexico" := 0x11090,
    "Canada" := 0x111B0, "Italy" := 0x112D0, "Illinois" := 0x113F0,
    "Florida" := 0x11510]

  /** `TEAM_OFFSETS_COLOUR`: the primary colour byte of each team; the secondary
      one follows it. */
  const TeamColourOffsets: map<string, nat> := map[
    "Japan" := 0x1FAD0, "Arizona" := 0x1FAD3, "Pennsylvania" := 0x1FAD6,
    "Chinese Taipei" := 0x1FAD9, "Korea" := 0x1FADC, "New York" := 0x1FADF,
    "California" := 0x1FAE2, "Texas" := 0x1FAE5, "Hawaii" := 0x1FAE8,
    "Spain" := 0x1FAEB, "Puerto Rico" := 0x1FAEE, "Mexico" := 0x1FAF1,
    "Canada" := 0x1FAF4, "Italy" := 0x1FAF7, "Illinois" := 0x1FAFA,
    "Florida" := 0x1FAFD]

  /** Team i's colour pair starts three bytes after team i-1's. */
  lemma ColourOffsetsSpaced()
    ensures |TeamNames| == 16
    ensures forall i :: 0 <= i < |TeamNames| ==>
              TeamNames[i] in TeamColourOffsets && TeamColourOffsets[TeamNames[i]] == 0x1FAD0 + 3 * i
  {
  }

  /** The colour table lists no team but the sixteen. */
  lemma ColourTableTeams()
    ensures forall t :: t in TeamColourOffsets ==> t in TeamNames
  {
  }

  /** The roster table lists the same sixteen teams. */
  lemma RosterTableTeams()
    ensures TeamOffsets.Keys == TeamColourOffsets.Keys
  {
  }

  /** Two different teams' colour pairs share no byte. */
  lemma ColourPairsDisjoint(a: string, b: string)
    requires a in TeamColourOffsets && b in TeamColourOffsets && a != b
    ensures TeamColourOffsets[a] + 2 <= TeamColourOffsets[b] || TeamColourOffsets[b] + 2 <= TeamColourOffsets[a]
  {
    ColourOffsetsSpaced();
    ColourTableTeams();
    var i :| 0 <= i < |TeamNames| && TeamNames[i] == a;
    var j :| 0 <= j < |TeamNames| && TeamNames[j] == b;
    assert i != j;
  }
}
