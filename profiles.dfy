/** The three 8-byte pitch profiles stored after a team's terminator row, and the
    bit-packed fields of one profile. */
module Profiles {
  import opened Wrappers
  import opened Bytes
  import opened Roster

  const ProfileLen := 8
  /** `0x800 // 16`: how many rows `_find_ff_line_after_team` examines. */
  const ScanRows := 0x800 / 16

  // ---- Locating the profiles ----

  /** The loop of `_find_ff_line_after_team` from `cursor` with `budget` rows left:
      the first whole all-0xFF row, or None when a row is cut short by the end of
      the image or the budget runs out. */
  function FindFf(image: seq<byte>, cursor: nat, budget: nat): (r: Option<nat>)
    ensures r.Some? ==> RowFits(image, r.value) && AllFF(RowAt(image, r.value))
    decreases budget
  {
    if budget == 0 then None
    else if !RowFits(image, cursor) then None
    else if AllFF(RowAt(image, cursor)) then Some(cursor)
    else FindFf(image, cursor + RowLen, budget - 1)
  }

  /** What the scan returns is a whole all-0xFF row, a whole number of rows past
      `cursor` and fewer than `budget` of them. */
  lemma {:induction false} FindFfFound(image: seq<byte>, cursor: nat, budget: nat)
    ensures var r := FindFf(image, cursor, budget);
      r.Some? ==> cursor <= r.value < cursor + RowLen * budget && (r.value - cursor) % RowLen == 0
                  && r.value + RowLen <= |image| && AllFF(image[r.value..r.value + RowLen])
    decreases budget
  {
    if budget > 0 && RowFits(image, cursor) && !AllFF(RowAt(image, cursor)) {
      FindFfFound(image, cursor + RowLen, budget - 1);
    }
  }

  /** One row of the scan, with budget left. */
  lemma FindFfStep(image: seq<byte>, cursor: nat, budget: nat)
    requires budget > 0
    ensures FindFf(image, cursor, budget)
      == if !RowFits(image, cursor) then None
         else if AllFF(RowAt(image, cursor)) then Some(cursor)
         else FindFf(image, cursor + RowLen, budget - 1)
  {
  }

  /** `_find_ff_line_after_team` for a roster starting at `start`. */
  function FfLine(image: seq<byte>, start: nat): (r: Option<nat>)
    ensures r.Some? ==> start <= r.value < start + RowLen * ScanRows && (r.value - start) % RowLen == 0
    ensures r.Some? ==> r.value + RowLen <= |image| && AllFF(image[r.value..r.value + RowLen])
  {
    FindFfFound(image, start, ScanRows);
    FindFf(image, start, ScanRows)
  }

  /** The scan finds row k, at `at`, exactly when row k is within the budget, is the
      terminator, and no earlier row is. */
  lemma {:induction false} FindFfFirst(image: seq<byte>, base: nat, budget: nat, k: nat, at: nat)
    requires at == base + RowLen * k
    ensures FindFf(image, base, budget) == Some(at)
        <==> k < budget && FFRow(image, base, k) && forall j :: 0 <= j < k ==> !FFRow(image, base, j)
    decreases budget
  {
    if budget == 0 {
    } else if !RowFits(image, base) {
      assert !FFRow(image, base, k) by {
        assert !RowFits(image, at);
      }
    } else if AllFF(RowAt(image, base)) {
      assert FFRow(image, base, 0);
    } else {
      assert !FFRow(image, base, 0);
      if k > 0 {
        var next := base + RowLen;
        FindFfFirst(image, next, budget - 1, k - 1, at);
        RowShift(image, base, k - 1);
        var earlierBase := forall j :: 0 <= j < k ==> !FFRow(image, base, j);
        var earlierNext := forall j :: 0 <= j < k - 1 ==> !FFRow(image, next, j);
        assert earlierBase ==> earlierNext by {
          if earlierBase {
            forall j | 0 <= j < k - 1 ensures !FFRow(image, next, j) {
              RowShift(image, base, j);
              assert !FFRow(image, base, j + 1);
            }
          }
        }
        assert earlierNext ==> earlierBase by {
          if earlierNext {
            forall j | 0 < j < k ensures !FFRow(image, base, j) {
              RowShift(image, base, j - 1);
            }
          }
        }
      } else {
        FindFfFound(image, base + RowLen, budget - 1);
      }
    }
  }

  /** The scan finds nothing exactly when none of the first `budget` rows is a
      whole all-0xFF row. */
  lemma {:induction false} FindFfNone(image: seq<byte>, base: nat, budget: nat)
    ensures FindFf(image, base, budget).None? <==> forall k :: 0 <= k < budget ==> !FFRow(image, base, k)
    decreases budget
  {
    if budget == 0 {
    } else if !RowFits(image, base) {
      assert forall k :: 0 <= k < budget ==> !FFRow(image, base, k);
    } else if AllFF(RowAt(image, base)) {
      assert FFRow(image, base, 0);
    } else {
      var next := base + RowLen;
      FindFfNone(image, next, budget - 1);
      assert !FFRow(image, base, 0);
      var noneBase := forall k :: 0 <= k < budget ==> !FFRow(image, base, k);
      var noneNext := forall k :: 0 <= k < budget - 1 ==> !FFRow(image, next, k);
      assert noneBase ==> noneNext by {
        if noneBase {
          forall k | 0 <= k < budget - 1 ensures !FFRow(image, next, k) {
            RowShift(image, base, k);
            assert !FFRow(image, base, k + 1);
          }
        }
      }
      assert noneNext ==> noneBase by {
        if noneNext {
          forall k | 0 < k < budget ensures !FFRow(image, base, k) {
            RowShift(image, base, k - 1);
          }
        }
      }
    }
  }

  /** The offsets `_parse_profiles` gives its three profiles: bytes 8..15 of the
      row after the terminator and both halves of the row after that; none when the
      terminator is not found or those two rows do not fit. */
  function ProfileOffsets(image: seq<byte>, start: nat): (offs: seq<nat>)
    ensures |offs| == 0 || |offs| == 3
    ensures |offs| == 3 ==>
              offs[1] == offs[0] + ProfileLen && offs[2] == offs[1] + ProfileLen
              && offs[2] + ProfileLen <= |image|
  {
    match FfLine(image, start)
    case None => []
    case Some(ff) =>
      var base := ff + RowLen;
      if base + 2 * RowLen > |image| then []
      else [base + 8, base + RowLen, base + RowLen + 8]
  }

  /** The offsets that follow a found terminator row `ff`. */
  lemma ProfileOffsetsOfLine(image: seq<byte>, start: nat, ff: nat)
    requires FfLine(image, start) == Some(ff)
    ensures ProfileOffsets(image, start)
      == if ff + 3 * RowLen <= |image| then [ff + RowLen + 8, ff + 2 * RowLen, ff + 2 * RowLen + 8] else []
  {
  }

  /** The two rows after a found terminator `ff` hold the three profiles, at the
      offsets `ProfileOffsets` gives. */
  lemma ProfileRows(image: seq<byte>, start: nat, ff: nat, row1: seq<byte>, row2: seq<byte>)
    requires FfLine(image, start) == Some(ff) && ff + 3 * RowLen <= |image|
    requires row1 == image[ff + RowLen..ff + 2 * RowLen] && row2 == image[ff + 2 * RowLen..ff + 3 * RowLen]
    ensures var offs := ProfileOffsets(image, start);
      offs == [ff + RowLen + 8, ff + 2 * RowLen, ff + 2 * RowLen + 8]
      && row1[8..16] == image[offs[0]..offs[0] + ProfileLen]
      && row2[0..8] == image[offs[1]..offs[1] + ProfileLen]
      && row2[8..16] == image[offs[2]..offs[2] + ProfileLen]
  {
    ProfileOffsetsOfLine(image, start, ff);
    SliceOfSlice(image, ff + RowLen, ff + 2 * RowLen, 8, 16);
    SliceOfSlice(image, ff + 2 * RowLen, ff + 3 * RowLen, 0, 8);
    SliceOfSlice(image, ff + 2 * RowLen, ff + 3 * RowLen, 8, 16);
  }

  /** The profiles sit at ff+24, ff+32 and ff+40 for the first terminator row
      `ff = start + 16*k` with k < 128 when ff+48 fits in the image; otherwise
      there are none. */
  lemma ProfileOffsetsAt(image: seq<byte>, start: nat, k: nat)
    requires k < ScanRows && FFRow(image, start, k)
    requires forall j :: 0 <= j < k ==> !FFRow(image, start, j)
    ensures var ff := start + RowLen * k;
      ProfileOffsets(image, start) == if ff + 48 <= |image| then [ff + 24, ff + 32, ff + 40] else []
  {
    FindFfFirst(image, start, ScanRows, k, start + RowLen * k);
  }

  lemma ProfileOffsetsNone(image: seq<byte>, start: nat)
    requires forall k :: 0 <= k < ScanRows ==> !FFRow(image, start, k)
    ensures ProfileOffsets(image, start) == []
  {
    FindFfNone(image, start, ScanRows);
  }

  /** No row of the roster is a terminator. */
  lemma RosterRowsNotFF(image: seq<byte>, start: nat)
    ensures forall j :: 0 <= j < |TeamRows(image, start)| ==> !FFRow(image, start, j)
  {
    var ps := TeamRows(image, start);
    forall j | 0 <= j < |ps| ensures !FFRow(image, start, j) {
      assert PlayerRow(image, start, j);
    }
  }

  /** Once a row runs past the end of the image, so does every later row. */
  lemma NoRowPastEnd(image: seq<byte>, base: nat, m: nat)
    requires !RowFits(image, base + RowLen * m)
    ensures forall k :: m <= k ==> !FFRow(image, base, k)
  {
  }

  /** The terminator `_find_ff_line_after_team` finds is the row at which
      `_parse_team` stopped, when that stop came from an all-0xFF row within the
      first 128 rows: the profiles follow the roster directly. */
  lemma ProfilesAfterRoster(image: seq<byte>, start: nat)
    ensures var m := |TeamRows(image, start)|;
      var ff := start + RowLen * m;
      ProfileOffsets(image, start)
        == if m < ScanRows && ff + 48 <= |image| then [ff + 24, ff + 32, ff + 40] else []
  {
    var m := |TeamRows(image, start)|;
    var ff := start + RowLen * m;
    RosterRowsNotFF(image, start);
    if m < ScanRows && RowFits(image, ff) {
      assert FFRow(image, start, m);
      ProfileOffsetsAt(image, start, m);
    } else if m < ScanRows {
      NoRowPastEnd(image, start, m);
      ProfileOffsetsNone(image, start);
    } else {
      ProfileOffsetsNone(image, start);
    }
  }

  // ---- The fields of one profile ----

  const DeliveryLabels: seq<string> := ["Normal", "Hard", "Sidearm"]

  function HexDigit(d: byte): char
    requires d < 16
  {
    "0123456789ABCDEF"[d as int]
  }

  /** The delivery getter's table lookup: a known code names itself, any other low
      nibble is shown as `0x%02X`. */
  function DeliveryLabel(low: byte): (r: string)
    ensures low <= 2 <==> r in DeliveryLabels
    ensures low <= 2 ==> r == DeliveryLabels[low]
    ensures low > 2 && low < 16 ==> r == ['0', 'x', '0', "0123456789ABCDEF"[low]]
  {
    if low == 0 then "Normal"
    else if low == 1 then "Hard"
    else if low == 2 then "Sidearm"
    else ['0', 'x', HexDigit(HighNibble(low)), HexDigit(LowNibble(low))]
  }

  /** The delivery setter's table lookup: an unknown label gives 0. */
  function DeliveryCode(text: string): (c: byte)
    ensures c <= 2
    ensures text in DeliveryLabels <==> DeliveryLabel(c) == text
  {
    if text == "Normal" then 0
    else if text == "Hard" then 1
    else if text == "Sidearm" then 2
    else 0
  }

  /** Reading a delivery and writing the label back keeps a known code and turns
      an unknown one into Normal (0). */
  lemma DeliveryRelabel(low: byte)
    requires low < 16
    ensures DeliveryCode(DeliveryLabel(low)) == if low <= 2 then low else 0
  {
    if low > 2 {
      var l := DeliveryLabel(low);
      assert l[0] == '0';
    }
  }

  /** `PitchProfile`: an 8-byte profile at `offset`, edited in place through
      its property setters. Its `bytearray` is the sequence `raw`, which every
      setter replaces by a copy with one byte changed. */
  class PitchProfile {
    const offset: nat
    var raw: seq<byte>

    predicate Valid()
      reads this
    {
      |raw| == ProfileLen
    }

    /** The dataclass constructor over a copy of `bytes`. */
    constructor (offset: nat, bytes: seq<byte>)
      requires |bytes| == ProfileLen
      ensures Valid() && this.offset == offset && raw == bytes
    {
      this.offset := offset;
      raw := bytes;
    }

    function Hand(): (r: string)
      requires Valid()
      reads this
      ensures r == "Left" <==> raw[0] >= 0x80
      ensures r == "Left" || r == "Right"
    {
      if Bit7(raw[0]) then "Left" else "Right"
    }

    function Delivery(): (r: string)
      requires Valid()
      reads this
      ensures r in DeliveryLabels <==> LowNibble(raw[0]) <= 2
      ensures r in DeliveryLabels ==> DeliveryCode(r) == LowNibble(raw[0])
    {
      DeliveryLabel(LowNibble(raw[0]))
    }

    /** Each numeric getter reads its own byte of the profile: stamina byte 1,
        quality byte 2, tune byte 3, skill byte 6, multiplier byte 7. */
    function Stamina(): (r: int) requires Valid() reads this ensures r == raw[1] as int && r < 256 { raw[1] as int }
    function Quality(): (r: int) requires Valid() reads this ensures r == raw[2] as int && r < 256 { raw[2] as int }
    function Tune(): (r: int) requires Valid() reads this ensures r == raw[3] as int && r < 256 { raw[3] as int }
    function Skill(): (r: int) requires Valid() reads this ensures r == raw[6] as int && r < 256 { raw[6] as int }
    function Mult(): (r: int) requires Valid() reads this ensures r == raw[7] as int && r < 256 { raw[7] as int }

    /** Sets bit 7 of byte 0 for "Left" and clears it otherwise; nothing else. */
    method SetHand(val: string)
      requires Valid()
      modifies this
      ensures Valid()
      ensures Low7(raw[0]) == Low7(old(raw[0]))
      ensures Bit7(raw[0]) <==> val == "Left"
      ensures raw[1..] == old(raw[1..])
      ensures Hand() == if val == "Left" then "Left" else "Right"
    {
      // `(raw[0] & 0x7F) | 0x80` is an addition: the two operands share no bit.
      raw := raw[0 := Low7(raw[0]) + (if val == "Left" then 0x80 else 0)];
    }

    /** Replaces the low nibble of byte 0 by the label's code (0 when unknown). */
    method SetDelivery(val: string)
      requires Valid()
      modifies this
      ensures Valid()
      ensures HighNibble(raw[0]) == HighNibble(old(raw[0]))
      ensures LowNibble(raw[0]) == DeliveryCode(val)
      ensures raw[0] as int == 16 * HighNibble(old(raw[0])) as int + DeliveryCode(val) as int
      ensures raw[1..] == old(raw[1..])
      ensures Delivery() == if val in DeliveryLabels then val else "Normal"
    {
      var low := DeliveryCode(val);
      // `(raw[0] & 0xF0) | low` with `low < 16`: the high nibble plus the new low one.
      raw := raw[0 := HighNibble(raw[0]) * 16 + low];
    }

    method SetStamina(v: int)
      requires Valid()
      modifies this
      ensures Valid() && raw == old(raw)[1 := ToByte(Clamp(v, 0, 255))]
      ensures Stamina() == Clamp(v, 0, 255)
    {
      raw := raw[1 := ToByte(Clamp(v, 0, 255))];
    }

    method SetQuality(v: int)
      requires Valid()
      modifies this
      ensures Valid() && raw == old(raw)[2 := ToByte(Clamp(v, 0, 255))]
      ensures Quality() == Clamp(v, 0, 255)
    {
      raw := raw[2 := ToByte(Clamp(v, 0, 255))];
    }

    method SetTune(v: int)
      requires Valid()
      modifies this
      ensures Valid() && raw == old(raw)[3 := ToByte(Clamp(v, 0, 15))]
      ensures Tune() == Clamp(v, 0, 15)
    {
      raw := raw[3 := ToByte(Clamp(v, 0, 15))];
    }

    method SetSkill(v: int)
      requires Valid()
      modifies this
      ensures Valid() && raw == old(raw)[6 := ToByte(Clamp(v, 0, 4))]
      ensures Skill() == Clamp(v, 0, 4)
    {
      raw := raw[6 := ToByte(Clamp(v, 0, 4))];
    }

    /** `v & 0xFF`: the mult byte is masked, not clamped. */
    method SetMult(v: int)
      requires Valid()
      modifies this
      ensures Valid() && raw == old(raw)[7 := LowByte(v)]
      ensures 0 <= v < 256 ==> Mult() == v
    {
      raw := raw[7 := LowByte(v)];
    }
  }

  /** `p` is a profile copied from the 8 bytes of `image` at `off`. */
  predicate CopyOf(p: PitchProfile, image: seq<byte>, off: nat)
    reads p
  {
    p.offset == off && off + ProfileLen <= |image| && p.raw == image[off..off + ProfileLen]
  }

  /** The writes `apply_profiles` performs: each profile's bytes at its offset. */
  function ProfileWrites(ps: seq<PitchProfile>): (ws: seq<Write>)
    reads ps
    ensures |ws| == |ps|
    ensures forall k :: 0 <= k < |ps| ==> ws[k] == Write(ps[k].offset, ps[k].raw)
  {
    if ps == [] then []
    else ProfileWrites(ps[..|ps| - 1]) + [Write(ps[|ps| - 1].offset, ps[|ps| - 1].raw)]
  }
}
