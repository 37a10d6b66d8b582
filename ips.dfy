/** The IPS patch writer `_build_ips`: "PATCH", then one record per run of
    differing bytes (a 24-bit big-endian offset, a 16-bit big-endian length and
    the edited bytes), then "EOF". A reader of the same format is the writer's
    partner: reading a patch and applying its records to the original gives the
    edited bytes back. */
module Ips {
  import opened Wrappers
  import opened Bytes

  /** "PATCH". */
  const Magic: seq<byte> := [0x50, 0x41, 0x54, 0x43, 0x48]
  /** "EOF", which also ends the record list. */
  const Eof: seq<byte> := [0x45, 0x4F, 0x46]
  /** The one record offset whose three bytes read as "EOF". */
  const EofOffset: nat := 0x454F46
  /** Offsets are written in three bytes. */
  const OffsetLimit: nat := 0x100_0000
  /** The longest run one record holds. */
  const MaxRun: nat := 65535

  // ---- Big-endian fields ----

  /** `off3(x)`: `(x>>16)&0xFF, (x>>8)&0xFF, x&0xFF` for a non-negative `x`. */
  function Off3(x: nat): (r: seq<byte>)
    ensures |r| == 3
  {
    [ToByte(x / 0x10000 % 256), ToByte(x / 0x100 % 256), ToByte(x % 256)]
  }

  /** The offset a reader takes from three big-endian bytes. */
  function Be3(b: seq<byte>): nat
    requires |b| == 3
  {
    b[0] as int * 0x10000 + b[1] as int * 0x100 + b[2] as int
  }

  /** The length field: `(len>>8)&0xFF, len&0xFF`. */
  function Len2(n: nat): (r: seq<byte>)
    ensures |r| == 2
  {
    [ToByte(n / 0x100 % 256), ToByte(n % 256)]
  }

  /** The length a reader takes from two big-endian bytes. */
  function Be2(b: seq<byte>): nat
    requires |b| == 2
  {
    b[0] as int * 0x100 + b[1] as int
  }

  /** An offset below 2^24 is read back from its three bytes. */
  lemma Off3RoundTrip(x: nat)
    requires x < OffsetLimit
    ensures Be3(Off3(x)) == x
  {
    var hi := x / 0x10000;
    var rest := x % 0x10000;
    assert x == hi * 0x10000 + rest;
    assert x / 0x100 == hi * 0x100 + rest / 0x100;
    assert x / 0x100 % 256 == rest / 0x100;
    assert x % 256 == rest % 256;
  }

  /** A length below 2^16 is read back from its two bytes. */
  lemma Len2RoundTrip(n: nat)
    requires n <= MaxRun
    ensures Be2(Len2(n)) == n
  {
  }

  /** Below 2^24, the offset field reads as "EOF" for EofOffset and for no
      other offset. */
  lemma Off3IsEof(x: nat)
    requires x < OffsetLimit
    ensures Off3(x) == Eof <==> x == EofOffset
  {
    Off3RoundTrip(x);
    assert Be3(Eof) == EofOffset;
  }

  // ---- Records ----

  /** One record: offset, length, bytes. */
  function Record(w: Write): seq<byte>
  {
    Off3(w.offset) + Len2(|w.data|) + w.data
  }

  /** The records one after another. */
  function Serialize(ws: seq<Write>): seq<byte>
  {
    if ws == [] then [] else Record(ws[0]) + Serialize(ws[1..])
  }

  /** The inner loop of `_build_ips`: from `i`, extend the run begun at `start`
      while the bytes differ and the run is shorter than MaxRun. */
  function RunEnd(o: seq<byte>, e: seq<byte>, start: nat, i: nat): (j: nat)
    requires |o| == |e| && start <= i <= |o|
    ensures i <= j <= |o|
    ensures i - start <= MaxRun ==> j - start <= MaxRun
    ensures i < |o| && o[i] != e[i] && i - start < MaxRun ==> i < j
    ensures forall k :: i <= k < j ==> o[k] != e[k]
    ensures j < |o| && j - start < MaxRun ==> o[j] == e[j]
    decreases |o| - i
  {
    if i < |o| && o[i] != e[i] && i - start < MaxRun then RunEnd(o, e, start, i + 1) else i
  }

  /** The outer loop of `_build_ips` from `i`: equal bytes are skipped and each
      differing byte starts a run. With `fix`, a run that would start at
      EofOffset starts one byte earlier instead, so that its offset field does
      not read as "EOF". */
  function Runs(o: seq<byte>, e: seq<byte>, i: nat, fix: bool): (rs: seq<Write>)
    requires |o| == |e| && i <= |o|
    ensures |rs| <= |o| - i
    ensures rs == [] <==> o[i..] == e[i..]
    decreases |o| - i
  {
    if i == |o| then []
    else if o[i] == e[i] then Runs(o, e, i + 1, fix)
    else
      var start := if fix && i == EofOffset then i - 1 else i;
      var j := RunEnd(o, e, start, i);
      [Write(start, e[start..j])] + Runs(o, e, j, fix)
  }

  /** `min(len(orig), len(edited))`: the patch covers the common prefix only. */
  function Common(orig: seq<byte>, edited: seq<byte>): (n: nat)
    ensures n <= |orig| && n <= |edited|
    ensures n == |orig| || n == |edited|
  {
    if |orig| < |edited| then |orig| else |edited|
  }

  /** The patch `_build_ips(orig, edited)` returns (`fix` false) and the
      corrected one (`fix` true). */
  function Patch(orig: seq<byte>, edited: seq<byte>, fix: bool): (r: seq<byte>)
    ensures |r| >= |Magic| + |Eof| && r[..|Magic|] == Magic && r[|r| - |Eof|..] == Eof
  {
    var n := Common(orig, edited);
    Magic + Serialize(Runs(orig[..n], edited[..n], 0, fix)) + Eof
  }

  /** The run the inner loop finds at `start`, appended to `before`, leaves the
      runs from its end to be written. */
  lemma EmitRun(o: seq<byte>, e: seq<byte>, start: nat, i: nat, before: seq<byte>, whole: seq<byte>)
    requires |o| == |e| && start < |o| && o[start] != e[start]
    requires i == RunEnd(o, e, start, start)
    requires whole == before + Serialize(Runs(o, e, start, false))
    ensures whole == before + Off3(start) + Len2(|e[start..i]|) + e[start..i] + Serialize(Runs(o, e, i, false))
  {
    var w := Write(start, e[start..i]);
    var rest := Serialize(Runs(o, e, i, false));
    assert Runs(o, e, start, false) == [w] + Runs(o, e, i, false);
    assert Serialize(Runs(o, e, start, false)) == Record(w) + rest;
    var len := Len2(|w.data|);
    Regroup(before, Record(w), rest);
    Regroup(before, Off3(start) + len, w.data);
    Regroup(before, Off3(start), len);
  }

  /** `a + (b + c)` and `(a + b) + c` are the same bytes. */
  lemma Regroup(a: seq<byte>, b: seq<byte>, c: seq<byte>)
    ensures a + (b + c) == a + b + c
  {
  }

  /** `_build_ips`, with the nested loops of the source and `out` grown record
      by record. */
  method BuildIps(orig: seq<byte>, edited: seq<byte>) returns (out: seq<byte>)
    ensures out == Patch(orig, edited, false)
  {
    var n := if |orig| < |edited| then |orig| else |edited|;
    var o := orig[..n];
    var e := edited[..n];
    out := Magic;
    ghost var whole := Magic + Serialize(Runs(o, e, 0, false));
    var i := 0;
    while i < n
      invariant 0 <= i <= n
      invariant whole == out + Serialize(Runs(o, e, i, false))
      decreases n - i
    {
      if o[i] == e[i] {
        assert Runs(o, e, i, false) == Runs(o, e, i + 1, false);
        i := i + 1;
        continue;
      }
      var start := i;
      while i < n && o[i] != e[i] && i - start < MaxRun
        invariant start <= i <= n && i - start <= MaxRun
        invariant RunEnd(o, e, start, i) == RunEnd(o, e, start, start)
        decreases n - i
      {
        i := i + 1;
      }
      var chunk := e[start..i];
      EmitRun(o, e, start, i, out, whole);
      out := out + Off3(start);
      out := out + Len2(|chunk|);
      out := out + chunk;
    }
    out := out + Eof;
  }

  // ---- Reading a patch ----

  /** Records up to "EOF". A zero length (a run-length record, which the
      writer never emits) or a record cut short gives None. */
  function ReadRecords(b: seq<byte>): Option<seq<Write>>
    decreases |b|
  {
    if |b| < 3 then None
    else if b[..3] == Eof then Some([])
    else if |b| < 5 then None
    else
      var len := Be2(b[3..5]);
      if len == 0 || |b| < 5 + len then None
      else match ReadRecords(b[5 + len..])
        case None => None
        case Some(rest) => Some([Write(Be3(b[..3]), b[5..5 + len])] + rest)
  }

  /** The records of a patch, or None when it does not start with "PATCH". */
  function ReadIps(p: seq<byte>): Option<seq<Write>>
  {
    if |p| < 5 || p[..5] != Magic then None else ReadRecords(p[5..])
  }

  /** A record a reader gets back: its offset fits three bytes and is not
      EofOffset, and its length is in 1..MaxRun. */
  predicate Readable(w: Write)
  {
    w.offset < OffsetLimit && w.offset != EofOffset && 1 <= |w.data| <= MaxRun
  }

  /** Readable records followed by "EOF" are read back as written. */
  lemma {:induction false} ReadSerialized(ws: seq<Write>)
    requires forall k :: 0 <= k < |ws| ==> Readable(ws[k])
    ensures ReadRecords(Serialize(ws) + Eof) == Some(ws)
  {
    if ws == [] {
      assert Serialize(ws) + Eof == Eof;
    } else {
      var w := ws[0];
      var len := |w.data|;
      var tail := Serialize(ws[1..]) + Eof;
      var b := Serialize(ws) + Eof;
      assert b == Off3(w.offset) + Len2(len) + w.data + tail;
      assert b[..3] == Off3(w.offset);
      assert b[3..5] == Len2(len);
      assert b[5..5 + len] == w.data;
      assert b[5 + len..] == tail;
      Off3IsEof(w.offset);
      Off3RoundTrip(w.offset);
      Len2RoundTrip(len);
      ReadSerialized(ws[1..]);
      assert ws == [Write(w.offset, w.data)] + ws[1..];
    }
  }

  // ---- What the runs are ----

  /** `w` holds the edited bytes at its span, and at most MaxRun of them. */
  predicate RecordOf(w: Write, e: seq<byte>)
  {
    1 <= |w.data| <= MaxRun && w.offset + |w.data| <= |e| && w.data == e[w.offset..w.offset + |w.data|]
  }

  /** A run of the scan from `i`: it copies edited bytes, starts before the end
      and at or after `i` (one byte earlier only for the corrected run at
      EofOffset), and when fixing never starts at EofOffset. */
  predicate RunFrom(w: Write, o: seq<byte>, e: seq<byte>, i: nat, fix: bool)
  {
    RecordOf(w, e) && w.offset < |o|
    && (w.offset >= i || (fix && i == EofOffset && w.offset == i - 1))
    && (fix ==> w.offset != EofOffset)
  }

  /** Every run of the scan from `i` is a RunFrom `i`. */
  lemma {:induction false} RunsFaithful(o: seq<byte>, e: seq<byte>, i: nat, fix: bool)
    requires |o| == |e| && i <= |o|
    ensures forall k :: 0 <= k < |Runs(o, e, i, fix)| ==> RunFrom(Runs(o, e, i, fix)[k], o, e, i, fix)
    decreases |o| - i
  {
    if i < |o| {
      if o[i] == e[i] {
        RunsFaithful(o, e, i + 1, fix);
        var rs := Runs(o, e, i + 1, fix);
        assert rs == Runs(o, e, i, fix);
        forall k | 0 <= k < |rs| ensures RunFrom(rs[k], o, e, i, fix) {
          assert RunFrom(rs[k], o, e, i + 1, fix);
        }
      } else {
        var start := if fix && i == EofOffset then i - 1 else i;
        var j := RunEnd(o, e, start, i);
        RunsFaithful(o, e, j, fix);
        var rest := Runs(o, e, j, fix);
        var rs := [Write(start, e[start..j])] + rest;
        assert rs == Runs(o, e, i, fix);
        forall k | 0 <= k < |rs| ensures RunFrom(rs[k], o, e, i, fix) {
          if k == 0 {
            assert |e[start..j]| == j - start;
          } else {
            assert rs[k] == rest[k - 1];
            assert RunFrom(rest[k - 1], o, e, j, fix);
          }
        }
      }
    }
  }

  /** Every differing byte from `i` on lies in some run. */
  lemma {:induction false} RunsCover(o: seq<byte>, e: seq<byte>, i: nat, fix: bool)
    requires |o| == |e| && i <= |o|
    ensures forall k :: i <= k < |o| && o[k] != e[k] ==> Covered(Runs(o, e, i, fix), k)
    decreases |o| - i
  {
    if i < |o| {
      if o[i] == e[i] {
        RunsCover(o, e, i + 1, fix);
      } else {
        var start := if fix && i == EofOffset then i - 1 else i;
        var j := RunEnd(o, e, start, i);
        RunsCover(o, e, j, fix);
        var rest := Runs(o, e, j, fix);
        var rs := [Write(start, e[start..j])] + rest;
        assert rs == Runs(o, e, i, fix);
        forall k | i <= k < |o| && o[k] != e[k] ensures Covered(rs, k) {
          if k < j {
            assert rs[0].offset <= k < rs[0].offset + |rs[0].data|;
          } else {
            var m :| 0 <= m < |rest| && rest[m].offset <= k < rest[m].offset + |rest[m].data|;
            assert rs[m + 1] == rest[m];
          }
        }
      }
    }
  }

  /** `w` starts at or after `i` and holds only bytes where `o` and `e` differ. */
  predicate OnlyDiffs(w: Write, o: seq<byte>, e: seq<byte>, i: nat)
  {
    i <= w.offset && w.offset + |w.data| <= |o| <= |e|
    && forall m :: w.offset <= m < w.offset + |w.data| ==> o[m] != e[m]
  }

  /** As written, the runs hold only differing bytes, in increasing order,
      without overlap. */
  lemma {:induction false} RunsOrdered(o: seq<byte>, e: seq<byte>, i: nat)
    requires |o| == |e| && i <= |o|
    ensures forall k :: 0 <= k < |Runs(o, e, i, false)| ==> OnlyDiffs(Runs(o, e, i, false)[k], o, e, i)
    ensures forall a, b :: 0 <= a < b < |Runs(o, e, i, false)| ==>
      Runs(o, e, i, false)[a].offset + |Runs(o, e, i, false)[a].data| <= Runs(o, e, i, false)[b].offset
    decreases |o| - i
  {
    if i < |o| {
      if o[i] == e[i] {
        RunsOrdered(o, e, i + 1);
        var rs := Runs(o, e, i + 1, false);
        assert rs == Runs(o, e, i, false);
        forall k | 0 <= k < |rs| ensures OnlyDiffs(rs[k], o, e, i) {
          assert OnlyDiffs(rs[k], o, e, i + 1);
        }
      } else {
        var j := RunEnd(o, e, i, i);
        RunsOrdered(o, e, j);
        var rest := Runs(o, e, j, false);
        var rs := [Write(i, e[i..j])] + rest;
        assert rs == Runs(o, e, i, false);
        forall k | 0 <= k < |rs| ensures OnlyDiffs(rs[k], o, e, i) {
          if k > 0 {
            assert rs[k] == rest[k - 1];
            assert OnlyDiffs(rest[k - 1], o, e, j);
          }
        }
        forall a, b | 0 <= a < b < |rs| ensures rs[a].offset + |rs[a].data| <= rs[b].offset {
          assert rs[b] == rest[b - 1];
          assert OnlyDiffs(rest[b - 1], o, e, j);
          if a > 0 {
            assert rs[a] == rest[a - 1];
          }
        }
      }
    }
  }

  /** A stretch of equal bytes adds no run. */
  lemma {:induction false} RunsSkip(o: seq<byte>, e: seq<byte>, i: nat, j: nat, fix: bool)
    requires |o| == |e| && i <= j <= |o|
    requires forall k :: i <= k < j ==> o[k] == e[k]
    ensures Runs(o, e, i, fix) == Runs(o, e, j, fix)
    decreases j - i
  {
    if i < j {
      RunsSkip(o, e, i + 1, j, fix);
    }
  }

  // ---- The patch restores the edited bytes ----

  /** Runs that copy the edited bytes and cover every difference turn the
      original into the edited bytes. */
  lemma RunsRestore(o: seq<byte>, e: seq<byte>, fix: bool)
    requires |o| == |e|
    ensures var rs := Runs(o, e, 0, fix); AllFit(rs, |o|) && ApplyWrites(o, rs) == e
  {
    var rs := Runs(o, e, 0, fix);
    RunsFaithful(o, e, 0, fix);
    RunsCover(o, e, 0, fix);
    assert AgreeWith(rs, e) by {
      forall k | 0 <= k < |rs| ensures FitsIn(rs[k], |e|) && rs[k].data == e[rs[k].offset..rs[k].offset + |rs[k].data|] {
        assert RunFrom(rs[k], o, e, 0, fix);
      }
    }
    ApplyWritesReproduce(o, rs, e);
  }

  /** For inputs whose common prefix ends at or before EofOffset, reading the
      patch and applying its records to the original prefix gives the edited
      prefix. */
  lemma PatchRoundTrip(orig: seq<byte>, edited: seq<byte>)
    requires Common(orig, edited) <= EofOffset
    ensures var n := Common(orig, edited); var ws := ReadIps(Patch(orig, edited, false));
      ws.Some? && AllFit(ws.value, n) && ApplyWrites(orig[..n], ws.value) == edited[..n]
  {
    var n := Common(orig, edited);
    var o := orig[..n];
    var e := edited[..n];
    var rs := Runs(o, e, 0, false);
    RunsFaithful(o, e, 0, false);
    assert forall k :: 0 <= k < |rs| ==> Readable(rs[k]) by {
      forall k | 0 <= k < |rs| ensures Readable(rs[k]) {
        assert RunFrom(rs[k], o, e, 0, false);
      }
    }
    PatchReads(rs, Patch(orig, edited, false));
    RunsRestore(o, e, false);
  }

  /** The corrected writer: for every common prefix of at most 2^24 bytes,
      reading the patch and applying its records gives the edited prefix. */
  lemma PatchFixedRoundTrip(orig: seq<byte>, edited: seq<byte>)
    requires Common(orig, edited) <= OffsetLimit
    ensures var n := Common(orig, edited); var ws := ReadIps(Patch(orig, edited, true));
      ws.Some? && AllFit(ws.value, n) && ApplyWrites(orig[..n], ws.value) == edited[..n]
  {
    var n := Common(orig, edited);
    var o := orig[..n];
    var e := edited[..n];
    var rs := Runs(o, e, 0, true);
    RunsFaithful(o, e, 0, true);
    assert forall k :: 0 <= k < |rs| ==> Readable(rs[k]) by {
      forall k | 0 <= k < |rs| ensures Readable(rs[k]) {
        assert RunFrom(rs[k], o, e, 0, true);
      }
    }
    PatchReads(rs, Patch(orig, edited, true));
    RunsRestore(o, e, true);
  }

  /** Cutting `a + b + c` after `a`. */
  lemma SplitAfter(a: seq<byte>, b: seq<byte>, c: seq<byte>)
    ensures (a + b + c)[..|a|] == a && (a + b + c)[|a|..] == b + c
  {
    var p := a + b + c;
    assert forall k :: 0 <= k < |b + c| ==> p[|a|..][k] == (b + c)[k];
  }

  /** A patch made of readable records is read back as those records. */
  lemma PatchReads(rs: seq<Write>, p: seq<byte>)
    requires forall k :: 0 <= k < |rs| ==> Readable(rs[k])
    requires p == Magic + Serialize(rs) + Eof
    ensures ReadIps(p) == Some(rs)
  {
    SplitAfter(Magic, Serialize(rs), Eof);
    ReadSerialized(rs);
  }

  /** The patch is the bare "PATCHEOF" exactly when the inputs agree on their
      common prefix. */
  lemma PatchEqualInputs(orig: seq<byte>, edited: seq<byte>, fix: bool)
    ensures Patch(orig, edited, fix) == Magic + Eof
      <==> orig[..Common(orig, edited)] == edited[..Common(orig, edited)]
  {
    var n := Common(orig, edited);
    var rs := Runs(orig[..n], edited[..n], 0, fix);
    assert orig[..n][0..] == orig[..n] && edited[..n][0..] == edited[..n];
    if rs != [] {
      assert Serialize(rs) == Record(rs[0]) + Serialize(rs[1..]);
      assert |Patch(orig, edited, fix)| > |Magic + Eof|;
    }
  }

  /** One changed byte at offset 1 of four. */
  lemma PatchExample()
    ensures Patch([0, 0, 0, 0], [0, 1, 0, 0], false)
      == Magic + [0x00, 0x00, 0x01, 0x00, 0x01, 0x01] + Eof
  {
    var o: seq<byte> := [0, 0, 0, 0];
    var e: seq<byte> := [0, 1, 0, 0];
    assert o[..4] == o && e[..4] == e;
    assert RunEnd(o, e, 1, 1) == 2;
    RunsSkip(o, e, 2, 4, false);
    assert e[1..2] == [1];
    assert Runs(o, e, 1, false) == [Write(1, [1])] + Runs(o, e, 2, false);
    assert Runs(o, e, 0, false) == [Write(1, [1])];
  }

  /** The source as written, at EofOffset: a single changed byte there gives a
      record whose offset field reads "EOF", so a reader stops before it and the
      change is lost. */
  lemma PatchEofOffsetLost()
    ensures var orig := seq(EofOffset + 1, _ => 0 as byte);
      var edited := orig[EofOffset := 1];
      ReadIps(Patch(orig, edited, false)) == Some([]) && orig != edited
  {
    var orig := seq(EofOffset + 1, _ => 0 as byte);
    var edited := orig[EofOffset := 1];
    var n := EofOffset + 1;
    assert orig[..n] == orig && edited[..n] == edited;
    RunsSkip(orig, edited, 0, EofOffset, false);
    var j := RunEnd(orig, edited, EofOffset, EofOffset);
    assert j == n;
    assert edited[EofOffset..n] == [1];
    assert Runs(orig, edited, EofOffset, false) == [Write(EofOffset, [1])] + Runs(orig, edited, n, false);
    var rs := Runs(orig, edited, 0, false);
    assert rs == [Write(EofOffset, [1])];
    assert Off3(EofOffset) == Eof;
    var p := Patch(orig, edited, false);
    assert p[..5] == Magic;
    assert p[5..][..3] == Eof;
  }
}
