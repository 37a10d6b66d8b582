/** The stock Option datatype: the `None` the codec returns for an absent team,
    a missing terminator row or a malformed patch. */
module Wrappers {
  datatype Option<+T> = None | Some(value: T)
}

/** Byte-level helpers shared by the roster, profile and patch codecs. A ROM image
    is a sequence of 8-bit values; every edit replaces a fixed-size span of it. */
module Bytes {

  /** One element of a Python `bytes`/`bytearray`. */
  newtype byte = x: int | 0 <= x < 256

  /** `max(lo, min(hi, v))`, the coercion the setters apply instead of rejecting. */
  function Clamp(v: int, lo: int, hi: int): (r: int)
    requires lo <= hi
    ensures lo <= r <= hi
    ensures lo <= v <= hi ==> r == v
    ensures v < lo ==> r == lo
    ensures hi < v ==> r == hi
  {
    var m := if hi < v then hi else v;
    if m < lo then lo else m
  }

  /** The byte holding a value already known to be in 0..255: storing a Python
      int into a `bytearray` element. */
  function ToByte(v: int): (b: byte)
    requires 0 <= v < 256
    ensures b as int == v
  {
    v as byte
  }

  /** Reading a byte as an int and storing it back gives the same byte. */
  lemma ToByteOfByte(b: byte)
    ensures ToByte(b as int) == b
  {
  }

  /** `v & 0xFF` on a Python int: the low eight bits, also for a negative `v`
      (Python's `&` works on the two's-complement form, so `-1 & 0xFF == 255`). */
  function LowByte(v: int): (b: byte)
    ensures 0 <= v < 256 ==> b as int == v
    ensures (v - b as int) % 256 == 0
  {
    ToByte(v % 256)
  }

  /** `b & 0x7F`: the byte with bit 7 cleared. */
  function Low7(b: byte): (r: byte)
    ensures r < 0x80 && (b < 0x80 ==> r == b) && (b >= 0x80 ==> r as int == b as int - 0x80)
  {
    b % 0x80
  }

  /** `b & 0x80 != 0`: bit 7 is set. */
  predicate Bit7(b: byte)
  {
    b >= 0x80
  }

  /** `b & 0x0F`: the low nibble. */
  function LowNibble(b: byte): (r: byte)
    ensures r < 16
  {
    b % 16
  }

  /** `b >> 4`: the high nibble. */
  function HighNibble(b: byte): (r: byte)
    ensures r < 16
  {
    b / 16
  }

  /** A byte is its high nibble times 16 plus its low nibble. */
  lemma NibblesSplit(b: byte)
    ensures b as int == 16 * HighNibble(b) as int + LowNibble(b) as int
  {
  }

  /** Two nibbles put together are read back apart. */
  lemma NibblesJoin(h: byte, l: byte)
    requires h < 16 && l < 16
    ensures HighNibble(ToByte(16 * h as int + l as int)) == h
    ensures LowNibble(ToByte(16 * h as int + l as int)) == l
  {
  }

  /** `all(b == 0xFF for b in s)`. */
  predicate AllFF(s: seq<byte>)
  {
    forall k :: 0 <= k < |s| ==> s[k] == 0xFF
  }

  /** Python's slice assignment `s[at:at+len(chunk)] = chunk` for a chunk that fits:
      the length is kept, the span holds the chunk and every other byte is kept. */
  function Splice(s: seq<byte>, at: nat, chunk: seq<byte>): (r: seq<byte>)
    requires at + |chunk| <= |s|
    ensures |r| == |s|
    ensures r[at..at + |chunk|] == chunk
    ensures forall j :: at <= j < at + |chunk| ==> r[j] == chunk[j - at]
    ensures forall j :: 0 <= j < |s| && !(at <= j < at + |chunk|) ==> r[j] == s[j]
  {
    s[..at] + chunk + s[at + |chunk|..]
  }

  /** A slice of a slice is a slice of the whole. */
  lemma SliceOfSlice(s: seq<byte>, lo: nat, hi: nat, i: nat, j: nat)
    requires lo <= hi <= |s| && i <= j <= hi - lo
    ensures s[lo..hi][i..j] == s[lo + i..lo + j]
  {
    var t := s[lo..hi];
    assert forall m :: 0 <= m < j - i ==> t[i..j][m] == t[i + m] == s[lo + i + m];
  }

  /** A splice leaves a span that does not meet it as it was. */
  lemma SpliceOther(s: seq<byte>, at: nat, chunk: seq<byte>, lo: nat, n: nat)
    requires at + |chunk| <= |s| && lo + n <= |s|
    requires lo + n <= at || at + |chunk| <= lo
    ensures Splice(s, at, chunk)[lo..lo + n] == s[lo..lo + n]
  {
    var r := Splice(s, at, chunk);
    assert forall j :: lo <= j < lo + n ==> r[j] == s[j];
  }

  /** A sequence that holds `chunk` at `at` and `s` everywhere else is the splice. */
  lemma SpliceWritten(s: seq<byte>, t: seq<byte>, at: nat, chunk: seq<byte>)
    requires at + |chunk| <= |s| && |t| == |s|
    requires forall j :: 0 <= j < |chunk| ==> t[at + j] == chunk[j]
    requires forall j :: 0 <= j < |s| && !(at <= j < at + |chunk|) ==> t[j] == s[j]
    ensures t == Splice(s, at, chunk)
  {
    var r := Splice(s, at, chunk);
    forall j | 0 <= j < |s| ensures t[j] == r[j] {
      if at <= j < at + |chunk| {
        assert t[at + (j - at)] == chunk[j - at];
      }
    }
  }

  /** Splicing in the bytes already there changes nothing. */
  lemma SpliceSame(s: seq<byte>, at: nat, n: nat)
    requires at + n <= |s|
    ensures Splice(s, at, s[at..at + n]) == s
  {
  }

  /** Python's `a[at:at+len(chunk)] = chunk` on a `bytearray`, for a chunk that
      fits: the array afterwards holds the splice. */
  method WriteSpan(a: array<byte>, at: nat, chunk: seq<byte>)
    requires at + |chunk| <= a.Length
    modifies a
    ensures a[..] == Splice(old(a[..]), at, chunk)
  {
    forall j | 0 <= j < |chunk| {
      a[at + j] := chunk[j];
    }
    SpliceWritten(old(a[..]), a[..], at, chunk);
  }

  /** A literal write of `data` at absolute `offset`: what `apply_profiles` does per
      profile and what one IPS record asks for. */
  datatype Write = Write(offset: nat, data: seq<byte>)

  predicate FitsIn(w: Write, size: nat)
  {
    w.offset + |w.data| <= size
  }

  predicate AllFit(ws: seq<Write>, size: nat)
  {
    forall k :: 0 <= k < |ws| ==> FitsIn(ws[k], size)
  }

  /** Some write of `ws` covers position `j`. */
  predicate Covered(ws: seq<Write>, j: int)
  {
    exists k :: 0 <= k < |ws| && ws[k].offset <= j < ws[k].offset + |ws[k].data|
  }

  /** The writes applied one after another, in order, to `base`. */
  function ApplyWrites(base: seq<byte>, ws: seq<Write>): (r: seq<byte>)
    requires AllFit(ws, |base|)
    ensures |r| == |base|
    decreases |ws|
  {
    if ws == [] then base
    else
      var w := ws[|ws| - 1];
      Splice(ApplyWrites(base, ws[..|ws| - 1]), w.offset, w.data)
  }

  /** A position no write covers keeps the byte of `base`. */
  lemma {:induction false} ApplyWritesOutside(base: seq<byte>, ws: seq<Write>, j: nat)
    requires AllFit(ws, |base|) && j < |base| && !Covered(ws, j)
    ensures ApplyWrites(base, ws)[j] == base[j]
    decreases |ws|
  {
    if ws != [] {
      var init := ws[..|ws| - 1];
      var w := ws[|ws| - 1];
      assert forall k :: 0 <= k < |init| ==> init[k] == ws[k];
      ApplyWritesOutside(base, init, j);
    }
  }

  /** One more write: the first i+1 writes are the first i followed by write i. */
  lemma ApplyWritesSnoc(base: seq<byte>, ws: seq<Write>, i: nat)
    requires AllFit(ws, |base|) && i < |ws|
    ensures AllFit(ws[..i], |base|) && AllFit(ws[..i + 1], |base|)
    ensures ApplyWrites(base, ws[..i + 1]) == Splice(ApplyWrites(base, ws[..i]), ws[i].offset, ws[i].data)
  {
    assert ws[..i + 1][..i] == ws[..i];
    assert forall k :: 0 <= k < i ==> ws[..i][k] == ws[k];
    assert forall k :: 0 <= k <= i ==> ws[..i + 1][k] == ws[k];
  }

  /** Every write copies the bytes `target` holds at its span. */
  predicate AgreeWith(ws: seq<Write>, target: seq<byte>)
  {
    forall k :: 0 <= k < |ws| ==>
      FitsIn(ws[k], |target|) && ws[k].data == target[ws[k].offset..ws[k].offset + |ws[k].data|]
  }

  /** Writes that copy bytes of `target` leave every covered position equal to
      `target`, whatever order they come in and however they overlap. */
  lemma {:induction false} ApplyWritesAgree(base: seq<byte>, ws: seq<Write>, target: seq<byte>)
    requires |base| == |target| && AgreeWith(ws, target)
    ensures AllFit(ws, |base|)
    ensures forall j :: 0 <= j < |base| && Covered(ws, j) ==> ApplyWrites(base, ws)[j] == target[j]
  {
    if ws != [] {
      var init := ws[..|ws| - 1];
      var w := ws[|ws| - 1];
      assert AgreeWith(init, target) by {
        forall k | 0 <= k < |init| ensures FitsIn(init[k], |target|)
          && init[k].data == target[init[k].offset..init[k].offset + |init[k].data|] {
          assert init[k] == ws[k];
        }
      }
      ApplyWritesAgree(base, init, target);
      forall j | 0 <= j < |base| && Covered(ws, j) ensures ApplyWrites(base, ws)[j] == target[j] {
        if !(w.offset <= j < w.offset + |w.data|) {
          var k :| 0 <= k < |ws| && ws[k].offset <= j < ws[k].offset + |ws[k].data|;
          assert k < |init| && init[k] == ws[k];
          assert Covered(init, j);
        } else {
          assert w.data[j - w.offset] == target[j];
        }
      }
    }
  }

  /** A base that already agrees with `target` wherever no write lands becomes
      exactly `target`. */
  lemma ApplyWritesReproduce(base: seq<byte>, ws: seq<Write>, target: seq<byte>)
    requires |base| == |target| && AgreeWith(ws, target)
    requires forall j :: 0 <= j < |base| && base[j] != target[j] ==> Covered(ws, j)
    ensures AllFit(ws, |base|) && ApplyWrites(base, ws) == target
  {
    ApplyWritesAgree(base, ws, target);
    forall j | 0 <= j < |base| ensures ApplyWrites(base, ws)[j] == target[j] {
      if !Covered(ws, j) {
        ApplyWritesOutside(base, ws, j);
      }
    }
  }

  /** No two writes share a byte. */
  predicate Disjoint(ws: seq<Write>)
  {
    forall a, b :: 0 <= a < b < |ws| ==>
      ws[a].offset + |ws[a].data| <= ws[b].offset || ws[b].offset + |ws[b].data| <= ws[a].offset
  }

  /** Dropping the last write keeps the writes fitting and disjoint. */
  lemma DisjointInit(ws: seq<Write>, size: nat)
    requires AllFit(ws, size) && Disjoint(ws) && ws != []
    ensures AllFit(ws[..|ws| - 1], size) && Disjoint(ws[..|ws| - 1])
  {
    var init := ws[..|ws| - 1];
    assert forall a :: 0 <= a < |init| ==> init[a] == ws[a];
  }

  /** With disjoint writes, each write's span ends up holding exactly its data. */
  lemma {:induction false} ApplyWritesDisjoint(base: seq<byte>, ws: seq<Write>, k: nat)
    requires AllFit(ws, |base|) && Disjoint(ws) && k < |ws|
    ensures var r := ApplyWrites(base, ws);
      r[ws[k].offset..ws[k].offset + |ws[k].data|] == ws[k].data
  {
    var init := ws[..|ws| - 1];
    var w := ws[|ws| - 1];
    var prev := ApplyWrites(base, init);
    var r := ApplyWrites(base, ws);
    assert r == Splice(prev, w.offset, w.data);
    if k < |ws| - 1 {
      assert init[k] == ws[k];
      DisjointInit(ws, |base|);
      ApplyWritesDisjoint(base, init, k);
      assert ws[k].offset + |ws[k].data| <= w.offset || w.offset + |w.data| <= ws[k].offset;
      SpliceOther(prev, w.offset, w.data, ws[k].offset, |ws[k].data|);
    } else {
      assert ws[k] == w;
    }
  }
}
