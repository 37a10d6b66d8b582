/** The 16-byte player rows of a team's roster block: the row layout, the
    6-character name codec, and the scan that lists a team's players. */
module Roster {
  import opened Wrappers
  import opened Bytes

  const NameLen := 6
  const RowLen := 16
  /** Byte 12 selects a pitch profile: none, #1, #2 or #3. */
  const PiChoices: seq<int> := [0x00, 0x08, 0x10, 0x18]

  /** One roster row as the editor sees it. Fields are Python ints: a row decodes
      them from bytes, while an edited record may carry any value. */
  datatype Player = Player(
    name: string,
    bodyType: int,   // byte 6: hand (bit 7) and size (low bits)
    unk8: int,       // byte 8
    arm: int,        // byte 9
    speed: int,      // byte 10
    hit: int,        // byte 11, stored 0..4
    pi: int,         // byte 12, one of PiChoices
    const14: int,    // byte 14
    rowOffset: int)  // absolute address of the row's first byte

  predicate IsByteValue(v: int)
  {
    0 <= v < 256
  }

  /** The fields that are stored unchanged must fit in a byte (Python raises a
      ValueError otherwise); `hit` and `pi` are coerced, so any int will do. */
  predicate Writable(p: Player)
  {
    IsByteValue(p.bodyType) && IsByteValue(p.unk8) && IsByteValue(p.arm)
    && IsByteValue(p.speed) && IsByteValue(p.const14)
  }

  // ---- Name codec ----

  /** A character that survives encoding and decoding unchanged: 7-bit ASCII,
      not NUL, not a lower-case letter. */
  predicate NameChar(c: char)
  {
    0 < c as int < 0x80 && !('a' <= c <= 'z')
  }

  /** The byte form of NameChar. */
  predicate NameByte(b: byte)
  {
    0 < b < 0x80 && !(0x61 <= b <= 0x7A)
  }

  /** `str.upper()` on the ASCII letters. */
  function UpperChar(c: char): (u: char)
    ensures 'a' <= c <= 'z' ==> u as int == c as int - 32
    ensures !('a' <= c <= 'z') ==> u == c
    ensures c as int < 0x80 ==> u as int < 0x80 && !('a' <= u <= 'z')
  {
    if 'a' <= c <= 'z' then (c as int - 32) as char else c
  }

  function Upper(s: string): (u: string)
    ensures |u| == |s|
    ensures forall k :: 0 <= k < |s| ==> u[k] == UpperChar(s[k])
  {
    seq(|s|, k requires 0 <= k < |s| => UpperChar(s[k]))
  }

  /** `s.encode('ascii', 'ignore')`: every character at or above 0x80 is dropped. */
  function AsciiEncode(s: string): (b: seq<byte>)
    ensures |b| <= |s|
    ensures forall k :: 0 <= k < |b| ==> b[k] < 0x80
    ensures (forall k :: 0 <= k < |s| ==> !('a' <= s[k] <= 'z')) ==>
              forall k :: 0 <= k < |b| ==> !(0x61 <= b[k] <= 0x7A)
    ensures (forall k :: 0 <= k < |s| ==> s[k] as int < 0x80) ==> |b| == |s|
  {
    if s == [] then []
    else (if s[0] as int < 0x80 then [ToByte(s[0] as int)] else []) + AsciiEncode(s[1..])
  }

  /** `b.decode('ascii', 'ignore')`: every byte at or above 0x80 is dropped. */
  function AsciiDecode(b: seq<byte>): (s: string)
    ensures |s| <= |b|
    ensures (forall k :: 0 <= k < |b| ==> b[k] < 0x80) ==> |s| == |b|
  {
    if b == [] then []
    else (if b[0] < 0x80 then [(b[0] as int) as char] else []) + AsciiDecode(b[1..])
  }

  /** Encoding one character keeps it when it is ASCII and drops it otherwise. */
  lemma AsciiEncodeOne(c: char)
    ensures c as int < 0x80 ==> |AsciiEncode([c])| == 1 && AsciiEncode([c])[0] as int == c as int
    ensures c as int >= 0x80 ==> AsciiEncode([c]) == []
  {
    assert [c][1..] == [];
  }

  /** Encoding works character by character: the encoding of a concatenation is
      the concatenation of the encodings. */
  lemma {:induction false} AsciiEncodeAppend(s: string, t: string)
    ensures AsciiEncode(s + t) == AsciiEncode(s) + AsciiEncode(t)
    decreases |s|
  {
    if s != [] {
      assert (s + t)[0] == s[0];
      assert (s + t)[1..] == s[1..] + t;
      AsciiEncodeAppend(s[1..], t);
    } else {
      assert s + t == t;
    }
  }

  /** Decoding one byte keeps it when it is below 0x80 and drops it otherwise. */
  lemma AsciiDecodeOne(b: byte)
    ensures b < 0x80 ==> |AsciiDecode([b])| == 1 && AsciiDecode([b])[0] as int == b as int
    ensures b >= 0x80 ==> AsciiDecode([b]) == []
  {
    assert [b][1..] == [];
  }

  /** Decoding works byte by byte: the decoding of a concatenation is the
      concatenation of the decodings. */
  lemma {:induction false} AsciiDecodeAppend(b: seq<byte>, c: seq<byte>)
    ensures AsciiDecode(b + c) == AsciiDecode(b) + AsciiDecode(c)
    decreases |b|
  {
    if b != [] {
      assert (b + c)[0] == b[0];
      assert (b + c)[1..] == b[1..] + c;
      AsciiDecodeAppend(b[1..], c);
    } else {
      assert b + c == c;
    }
  }

  function Spaces(n: nat): (b: seq<byte>)
    ensures |b| == n && forall k :: 0 <= k < n ==> b[k] == 0x20
  {
    seq(n, _ => 0x20)
  }

  /** `_encode_name6`: upper-case, cut to six characters, drop what is not ASCII,
      pad with spaces. */
  function EncodeName6(name: string): (r: seq<byte>)
    ensures |r| == NameLen
    ensures forall k :: 0 <= k < NameLen ==> r[k] < 0x80 && !(0x61 <= r[k] <= 0x7A)
  {
    var t := Upper(name)[..if |name| < NameLen then |name| else NameLen];
    var b := AsciiEncode(t);
    b + Spaces(NameLen - |b|)
  }

  /** `b.split(sep, 1)[0]`: the bytes before the first `sep`, or all of `b`. */
  function BeforeFirst(b: seq<byte>, sep: byte): (r: seq<byte>)
    ensures |r| <= |b| && r == b[..|r|]
    ensures sep !in r
    ensures |r| < |b| ==> b[|r|] == sep
  {
    if b == [] then []
    else if b[0] == sep then []
    else [b[0]] + BeforeFirst(b[1..], sep)
  }

  /** `s.rstrip(' ')`. */
  function RStripSpaces(s: string): (r: string)
    ensures |r| <= |s| && r == s[..|r|]
    ensures r == [] || r[|r| - 1] != ' '
    ensures forall k :: |r| <= k < |s| ==> s[k] == ' '
  {
    if s == [] then []
    else if s[|s| - 1] == ' ' then RStripSpaces(s[..|s| - 1])
    else s
  }

  /** The name decoding of `_parse_player`. When the six bytes hold a 0x00 the
      source cuts at the first SPACE, not at the NUL, and keeps the NULs. */
  function DecodeName(nb: seq<byte>): (name: string)
    ensures |name| <= |nb|
    ensures name == [] || name[|name| - 1] != ' '
  {
    var cut := if 0x00 in nb then BeforeFirst(nb, 0x20) else nb;
    RStripSpaces(AsciiDecode(cut))
  }

  lemma {:induction false} AsciiEncodeNameChars(s: string)
    requires forall k :: 0 <= k < |s| ==> NameChar(s[k])
    ensures |AsciiEncode(s)| == |s|
    ensures forall k :: 0 <= k < |s| ==> AsciiEncode(s)[k] as int == s[k] as int
  {
    if s != [] {
      AsciiEncodeNameChars(s[1..]);
      assert AsciiEncode(s) == [ToByte(s[0] as int)] + AsciiEncode(s[1..]);
    }
  }

  lemma {:induction false} AsciiDecodeAscii(b: seq<byte>)
    requires forall k :: 0 <= k < |b| ==> b[k] < 0x80
    ensures |AsciiDecode(b)| == |b|
    ensures forall k :: 0 <= k < |b| ==> AsciiDecode(b)[k] as int == b[k] as int
  {
    if b != [] {
      AsciiDecodeAscii(b[1..]);
      assert AsciiDecode(b) == [(b[0] as int) as char] + AsciiDecode(b[1..]);
    }
  }

  /** Stripping a name followed by padding gives back the name. */
  lemma {:induction false} RStripPadded(s: string, n: nat)
    requires s == [] || s[|s| - 1] != ' '
    ensures RStripSpaces(s + seq(n, _ => ' ')) == s
  {
    var t := s + seq(n, _ => ' ');
    if n > 0 {
      assert t[..|t| - 1] == s + seq(n - 1, _ => ' ');
      RStripPadded(s, n - 1);
    } else {
      assert t == s;
    }
  }

  /** Padding a stripped string back to its length gives back the string. */
  lemma RStripRepad(s: string)
    ensures var r := RStripSpaces(s); r + seq(|s| - |r|, _ => ' ') == s
  {
  }

  /** A name of at most six NameChars not ending in a space is stored and read
      back unchanged. */
  lemma NameRoundTrip(name: string)
    requires |name| <= NameLen && forall k :: 0 <= k < |name| ==> NameChar(name[k])
    requires name == [] || name[|name| - 1] != ' '
    ensures DecodeName(EncodeName6(name)) == name
  {
    var nb := EncodeName6(name);
    var pad := seq(NameLen - |name|, _ => ' ');
    assert nb == AsciiEncode(name) + Spaces(NameLen - |name|) by {
      assert Upper(name)[..|name|] == name;
    }
    AsciiEncodeNameChars(name);
    AsciiDecodeAscii(nb);
    assert 0x00 !in nb by {
      forall k | 0 <= k < NameLen ensures nb[k] != 0x00 {
        if k < |name| {
          assert nb[k] as int == name[k] as int;
        }
      }
    }
    assert AsciiDecode(nb) == name + pad by {
      forall k | 0 <= k < NameLen ensures AsciiDecode(nb)[k] == (name + pad)[k] {
        if k < |name| {
          assert nb[k] as int == name[k] as int;
        }
      }
    }
    RStripPadded(name, NameLen - |name|);
  }

  /** Six stored NameBytes are decoded and re-encoded to themselves, so an edit that
      leaves the name alone leaves its bytes alone. */
  lemma NameReencode(nb: seq<byte>)
    requires |nb| == NameLen && forall k :: 0 <= k < NameLen ==> NameByte(nb[k])
    ensures EncodeName6(DecodeName(nb)) == nb
  {
    assert 0x00 !in nb;
    AsciiDecodeAscii(nb);
    var d := AsciiDecode(nb);
    var name := RStripSpaces(d);
    assert DecodeName(nb) == name;
    RStripRepad(d);
    assert forall k :: 0 <= k < |name| ==> name[k] == d[k];
    assert forall k :: 0 <= k < |name| ==> NameChar(name[k]);
    assert Upper(name)[..|name|] == name;
    AsciiEncodeNameChars(name);
    var e := EncodeName6(name);
    assert e == AsciiEncode(name) + Spaces(NameLen - |name|);
    forall k | 0 <= k < NameLen ensures e[k] == nb[k] {
      if k < |name| {
        assert e[k] as int == name[k] as int == d[k] as int == nb[k] as int;
      } else {
        assert d[k] == ' ';
        assert nb[k] as int == d[k] as int;
      }
    }
  }

  /** 7-bit characters encode one byte each, to their own code. */
  lemma {:induction false} AsciiEncodeAscii(s: string)
    requires forall k :: 0 <= k < |s| ==> s[k] as int < 0x80
    ensures |AsciiEncode(s)| == |s|
    ensures forall k :: 0 <= k < |s| ==> AsciiEncode(s)[k] as int == s[k] as int
  {
    if s != [] {
      AsciiEncodeAscii(s[1..]);
      assert AsciiEncode(s) == [ToByte(s[0] as int)] + AsciiEncode(s[1..]);
    }
  }

  /** For any name whose first six characters (or all of them, when fewer) are
      ASCII, the stored bytes are those characters upper-cased, followed by
      spaces up to six. */
  lemma EncodeName6Ascii(name: string)
    requires forall k :: 0 <= k < |name| && k < NameLen ==> name[k] as int < 0x80
    ensures var m := if |name| < NameLen then |name| else NameLen;
      (forall k :: 0 <= k < m ==> EncodeName6(name)[k] as int == UpperChar(name[k]) as int)
      && (forall k :: m <= k < NameLen ==> EncodeName6(name)[k] == 0x20)
  {
    var m := if |name| < NameLen then |name| else NameLen;
    var t := Upper(name)[..m];
    assert forall k :: 0 <= k < m ==> t[k] == UpperChar(name[k]);
    AsciiEncodeAscii(t);
    var b := AsciiEncode(t);
    assert EncodeName6(name) == b + Spaces(NameLen - m);
  }

  /** A lower-case name longer than six characters is upper-cased and cut. */
  lemma ExampleEncodeLong()
    ensures EncodeName6("Smith jr") == [0x53, 0x4D, 0x49, 0x54, 0x48, 0x20]
  {
    EncodeName6Ascii("Smith jr");
  }

  /** The one non-ASCII character of "ZO\U{EB} AB" is filtered out. */
  lemma ExampleAsciiFilter()
    ensures AsciiEncode("ZO\U{EB} AB") == [0x5A, 0x4F, 0x20, 0x41, 0x42]
  {
  }

  /** Only the first six characters of a name are stored: the cut comes before
      the ASCII filter, so a dropped character is not replaced by a later one. */
  lemma EncodeName6Cut(name: string)
    ensures EncodeName6(name) == EncodeName6(name[..if |name| < NameLen then |name| else NameLen])
  {
    var m := if |name| < NameLen then |name| else NameLen;
    assert Upper(name)[..m] == Upper(name[..m])[..m];
  }

  /** The one non-ASCII character of "PE\U{F1}ALV" is filtered out. */
  lemma ExampleAsciiFilterLong()
    ensures AsciiEncode("PE\U{F1}ALV") == [0x50, 0x45, 0x41, 0x4C, 0x56]
  {
  }

  /** A long name with a non-ASCII letter among its first six characters is cut
      first and filtered afterwards: "Pe\U{F1}alver" is stored as "PEALV ", with a
      space where the letter was dropped rather than the seventh character. */
  lemma ExampleEncodeCutThenDrop()
    ensures EncodeName6("Pe\U{F1}alver") == [0x50, 0x45, 0x41, 0x4C, 0x56, 0x20]
  {
    assert Upper("Pe\U{F1}alver")[..NameLen] == "PE\U{F1}ALV";
    ExampleAsciiFilterLong();
  }

  /** A non-ASCII character is dropped and the rest moves up: "Zo\U{EB} Ab" is
      stored as "ZO AB ". */
  lemma ExampleEncodeDrop()
    ensures EncodeName6("Zo\U{EB} Ab") == [0x5A, 0x4F, 0x20, 0x41, 0x42, 0x20]
  {
    assert Upper("Zo\U{EB} Ab")[..NameLen] == "ZO\U{EB} AB";
    ExampleAsciiFilter();
  }

  /** The bytes before the first `sep`, when that is at `i`. */
  lemma {:induction false} BeforeFirstAt(b: seq<byte>, sep: byte, i: nat)
    requires i < |b| && b[i] == sep && sep !in b[..i]
    ensures BeforeFirst(b, sep) == b[..i]
    decreases i
  {
    if i > 0 {
      assert b[0] == b[..i][0];
      assert b[1..][..i - 1] == b[1..i];
      assert b[..i] == [b[0]] + b[1..i];
      BeforeFirstAt(b[1..], sep, i - 1);
    }
  }

  /** A name field holding a 0x00 is cut before its first space, wherever the
      NUL is: what follows the space, names included, is lost. */
  lemma DecodeNulCut(nb: seq<byte>, i: nat)
    requires 0x00 in nb && i < |nb| && nb[i] == 0x20 && 0x20 !in nb[..i]
    ensures DecodeName(nb) == RStripSpaces(AsciiDecode(nb[..i]))
  {
    BeforeFirstAt(nb, 0x20, i);
  }

  /** With a NUL, "A", NUL, space, "B" decodes to "A" and the NUL. */
  lemma ExampleNulName()
    ensures DecodeName([0x41, 0x00, 0x20, 0x42, 0x20, 0x20]) == "A\0"
  {
    var nb: seq<byte> := [0x41, 0x00, 0x20, 0x42, 0x20, 0x20];
    assert nb[1] == 0x00;
    assert nb[..2] == [0x41, 0x00];
    DecodeNulCut(nb, 2);
    AsciiDecodeAscii(nb[..2]);
    var d := AsciiDecode(nb[..2]);
    assert d[0] == 'A' && d[1] == '\0';
    assert d == "A\0";
  }

  /** Without a NUL, "A", space, "B" and padding decodes to "A B". */
  lemma ExampleSpacedName()
    ensures DecodeName([0x41, 0x20, 0x42, 0x20, 0x20, 0x20]) == "A B"
  {
    var nb: seq<byte> := [0x41, 0x20, 0x42, 0x20, 0x20, 0x20];
    assert 0x00 !in nb;
    AsciiDecodeAscii(nb);
    var d := AsciiDecode(nb);
    assert d == "A B   ";
    RStripPadded("A B", 3);
    assert "A B" + seq(3, _ => ' ') == d;
  }

  /** Name bytes below 0x80 with no space among them decode to themselves: a 0x00
      does not end the name, every NUL is kept in the decoded string. */
  lemma NulsKept(nb: seq<byte>)
    requires forall k :: 0 <= k < |nb| ==> nb[k] < 0x80 && nb[k] != 0x20
    ensures |DecodeName(nb)| == |nb|
    ensures forall k :: 0 <= k < |nb| ==> DecodeName(nb)[k] as int == nb[k] as int
  {
    var cut := BeforeFirst(nb, 0x20);
    assert 0x20 !in nb;
    assert cut == nb;
    AsciiDecodeAscii(nb);
    var d := AsciiDecode(nb);
    var r := RStripSpaces(d);
    assert d == [] || d[|d| - 1] != ' ' by {
      if d != [] {
        assert nb[|d| - 1] as int == d[|d| - 1] as int;
      }
    }
    assert r == d;
    assert DecodeName(nb) == r;
  }

  // ---- Row codec ----

  /** `_parse_player`: a 16-byte chunk decodes to a Player with fields taken
      from fixed positions; any other length gives None. */
  function ParsePlayer(chunk: seq<byte>, offset: int): (r: Option<Player>)
    ensures r.Some? <==> |chunk| == RowLen
    ensures r.Some? ==>
              Writable(r.value) && r.value.rowOffset == offset && |r.value.name| <= NameLen
              && IsByteValue(r.value.hit) && IsByteValue(r.value.pi)
    ensures r.Some? ==>
              r.value.name == DecodeName(chunk[..NameLen]) && r.value.bodyType == chunk[6] as int
              && r.value.unk8 == chunk[8] as int && r.value.arm == chunk[9] as int
              && r.value.speed == chunk[10] as int && r.value.hit == chunk[11] as int
              && r.value.pi == chunk[12] as int && r.value.const14 == chunk[14] as int
  {
    if |chunk| != RowLen then None
    else
      var attrs := chunk[NameLen..];
      Some(Player(DecodeName(chunk[..NameLen]), attrs[0] as int, attrs[2] as int,
                  attrs[3] as int, attrs[4] as int, attrs[5] as int, attrs[6] as int,
                  attrs[8] as int, offset))
  }

  /** Byte 12 as written: `pi` when it is one of PiChoices, else 0x00. */
  function PiByte(pi: int): (b: byte)
    ensures b as int in PiChoices
    ensures pi in PiChoices ==> b as int == pi
  {
    if pi in PiChoices then ToByte(pi) else 0x00
  }

  /** Bytes 6..15 of the row `apply_players` writes for `p`: byte 7 forced to
      0xFF, bytes 13 and 15 kept from the current `row`. */
  function RowTail(p: Player, row: seq<byte>): (t: seq<byte>)
    requires |row| == RowLen && Writable(p)
    ensures |t| == RowLen - NameLen
  {
    [ToByte(p.bodyType), 0xFF, ToByte(p.unk8), ToByte(p.arm), ToByte(p.speed),
     ToByte(Clamp(p.hit, 0, 4)), PiByte(p.pi), row[13], ToByte(p.const14), row[15]]
  }

  /** The 16 bytes `apply_players` writes for `p` over the current `row`. */
  function EncodeRow(p: Player, row: seq<byte>): (r: seq<byte>)
    requires |row| == RowLen && Writable(p)
    ensures |r| == RowLen
    ensures r[..NameLen] == EncodeName6(p.name)
    ensures r[7] == 0xFF && r[13] == row[13] && r[15] == row[15]
  {
    EncodeName6(p.name) + RowTail(p, row)
  }

  /** What a write of `p` stores: the name as encoded, `hit` clamped to 0..4 and an
      unknown `pi` replaced by 0x00; everything else as given. */
  function Stored(p: Player): Player
  {
    p.(name := DecodeName(EncodeName6(p.name)),
       hit := Clamp(p.hit, 0, 4),
       pi := if p.pi in PiChoices then p.pi else 0x00)
  }

  /** Parsing an encoded row gives back the stored form of the player. */
  lemma RowRoundTrip(p: Player, row: seq<byte>)
    requires |row| == RowLen && Writable(p)
    ensures ParsePlayer(EncodeRow(p, row), p.rowOffset) == Some(Stored(p))
  {
    var r := EncodeRow(p, row);
    assert r[..NameLen] == EncodeName6(p.name);
    assert r[NameLen..][5] as int == Clamp(p.hit, 0, 4);
  }

  /** A player already in stored form (canonical name, hit in 0..4, pi one of
      PiChoices) is stored exactly as given. */
  lemma StoredCanonical(p: Player)
    requires |p.name| <= NameLen && forall k :: 0 <= k < |p.name| ==> NameChar(p.name[k])
    requires p.name == [] || p.name[|p.name| - 1] != ' '
    requires 0 <= p.hit <= 4 && p.pi in PiChoices
    ensures Stored(p) == p
  {
    NameRoundTrip(p.name);
  }

  /** A row whose name bytes are NameBytes, whose byte 7 is 0xFF, whose hit is at
      most 4 and whose pi is one of PiChoices is rewritten to itself when its
      parsed player is applied unchanged. */
  lemma RowReencode(row: seq<byte>, offset: int)
    requires |row| == RowLen && forall k :: 0 <= k < NameLen ==> NameByte(row[k])
    requires row[7] == 0xFF && row[11] <= 4 && row[12] as int in PiChoices
    ensures EncodeRow(ParsePlayer(row, offset).value, row) == row
  {
    NameReencode(row[..NameLen]);
    var p := ParsePlayer(row, offset).value;
    assert p.name == DecodeName(row[..NameLen]);
    TailReencode(row, offset);
    assert EncodeRow(p, row) == row[..NameLen] + row[NameLen..];
  }

  lemma TailReencode(row: seq<byte>, offset: int)
    requires |row| == RowLen && row[7] == 0xFF && row[11] <= 4 && row[12] as int in PiChoices
    ensures RowTail(ParsePlayer(row, offset).value, row) == row[NameLen..]
  {
    var p := ParsePlayer(row, offset).value;
    assert p.bodyType == row[6] as int && p.unk8 == row[8] as int && p.arm == row[9] as int;
    assert p.speed == row[10] as int && p.hit == row[11] as int && p.pi == row[12] as int;
    assert p.const14 == row[14] as int;
    ToByteOfByte(row[6]); ToByteOfByte(row[8]); ToByteOfByte(row[9]); ToByteOfByte(row[10]);
    ToByteOfByte(row[11]); ToByteOfByte(row[12]); ToByteOfByte(row[14]);
  }

  /** A name of six capitals. */
  lemma ExampleName()
    ensures DecodeName([0x41, 0x42, 0x43, 0x44, 0x45, 0x46]) == "ABCDEF"
  {
    var nb: seq<byte> := [0x41, 0x42, 0x43, 0x44, 0x45, 0x46];
    NulsKept(nb);
    var name := DecodeName(nb);
    assert name[0] == 'A' && name[1] == 'B' && name[2] == 'C';
    assert name[3] == 'D' && name[4] == 'E' && name[5] == 'F';
  }

  /** A row whose attribute bytes are all distinct. */
  const ExampleBytes: seq<byte> := [0x41, 0x42, 0x43, 0x44, 0x45, 0x46, 0x80, 0xFF, 0x05, 0x10, 0x20,
                                    0x03, 0x08, 0xAA, 0x02, 0xBB]

  /** That row decodes to player ABCDEF with each field taken from its own
      position; bytes 7, 13 and 15 are not read. */
  lemma ExampleRow()
    ensures ParsePlayer(ExampleBytes, 0x10430)
      == Some(Player("ABCDEF", 0x80, 5, 0x10, 0x20, 3, 0x08, 2, 0x10430))
  {
    var row := ExampleBytes;
    assert row[..NameLen] == [0x41, 0x42, 0x43, 0x44, 0x45, 0x46];
    ExampleName();
    var attrs := row[NameLen..];
    assert attrs[0] == 0x80 && attrs[2] == 5 && attrs[3] == 0x10 && attrs[4] == 0x20;
    assert attrs[5] == 3 && attrs[6] == 8 && attrs[8] == 2;
  }

  // ---- Roster scan ----

  predicate RowFits(image: seq<byte>, at: nat)
  {
    at + RowLen <= |image|
  }

  function RowAt(image: seq<byte>, at: nat): seq<byte>
    requires RowFits(image, at)
  {
    image[at..at + RowLen]
  }

  /** A splice that does not meet the row at `lo` leaves that row alone. */
  lemma SpliceOtherRow(s: seq<byte>, at: nat, chunk: seq<byte>, lo: nat)
    requires at + |chunk| <= |s| && RowFits(s, lo)
    requires lo + RowLen <= at || at + |chunk| <= lo
    ensures RowFits(Splice(s, at, chunk), lo) && RowAt(Splice(s, at, chunk), lo) == RowAt(s, lo)
  {
    SpliceOther(s, at, chunk, lo, RowLen);
  }

  /** Row `k` after `base` is present and is the all-0xFF terminator. */
  predicate FFRow(image: seq<byte>, base: nat, k: nat)
  {
    RowFits(image, base + RowLen * k) && AllFF(RowAt(image, base + RowLen * k))
  }

  /** Row `k` after `base` is present and is not the terminator. */
  predicate PlayerRow(image: seq<byte>, base: nat, k: nat)
  {
    RowFits(image, base + RowLen * k) && !AllFF(RowAt(image, base + RowLen * k))
  }

  /** Row k+1 after `base` is row k after the row that follows `base`. */
  lemma RowShift(image: seq<byte>, base: nat, k: nat)
    ensures FFRow(image, base, k + 1) == FFRow(image, base + RowLen, k)
    ensures PlayerRow(image, base, k + 1) == PlayerRow(image, base + RowLen, k)
  {
    assert base + RowLen * (k + 1) == base + RowLen + RowLen * k;
  }

  /** `_parse_player` applied to the whole row at `at`, which always succeeds. */
  function PlayerAt(image: seq<byte>, at: nat): (p: Player)
    requires RowFits(image, at)
    ensures Some(p) == ParsePlayer(RowAt(image, at), at)
  {
    ParsePlayer(RowAt(image, at), at).value
  }

  /** The players `_parse_team` collects from `cursor` on: the k-th sits at
      `cursor + 16*k` on a whole row that is not the terminator, and the scan ends
      at the first row that is missing or all 0xFF. */
  function TeamRows(image: seq<byte>, cursor: nat): (ps: seq<Player>)
    ensures forall k :: 0 <= k < |ps| ==>
              PlayerRow(image, cursor, k) && ps[k].rowOffset == cursor + RowLen * k
    ensures !PlayerRow(image, cursor, |ps|)
    decreases |image| - cursor
  {
    if !RowFits(image, cursor) then []
    else
      var row := RowAt(image, cursor);
      if AllFF(row) then []
      else
        // `_parse_player` never returns None for a whole row, so the source's
        // second `break` cannot be taken.
        var p := PlayerAt(image, cursor);
        var rest := TeamRows(image, cursor + RowLen);
        var ps := [p] + rest;
        assert PlayerRow(image, cursor, 0) && p.rowOffset == cursor + RowLen * 0;
        assert forall k :: 0 < k < |ps| ==>
          PlayerRow(image, cursor, k) && ps[k].rowOffset == cursor + RowLen * k
        by {
          forall k | 0 < k < |ps|
            ensures PlayerRow(image, cursor, k) && ps[k].rowOffset == cursor + RowLen * k
          {
            assert ps[k] == rest[k - 1];
            RowShift(image, cursor, k - 1);
          }
        }
        RowShift(image, cursor, |rest|);
        ps
  }

  /** One step of the scan: a player row is followed by the scan of the next row. */
  lemma TeamRowsStep(image: seq<byte>, cursor: nat)
    requires PlayerRow(image, cursor, 0)
    ensures TeamRows(image, cursor) == [PlayerAt(image, cursor)] + TeamRows(image, cursor + RowLen)
  {
  }

  /** The k-th player of TeamRows is what `_parse_player` makes of row k, the
      row at `at`. */
  lemma {:induction false} TeamRowsParsed(image: seq<byte>, cursor: nat, k: nat, at: nat)
    requires k < |TeamRows(image, cursor)| && at == cursor + RowLen * k
    ensures RowFits(image, at) && TeamRows(image, cursor)[k] == PlayerAt(image, at)
    decreases k
  {
    assert PlayerRow(image, cursor, 0);
    TeamRowsStep(image, cursor);
    if k > 0 {
      TeamRowsParsed(image, cursor + RowLen, k - 1, at);
    }
  }

  // ---- Writing players back ----

  /** Every player can be written: its row lies in the image and its byte fields
      are in 0..255 (the source raises otherwise). */
  predicate RowsFit(image: seq<byte>, ps: seq<Player>)
  {
    forall k :: 0 <= k < |ps| ==> 0 <= ps[k].rowOffset && RowFits(image, ps[k].rowOffset) && Writable(ps[k])
  }

  /** Position `j` lies in the row of some player of `ps`. */
  predicate InSomeRow(ps: seq<Player>, j: int)
  {
    exists k :: 0 <= k < |ps| && ps[k].rowOffset <= j < ps[k].rowOffset + RowLen
  }

  /** No two players share a byte of their rows. */
  predicate RowsDisjoint(ps: seq<Player>)
  {
    forall a, b :: 0 <= a < b < |ps| ==>
      ps[a].rowOffset + RowLen <= ps[b].rowOffset || ps[b].rowOffset + RowLen <= ps[a].rowOffset
  }

  /** The loop of `apply_players`: each player in turn overwrites its row with
      EncodeRow over the row as it stands at that moment. */
  function ApplyRows(image: seq<byte>, ps: seq<Player>): (r: seq<byte>)
    requires RowsFit(image, ps)
    ensures |r| == |image|
    decreases |ps|
  {
    if ps == [] then image
    else
      var p := ps[|ps| - 1];
      var prev := ApplyRows(image, ps[..|ps| - 1]);
      Splice(prev, p.rowOffset, EncodeRow(p, RowAt(prev, p.rowOffset)))
  }

  /** A byte in no player's row is kept. */
  lemma {:induction false} ApplyRowsKeeps(image: seq<byte>, ps: seq<Player>, j: nat)
    requires RowsFit(image, ps) && j < |image| && !InSomeRow(ps, j)
    ensures ApplyRows(image, ps)[j] == image[j]
    decreases |ps|
  {
    if ps != [] {
      var init := ps[..|ps| - 1];
      assert forall k :: 0 <= k < |init| ==> init[k] == ps[k];
      ApplyRowsKeeps(image, init, j);
    }
  }

  /** One more iteration of the `apply_players` loop: the first i+1 players
      are the first i followed by the write of player i. */
  lemma ApplyRowsSnoc(image: seq<byte>, ps: seq<Player>, i: nat)
    requires RowsFit(image, ps) && i < |ps|
    ensures RowsFit(image, ps[..i]) && RowsFit(image, ps[..i + 1])
    ensures var prev := ApplyRows(image, ps[..i]); var at := ps[i].rowOffset;
      ApplyRows(image, ps[..i + 1]) == Splice(prev, at, EncodeRow(ps[i], RowAt(prev, at)))
  {
    assert ps[..i + 1][..i] == ps[..i];
    assert forall k :: 0 <= k < i ==> ps[..i][k] == ps[k];
    assert forall k :: 0 <= k <= i ==> ps[..i + 1][k] == ps[k];
  }

  /** One step of `apply_players`: rewriting row i of the image that holds the
      first i rows gives the image that holds the first i+1. */
  lemma ApplyRowsNext(image: seq<byte>, ps: seq<Player>, i: nat, prev: seq<byte>, next: seq<byte>)
    requires RowsFit(image, ps) && i < |ps| && |prev| == |image|
    requires RowsFit(image, ps[..i]) && prev == ApplyRows(image, ps[..i])
    requires var at := ps[i].rowOffset;
      0 <= at && at + RowLen <= |prev| && Writable(ps[i])
      && next == Splice(prev, at, EncodeRow(ps[i], prev[at..at + RowLen]))
    ensures RowsFit(image, ps[..i + 1]) && next == ApplyRows(image, ps[..i + 1])
  {
    ApplyRowsSnoc(image, ps, i);
  }

  /** A row that meets none of the players' rows keeps its bytes. */
  lemma {:induction false} ApplyRowsOutside(image: seq<byte>, ps: seq<Player>, lo: nat)
    requires RowsFit(image, ps) && RowFits(image, lo)
    requires forall a :: 0 <= a < |ps| ==>
               ps[a].rowOffset + RowLen <= lo || lo + RowLen <= ps[a].rowOffset
    ensures RowAt(ApplyRows(image, ps), lo) == RowAt(image, lo)
  {
    if ps != [] {
      var init := ps[..|ps| - 1];
      var p := ps[|ps| - 1];
      assert forall a :: 0 <= a < |init| ==> init[a] == ps[a];
      ApplyRowsOutside(image, init, lo);
      var prev := ApplyRows(image, init);
      var w := EncodeRow(p, RowAt(prev, p.rowOffset));
      assert ApplyRows(image, ps) == Splice(prev, p.rowOffset, w);
      SpliceOtherRow(prev, p.rowOffset, w, lo);
    }
  }

  /** The last player's row is EncodeRow over the original row when no earlier
      player's row meets it. */
  lemma ApplyRowsLast(image: seq<byte>, ps: seq<Player>)
    requires RowsFit(image, ps) && RowsDisjoint(ps) && ps != []
    ensures var p := ps[|ps| - 1];
      RowAt(ApplyRows(image, ps), p.rowOffset) == EncodeRow(p, RowAt(image, p.rowOffset))
  {
    var init := ps[..|ps| - 1];
    var p := ps[|ps| - 1];
    assert forall a :: 0 <= a < |init| ==> init[a] == ps[a];
    ApplyRowsOutside(image, init, p.rowOffset);
    var prev := ApplyRows(image, init);
    assert ApplyRows(image, ps) == Splice(prev, p.rowOffset, EncodeRow(p, RowAt(prev, p.rowOffset)));
  }

  /** The last player's write leaves a row it does not meet as the earlier
      players left it. */
  lemma ApplyRowsLastElsewhere(image: seq<byte>, ps: seq<Player>, lo: nat)
    requires RowsFit(image, ps) && ps != [] && RowFits(image, lo)
    requires var p := ps[|ps| - 1]; p.rowOffset + RowLen <= lo || lo + RowLen <= p.rowOffset
    ensures var init := ps[..|ps| - 1];
      RowsFit(image, init) && RowAt(ApplyRows(image, ps), lo) == RowAt(ApplyRows(image, init), lo)
  {
    var init := ps[..|ps| - 1];
    var p := ps[|ps| - 1];
    assert forall a :: 0 <= a < |init| ==> init[a] == ps[a];
    var prev := ApplyRows(image, init);
    var w := EncodeRow(p, RowAt(prev, p.rowOffset));
    var r := ApplyRows(image, ps);
    assert r == Splice(prev, p.rowOffset, w);
    SpliceOtherRow(prev, p.rowOffset, w, lo);
  }

  /** Dropping the last player keeps the rows disjoint and writable. */
  lemma RowsInit(image: seq<byte>, ps: seq<Player>)
    requires RowsFit(image, ps) && RowsDisjoint(ps) && ps != []
    ensures RowsFit(image, ps[..|ps| - 1]) && RowsDisjoint(ps[..|ps| - 1])
  {
    var init := ps[..|ps| - 1];
    assert forall a :: 0 <= a < |init| ==> init[a] == ps[a];
  }

  /** With disjoint rows, player k's row ends up as EncodeRow over the original
      row: no other write touches it. */
  lemma {:induction false} ApplyRowsDisjoint(image: seq<byte>, ps: seq<Player>, k: nat)
    requires RowsFit(image, ps) && RowsDisjoint(ps) && k < |ps|
    ensures var at := ps[k].rowOffset;
      RowAt(ApplyRows(image, ps), at) == EncodeRow(ps[k], RowAt(image, at))
  {
    if k == |ps| - 1 {
      ApplyRowsLast(image, ps);
    } else {
      var init := ps[..|ps| - 1];
      assert init[k] == ps[k];
      RowsInit(image, ps);
      ApplyRowsDisjoint(image, init, k);
      ApplyRowsLastElsewhere(image, ps, ps[k].rowOffset);
    }
  }

  /** Reading a written row back: with disjoint rows, player k's row is not the
      terminator and `_parse_player` on it gives the stored form of player k. */
  lemma ApplyRowsReparse(image: seq<byte>, ps: seq<Player>, k: nat)
    requires RowsFit(image, ps) && RowsDisjoint(ps) && k < |ps|
    ensures var at := ps[k].rowOffset; var image2 := ApplyRows(image, ps);
      RowFits(image2, at) && !AllFF(RowAt(image2, at))
      && ParsePlayer(RowAt(image2, at), at) == Some(Stored(ps[k]))
  {
    var at := ps[k].rowOffset;
    var row := RowAt(ApplyRows(image, ps), at);
    ApplyRowsDisjoint(image, ps, k);
    RowRoundTrip(ps[k], RowAt(image, at));
    assert !AllFF(row) by {
      assert row[..NameLen] == EncodeName6(ps[k].name);
      assert row[0] < 0x80;
    }
  }

  /** When each player's row would be rewritten to itself, applying them all
      leaves the image unchanged. */
  lemma {:induction false} ApplyRowsUnchanged(image: seq<byte>, ps: seq<Player>)
    requires RowsFit(image, ps)
    requires forall k :: 0 <= k < |ps| ==>
               EncodeRow(ps[k], RowAt(image, ps[k].rowOffset)) == RowAt(image, ps[k].rowOffset)
    ensures ApplyRows(image, ps) == image
  {
    if ps != [] {
      var init := ps[..|ps| - 1];
      var p := ps[|ps| - 1];
      assert forall k :: 0 <= k < |init| ==> init[k] == ps[k];
      ApplyRowsUnchanged(image, init);
      assert EncodeRow(p, RowAt(image, p.rowOffset)) == RowAt(image, p.rowOffset);
      SpliceSame(image, p.rowOffset, RowLen);
    }
  }

  /** A row as the game stores it: NameBytes for the name, 0xFF at byte 7, hit at
      most 4 and pi one of PiChoices. */
  predicate CanonicalRow(row: seq<byte>)
  {
    |row| == RowLen && (forall k :: 0 <= k < NameLen ==> NameByte(row[k]))
    && row[7] == 0xFF && row[11] <= 4 && row[12] as int in PiChoices
  }

  /** Row `k` after `base` is present and canonical. */
  predicate CanonicalRowAt(image: seq<byte>, base: nat, k: nat)
  {
    RowFits(image, base + RowLen * k) && CanonicalRow(RowAt(image, base + RowLen * k))
  }

  /** Consecutive rows from `cursor` on never overlap. */
  lemma TeamRowsDisjoint(image: seq<byte>, cursor: nat)
    ensures RowsDisjoint(TeamRows(image, cursor))
  {
  }

  /** The players `_parse_team` collects can all be written back. */
  lemma TeamRowsFit(image: seq<byte>, cursor: nat)
    ensures RowsFit(image, TeamRows(image, cursor))
  {
    var ps := TeamRows(image, cursor);
    forall k | 0 <= k < |ps|
      ensures 0 <= ps[k].rowOffset && RowFits(image, ps[k].rowOffset) && Writable(ps[k])
    {
      TeamRowsParsed(image, cursor, k, cursor + RowLen * k);
    }
  }

  /** Saving the roster unedited: applying the parsed players of canonical rows
      gives back the image byte for byte. */
  lemma UneditedSaveIsIdentity(image: seq<byte>, cursor: nat)
    requires forall k :: 0 <= k < |TeamRows(image, cursor)| ==> CanonicalRowAt(image, cursor, k)
    ensures RowsFit(image, TeamRows(image, cursor)) && ApplyRows(image, TeamRows(image, cursor)) == image
  {
    var ps := TeamRows(image, cursor);
    TeamRowsFit(image, cursor);
    forall k | 0 <= k < |ps|
      ensures EncodeRow(ps[k], RowAt(image, ps[k].rowOffset)) == RowAt(image, ps[k].rowOffset)
    {
      var at := cursor + RowLen * k;
      TeamRowsParsed(image, cursor, k, at);
      assert CanonicalRowAt(image, cursor, k);
      RowReencode(RowAt(image, at), at);
    }
    ApplyRowsUnchanged(image, ps);
  }

  /** The player `_parse_player` reads from row `k` after `base`. */
  function PlayerOfRow(image: seq<byte>, base: nat, k: nat): Player
    requires RowFits(image, base + RowLen * k)
  {
    PlayerAt(image, base + RowLen * k)
  }

  /** TeamRows is the only list that matches the rows: players on consecutive
      rows from `cursor`, followed by a row that is missing or all 0xFF. */
  lemma TeamRowsOf(image: seq<byte>, cursor: nat, qs: seq<Player>)
    requires forall k :: 0 <= k < |qs| ==> PlayerRow(image, cursor, k) && PlayerOfRow(image, cursor, k) == qs[k]
    requires !PlayerRow(image, cursor, |qs|)
    ensures TeamRows(image, cursor) == qs
  {
    var ps := TeamRows(image, cursor);
    assert |ps| == |qs|;
    forall k | 0 <= k < |ps| ensures ps[k] == qs[k] {
      TeamRowsParsed(image, cursor, k, cursor + RowLen * k);
    }
  }

  /** Players that keep the row offsets TeamRows gave them sit on consecutive,
      disjoint rows of the image. */
  lemma EditedRowsFit(image: seq<byte>, start: nat, ps: seq<Player>)
    requires |ps| == |TeamRows(image, start)|
    requires forall k :: 0 <= k < |ps| ==>
               ps[k].rowOffset == TeamRows(image, start)[k].rowOffset && Writable(ps[k])
    ensures RowsFit(image, ps) && RowsDisjoint(ps)
    ensures forall k :: 0 <= k < |ps| ==> ps[k].rowOffset == start + RowLen * k
  {
    var rs := TeamRows(image, start);
    forall k | 0 <= k < |ps| ensures ps[k].rowOffset == start + RowLen * k && RowFits(image, ps[k].rowOffset) {
      assert PlayerRow(image, start, k) && rs[k].rowOffset == start + RowLen * k;
    }
  }

  /** A written row is never the terminator and parses to the stored player. */
  lemma WrittenRowParses(image: seq<byte>, ps: seq<Player>, k: nat, start: nat)
    requires RowsFit(image, ps) && RowsDisjoint(ps) && k < |ps| && ps[k].rowOffset == start + RowLen * k
    ensures var image2 := ApplyRows(image, ps);
      PlayerRow(image2, start, k) && PlayerOfRow(image2, start, k) == Stored(ps[k])
  {
    var at := ps[k].rowOffset;
    ApplyRowsReparse(image, ps, k);
    assert PlayerAt(ApplyRows(image, ps), at) == Stored(ps[k]);
  }

  /** Players on consecutive rows from `start` leave the row after the last one as
      it was, so a row that ended the scan still ends it. */
  lemma TerminatorKept(image: seq<byte>, start: nat, ps: seq<Player>)
    requires RowsFit(image, ps)
    requires forall k :: 0 <= k < |ps| ==> ps[k].rowOffset == start + RowLen * k
    requires !PlayerRow(image, start, |ps|)
    ensures !PlayerRow(ApplyRows(image, ps), start, |ps|)
  {
    var ff := start + RowLen * |ps|;
    if RowFits(image, ff) {
      ApplyRowsOutside(image, ps, ff);
    }
  }

  /** Every written row, read back from `start`, is the stored player. */
  lemma WrittenRowsParse(image: seq<byte>, start: nat, ps: seq<Player>, qs: seq<Player>)
    requires RowsFit(image, ps) && RowsDisjoint(ps)
    requires forall k :: 0 <= k < |ps| ==> ps[k].rowOffset == start + RowLen * k
    requires |qs| == |ps| && forall k :: 0 <= k < |ps| ==> qs[k] == Stored(ps[k])
    ensures var image2 := ApplyRows(image, ps);
      forall k :: 0 <= k < |qs| ==> PlayerRow(image2, start, k) && PlayerOfRow(image2, start, k) == qs[k]
  {
    var image2 := ApplyRows(image, ps);
    forall k | 0 <= k < |qs| ensures PlayerRow(image2, start, k) && PlayerOfRow(image2, start, k) == qs[k] {
      WrittenRowParses(image, ps, k, start);
    }
  }

  /** Editing the parsed players in place (keeping each row offset), saving and
      parsing the roster again gives the stored form of every edited player. */
  lemma ReloadAfterApply(image: seq<byte>, start: nat, ps: seq<Player>)
    requires |ps| == |TeamRows(image, start)|
    requires forall k :: 0 <= k < |ps| ==>
               ps[k].rowOffset == TeamRows(image, start)[k].rowOffset && Writable(ps[k])
    ensures RowsFit(image, ps)
    ensures TeamRows(ApplyRows(image, ps), start) == seq(|ps|, k requires 0 <= k < |ps| => Stored(ps[k]))
  {
    EditedRowsFit(image, start, ps);
    var qs := seq(|ps|, k requires 0 <= k < |ps| => Stored(ps[k]));
    WrittenRowsParse(image, start, ps, qs);
    TerminatorKept(image, start, ps);
    TeamRowsOf(ApplyRows(image, ps), start, qs);
  }
}
