/** Long names: how a name is spread over directory slots when an entry is created, and what the
    directory iterator reassembles from them. */
module FatLongName {
  import opened Machine
  import opened FatSlot

  const MAX_NAME := 255
  const BUFFER := MAX_NAME + 1
  const UNITS := 13

  type unit16 = u: int | 0 <= u < 0x1_0000

  /** A file name: a C string of 1 to 255 bytes. */
  predicate IsName(name: seq<byte>)
  {
    1 <= |name| <= MAX_NAME && forall i :: 0 <= i < |name| ==> name[i] != 0
  }

  // ---------------------------------------------------------------- C strings

  /** The bytes before the first NUL. */
  function CString(s: seq<byte>): (r: seq<byte>)
    ensures |r| <= |s| && r == s[..|r|]
    ensures |r| < |s| ==> s[|r|] == 0
    ensures forall i :: 0 <= i < |r| ==> r[i] != 0
  {
    if s == [] || s[0] == 0 then [] else [s[0]] + CString(s[1..])
  }

  lemma {:induction false} CStringIs(s: seq<byte>, n: nat)
    requires n < |s| && s[n] == 0 && forall i :: 0 <= i < n ==> s[i] != 0
    ensures CString(s) == s[..n]
  {
    if n > 0 {
      CStringIs(s[1..], n - 1);
    }
  }

  // ---------------------------------------------------------------- checksum

  function ChecksumStep(sum: byte, b: byte): (r: byte)
  {
    ((if sum % 2 == 1 then 0x80 else 0) + sum / 2 + b) % 0x100
  }

  function ChecksumOf(name: seq<byte>): (sum: byte)
  {
    if name == [] then 0 else ChecksumStep(ChecksumOf(name[..|name| - 1]), name[|name| - 1])
  }

  method Checksum(shortName: seq<byte>) returns (sum: byte)
    ensures sum == ChecksumOf(shortName)
  {
    sum := 0;
    for i := 0 to |shortName|
      invariant sum == ChecksumOf(shortName[..i])
    {
      assert shortName[..i + 1][..i] == shortName[..i];
      sum := ChecksumStep(sum, shortName[i]);
    }
    assert shortName[..|shortName|] == shortName;
  }

  // ---------------------------------------------------------------- encoding

  /** What unit `pos` of a name holds: a character, the terminator, or padding. */
  function UnitOf(name: seq<byte>, pos: nat): (u: unit16)
  {
    if pos < |name| then name[pos] else if pos == |name| then 0x0000 else 0xFFFF
  }

  function ChunkOf(name: seq<byte>, start: nat): (units: seq<unit16>)
    ensures |units| == UNITS
  {
    seq<unit16>(UNITS, i requires 0 <= i < UNITS => UnitOf(name, start + i))
  }

  /** Fill the 13 character units of a long entry from `start` on. */
  method FillChunk(name: seq<byte>, start: nat) returns (units: seq<unit16>)
    requires start <= |name|
    ensures units == ChunkOf(name, start)
  {
    units := [];
    var done := false;
    for i := 0 to UNITS
      invariant |units| == i && forall j :: 0 <= j < i ==> units[j] == UnitOf(name, start + j)
      invariant done <==> start + i > |name|
    {
      if !done && start + i < |name| {
        units := units + [name[start + i]];
      } else if !done {
        units := units + [0x0000];
        done := true;
      } else {
        units := units + [0xFFFF];
      }
    }
  }

  function Lo(u: unit16): (b: byte) { u % 0x100 }

  function Hi(u: unit16): (b: byte) { u / 0x100 }

  /** The slot layout of a long entry: five, six and two units around the fixed bytes. */
  function LongEntry(order: byte, checksum: byte, u: seq<unit16>): (s: Slot)
    requires |u| == UNITS
    ensures s[0] == order && s[11] == ATTR_LONG_NAME && s[13] == checksum
  {
    seq<byte>(SLOT_SIZE, k requires 0 <= k < SLOT_SIZE => LongByte(order, checksum, u, k))
  }

  function LongByte(order: byte, checksum: byte, u: seq<unit16>, k: nat): (b: byte)
    requires |u| == UNITS && k < SLOT_SIZE
  {
    if k == 0 then order
    else if k < 11 then Half(u[(k - 1) / 2], k - 1)
    else if k == 11 then ATTR_LONG_NAME
    else if k == 13 then checksum
    else if 14 <= k < 26 then Half(u[5 + (k - 14) / 2], k)
    else if 28 <= k then Half(u[11 + (k - 28) / 2], k)
    else 0
  }

  /** The low byte of a unit comes first. */
  function Half(u: unit16, k: nat): (b: byte)
  {
    if k % 2 == 0 then Lo(u) else Hi(u)
  }

  /** Where unit `i` starts in the slot. */
  function UnitOffset(i: nat): (o: nat)
    requires i < UNITS
    ensures o + 1 < SLOT_SIZE
  {
    if i < 5 then 1 + 2 * i else if i < 11 then 4 + 2 * i else 6 + 2 * i
  }

  function UnitsIn(s: Slot): (u: seq<unit16>)
    ensures |u| == UNITS
  {
    seq<unit16>(UNITS, i requires 0 <= i < UNITS => Le16(s[UnitOffset(i)], s[UnitOffset(i) + 1]))
  }

  lemma UnitsRoundTrip(order: byte, checksum: byte, u: seq<unit16>)
    requires |u| == UNITS
    ensures UnitsIn(LongEntry(order, checksum, u)) == u
  {
    var s := LongEntry(order, checksum, u);
    forall i | 0 <= i < UNITS
      ensures UnitsIn(s)[i] == u[i]
    {
      UnitBytes(order, checksum, u, i);
    }
  }

  lemma UnitBytes(order: byte, checksum: byte, u: seq<unit16>, i: nat)
    requires |u| == UNITS && i < UNITS
    ensures var s := LongEntry(order, checksum, u);
            s[UnitOffset(i)] == Lo(u[i]) && s[UnitOffset(i) + 1] == Hi(u[i])
  {
    hide Lo, Hi;
    var o := UnitOffset(i);
    if i < 5 {
      assert (o - 1) / 2 == i && (o + 1 - 1) / 2 == i;
    } else if i < 11 {
      assert (o - 14) / 2 == i - 5 && (o + 1 - 14) / 2 == i - 5;
    } else {
      assert (o - 28) / 2 == i - 11 && (o + 1 - 28) / 2 == i - 11;
    }
  }

  // ---------------------------------------------------------------- decoding one chunk

  predicate EndsText(u: unit16) { u == 0x0000 || u == 0xFFFF }

  function Ascii(u: unit16): (b: byte) { if u <= 0x7F then u else 0x3F }

  /** How many units are copied: up to a terminator, and never into the buffer's last byte. */
  function CopyLength(units: seq<unit16>, offset: nat): (n: nat)
    ensures n <= |units| && (n > 0 ==> offset + n < BUFFER)
    ensures forall i :: 0 <= i < n ==> !EndsText(units[i])
    ensures n < |units| && offset + n + 1 < BUFFER ==> EndsText(units[n])
  {
    if units == [] || offset + 1 >= BUFFER || EndsText(units[0]) then 0
    else 1 + CopyLength(units[1..], offset + 1)
  }

  /** The text buffer after decoding a chunk at `offset`. The driver always puts a terminator behind
      the text; after a full chunk it falls on the next chunk's first character. A decoder that only
      copies the terminator it finds is `trailing == false`. */
  function Decoded(buffer: seq<byte>, units: seq<unit16>, offset: nat, trailing: bool): (r: seq<byte>)
    requires |buffer| == BUFFER
    ensures |r| == BUFFER
  {
    seq<byte>(BUFFER, i requires 0 <= i < BUFFER => DecodedAt(buffer, units, offset, trailing, i))
  }

  function DecodedAt(buffer: seq<byte>, units: seq<unit16>, offset: nat, trailing: bool, i: nat): (b: byte)
    requires i < |buffer|
  {
    var n := CopyLength(units, offset);
    var stop := if offset + n < BUFFER then offset + n else BUFFER - 1;
    if offset <= i < offset + n then Ascii(units[i - offset])
    else if i == stop && (trailing || (n < |units| && EndsText(units[n]))) then 0
    else buffer[i]
  }

  method DecodeChunk(dest: array<byte>, units: seq<unit16>, offset: nat)
    requires dest.Length == BUFFER
    modifies dest
    ensures dest[..] == Decoded(old(dest[..]), units, offset, true)
  {
    hide CopyLength, Ascii, EndsText;
    var written, i := offset, 0;
    ghost var n := CopyLength(units, offset);
    assert units[0..] == units;
    while i < |units| && written + 1 < BUFFER
      invariant i <= |units| && written == offset + i
      invariant n == i + CopyLength(units[i..], offset + i)
      invariant forall j :: 0 <= j < BUFFER ==>
                  dest[j] == if offset <= j < offset + i then Ascii(units[j - offset]) else old(dest[j])
    {
      CopyNext(units, i, offset);
      if EndsText(units[i]) {
        dest[written] := 0;
        return;
      }
      dest[written] := Ascii(units[i]);
      written, i := written + 1, i + 1;
    }
    CopyEnds(units, i, offset);
    if written < BUFFER {
      dest[written] := 0;
    } else {
      dest[BUFFER - 1] := 0;
    }
  }

  lemma CopyNext(units: seq<unit16>, i: nat, offset: nat)
    requires i < |units| && offset + i + 1 < BUFFER
    ensures CopyLength(units[i..], offset + i)
            == if EndsText(units[i]) then 0 else 1 + CopyLength(units[i + 1..], offset + i + 1)
  {
    assert units[i..][1..] == units[i + 1..];
  }

  lemma CopyEnds(units: seq<unit16>, i: nat, offset: nat)
    requires i <= |units| && (i == |units| || offset + i + 1 >= BUFFER)
    ensures CopyLength(units[i..], offset + i) == 0
  {
  }

  // ---------------------------------------------------------------- collecting the chunks of a name

  /** What the iterator has gathered from the long entries seen since the last short one. */
  datatype Gathered =
    | Nothing
    | Pieces(expected: nat, collected: nat, checksum: byte, text: seq<byte>)

  ghost predicate TextOk(g: Gathered)
  {
    g.Pieces? ==> |g.text| == BUFFER
  }

  /** One long entry. */
  function Gather(g: Gathered, s: Slot, trailing: bool): (r: Gathered)
    requires TextOk(g)
    ensures TextOk(r)
  {
    var order := s[0] % 0x20;
    var g' := if s[0] / 0x40 % 2 == 1 then Pieces(order, 0, 0, seq<byte>(BUFFER, _ => 0)) else g;
    if order == 0 || g'.Nothing? || order > g'.expected then Nothing
    else Pieces(g'.expected, g'.collected + 1, s[13], Decoded(g'.text, UnitsIn(s), (order - 1) * UNITS, trailing))
  }

  function GatherAll(g: Gathered, slots: seq<Slot>, trailing: bool): (r: Gathered)
    requires TextOk(g)
    ensures TextOk(r)
  {
    if slots == [] then g
    else Gather(GatherAll(g, slots[..|slots| - 1], trailing), slots[|slots| - 1], trailing)
  }

  /** The long name for the short entry that follows, if the pieces are complete and belong to it. */
  function LongNameFor(g: Gathered, shortName: seq<byte>): (r: Option<seq<byte>>)
    requires TextOk(g)
  {
    if g.Pieces? && g.expected > 0 && g.collected == g.expected && g.checksum == ChecksumOf(shortName)
       && CString(g.text) != []
    then Some(CString(g.text)) else None
  }

  // ---------------------------------------------------------------- the entries of one name

  function EntryCount(name: seq<byte>): (n: nat)
    ensures IsName(name) ==> 1 <= n <= 20 && (n - 1) * UNITS < |name| <= n * UNITS
  {
    (|name| + UNITS - 1) / UNITS
  }

  /** Entry number `i` in directory order: the last chunk comes first and carries the 0x40 mark. */
  function EntryOf(name: seq<byte>, checksum: byte, i: nat): (s: Slot)
    requires IsName(name) && i < EntryCount(name)
    ensures IsLong(s) && s[13] == checksum
    ensures s[0] % 0x20 == EntryCount(name) - i && (s[0] / 0x40 % 2 == 1 <==> i == 0)
    ensures UnitsIn(s) == ChunkOf(name, (EntryCount(name) - i - 1) * UNITS)
  {
    hide UnitsIn, ChunkOf, IsLong, EntryCount, IsName;
    Numbered(EntryCount(name) - i, i == 0, checksum, ChunkOf(name, (EntryCount(name) - i - 1) * UNITS))
  }

  function Numbered(order: nat, first: bool, checksum: byte, units: seq<unit16>): (s: Slot)
    requires 1 <= order <= 20 && |units| == UNITS
    ensures IsLong(s) && s[13] == checksum && UnitsIn(s) == units
    ensures s[0] % 0x20 == order && (s[0] / 0x40 % 2 == 1 <==> first)
  {
    Marks(order);
    UnitsRoundTrip(OrderByte(order, first), checksum, units);
    hide LongEntry, UnitsIn, OrderByte;
    LongEntry(OrderByte(order, first), checksum, units)
  }

  /** The sequence number, with the mark of the entry that comes first. */
  function OrderByte(order: nat, first: bool): (b: byte)
    requires 1 <= order <= 20
  {
    if first then order + 0x40 else order
  }

  lemma Marks(order: nat)
    requires 1 <= order <= 20
    ensures forall first :: OrderByte(order, first) % 0x20 == order
              && (OrderByte(order, first) / 0x40 % 2 == 1 <==> first)
              && 0 < OrderByte(order, first) < 0x80
  {
  }

  function LongEntries(name: seq<byte>, checksum: byte): (r: seq<Slot>)
    requires IsName(name)
    ensures |r| == EntryCount(name)
    ensures forall i :: 0 <= i < |r| ==> r[i] == EntryOf(name, checksum, i)
  {
    seq<Slot>(EntryCount(name), i requires 0 <= i < EntryCount(name) => EntryOf(name, checksum, i))
  }

  // ---------------------------------------------------------------- what comes back

  function AsciiName(name: seq<byte>): (r: seq<byte>)
    requires forall i :: 0 <= i < |name| ==> name[i] != 0
    ensures |r| == |name| && forall i :: 0 <= i < |r| ==> r[i] == Ascii(name[i]) && r[i] != 0
    ensures (forall i :: 0 <= i < |name| ==> name[i] < 0x80) ==> r == name
  {
    seq<byte>(|name|, i requires 0 <= i < |name| => Ascii(name[i]))
  }

  lemma {:induction false} ChunkLength(name: seq<byte>, start: nat, i: nat)
    requires IsName(name) && start <= |name| && i <= UNITS && start + i <= |name|
    ensures CopyLength(ChunkOf(name, start)[i..], start + i)
            == (if start + UNITS < |name| then UNITS else |name| - start) - i
    decreases UNITS - i
  {
    var units := ChunkOf(name, start)[i..];
    if i < UNITS {
      assert units[0] == UnitOf(name, start + i);
      if start + i < |name| {
        assert units[1..] == ChunkOf(name, start)[i + 1..];
        ChunkLength(name, start, i + 1);
      }
    }
  }

  /** The piece at `start` decodes to exactly its own characters. */
  lemma PieceDecodes(name: seq<byte>, start: nat, text: seq<byte>, trailing: bool, k: nat)
    requires IsName(name) && start < |name| && |text| == BUFFER && k < BUFFER
    ensures var stop := if start + UNITS < |name| then start + UNITS else |name|;
            Decoded(text, ChunkOf(name, start), start, trailing)[k]
            == if start <= k < stop then Ascii(name[k])
               else if k == stop && (trailing || stop < start + UNITS) then 0 else text[k]
  {
    var units := ChunkOf(name, start);
    assert units[0..] == units;
    ChunkLength(name, start, 0);
    var n := CopyLength(units, start);
    assert n < UNITS ==> units[n] == UnitOf(name, start + n);
    assert forall i :: 0 <= i < n ==> units[i] == UnitOf(name, start + i);
  }

  /** Taking in entry number `i` after the `i` entries before it. */
  lemma GatherNext(name: seq<byte>, checksum: byte, g: Gathered, i: nat, trailing: bool)
    requires IsName(name) && i < EntryCount(name) && TextOk(g)
    requires var g' := GatherAll(g, LongEntries(name, checksum)[..i], trailing);
             i > 0 ==> g'.Pieces? && g'.expected == EntryCount(name) && g'.collected == i
    ensures (EntryCount(name) - i - 1) * UNITS < |name|
    ensures GatherAll(g, LongEntries(name, checksum)[..i + 1], trailing)
            == Pieces(EntryCount(name), i + 1, checksum, TextAfter(name, checksum, g, i, trailing))
  {
    hide Gather, EntryOf, Decoded;
    var entries := LongEntries(name, checksum)[..i + 1];
    assert entries[..i] == LongEntries(name, checksum)[..i] && entries[i] == EntryOf(name, checksum, i);
    GatherEntry(name, checksum, GatherAll(g, entries[..i], trailing), i, trailing);
  }

  lemma GatherEntry(name: seq<byte>, checksum: byte, g: Gathered, i: nat, trailing: bool)
    requires IsName(name) && i < EntryCount(name) && TextOk(g)
    requires i > 0 ==> g.Pieces? && g.expected == EntryCount(name) && g.collected == i
    ensures var text := if i == 0 then seq<byte>(BUFFER, _ => 0) else g.text;
            var start := (EntryCount(name) - i - 1) * UNITS;
            && 0 <= start < |name|
            && Gather(g, EntryOf(name, checksum, i), trailing)
               == Pieces(EntryCount(name), i + 1, checksum, Decoded(text, ChunkOf(name, start), start, trailing))
  {
    hide Decoded, LongEntry;
  }

  /** The text once entry number `i` has been taken in. */
  function TextAfter(name: seq<byte>, checksum: byte, g: Gathered, i: nat, trailing: bool): (r: seq<byte>)
    requires IsName(name) && i < EntryCount(name) && TextOk(g)
    requires i > 0 ==> GatherAll(g, LongEntries(name, checksum)[..i], trailing).Pieces?
    ensures |r| == BUFFER
  {
    var start := (EntryCount(name) - i - 1) * UNITS;
    var text := if i == 0 then seq<byte>(BUFFER, _ => 0)
                else GatherAll(g, LongEntries(name, checksum)[..i], trailing).text;
    Decoded(text, ChunkOf(name, start), start, trailing)
  }

  /** After `i` entries exactly `i` pieces of the right name have been collected. */
  lemma {:induction false} GatherPrefix(name: seq<byte>, checksum: byte, g: Gathered, i: nat, trailing: bool)
    requires IsName(name) && 1 <= i <= EntryCount(name) && TextOk(g)
    ensures var g' := GatherAll(g, LongEntries(name, checksum)[..i], trailing);
            g'.Pieces? && g'.expected == EntryCount(name) && g'.collected == i && g'.checksum == checksum
  {
    hide Gather, GatherAll, LongEntries, EntryOf, TextAfter;
    if i > 1 {
      GatherPrefix(name, checksum, g, i - 1, trailing);
    }
    GatherNext(name, checksum, g, i - 1, trailing);
  }

  /** The characters of a name that survive the driver's decoder. */
  function Shown(name: seq<byte>): (r: seq<byte>)
    requires IsName(name)
    ensures r != []
  {
    AsciiName(if |name| <= UNITS then name else name[..UNITS])
  }

  /** The entries written for a name are accepted, whatever was gathered before: count and checksum
      agree. The driver then reports the first 13 characters of the name. */
  lemma DriverRoundTrip(name: seq<byte>, shortName: seq<byte>, g: Gathered)
    requires IsName(name) && TextOk(g)
    ensures LongNameFor(GatherAll(g, LongEntries(name, ChecksumOf(shortName)), true), shortName) == Some(Shown(name))
  {
    hide Gather, GatherAll, LongEntries, EntryOf, Decoded, Shown;
    var checksum, n := ChecksumOf(shortName), EntryCount(name);
    var entries := LongEntries(name, checksum);
    assert entries[..n] == entries;
    GatherPrefix(name, checksum, g, n, true);
    if n > 1 {
      GatherPrefix(name, checksum, g, n - 1, true);
    }
    GatherNext(name, checksum, g, n - 1, true);
    FirstPiece(name, checksum, g);
    ShownIs(name, TextAfter(name, checksum, g, n - 1, true));
  }

  /** The entry that arrives last carries the first piece. */
  lemma FirstPiece(name: seq<byte>, checksum: byte, g: Gathered)
    requires IsName(name) && TextOk(g)
    requires var n := EntryCount(name);
             n > 1 ==> GatherAll(g, LongEntries(name, checksum)[..n - 1], true).Pieces?
    ensures var text := TextAfter(name, checksum, g, EntryCount(name) - 1, true);
            var stop := if UNITS < |name| then UNITS else |name|;
            text[stop] == 0 && forall k :: 0 <= k < stop ==> text[k] == Ascii(name[k])
  {
    hide Gather, GatherAll, LongEntries, EntryOf, Decoded;
    var n := EntryCount(name);
    var before := if n == 1 then seq<byte>(BUFFER, _ => 0)
                  else GatherAll(g, LongEntries(name, checksum)[..n - 1], true).text;
    var stop := if UNITS < |name| then UNITS else |name|;
    var text := TextAfter(name, checksum, g, n - 1, true);
    assert text == Decoded(before, ChunkOf(name, 0), 0, true);
    PieceDecodes(name, 0, before, true, stop);
    forall k | 0 <= k < stop
      ensures text[k] == Ascii(name[k])
    {
      PieceDecodes(name, 0, before, true, k);
    }
  }

  lemma ShownIs(name: seq<byte>, text: seq<byte>)
    requires IsName(name) && |text| == BUFFER
    requires var stop := if UNITS < |name| then UNITS else |name|;
             text[stop] == 0 && forall k :: 0 <= k < stop ==> text[k] == Ascii(name[k])
    ensures CString(text) == Shown(name)
  {
    var stop := if UNITS < |name| then UNITS else |name|;
    CStringIs(text, stop);
    assert text[..stop] == Shown(name);
  }

  /** So a name comes back exactly if and only if it is ASCII and has at most 13 characters. */
  lemma DriverKeepsShortNames(name: seq<byte>)
    requires IsName(name)
    ensures Shown(name) == name <==> |name| <= UNITS && forall i :: 0 <= i < |name| ==> name[i] < 0x80
  {
    if Shown(name) == name {
      assert |Shown(name)| == |name|;
      forall i | 0 <= i < |name|
        ensures name[i] < 0x80
      {
        assert Shown(name)[i] == name[i];
      }
    }
  }

  /** With the intended decoder the text after `i` entries is the tail of the name over zeros. */
  lemma {:induction false} IntendedPrefix(name: seq<byte>, checksum: byte, g: Gathered, i: nat)
    requires IsName(name) && i < EntryCount(name) && TextOk(g)
    requires i > 0 ==> GatherAll(g, LongEntries(name, checksum)[..i], false).Pieces?
    ensures var from := (EntryCount(name) - i - 1) * UNITS;
            forall k :: 0 <= k < BUFFER ==>
              TextAfter(name, checksum, g, i, false)[k] == if from <= k < |name| then Ascii(name[k]) else 0
  {
    hide Gather, GatherAll, LongEntries, EntryOf, Decoded;
    var before := if i == 0 then seq<byte>(BUFFER, _ => 0)
                  else GatherAll(g, LongEntries(name, checksum)[..i], false).text;
    if i > 0 {
      if i > 1 {
        GatherPrefix(name, checksum, g, i - 1, false);
      }
      GatherNext(name, checksum, g, i - 1, false);
      IntendedPrefix(name, checksum, g, i - 1);
    }
    var start := (EntryCount(name) - i - 1) * UNITS;
    forall k | 0 <= k < BUFFER
      ensures TextAfter(name, checksum, g, i, false)[k] == if start <= k < |name| then Ascii(name[k]) else 0
    {
      PieceDecodes(name, start, before, false, k);
    }
  }

  /** Without the extra terminator every name of 1 to 255 bytes comes back whole. */
  lemma IntendedRoundTrip(name: seq<byte>, shortName: seq<byte>, g: Gathered)
    requires IsName(name) && TextOk(g)
    ensures LongNameFor(GatherAll(g, LongEntries(name, ChecksumOf(shortName)), false), shortName)
            == Some(AsciiName(name))
  {
    hide Gather, GatherAll, LongEntries, EntryOf, Decoded, TextAfter;
    var checksum, n := ChecksumOf(shortName), EntryCount(name);
    assert LongEntries(name, checksum)[..n] == LongEntries(name, checksum);
    GatherPrefix(name, checksum, g, n, false);
    if n > 1 {
      GatherPrefix(name, checksum, g, n - 1, false);
    }
    GatherNext(name, checksum, g, n - 1, false);
    IntendedPrefix(name, checksum, g, n - 1);
    WholeText(name, TextAfter(name, checksum, g, n - 1, false));
  }

  lemma WholeText(name: seq<byte>, text: seq<byte>)
    requires IsName(name) && |text| == BUFFER
    requires forall k :: 0 <= k < BUFFER ==> text[k] == if k < |name| then Ascii(name[k]) else 0
    ensures CString(text) == AsciiName(name)
  {
    CStringIs(text, |name|);
    assert text[..|name|] == AsciiName(name);
  }
}
