/** Reading directories: the iterator with its callback, looking up names, and choosing short names
    that are not taken. */
module FatSearch {
  import opened Machine
  import opened FatTable
  import opened FatData
  import opened FatSlot
  import opened FatVolume
  import opened FatLongName
  import opened FatShortName
  import opened FatListing
  import opened FatDirData

  /** The slots of the directory at `dir`. */
  ghost function DirOf(v: Volume, dir: nat): seq<Slot>
    reads v
  {
    DirSlots(v.disk, v.ChainOf(dir))
  }

  ghost function ListingOf(v: Volume, dir: nat): seq<Item>
    reads v
  {
    Listing(DirOf(v, dir))
  }

  // ---------------------------------------------------------------- stopping at an item

  ghost predicate NoStop(items: seq<Item>, stop: Item -> bool)
  {
    forall i :: 0 <= i < |items| ==> !stop(items[i])
  }

  /** The items up to and including the first that stops the iteration. */
  function Until(items: seq<Item>, stop: Item -> bool): (r: seq<Item>)
    ensures r <= items
    ensures r != items ==> r != [] && stop(r[|r| - 1])
    ensures forall i :: 0 <= i < |r| - 1 ==> !stop(r[i])
  {
    if items == [] || stop(items[0]) then items[..if items == [] then 0 else 1]
    else [items[0]] + Until(items[1..], stop)
  }

  lemma {:induction false} UntilNone(items: seq<Item>, stop: Item -> bool)
    requires NoStop(items, stop)
    ensures Until(items, stop) == items
  {
    if items != [] {
      UntilNone(items[1..], stop);
    }
  }

  lemma {:induction false} UntilStopped(items: seq<Item>, seen: seq<Item>, stop: Item -> bool)
    requires seen <= items && seen != [] && stop(seen[|seen| - 1]) && NoStop(seen[..|seen| - 1], stop)
    ensures Until(items, stop) == seen
  {
    if |seen| > 1 {
      assert seen[..|seen| - 1][0] == seen[0];
      assert seen[1..][..|seen| - 2] == seen[..|seen| - 1][1..];
      UntilStopped(items[1..], seen[1..], stop);
    } else {
      assert items[..1] == seen;
    }
  }

  /** Scanning further only adds items. */
  lemma ScanPrefix(sc: Scan, a: seq<Slot>, b: seq<Slot>, at: nat)
    requires ScanOk(sc)
    ensures ScanFrom(sc, a, at).items <= ScanFrom(sc, a + b, at).items
  {
    hide ScanFrom;
    ScanJoin(sc, a, b, at);
    ScanItems(ScanFrom(sc, a, at), b, at + |a|);
  }

  // ---------------------------------------------------------------- the iterator

  /** The inner loop: the slots of one cluster, the first of which has number `at`. */
  method IterateCluster(block: seq<byte>, before: Scan, at: nat, stop: Item -> bool)
    returns (sc: Scan, stopped: bool, k: nat)
    requires ScanOk(before) && !before.ended && NoStop(before.items, stop)
    ensures ScanOk(sc) && k <= |Slots(block)|
    ensures sc == ScanFrom(before, Slots(block)[..k], at)
    ensures stopped ==> k > 0 && sc.items != [] && sc.items[|sc.items| - 1].at == at + k - 1
    ensures if stopped then sc.items != [] && stop(sc.items[|sc.items| - 1]) && NoStop(sc.items[..|sc.items| - 1], stop)
            else (sc.ended || k == |Slots(block)|) && NoStop(sc.items, stop)
  {
    hide Visit;
    sc, stopped, k := before, false, 0;
    while k < |block| / SLOT_SIZE && !sc.ended
      invariant k <= |Slots(block)|
      invariant ScanOk(sc) && sc == ScanFrom(before, Slots(block)[..k], at)
      invariant NoStop(sc.items, stop)
    {
      assert Slots(block)[..k + 1][..k] == Slots(block)[..k];
      var was := |sc.items|;
      VisitAdds(sc, SlotAt(block, k), at + k);
      sc := Visit(sc, SlotAt(block, k), at + k);
      k := k + 1;
      if |sc.items| > was && stop(sc.items[was]) {
        return sc, true, k;
      }
    }
  }

  lemma VisitAdds(sc: Scan, s: Slot, at: nat)
    requires ScanOk(sc)
    ensures var r := Visit(sc, s, at);
            && |r.items| <= |sc.items| + 1
            && r.items[..|sc.items|] == sc.items
            && (|r.items| > |sc.items| ==> r.items[|sc.items|].at == at)
            && (r.ended ==> r.items == sc.items)
  {
    hide Gather, LongNameFor, Spelled, IsLong, IsVolume;
  }

  /** Walk a directory, handing each item to the callback until it asks to stop. Fails when memory or
      the device does. */
  method Iterate(v: Volume, dir: nat, stop: Item -> bool) returns (ok: bool, seen: seq<Item>, location: Location)
    requires v.Valid() && dir in v.chains
    ensures ok ==> seen == Until(ListingOf(v, dir), stop)
    ensures ok && seen != [] && stop(seen[|seen| - 1]) ==> StoredAt(v, dir, seen[|seen| - 1].at, location)
    ensures v.reliable ==> ok
  {
    hide Volume.Valid, ScanFrom, DirSlots, Until, Shaped, Span, LocationOf;
    v.ChainShape(dir);
    ok, seen, location := false, [], Location(0, 0);
    var failed := v.Fails();
    if failed {
      return;
    }
    ghost var chain, i := v.ChainOf(dir), 0;
    var current, at, sc := dir, 0, START;
    NothingScanned(v.disk, chain);
    while true
      invariant i < |chain| && current == chain[i]
      invariant ScanOk(sc) && !sc.ended && NoStop(sc.items, stop)
      invariant sc == ScanFrom(START, DirSlots(v.disk, chain[..i]), 0)
      invariant at == |DirSlots(v.disk, chain[..i])| && at == Span(i, v.ClusterSize() / SLOT_SIZE)
      decreases |chain| - i
    {
      var read, block := v.ReadCluster(current);
      if !read {
        return;
      }
      var stopped, k;
      ghost var before := sc;
      sc, stopped, k := IterateCluster(block, sc, at, stop);
      ClusterScanned(v.disk, v.ClusterSize(), chain, i, k, before, sc);
      v.ChainStep(dir, i);
      if stopped || sc.ended {
        FinishScan(v.disk, chain, sc, stop, stopped);
        if stopped {
          LocationIndex(chain, v.ClusterSize() / SLOT_SIZE, i, k - 1);
          location := Location(current, k - 1);
        }
        return true, sc.items, location;
      }
      var next := v.GetNextCluster(current);
      at := at + |block| / SLOT_SIZE;
      if IsEnd(next) {
        assert chain[..i + 1] == chain;
        FinishScan(v.disk, chain, sc, stop, stopped);
        return true, sc.items, location;
      }
      SpanNext(i, v.ClusterSize() / SLOT_SIZE);
      current, i := next, i + 1;
    }
  }

  /** Where slot `at` of a directory is stored. */
  ghost predicate StoredAt(v: Volume, dir: nat, at: nat, location: Location)
    reads v
  {
    && at < Span(|v.ChainOf(dir)|, v.ClusterSize() / SLOT_SIZE)
    && LocationOf(v.ChainOf(dir), v.ClusterSize() / SLOT_SIZE, at) == location
  }

  lemma SpanNext(i: nat, per: nat)
    ensures Span(i + 1, per) == Span(i, per) + per
  {
  }

  lemma NothingScanned(disk: Disk, chain: seq<nat>)
    ensures Span(0, 0) == 0 && forall per :: Span(0, per) == 0
    ensures DirSlots(disk, chain[..0]) == [] && ScanFrom(START, [], 0) == START
  {
  }

  /** After `k` slots of cluster `i` the scan is the scan of a prefix of the directory. */
  lemma ClusterScanned(disk: Disk, cs: nat, chain: seq<nat>, i: nat, k: nat, before: Scan, sc: Scan)
    requires Shaped(disk, cs, chain) && cs % SLOT_SIZE == 0 && i < |chain| && k <= |Slots(disk[chain[i]])|
    requires before == ScanFrom(START, DirSlots(disk, chain[..i]), 0)
    requires sc == ScanFrom(before, Slots(disk[chain[i]])[..k], |DirSlots(disk, chain[..i])|)
    ensures Scanned(disk, chain, sc)
    ensures k == |Slots(disk[chain[i]])| ==> sc == ScanFrom(START, DirSlots(disk, chain[..i + 1]), 0)
    ensures |DirSlots(disk, chain[..i + 1])| == |DirSlots(disk, chain[..i])| + |disk[chain[i]]| / SLOT_SIZE
  {
    hide ScanFrom;
    SlotsNext(disk, cs, chain, i);
    var front, mine := DirSlots(disk, chain[..i]), Slots(disk[chain[i]]);
    ScanJoin(START, front, mine[..k], 0);
    var all := DirSlots(disk, chain);
    assert front + mine[..k] == all[..|front| + k];
    assert k == |mine| ==> mine[..k] == mine;
  }

  /** `sc` is the scan of some prefix of the directory. */
  ghost predicate Scanned(disk: Disk, chain: seq<nat>, sc: Scan)
  {
    exists n: nat :: n <= |DirSlots(disk, chain)| && sc == ScanFrom(START, DirSlots(disk, chain)[..n], 0)
  }

  lemma FinishScan(disk: Disk, chain: seq<nat>, sc: Scan, stop: Item -> bool, stopped: bool)
    requires Scanned(disk, chain, sc)
    requires stopped || sc.ended || sc == ScanFrom(START, DirSlots(disk, chain), 0)
    requires if stopped then sc.items != [] && stop(sc.items[|sc.items| - 1])
               && NoStop(sc.items[..|sc.items| - 1], stop)
             else NoStop(sc.items, stop)
    ensures sc.items == Until(Listing(DirSlots(disk, chain)), stop)
  {
    hide ScanFrom, Until, DirSlots;
    var all := DirSlots(disk, chain);
    var n: nat :| n <= |all| && sc == ScanFrom(START, all[..n], 0);
    assert all == all[..n] + all[n..];
    ScanJoin(START, all[..n], all[n..], 0);
    ScanPrefix(START, all[..n], all[n..], 0);
    if stopped {
      UntilStopped(Listing(all), sc.items, stop);
    } else {
      if sc.ended {
        ScanEnded(sc, all[n..], n);
      }
      UntilNone(Listing(all), stop);
    }
  }

  // ---------------------------------------------------------------- looking up a name

  /** Equality of C strings up to the case of ASCII letters. */
  predicate CaseEqual(a: seq<byte>, b: seq<byte>)
  {
    |a| == |b| && forall i :: 0 <= i < |a| ==> ToLower(a[i]) == ToLower(b[i])
  }

  predicate Matches(it: Item, name: seq<byte>)
  {
    CaseEqual(it.name, name) || CaseEqual(CString(Spelled(ShortName(it.entry))), name)
  }

  /** The first entry whose shown name or short name matches. */
  function FirstMatch(items: seq<Item>, name: seq<byte>): (r: Option<Item>)
    ensures r.Some? ==> r.value in items && Matches(r.value, name)
    ensures r.None? ==> forall it :: it in items ==> !Matches(it, name)
  {
    if items == [] then None
    else if Matches(items[0], name) then Some(items[0])
    else FirstMatch(items[1..], name)
  }

  lemma {:induction false} UntilMatch(items: seq<Item>, stop: Item -> bool, name: seq<byte>)
    requires forall it :: stop(it) <==> Matches(it, name)
    ensures var seen := Until(items, stop);
            FirstMatch(items, name)
            == if seen != [] && Matches(seen[|seen| - 1], name) then Some(seen[|seen| - 1]) else None
  {
    hide Matches;
    if items != [] && !stop(items[0]) {
      UntilMatch(items[1..], stop, name);
    }
  }

  method FindEntry(v: Volume, dir: nat, name: seq<byte>)
    returns (ok: bool, found: Option<Item>, location: Location)
    requires v.Valid() && dir in v.chains
    ensures ok ==> found == FirstMatch(ListingOf(v, dir), name)
    ensures ok && found.Some? ==> StoredAt(v, dir, found.value.at, location)
    ensures v.reliable ==> ok
  {
    hide Volume.Valid, Matches, StoredAt, ListingOf, Until, FirstMatch;
    var stop := (it: Item) => Matches(it, name);
    var seen;
    ok, seen, location := Iterate(v, dir, stop);
    found := None;
    if seen != [] && Matches(seen[|seen| - 1], name) {
      found := Some(seen[|seen| - 1]);
    }
    UntilMatch(ListingOf(v, dir), stop, name);
  }

  ghost function Shorts(items: seq<Item>): set<seq<byte>>
  {
    set i | 0 <= i < |items| :: ShortName(items[i].entry)
  }

  method ShortNameExists(v: Volume, dir: nat, short: seq<byte>) returns (ok: bool, exist: bool)
    requires v.Valid() && dir in v.chains
    ensures ok ==> (exist <==> short in Shorts(ListingOf(v, dir)))
    ensures v.reliable ==> ok
  {
    hide Volume.Valid, ShortName, ListingOf, Until, Shorts, StoredAt;
    var stop := (it: Item) => ShortName(it.entry) == short;
    var seen, location;
    ok, seen, location := Iterate(v, dir, stop);
    exist := seen != [] && ShortName(seen[|seen| - 1].entry) == short;
    UntilShort(ListingOf(v, dir), stop, short);
  }

  lemma {:induction false} UntilShort(items: seq<Item>, stop: Item -> bool, short: seq<byte>)
    requires forall it :: stop(it) <==> ShortName(it.entry) == short
    ensures var seen := Until(items, stop);
            seen != [] && ShortName(seen[|seen| - 1].entry) == short <==> short in Shorts(items)
  {
    hide ShortName;
    if items != [] && !stop(items[0]) {
      UntilShort(items[1..], stop, short);
      ShortsOf(items);
    } else if items != [] {
      ShortsOf(items);
    }
  }

  lemma ShortsOf(items: seq<Item>)
    requires items != []
    ensures Shorts(items) == {ShortName(items[0].entry)} + Shorts(items[1..])
  {
    hide ShortName;
    forall s | s in Shorts(items)
      ensures s in {ShortName(items[0].entry)} + Shorts(items[1..])
    {
      var i :| 0 <= i < |items| && s == ShortName(items[i].entry);
      if i > 0 {
        assert items[1..][i - 1] == items[i];
      }
    }
    forall i | 0 <= i < |items[1..]|
      ensures ShortName(items[1..][i].entry) in Shorts(items)
    {
      assert items[1..][i] == items[i + 1];
    }
  }

  // ---------------------------------------------------------------- choosing a short name

  /** The lowest-numbered alias that is not taken. In a directory of m short names it is among the
      first m + 1, so a reliable volume always has one unless all the numbers are used up. */
  method GenerateAlias(v: Volume, dir: nat, name: seq<byte>) returns (r: Option<seq<byte>>, ghost suffix: nat)
    requires v.Valid() && dir in v.chains
    ensures r.Some? ==>
              && 1 <= suffix < SUFFIXES && r.value == Candidate(StemOf(name), suffix)
              && r.value !in Shorts(ListingOf(v, dir))
              && (forall t :: 1 <= t < suffix ==> Candidate(StemOf(name), t) in Shorts(ListingOf(v, dir)))
    ensures r.Some? ==> suffix <= |Shorts(ListingOf(v, dir))| + 1
    ensures v.reliable && r.None? ==> AliasesUsedUp(ListingOf(v, dir))
  {
    hide Volume.Valid, Shorts, Candidate, ListingOf;
    var stem := StemOf(name);
    ghost var taken := Shorts(ListingOf(v, dir));
    var s := 1;
    while s < SUFFIXES
      invariant 1 <= s <= SUFFIXES
      invariant forall t :: 1 <= t < s ==> Candidate(stem, t) in taken
    {
      var digits := CountDigits(s);
      SuffixLength(s);
      assert digits < 7;
      var candidate := Candidate(stem, s);
      var ok, exist := ShortNameExists(v, dir, candidate);
      if !ok {
        return None, 0;
      }
      if !exist {
        if |taken| + 1 < SUFFIXES {
          AliasWithinReach(stem, taken);
        }
        return Some(candidate), s;
      }
      s := s + 1;
    }
    if |taken| + 1 < SUFFIXES {
      AliasWithinReach(stem, taken);
    }
    return None, 0;
  }

  datatype Chosen = Chosen(short: seq<byte>, long: bool)

  /** The short name for a new entry, and whether it needs long entries to show its real name. */
  method PrepareShortName(v: Volume, dir: nat, name: seq<byte>) returns (r: Option<Chosen>)
    requires v.Valid() && dir in v.chains && IsName(name)
    ensures r.Some? ==> GoodChoice(r.value, name, ListingOf(v, dir))
    ensures v.reliable && r.None? ==> AliasesUsedUp(ListingOf(v, dir))
  {
    hide Volume.Valid, Shorts, Candidate, ListingOf, GoodChoice, PlainShort, Spelled, CString;
    var plain := PlainShort(name);
    if plain.Some? {
      var spelled := CString(Spelled(plain.value));
      var ok, exist := ShortNameExists(v, dir, plain.value);
      if !ok {
        return None;
      }
      if !exist {
        PlainIsGood(name, ListingOf(v, dir));
        return Some(Chosen(plain.value, spelled != name));
      }
    }
    var alias;
    ghost var suffix;
    alias, suffix := GenerateAlias(v, dir, name);
    if alias.None? {
      return None;
    }
    AliasIsGood(name, ListingOf(v, dir), suffix);
    return Some(Chosen(alias.value, true));
  }

  lemma PlainIsGood(name: seq<byte>, items: seq<Item>)
    requires IsName(name) && PlainShort(name).Some? && PlainShort(name).value !in Shorts(items)
    ensures var short := PlainShort(name).value;
            GoodChoice(Chosen(short, CString(Spelled(short)) != name), name, items)
  {
    hide Shorts, CString, Spelled;
  }

  lemma AliasIsGood(name: seq<byte>, items: seq<Item>, suffix: nat)
    requires IsName(name) && 1 <= suffix < SUFFIXES && Candidate(StemOf(name), suffix) !in Shorts(items)
    requires PlainShort(name).None? || PlainShort(name).value in Shorts(items)
    ensures GoodChoice(Chosen(Candidate(StemOf(name), suffix), true), name, items)
  {
    hide Shorts, CString, Spelled, PlainShort, StemOf;
    CandidateIsPrintable(StemOf(name), suffix);
  }

  /** An unused 8.3 name that marks a live entry, and spells the name if it stands alone. */
  ghost predicate GoodChoice(c: Chosen, name: seq<byte>, items: seq<Item>)
    requires IsName(name)
  {
    && |c.short| == SHORT_SIZE
    && c.short !in Shorts(items)
    && c.short[0] != MARK_END && c.short[0] != DOT
    && (c.short[0] == MARK_DELETED <==> Vanishes(name, items))
    && (!c.long ==> CString(Spelled(c.short)) == name)
    && (c.long <==> NeedsLong(name, items))
    && (if PlainFree(name, items) then c.short == PlainShort(name).value else Printable(c.short))
  }

  /** The name has a plain short form, and no item has it yet. */
  ghost predicate PlainFree(name: seq<byte>, items: seq<Item>)
  {
    PlainShort(name).Some? && PlainShort(name).value !in Shorts(items)
  }

  /** Whether a new entry needs long entries: its name is not its short name, or that one is taken. */
  ghost predicate NeedsLong(name: seq<byte>, items: seq<Item>)
  {
    !PlainFree(name, items) || CString(Spelled(PlainShort(name).value)) != name
  }

  /** Whether a new entry is deleted on arrival: its name gives its short name, and begins with the mark. */
  ghost predicate Vanishes(name: seq<byte>, items: seq<Item>)
    requires IsName(name)
  {
    PlainFree(name, items) && name[0] == MARK_DELETED
  }

  /** How many slots a new entry takes. */
  ghost function SlotsNeeded(name: seq<byte>, items: seq<Item>): nat
    requires IsName(name)
  {
    (if NeedsLong(name, items) then EntryCount(name) else 0) + 1
  }

  /** How a new entry presents itself in the directory that now holds `slots`: by a short name that none
      of `items` has, which spells its name if there is nothing else, and by what the driver leaves of its
      long entries, or by whatever a long name left behind in front of its slot makes of it. */
  ghost predicate NamedAs(slots: seq<Slot>, it: Item, name: seq<byte>, items: seq<Item>)
    requires IsName(name)
  {
    && it.at < |slots| && ShortName(it.entry) !in Shorts(items)
    && (if PlainFree(name, items) then ShortName(it.entry) == PlainShort(name).value
        else Printable(ShortName(it.entry)))
    && it.name == NameBehind(GatheredAt(slots, it.at), name, NeedsLong(name, items), it.entry)
    && (NeedsLong(name, items) || CString(Spelled(ShortName(it.entry))) == name)
  }

  /** A new entry that needs no long entries is shown by its own name, unless long entries for an equal
      checksum stand in front of it. */
  lemma PlainIsShown(slots: seq<Slot>, it: Item, name: seq<byte>, items: seq<Item>)
    requires IsName(name) && NamedAs(slots, it, name, items) && !NeedsLong(name, items)
    ensures var long := LongNameFor(GatheredAt(slots, it.at), ShortName(it.entry));
            it.name == if long.Some? then long.value else name
  {
    hide LongNameFor, NeedsLong, Shorts, Spelled, CString, GatheredAt;
  }

  /** So it goes with the name of 0xE5 and `o`, followed by the name `B`: this one is shown as `?o`. */
  lemma OrphanRenames()
    ensures var was, name := [MARK_DELETED, 0x6F], [0x42];
            && IsName(was) && Vanishes(was, []) && NeedsLong(was, [])
            && IsName(name) && PlainShort(name).Some? && !NeedsLong(name, [])
            && var s, s' := PlainEntry(was), PlainEntry(name);
               Listing(Replaced(EntriesFor(was, true, s), 1, EntriesFor(name, false, s')))
               == [Item(1, s', [0x3F, 0x6F])]
  {
    hide PlainShort, Spelled, CString, ChecksumOf, Shown, Listing, EntriesFor, Replaced, Vanishes, NeedsLong, IsShort,
      IsName, PlainEntry, ShortName;
    var was, name: seq<byte> := [MARK_DELETED, 0x6F], [0x42];
    OrphanNames(was, name);
    var s, s' := PlainEntry(was), PlainEntry(name);
    PlainBytes(was);
    PlainBytes(name);
    OrphanTakesOver(was, s, s');
    TwoSlots(was, name, s, s');
  }

  lemma TwoSlots(was: seq<byte>, name: seq<byte>, s: Slot, s': Slot)
    requires IsName(was) && |was| == 2 && IsName(name)
    ensures |EntriesFor(was, true, s)| == 2 && EntriesFor(name, false, s') == [s']
  {
    hide LongEntries;
    assert EntryCount(was) == 1;
  }

  lemma OrphanNames(was: seq<byte>, name: seq<byte>)
    requires was == [MARK_DELETED, 0x6F] && name == [0x42]
    ensures IsName(was) && PlainShort(was).Some? && Vanishes(was, []) && NeedsLong(was, [])
    ensures IsName(name) && PlainShort(name).Some? && !NeedsLong(name, [])
    ensures ChecksumOf(PlainShort(name).value) == ChecksumOf(PlainShort(was).value) && Shown(was) == [0x3F, 0x6F]
  {
    hide PlainShort, Spelled, CString, ChecksumOf, Shown, Pad;
    PlainUndotted(was, [MARK_DELETED, 0x4F]);
    PlainUndotted(name, name);
    PaddedSums([MARK_DELETED, 0x4F], name);
    ShownAs(was, [0x3F, 0x6F]);
  }

  /** The entry of a new file with a plain short name. */
  function PlainEntry(name: seq<byte>): Slot
    requires PlainShort(name).Some?
  {
    ShortEntry(PlainShort(name).value, ATTR_ARCHIVE, 0, 0)
  }

  lemma PlainBytes(name: seq<byte>)
    requires PlainShort(name).Some? && name[0] != 0
    ensures var s := PlainEntry(name);
            s[0] == ToUpper(name[0]) && (s[0] != MARK_DELETED ==> IsShort(s)) && ShortName(s) == PlainShort(name).value
  {
    hide PlainShort;
    var s := PlainEntry(name);
    assert s[0] == ShortName(s)[0];
  }

  lemma PaddedSums(wasShort: seq<byte>, short: seq<byte>)
    requires wasShort == [MARK_DELETED, 0x4F] && short == [0x42]
    ensures ChecksumOf(Pad(wasShort, 8) + Pad([], 3)) == ChecksumOf(Pad(short, 8) + Pad([], 3))
  {
    hide ChecksumOf;
    var spaces: seq<byte> := seq(9, _ => SPACE);
    assert Pad(wasShort, 8) + Pad([], 3) == wasShort + spaces;
    assert Pad(short, 8) + Pad([], 3) == [0x42, SPACE] + spaces;
    SumOfTwo(MARK_DELETED, 0x4F);
    SumOfTwo(0x42, SPACE);
    SumExtends(wasShort, [0x42, SPACE], spaces);
  }

  lemma SumOfTwo(a: byte, b: byte)
    ensures ChecksumOf([a, b]) == ChecksumStep(a, b)
  {
    hide ChecksumStep;
    assert [a, b][..1] == [a] && [a][..0] == [];
    assert ChecksumOf([]) == 0 && ChecksumStep(0, a) == a by {
      FirstStep(a);
    }
  }

  lemma FirstStep(a: byte)
    ensures ChecksumStep(0, a) == a
  {
  }

  lemma ShownAs(name: seq<byte>, shown: seq<byte>)
    requires IsName(name) && |name| == |shown| <= UNITS && forall i :: 0 <= i < |name| ==> shown[i] == Ascii(name[i])
    ensures Shown(name) == shown
  {
  }

  /** A name without a dot is padded and displayed in upper case. */
  lemma PlainUndotted(name: seq<byte>, upper: seq<byte>)
    requires 1 <= |name| <= 8 && FitsShort(name) && upper == Upper(name) && upper[0] != 0x05
    requires forall i :: 0 <= i < |upper| ==> upper[i] != 0 && upper[i] != SPACE
    ensures PlainShort(name) == Some(Pad(upper, 8) + Pad([], 3))
    ensures CString(Spelled(PlainShort(name).value)) == upper
  {
    hide Spelled, CString;
    assert FirstDot(name) == |name| && name[..|name|] == name && Upper([]) == [];
    var short := PlainShort(name).value;
    assert [short[0]] + short[1..8] == Pad(upper, 8) && short[8..] == Pad([], 3);
    UnpaddedPad(upper, 8);
    UnpaddedPad([], 3);
    SpelledWithout(short);
    WholeCString(upper);
  }

  lemma SpelledWithout(short: seq<byte>)
    requires |short| == SHORT_SIZE && short[0] != 0x05 && Unpadded(short[8..]) == []
    ensures Spelled(short) == Unpadded([short[0]] + short[1..8])
  {
  }

  lemma {:induction false} WholeCString(s: seq<byte>)
    requires forall i :: 0 <= i < |s| ==> s[i] != 0
    ensures CString(s) == s
  {
    if s != [] {
      WholeCString(s[1..]);
    }
  }

  lemma {:induction false} SumExtends(a: seq<byte>, b: seq<byte>, c: seq<byte>)
    requires ChecksumOf(a) == ChecksumOf(b)
    ensures ChecksumOf(a + c) == ChecksumOf(b + c)
    decreases |c|
  {
    hide ChecksumStep;
    if c == [] {
      assert a + c == a && b + c == b;
    } else {
      var n := |c| - 1;
      SumExtends(a, b, c[..n]);
      assert (a + c)[..|a| + n] == a + c[..n] && (b + c)[..|b| + n] == b + c[..n];
    }
  }

  /** Every alias may be taken. */
  ghost predicate AliasesUsedUp(items: seq<Item>)
  {
    |Shorts(items)| + 1 >= SUFFIXES
  }

  /** The name that consists of the byte 0xE5 is one that is lost. */
  lemma MarkedNameIsLost()
    ensures IsName([MARK_DELETED]) && PlainShort([MARK_DELETED]).Some?
    ensures IsFree(ShortEntry(PlainShort([MARK_DELETED]).value, ATTR_ARCHIVE, 0, 0))
  {
    DeletedOnArrival([MARK_DELETED], ATTR_ARCHIVE, 0);
  }

  /** A plain short name may begin with the byte that marks deleted slots: such an entry is free the
      moment it is written. */
  lemma DeletedOnArrival(name: seq<byte>, attributes: byte, cluster: uint32)
    requires IsName(name) && PlainShort(name).Some?
    ensures IsFree(ShortEntry(PlainShort(name).value, attributes, cluster, 0)) <==> name[0] == MARK_DELETED
  {
    var s := ShortEntry(PlainShort(name).value, attributes, cluster, 0);
    assert s[0] == ShortName(s)[0];
  }
}
