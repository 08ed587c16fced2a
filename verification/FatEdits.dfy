/** What deleting an entry and writing a file do to the directory tree. */
module FatEdits {
  import opened Machine
  import opened FatTable
  import opened FatData
  import opened FatSlot
  import opened FatVolume
  import opened FatFile
  import opened FatCursor
  import opened FatListing
  import opened FatDirData
  import opened FatDirectory
  import opened FatItems
  import opened FatTree
  import opened FatSteps
  import opened FatLookup

  // ---------------------------------------------------------------- deleting

  /** Deleting the run of an item's slots takes exactly that item out of the listing. */
  lemma DeletedItem(slots: seq<Slot>, l: nat, it: Item) returns (before: seq<Item>, after: seq<Item>)
    requires it in Listing(slots) && NameRun(slots, l, it.at)
    ensures Listing(slots) == before + [it] + after && Listing(WithDeleted(slots, l, it.at)) == before + after
    ensures it !in before && it !in after
  {
    hide ScanFrom, WithDeleted, IsLong;
    var e := it.at;
    ListingAt(slots, it);
    DeleteOne(slots, l, e);
    before, after := Listing(slots[..l]), ScanFrom(START, slots[e + 1..], e + 1).items;
    ScanReports(slots[..l], 0);
    ScanReports(slots[e + 1..], e + 1);
    var name :| Listing(slots) == before + [Item(e, slots[e], name)] + after;
    assert forall kt :: kt in before ==> Reported(slots[..l], 0, kt);
    assert forall kt :: kt in after ==> Reported(slots[e + 1..], e + 1, kt);
    assert it in before + [Item(e, slots[e], name)] + after;
  }

  /** `u` lists everything `t` does except `it` in directory `x`, whose chain is gone with it. */
  ghost predicate ItemRemoved(t: Tree, u: Tree, x: nat, it: Item)
  {
    && t.root == u.root && t.depth == u.depth
    && u.dirs == (if Owns(it) then t.dirs - {ClusterOf(it)} else t.dirs)
    && u.chains == (if Owns(it) then t.chains - {ClusterOf(it)} else t.chains)
    && Inserted(ItemsIn(u, x), ItemsIn(t, x), it)
    && (forall d :: d in u.dirs && d != x ==> ItemsIn(u, d) == ItemsIn(t, d))
    && (forall h :: h in u.chains && h !in t.dirs ==> BytesIn(u, h) == BytesIn(t, h))
  }

  /** `t` without the chain of `it`, whose entry is still there. */
  ghost function Dangling(t: Tree, it: Item): Tree
  {
    if Owns(it) then t.(chains := t.chains - {ClusterOf(it)}, dirs := t.dirs - {ClusterOf(it)}) else t
  }

  lemma DanglingSame(t: Tree, it: Item, h: nat)
    requires Owns(it) ==> h != ClusterOf(it)
    ensures BytesIn(Dangling(t, it), h) == BytesIn(t, h)
    ensures SlotsIn(Dangling(t, it), h) == SlotsIn(t, h)
    ensures ItemsIn(Dangling(t, it), h) == ItemsIn(t, h)
  {
    hide Bytes, Listing, Owns;
  }

  lemma DeletedRemovesItem(t: Tree, u: Tree, x: nat, it: Item, l: nat)
    requires TreeOk(t) && x in t.dirs && it in ItemsIn(t, x) && !IsDot(it)
    requires Worked(Dangling(t, it), u, x) && u.chains == Dangling(t, it).chains
    requires NameRun(SlotsIn(t, x), l, it.at) && SlotsIn(u, x) == WithDeleted(SlotsIn(t, x), l, it.at)
    ensures TreeOk(u) && ItemRemoved(t, u, x, it)
  {
    hide TreeOk, SlotsIn, BytesIn, Listing, NameRun, WithDeleted, DirectoryOk, Worked, Owns, IsDot;
    var g := Dangling(t, it);
    OwnerElsewhere(t, x, it);
    OwnsMeans(it);
    DirsAreChains(t);
    DirIsOk(t, x);
    WorkedOnOne(g, u, x);
    forall h | h in t.chains && h != x && (Owns(it) ==> h != ClusterOf(it))
      ensures h in u.chains && BytesIn(u, h) == BytesIn(t, h) && ItemsIn(u, h) == ItemsIn(t, h)
    {
      DanglingSame(t, it, h);
      SameBytesSameItems(t, u, h);
    }
    var before, after := DeletedItem(SlotsIn(t, x), l, it);
    DeleteKeepsOk(SlotsIn(t, x), l, it.at);
    InsertedAt(ItemsIn(u, x), ItemsIn(t, x), before, it, after);
    hide ItemsIn;
    DeleteKeepsTree(t, u, x, before, it, after);
  }

  lemma OwnsMeans(it: Item)
    requires !IsDot(it)
    ensures Owns(it) <==> ClusterOf(it) >= 2
  {
  }

  lemma DirIsOk(t: Tree, x: nat)
    requires TreeOk(t) && x in t.dirs
    ensures DirectoryOk(SlotsIn(t, x)) && x in t.chains
  {
    assert DirOk(t, x);
  }

  // ---------------------------------------------------------------- writing a file

  /** The contents of the file an item names. */
  ghost function FileIn(t: Tree, it: Item): seq<byte>
  {
    if ClusterOf(it) < 2 || FileSize(it.entry) > |BytesIn(t, ClusterOf(it))| then []
    else BytesIn(t, ClusterOf(it))[..FileSize(it.entry)]
  }

  /** `u` is `t` after work on the chain at `start` (now at `start'`) and, apart from that, on the one
      cluster `ec` of directory `x`. */
  ghost predicate FileWorked(t: Tree, u: Tree, x: nat, start: nat, start': nat, ec: nat)
  {
    && t.root == u.root && t.dirs == u.dirs && t.depth == u.depth
    && ChainsStored(t.chains, t.disk) && PairwiseDisjoint(u.chains)
    && x in t.chains && x != start && ec in t.chains[x] && ec in t.disk && ec in u.disk
    && OthersKept(t.chains, t.disk, start, u.chains, u.disk[ec := t.disk[ec]], start')
  }

  lemma FileWorkedOthers(t: Tree, u: Tree, x: nat, start: nat, start': nat, ec: nat)
    requires FileWorked(t, u, x, start, start', ec)
    ensures x in u.chains && u.chains[x] == t.chains[x]
    ensures forall h :: h in t.chains && h != start && h != x ==> h in u.chains && BytesIn(u, h) == BytesIn(t, h)
    ensures forall i :: 0 <= i < |t.chains[x]| && t.chains[x][i] != ec ==>
              t.chains[x][i] in t.disk && t.chains[x][i] in u.disk && u.disk[t.chains[x][i]] == t.disk[t.chains[x][i]]
  {
    var view := u.disk[ec := t.disk[ec]];
    forall h | h in t.chains && h != start
      ensures h in u.chains && u.chains[h] == t.chains[h]
      ensures h != x ==> BytesIn(u, h) == BytesIn(t, h)
    {
      KeptBytes(t.chains, t.disk, start, u.chains, view, start', h);
      if h != x {
        EntryElsewhere(t, u, x, start, start', ec, h);
        BytesFrame(view, u.disk, u.chains[h]);
      }
    }
    forall i | 0 <= i < |t.chains[x]| && t.chains[x][i] != ec
      ensures t.chains[x][i] in t.disk && t.chains[x][i] in u.disk && u.disk[t.chains[x][i]] == t.disk[t.chains[x][i]]
    {
      assert start' in u.chains ==> Disjoint(u.chains[start'], u.chains[x]);
    }
  }

  lemma EntryElsewhere(t: Tree, u: Tree, x: nat, start: nat, start': nat, ec: nat, h: nat)
    requires FileWorked(t, u, x, start, start', ec) && h in t.chains && h != start && h != x
    requires u.chains[x] == t.chains[x]
    ensures forall i :: 0 <= i < |u.chains[h]| ==>
              var c := u.chains[h][i];
              c != ec && c in u.disk && c in u.disk[ec := t.disk[ec]]
  {
    assert x in u.chains && h in u.chains && Disjoint(u.chains[x], u.chains[h]);
    forall i | 0 <= i < |u.chains[h]|
      ensures var c := u.chains[h][i]; c != ec && c in u.disk && c in u.disk[ec := t.disk[ec]]
    {
      assert u.chains[h] == t.chains[h];
      assert start' in u.chains ==> Disjoint(u.chains[start'], u.chains[h]);
    }
  }

  /** The directory's slots when only one slot of cluster `ec` differs. */
  lemma EntryRewritten(t: Tree, u: Tree, x: nat, cs: nat, at: nat, ec: nat, idx: nat, s: Slot)
    requires x in t.chains && x in u.chains && u.chains[x] == t.chains[x]
    requires Shaped(t.disk, cs, t.chains[x]) && Distinct(t.chains[x]) && cs % SLOT_SIZE == 0
    requires at < Span(|t.chains[x]|, cs / SLOT_SIZE)
               && LocationOf(t.chains[x], cs / SLOT_SIZE, at) == Location(ec, idx)
    requires ec in t.disk && ec in u.disk && SLOT_SIZE * idx + SLOT_SIZE <= |t.disk[ec]|
    requires u.disk[ec] == WithSlot(t.disk[ec], idx, s)
    requires forall i :: 0 <= i < |t.chains[x]| && t.chains[x][i] != ec ==>
              t.chains[x][i] in u.disk && u.disk[t.chains[x][i]] == t.disk[t.chains[x][i]]
    ensures at < |SlotsIn(t, x)| && SlotsIn(u, x) == SlotsIn(t, x)[at := s]
    ensures SlotAt(t.disk[ec], idx) == SlotsIn(t, x)[at]
  {
    hide WithSlot, Span, LocationOf;
    var chain := t.chains[x];
    var i, k := LocationInverse(chain, cs / SLOT_SIZE, at);
    SlotRewrite(t.disk, cs, chain, i, k, s);
    SlotThere(t.disk, cs, chain, at);
    BytesFrame(t.disk[ec := WithSlot(t.disk[ec], idx, s)], u.disk, chain);
  }

  /** `jt` replaces `it` in directory `x`; all else that is listed or stored in files is the same. */
  ghost predicate FileEdited(t: Tree, u: Tree, x: nat, it: Item, jt: Item)
  {
    && t.root == u.root && t.dirs == u.dirs && t.depth == u.depth
    && jt.at == it.at && jt.name == it.name && ShortName(jt.entry) == ShortName(it.entry)
    && jt.entry[11] == it.entry[11]
    && Swapped(ItemsIn(t, x), ItemsIn(u, x), it, jt)
    && (ClusterOf(jt) == ClusterOf(it) || (ClusterOf(jt) !in t.chains && ClusterOf(it) < 2))
    && ChainsFit(t.chains.Keys, u.chains.Keys, it, jt)
    && (forall d :: d in t.dirs && d != x ==> ItemsIn(u, d) == ItemsIn(t, d))
    && (forall h :: h in t.chains && h !in t.dirs && (ClusterOf(it) >= 2 ==> h != ClusterOf(it)) ==>
          h in u.chains && BytesIn(u, h) == BytesIn(t, h))
  }

  /** The chain an entry names. */
  function Named(it: Item): set<nat>
  {
    if ClusterOf(it) >= 2 then {ClusterOf(it)} else {}
  }

  /** The chains are those there were and the one that the rewritten entry names, unless an empty file was
      given a chain that its entry does not name yet. */
  ghost predicate ChainsFit(was: set<nat>, now: set<nat>, it: Item, jt: Item)
  {
    now == was + Named(jt) || (ClusterOf(it) < 2 && ClusterOf(jt) < 2 && exists s :: s !in was && now == was + {s})
  }

  ghost predicate Swapped(was: seq<Item>, now: seq<Item>, it: Item, jt: Item)
  {
    exists i :: 0 <= i < |was| && was[i] == it && now == was[i := jt]
  }

  lemma SwappedAt(was: seq<Item>, now: seq<Item>, before: seq<Item>, it: Item, jt: Item, after: seq<Item>)
    requires was == before + [it] + after && now == before + [jt] + after
    ensures Swapped(was, now, it, jt)
  {
    assert was[|before|] == it && now == was[|before| := jt];
  }

  /** The extent an entry ends up with is one its directory accepts. */
  ghost predicate ExtentFits(t: Tree, u: Tree, it: Item, jt: Item)
  {
    && jt.name == it.name && jt.entry[0] == it.entry[0] && jt.entry[11] == it.entry[11]
    && ShortName(jt.entry) == ShortName(it.entry)
    && (ClusterOf(jt) == ClusterOf(it) || (ClusterOf(jt) !in t.chains && ClusterOf(it) < 2))
    && ChainsFit(t.chains.Keys, u.chains.Keys, it, jt)
    && (if ClusterOf(jt) < 2 then FileSize(jt.entry) == 0
        else ClusterOf(jt) in u.chains && FileSize(jt.entry) <= |BytesIn(u, ClusterOf(jt))|)
  }

  lemma EditedItemOk(t: Tree, u: Tree, x: nat, it: Item, jt: Item)
    requires TreeOk(t) && x in t.dirs && it in ItemsIn(t, x) && !IsDot(it) && !IsDirectory(it.entry[11])
    requires u.root == t.root && u.dirs == t.dirs && ExtentFits(t, u, it, jt)
    ensures ItemOk(u, x, jt)
  {
    DirsAreChains(t);
    FileOwnsNoDir(t, x, it);
    OwnerElsewhere(t, x, it);
    ItemIsOk(t, x, it);
    hide TreeOk, ItemsIn, BytesIn, FileSize, FirstCluster, ShortName;
  }

  lemma ItemIsOk(t: Tree, d: nat, it: Item)
    requires TreeOk(t) && d in t.dirs && it in ItemsIn(t, d)
    ensures ItemOk(t, d, it)
  {
    hide ItemsIn, NoSharing, ItemOk, DirOk;
  }

  /** Writing a file rewrites its item in place, whether or not the entry was brought up to date. */
  lemma WrittenKeepsTree(t: Tree, u: Tree, x: nat, before: seq<Item>, it: Item, jt: Item, after: seq<Item>, s: nat,
                         ec: nat)
    requires TreeOk(t) && x in t.dirs && it in ItemsIn(t, x) && !IsDot(it) && !IsDirectory(it.entry[11])
    requires FileWorked(t, u, x, ClusterOf(it), s, ec) && (ClusterOf(it) < 2 ==> ClusterOf(it) !in t.chains)
    requires ItemsIn(t, x) == before + [it] + after && ItemsIn(u, x) == before + [jt] + after
    requires it !in before && it !in after && DirectoryOk(SlotsIn(u, x)) && ExtentFits(t, u, it, jt) && jt.at == it.at
    ensures TreeOk(u) && FileEdited(t, u, x, it, jt)
  {
    hide TreeOk, ItemsIn, SlotsIn, BytesIn, DirectoryOk, IsDot, IsDirectory, FileWorked, FileSize, FirstCluster,
      ItemOk, ShortName;
    FileWorkedOthers(t, u, x, ClusterOf(it), s, ec);
    SameFrame(t, u, x, ClusterOf(it), s, ec);
    DirsAreChains(t);
    FileOwnsNoDir(t, x, it);
    EditedItemOk(t, u, x, it, jt);
    SwappedAt(ItemsIn(t, x), ItemsIn(u, x), before, it, jt, after);
    assert OnlyRewritten(t, u, x, it, jt);
    RewriteKeepsTree(t, u, x, before, it, jt, after);
    forall d | d in t.dirs && d != x
      ensures ItemsIn(u, d) == ItemsIn(t, d)
    {
      SameBytesSameItems(t, u, d);
    }
  }

  lemma SameFrame(t: Tree, u: Tree, x: nat, start: nat, start': nat, ec: nat)
    requires FileWorked(t, u, x, start, start', ec)
    ensures t.root == u.root && t.dirs == u.dirs && t.depth == u.depth
  {
  }

  /** What the cursor's write leaves behind, seen from the tree. */
  ghost predicate Wrote(h: OpenFile, v: Volume, t: Tree, x: nat, it: Item, pos: nat, data: seq<byte>, done: nat,
                        recorded: bool)
    reads h, v, v.fat
  {
    && h.EntryState(v, t.disk, recorded)
    && h.Written(v, v.disk[h.entryCluster := t.disk[h.entryCluster]], t.chains, t.disk, ClusterOf(it),
         FileSize(it.entry), pos, data, done)
  }

  /** The handle was opened on the item's slot. */
  ghost predicate OpenedOn(h: OpenFile, cs: nat, t: Tree, x: nat, it: Item)
  {
    && x in t.chains && x != ClusterOf(it) && h.entryCluster in t.chains[x]
    && Shaped(t.disk, cs, t.chains[x]) && Distinct(t.chains[x]) && cs % SLOT_SIZE == 0
    && it.at < Span(|t.chains[x]|, cs / SLOT_SIZE)
    && LocationOf(t.chains[x], cs / SLOT_SIZE, it.at) == Location(h.entryCluster, h.entryIndex)
  }

  lemma WriteIsFileWork(h: OpenFile, v: Volume, t: Tree, u: Tree, x: nat, it: Item, pos: nat, data: seq<byte>,
                        done: nat, recorded: bool)
    requires Wrote(h, v, t, x, it, pos, data, done, recorded) && OpenedOn(h, v.ClusterSize(), t, x, it)
    requires ChainsStored(t.chains, t.disk) && u == t.(chains := v.chains, disk := v.disk)
    ensures FileWorked(t, u, x, ClusterOf(it), h.start, h.entryCluster)
    ensures h.start < TWO_32 && h.size < TWO_32
  {
    ValidIsStored(v);
    hide Volume.Valid, OthersKept, Overlaid, Span, LocationOf, Shaped, Distinct, Positioned;
  }

  /** The slot of the item after the write. */
  ghost function EntryAfter(h: OpenFile, it: Item, recorded: bool): (s: Slot)
    requires h.start < TWO_32 && h.size < TWO_32
    reads h
  {
    if recorded then WithExtent(it.entry, h.start, h.size) else it.entry
  }

  lemma WriteChangesSlot(h: OpenFile, v: Volume, t: Tree, u: Tree, x: nat, it: Item, recorded: bool)
    requires OpenedOn(h, v.ClusterSize(), t, x, it) && h.EntryState(v, t.disk, recorded)
    requires FileWorked(t, u, x, ClusterOf(it), h.start, h.entryCluster) && u.disk == v.disk
    requires it.at < |SlotsIn(t, x)| && SlotsIn(t, x)[it.at] == it.entry
    ensures SlotsIn(u, x) == SlotsIn(t, x)[it.at := EntryAfter(h, it, recorded)]
  {
    hide Span, LocationOf, SlotsIn, WithExtent, FirstCluster;
    FileWorkedOthers(t, u, x, ClusterOf(it), h.start, h.entryCluster);
    var block := t.disk[h.entryCluster];
    StoredSlot(t, x, v.ClusterSize(), it.at, h.entryCluster, h.entryIndex);
    SameSlot(block, h.entryIndex);
    EntryRewritten(t, u, x, v.ClusterSize(), it.at, h.entryCluster, h.entryIndex, EntryAfter(h, it, recorded));
  }

  lemma StoredSlot(t: Tree, x: nat, cs: nat, at: nat, ec: nat, idx: nat)
    requires x in t.chains && Shaped(t.disk, cs, t.chains[x]) && cs % SLOT_SIZE == 0
    requires at < Span(|t.chains[x]|, cs / SLOT_SIZE)
               && LocationOf(t.chains[x], cs / SLOT_SIZE, at) == Location(ec, idx)
    ensures ec in t.disk && SLOT_SIZE * idx + SLOT_SIZE <= |t.disk[ec]|
    ensures at < |SlotsIn(t, x)| && SlotAt(t.disk[ec], idx) == SlotsIn(t, x)[at]
  {
    hide Span, LocationOf, DirSlots;
    SlotThere(t.disk, cs, t.chains[x], at);
  }

  lemma SameSlot(block: seq<byte>, idx: nat)
    requires SLOT_SIZE * idx + SLOT_SIZE <= |block|
    ensures WithSlot(block, idx, SlotAt(block, idx)) == block
  {
  }

  /** Which item stands for the file afterwards. */
  ghost function ItemAfter(h: OpenFile, it: Item, recorded: bool): Item
    requires h.start < TWO_32 && h.size < TWO_32
    reads h
  {
    it.(entry := EntryAfter(h, it, recorded))
  }

  lemma ListedAfter(slots: seq<Slot>, h: OpenFile, it: Item, recorded: bool)
    returns (before: seq<Item>, after: seq<Item>)
    requires it in Listing(slots) && DirectoryOk(slots) && h.start < TWO_32 && h.size < TWO_32
    ensures it.at < |slots| && slots[it.at] == it.entry && it !in before && it !in after
    ensures Listing(slots) == before + [it] + after
    ensures var now := slots[it.at := EntryAfter(h, it, recorded)];
            DirectoryOk(now) && Listing(now) == before + [ItemAfter(h, it, recorded)] + after
  {
    hide ScanFrom, WithExtent, DirectoryOk;
    ExtentInPlace(slots, it, h.start, h.size);
    ListingAt(slots, it);
    before, after := Listing(slots[..it.at]), ScanFrom(START, slots[it.at + 1..], it.at + 1).items;
    assert slots[it.at := it.entry] == slots;
  }

  lemma WriteFits(h: OpenFile, v: Volume, t: Tree, u: Tree, x: nat, it: Item, pos: nat, data: seq<byte>, done: nat,
                  recorded: bool)
    requires Wrote(h, v, t, x, it, pos, data, done, recorded) && u == t.(chains := v.chains, disk := v.disk)
    requires ClusterOf(it) >= 2 ==> ClusterOf(it) in t.chains && FileSize(it.entry) <= |BytesIn(t, ClusterOf(it))|
    requires ClusterOf(it) < 2 ==> ClusterOf(it) !in t.chains && FileSize(it.entry) == 0
    ensures h.start < TWO_32 && h.size < TWO_32 && ExtentFits(t, u, it, ItemAfter(h, it, recorded))
    ensures recorded ==> u.chains.Keys == t.chains.Keys + Named(ItemAfter(h, it, recorded))
  {
    hide Volume.Valid, Positioned, WithExtent, FirstCluster, FileSize, Bytes, ShortName;
    hide ChainsFit;
    HandleStart(h, v);
    SameKind(it.entry, h.start, h.size);
    WriteChains(t.chains, v.chains, it, ItemAfter(h, it, recorded), h.start);
    assert recorded ==>
             FirstCluster(EntryAfter(h, it, recorded)) == h.start && FileSize(EntryAfter(h, it, recorded)) == h.size;
  }

  lemma WriteChains(was: Chains, now: Chains, it: Item, jt: Item, s: nat)
    requires s == ClusterOf(it) || (ClusterOf(it) !in was && s !in was)
    requires forall h :: h in was && h != ClusterOf(it) ==> h in now
    requires ClusterOf(it) in was ==> s in now
    requires forall h :: h in now ==> h in was || h == s
    requires s in now <==> s >= 2
    requires ClusterOf(it) in was <==> ClusterOf(it) >= 2
    requires ClusterOf(jt) == ClusterOf(it) || ClusterOf(jt) == s
    ensures ChainsFit(was.Keys, now.Keys, it, jt)
    ensures ClusterOf(jt) == s ==> now.Keys == was.Keys + Named(jt)
  {
    hide FirstCluster;
    assert now.Keys == was.Keys + if s in now then {s} else {};
  }

  lemma HandleStart(h: OpenFile, v: Volume)
    requires h.Valid(v)
    ensures h.size <= |h.Data(v)|
    ensures if h.start < 2 then h.start !in v.chains && h.Data(v) == [] else h.start in v.chains
  {
    v.ChainShape(h.start);
    hide Volume.Valid;
  }

  /** A write on an open file keeps the tree; it edits that one file. */
  lemma WriteKeepsTree(h: OpenFile, v: Volume, t: Tree, u: Tree, x: nat, it: Item, pos: nat, data: seq<byte>, done: nat,
                       recorded: bool)
    requires Wrote(h, v, t, x, it, pos, data, done, recorded) && OpenedOn(h, v.ClusterSize(), t, x, it)
    requires ChainsStored(t.chains, t.disk) && u == t.(chains := v.chains, disk := v.disk)
    requires TreeOk(t) && FoundOk(t, Found(x, it)) && !IsDirectory(it.entry[11])
    requires ClusterOf(it) >= 2 ==> ClusterOf(it) in t.chains && FileSize(it.entry) <= |BytesIn(t, ClusterOf(it))|
    requires ClusterOf(it) < 2 ==> ClusterOf(it) !in t.chains && FileSize(it.entry) == 0
    ensures h.start < TWO_32 && h.size < TWO_32
    ensures TreeOk(u) && FileEdited(t, u, x, it, ItemAfter(h, it, recorded))
    ensures recorded ==> u.chains.Keys == t.chains.Keys + Named(ItemAfter(h, it, recorded))
  {
    hide TreeOk, Wrote, OpenedOn, ItemsIn, BytesIn, FileWorked, ExtentFits, FileEdited, DirectoryOk, FileSize,
      FirstCluster, IsDirectory, IsDot, EntryAfter, DirSlots, Listing;
    WriteIsFileWork(h, v, t, u, x, it, pos, data, done, recorded);
    WriteFits(h, v, t, u, x, it, pos, data, done, recorded);
    DirIsOk(t, x);
    ListedHere(t, x, it);
    var before, after := ListedAfter(SlotsIn(t, x), h, it, recorded);
    WroteEntry(h, v, t, x, it, pos, data, done, recorded);
    WriteChangesSlot(h, v, t, u, x, it, recorded);
    ListedHere(u, x, it);
    hide SlotsIn;
    WrittenKeepsTree(t, u, x, before, it, ItemAfter(h, it, recorded), after, h.start, h.entryCluster);
  }

  lemma ListedHere(t: Tree, x: nat, it: Item)
    ensures ItemsIn(t, x) == Listing(SlotsIn(t, x))
  {
  }

  lemma WroteEntry(h: OpenFile, v: Volume, t: Tree, x: nat, it: Item, pos: nat, data: seq<byte>, done: nat,
                   recorded: bool)
    requires Wrote(h, v, t, x, it, pos, data, done, recorded)
    ensures h.EntryState(v, t.disk, recorded)
  {
  }

  /** The contents after a write at `offset`, or at the end if the file is shorter. */
  function Edited(was: seq<byte>, offset: nat, data: seq<byte>): seq<byte>
  {
    Apply(File(was, Min(offset, |was|)), DoWrite(data)).0.contents
  }

  /** A completed write shows in the file's contents as the edit it was meant to be. */
  lemma WriteEditsContents(h: OpenFile, v: Volume, t: Tree, u: Tree, x: nat, it: Item, offset: nat, data: seq<byte>)
    requires Wrote(h, v, t, x, it, Min(offset, FileSize(it.entry)), data, |data|, true)
               && u == t.(chains := v.chains, disk := v.disk)
    requires ClusterOf(it) >= 2 ==> ClusterOf(it) in t.chains && FileSize(it.entry) <= |BytesIn(t, ClusterOf(it))|
    requires ClusterOf(it) < 2 ==> ClusterOf(it) !in t.chains && FileSize(it.entry) == 0
    requires h.start < TWO_32 && h.size < TWO_32
    ensures FileIn(u, ItemAfter(h, it, true)) == Edited(FileIn(t, it), offset, data)
  {
    hide Volume.Valid, Positioned, WithExtent, FirstCluster, FileSize, OthersKept, Overlaid, Bytes, Apply;
    HandleStart(h, v);
    SameKind(it.entry, h.start, h.size);
    var jt, pos := ItemAfter(h, it, true), Min(offset, FileSize(it.entry));
    assert ClusterOf(jt) == h.start && FileSize(jt.entry) == h.size;
    var was := BytesIn(t, ClusterOf(it));
    assert ClusterOf(it) < 2 ==> was == Bytes(t.disk, []);
    NoBytes(t.disk);
    assert data[..|data|] == data;
    WriteIsEdit(h.Data(v), was, FileSize(it.entry), h.size, pos, data);
    assert FileIn(t, it) == was[..FileSize(it.entry)];
    assert FileIn(u, jt) == h.Data(v)[..h.size];
  }

  lemma NoBytes(disk: Disk)
    ensures Bytes(disk, []) == []
  {
  }
}
