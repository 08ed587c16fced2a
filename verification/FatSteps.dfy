/** What the steps of a file system operation on the volume do to the directory tree. */
module FatSteps {
  import opened Machine
  import opened FatTable
  import opened FatData
  import opened FatSlot
  import opened FatVolume
  import opened FatLongName
  import opened FatShortName
  import opened FatListing
  import opened FatDirData
  import opened FatSearch
  import opened FatDirectory
  import opened FatItems
  import opened FatTree

  ghost predicate ChainsStored(chains: Chains, disk: Disk)
  {
    forall h :: h in chains ==> forall i :: 0 <= i < |chains[h]| ==> chains[h][i] in disk
  }

  lemma ValidIsStored(v: Volume)
    requires v.Valid()
    ensures ChainsStored(v.chains, v.disk) && PairwiseDisjoint(v.chains)
  {
    forall h | h in v.chains
      ensures forall i :: 0 <= i < |v.chains[h]| ==> v.chains[h][i] in v.disk
    {
      v.ChainShape(h);
    }
  }

  /** A chain that was not worked on holds the same bytes. */
  lemma KeptBytes(was: Chains, wasDisk: Disk, s: nat, now: Chains, nowDisk: Disk, s': nat, h: nat)
    requires OthersKept(was, wasDisk, s, now, nowDisk, s') && ChainsStored(was, wasDisk) && PairwiseDisjoint(now)
    requires h in was && h != s
    ensures h in now && now[h] == was[h] && Bytes(nowDisk, now[h]) == Bytes(wasDisk, was[h])
  {
    assert h != s';
    forall i | 0 <= i < |was[h]|
      ensures was[h][i] in wasDisk && was[h][i] in nowDisk && nowDisk[was[h][i]] == wasDisk[was[h][i]]
    {
      assert s' in now ==> Disjoint(now[s'], now[h]);
    }
    BytesFrame(wasDisk, nowDisk, was[h]);
  }

  /** `u` is `t` after work on the chain at `x` only. */
  ghost predicate Worked(t: Tree, u: Tree, x: nat)
  {
    && t.root == u.root && t.dirs == u.dirs && t.depth == u.depth
    && OthersKept(t.chains, t.disk, x, u.chains, u.disk, x)
    && ChainsStored(t.chains, t.disk) && PairwiseDisjoint(u.chains)
  }

  lemma WorkedKeys(t: Tree, u: Tree, x: nat)
    requires Worked(t, u, x) && x in t.chains
    ensures u.chains.Keys == t.chains.Keys
  {
  }

  lemma WorkedOnOne(t: Tree, u: Tree, x: nat)
    requires Worked(t, u, x)
    ensures OnlyChanged(t, u, x)
  {
    hide OthersKept;
    forall h | h in t.chains && h != x
      ensures h in u.chains && BytesIn(u, h) == BytesIn(t, h)
    {
      KeptBytes(t.chains, t.disk, x, u.chains, u.disk, x, h);
    }
    assert x in t.chains ==> x in u.chains by {
      KeptChain(t.chains, t.disk, x, u.chains, u.disk);
    }
  }

  lemma KeptChain(was: Chains, wasDisk: Disk, x: nat, now: Chains, nowDisk: Disk)
    requires OthersKept(was, wasDisk, x, now, nowDisk, x)
    ensures x in was ==> x in now
  {
  }

  // ---------------------------------------------------------------- steps of the volume

  lemma GrewIsWork(v: Volume, x: nat, t: Tree, u: Tree)
    requires DirGrew(v, x, t.chains, t.disk) && ChainsStored(t.chains, t.disk)
    requires u == t.(chains := v.chains, disk := v.disk)
    ensures Worked(t, u, x) && EndsAdded(SlotsIn(u, x), SlotsIn(t, x))
    ensures u.chains.Keys == t.chains.Keys
  {
    hide OthersKept, EndsAdded, DirSlots;
    ValidIsStored(v);
    KeptChains(t.chains, t.disk, x, u.chains, u.disk);
    hide Volume.Valid;
    WorkedKeys(t, u, x);
  }

  lemma KeptChains(was: Chains, wasDisk: Disk, x: nat, now: Chains, nowDisk: Disk)
    requires OthersKept(was, wasDisk, x, now, nowDisk, x)
    ensures forall h :: h in was ==> h in now
  {
  }

  lemma RewriteIsWork(v: Volume, x: nat, t: Tree, u: Tree, slots: seq<Slot>)
    requires v.Valid() && x in v.chains && t.chains == v.chains && ChainsStored(t.chains, t.disk)
    requires DirRewritten(v.disk, t.disk, v.ClusterSize(), v.ChainOf(x), slots)
    requires u == t.(disk := v.disk)
    ensures Worked(t, u, x) && SlotsIn(u, x) == slots
  {
    ValidIsStored(v);
    hide Volume.Valid, DirSlots;
  }

  // ---------------------------------------------------------------- reserving

  lemma ReservedKeepsTree(t: Tree, u: Tree, x: nat)
    requires TreeOk(t) && x in t.dirs && Worked(t, u, x) && EndsAdded(SlotsIn(u, x), SlotsIn(t, x))
    ensures TreeOk(u) && SameListings(t, u)
  {
    hide SlotsIn, NoSharing, ItemOk, Worked, DirectoryOk, Listing;
    WorkedOnOne(t, u, x);
    assert DirOk(t, x);
    var was, now := SlotsIn(t, x), SlotsIn(u, x);
    assert now == was + now[|was|..];
    GrowKeeps(was, now[|was|..]);
    GrowKeepsTree(t, u, x);
  }

  // ---------------------------------------------------------------- adding an entry

  /** What a new entry with these attributes may name: nothing, or a chain of its kind that nobody
      owns. */
  ghost predicate MayName(t: Tree, x: nat, attributes: byte, cluster: nat)
  {
    && attributes / 8 % 2 == 0
    && (if cluster < 2 then !IsDirectory(attributes)
        else
          && cluster in t.chains && cluster != t.root && NobodyOwns(t, cluster)
          && (IsDirectory(attributes) <==> cluster in t.dirs)
          && (cluster in t.dirs ==> cluster in t.depth && x in t.depth && t.depth[cluster] > t.depth[x]))
  }

  lemma SameListingsMayName(t: Tree, u: Tree, x: nat, attributes: byte, cluster: nat)
    requires MayName(t, x, attributes, cluster) && SameListings(t, u)
    requires forall h :: h in t.chains ==> h in u.chains
    ensures MayName(u, x, attributes, cluster)
  {
    hide ItemsIn, BytesIn, Owns;
  }

  /** `u` lists one item more than `t`, in directory `x`; nothing else differs. */
  ghost predicate ItemAdded(t: Tree, u: Tree, x: nat, it: Item)
  {
    && t.root == u.root && t.dirs == u.dirs && t.depth == u.depth
    && u.chains.Keys == t.chains.Keys
    && !IsDot(it) && Inserted(ItemsIn(t, x), ItemsIn(u, x), it)
    && (forall d :: d in t.dirs && d != x ==> ItemsIn(u, d) == ItemsIn(t, d))
    && (forall h :: h in t.chains && h !in t.dirs ==> h in u.chains && BytesIn(u, h) == BytesIn(t, h))
  }

  ghost predicate Inserted(was: seq<Item>, now: seq<Item>, it: Item)
  {
    && it !in was
    && exists i :: 0 <= i <= |was| && now == was[..i] + [it] + was[i..]
  }

  lemma InsertedAt(was: seq<Item>, now: seq<Item>, before: seq<Item>, it: Item, after: seq<Item>)
    requires was == before + after && now == before + [it] + after && it !in was
    ensures Inserted(was, now, it)
  {
    assert was[..|before|] == before && was[|before|..] == after;
  }

  /** What making the entry `it` for a name in directory `x` has done: the directory lists it, or it lists
      what it did before because the entry is deleted on arrival. */
  ghost predicate EntryMade(t: Tree, u: Tree, x: nat, name: seq<byte>, it: Item)
    requires IsName(name)
  {
    if Vanishes(name, ItemsIn(t, x)) then SameListings(t, u) && u.chains.Keys == t.chains.Keys
    else ItemAdded(t, u, x, it) && NamedAs(SlotsIn(u, x), it, name, ItemsIn(t, x))
  }

  lemma EntryMadeAfterSame(t: Tree, t1: Tree, u: Tree, x: nat, name: seq<byte>, it: Item)
    requires SameListings(t, t1) && t1.chains.Keys == t.chains.Keys && x in t.dirs && IsName(name)
    requires EntryMade(t1, u, x, name, it)
    ensures EntryMade(t, u, x, name, it)
  {
    hide ItemsIn, BytesIn, Inserted, Vanishes, NamedAs;
  }

  lemma MayNameKind(t: Tree, x: nat, attributes: byte, cluster: nat)
    requires MayName(t, x, attributes, cluster)
    ensures attributes / 8 % 2 == 0
  {
  }

  /** Writing the entries for a name into a first-fit run adds exactly one item, or none if the entry is
      deleted on arrival. */
  lemma WrittenAddsItem(t: Tree, u: Tree, x: nat, first: nat, name: seq<byte>, long: bool, s: Slot)
    returns (it: Item)
    requires TreeOk(t) && x in t.dirs && Worked(t, u, x) && IsName(name)
    requires GoodChoice(Chosen(ShortName(s), long), name, ItemsIn(t, x))
    requires MayName(t, x, s[11], FirstCluster(s)) && FileSize(s) == 0
    requires FreeRun(SlotsIn(t, x), first, |EntriesFor(name, long, s)|)
    requires SlotsIn(u, x) == Replaced(SlotsIn(t, x), first, EntriesFor(name, long, s))
    ensures TreeOk(u) && EntryMade(t, u, x, name, it) && it.entry == s
  {
    hide SlotsIn, NoSharing, ItemOk, Worked, DirectoryOk, Listing, EntriesFor, NameBehind, ScanFrom, Replaced,
      FreeRun, FirstCluster, FileSize, MayName, OnlyChanged, ShortName, NamedAs, GoodChoice, NeedsLong, Shorts,
      ItemAdded, SameListings, Vanishes, IsShort, GatheredAt;
    WorkedOnOne(t, u, x);
    assert DirOk(t, x);
    WorkedKeys(t, u, x);
    var slots, added := SlotsIn(t, x), EntriesFor(name, long, s);
    MayNameKind(t, x, s[11], FirstCluster(s));
    EntryIsShort(t, x, name, long, s);
    FreeRunFits(slots, first, |added|);
    InsertOne(slots, first, name, long, s);
    InsertKeepsOk(slots, first, name, long, s);
    it := Item(first + |added| - 1, s, NameBehind(GatheredAt(slots, first), name, long, s));
    var before, after := Listing(slots[..first]), ScanFrom(START, slots[first + |added|..], first + |added|).items;
    assert ItemsIn(t, x) == before + after;
    if IsShort(s) {
      assert ItemsIn(u, x) == before + [it] + after;
      GoodNames(slots, SlotsIn(u, x), first, name, long, it);
      NewItemThere(t, u, x, it);
      NotListedYet(ItemsIn(t, x), it);
      InsertedAt(ItemsIn(t, x), ItemsIn(u, x), before, it, after);
      InsertKeepsTree(t, u, x, before, it, after);
      OthersAsBefore(t, u, x);
      NowAdded(t, u, x, it);
    } else {
      assert ItemsIn(u, x) == before + [] + after;
      GrowKeepsTree(t, u, x);
    }
  }

  lemma NowAdded(t: Tree, u: Tree, x: nat, it: Item)
    requires t.root == u.root && t.dirs == u.dirs && t.depth == u.depth && u.chains.Keys == t.chains.Keys
    requires !IsDot(it) && Inserted(ItemsIn(t, x), ItemsIn(u, x), it)
    requires forall d :: d in t.dirs && d != x ==> ItemsIn(u, d) == ItemsIn(t, d)
    requires forall h :: h in t.chains && h !in t.dirs ==> h in u.chains && BytesIn(u, h) == BytesIn(t, h)
    ensures ItemAdded(t, u, x, it)
  {
    hide ItemsIn, BytesIn, Inserted, IsDot;
  }

  lemma OthersAsBefore(t: Tree, u: Tree, x: nat)
    requires OnlyChanged(t, u, x) && TreeOk(t) && x in t.dirs
    ensures t.root == u.root && t.dirs == u.dirs && t.depth == u.depth
    ensures forall d :: d in t.dirs && d != x ==> ItemsIn(u, d) == ItemsIn(t, d)
    ensures forall h :: h in t.chains && h !in t.dirs ==> h in u.chains && BytesIn(u, h) == BytesIn(t, h)
  {
    hide ItemsIn, NoSharing, ItemOk, BytesIn;
    forall d | d in t.dirs && d != x
      ensures ItemsIn(u, d) == ItemsIn(t, d)
    {
      assert DirOk(t, d);
      OthersListedSame(t, u, x, d);
    }
  }

  /** What was gathered in front of the new slots is what is gathered there now. */
  lemma GoodNames(was: seq<Slot>, now: seq<Slot>, first: nat, name: seq<byte>, long: bool, it: Item)
    requires IsName(name) && GoodChoice(Chosen(ShortName(it.entry), long), name, Listing(was))
    requires first + |EntriesFor(name, long, it.entry)| <= |was|
    requires now == Replaced(was, first, EntriesFor(name, long, it.entry))
    requires it.name == NameBehind(GatheredAt(was, first), name, long, it.entry)
    requires it.at == first + |EntriesFor(name, long, it.entry)| - 1
    ensures NamedAs(now, it, name, Listing(was))
  {
    hide Shorts, NeedsLong, Listing, ScanFrom, LongEntries, Vanishes, ItemOf;
    if !long {
      assert now[..first] == was[..first];
    }
  }

  lemma NotListedYet(items: seq<Item>, it: Item)
    requires ShortName(it.entry) !in Shorts(items)
    ensures it !in items
  {
  }

  lemma NewItemThere(t: Tree, u: Tree, x: nat, it: Item)
    requires TreeOk(t) && OnlyChanged(t, u, x) && x in t.dirs
    requires MayName(t, x, it.entry[11], ClusterOf(it)) && FileSize(it.entry) == 0 && !IsDot(it)
    ensures ItemOk(u, x, it) && FreshOwner(t, it)
  {
    hide IsDotName, BytesIn, NobodyOwns, TreeOk;
  }

  lemma EntryIsShort(t: Tree, x: nat, name: seq<byte>, long: bool, s: Slot)
    requires IsName(name) && GoodChoice(Chosen(ShortName(s), long), name, ItemsIn(t, x))
    requires s[11] / 8 % 2 == 0
    ensures s[0] != DOT && s[0] != MARK_END && ShortName(s) !in Shorts(ItemsIn(t, x))
    ensures if Vanishes(name, ItemsIn(t, x)) then s[0] == MARK_DELETED && !IsShort(s) else IsShort(s)
  {
    hide Shorts, ItemsIn, Spelled, Vanishes, NeedsLong;
    assert s[0] == ShortName(s)[0];
  }

  // ---------------------------------------------------------------- a new directory

  function DotSlot(cluster: uint32): (s: Slot)
    ensures IsShort(s) && s[0] == DOT && FirstCluster(s) == cluster && FileSize(s) == 0 && IsDirectory(s[11])
    ensures CString(Spelled(ShortName(s))) == DOT_NAME
  {
    DotSpelled(0);
    ShortEntry(Pad(DOT_NAME, SHORT_SIZE), ATTR_DIRECTORY, cluster, 0)
  }

  function DotDotSlot(cluster: uint32): (s: Slot)
    ensures IsShort(s) && s[0] == DOT && FirstCluster(s) == cluster && FileSize(s) == 0 && IsDirectory(s[11])
    ensures CString(Spelled(ShortName(s))) == DOTDOT_NAME
    ensures s != DotSlot(0) && forall d :: ShortName(s) != ShortName(DotSlot(d))
  {
    DotSpelled(1);
    var name := Pad(DOTDOT_NAME, SHORT_SIZE);
    assert forall d :: ShortName(DotSlot(d))[1] == SPACE && name[1] == DOT;
    ShortEntry(name, ATTR_DIRECTORY, cluster, 0)
  }

  lemma DotSpelled(more: nat)
    requires more <= 1
    ensures var name := if more == 0 then DOT_NAME else DOTDOT_NAME;
            CString(Spelled(Pad(name, SHORT_SIZE))) == name
  {
    var name := if more == 0 then DOT_NAME else DOTDOT_NAME;
    var p := Pad(name, SHORT_SIZE);
    assert [p[0]] + p[1..8] == Pad(name, 8);
    UnpaddedPad(name, 8);
    assert p[8..] == Pad([], 3);
    UnpaddedPad([], 3);
    assert Spelled(p) == name;
    WholeCString(name);
  }

  /** The contents of a fresh directory: its own entry, its parent's, and end markers. */
  function FreshBlock(size: nat, cluster: uint32, parent: uint32): (b: seq<byte>)
    requires size >= 2 * SLOT_SIZE
    ensures |b| == size
  {
    WithSlot(WithSlot(Zeros(size), 0, DotSlot(cluster)), 1, DotDotSlot(parent))
  }

  lemma FreshBlockSlots(size: nat, cluster: uint32, parent: uint32)
    requires size >= 2 * SLOT_SIZE
    ensures Fresh(Slots(FreshBlock(size, cluster, parent)), DotSlot(cluster), DotDotSlot(parent))
  {
    hide DotSlot, DotDotSlot;
    var zeros := Zeros(size);
    WithSlotSlots(zeros, 0, DotSlot(cluster));
    WithSlotSlots(WithSlot(zeros, 0, DotSlot(cluster)), 1, DotDotSlot(parent));
    forall i | 2 <= i < size / SLOT_SIZE
      ensures Slots(FreshBlock(size, cluster, parent))[i][0] == MARK_END
    {
      assert Slots(zeros)[i] == SlotAt(zeros, i);
    }
  }

  /** A fresh cluster holding a fresh directory, not yet part of the tree. */
  lemma FreshDirectory(t: Tree, u: Tree, c: nat, parent: nat, size: nat)
    requires TreeOk(t) && ChainsStored(t.chains, t.disk) && c !in t.chains && 2 <= c < TWO_32 && parent < TWO_32
    requires forall h :: h in t.chains ==> c !in t.chains[h]
    requires size >= 2 * SLOT_SIZE
    requires u == t.(chains := t.chains[c := [c]], disk := t.disk[c := FreshBlock(size, c, parent)])
    ensures TreeOk(u) && SameListings(t, u) && NobodyOwns(u, c) && c != u.root && c !in u.dirs
    ensures DirectoryOk(SlotsIn(u, c)) && ShortsUnique(ItemsIn(u, c))
    ensures forall it :: it in ItemsIn(u, c) ==> IsDot(it) && ItemOk(u, c, it)
  {
    hide FreshBlock, TreeOk, Bytes, ItemOk, IsDot, ShortsUnique, DirectoryOk, NobodyOwns, SameListings, ItemsIn,
      SlotsIn;
    forall h | h in t.chains
      ensures BytesIn(u, h) == BytesIn(t, h)
    {
      BytesFrame(t.disk, u.disk, t.chains[h]);
    }
    DirsAreChains(t);
    NewChainKeepsTree(t, u, c);
    FreshItems(u, c, parent, size);
  }

  lemma FreshItems(u: Tree, c: nat, parent: nat, size: nat)
    requires 2 <= c < TWO_32 && parent < TWO_32 && size >= 2 * SLOT_SIZE
    requires c in u.chains && u.chains[c] == [c] && c in u.disk && u.disk[c] == FreshBlock(size, c, parent)
    ensures DirectoryOk(SlotsIn(u, c)) && ShortsUnique(ItemsIn(u, c))
    ensures forall it :: it in ItemsIn(u, c) ==> IsDot(it) && ItemOk(u, c, it)
  {
    hide FreshBlock, Slots, DirSlots, Listing, Fresh, DirectoryOk, ShortName, Spelled, CString, IsShort, ItemOk,
      DotSlot, DotDotSlot;
    OneCluster(u.disk, c);
    FreshBlockSlots(size, c, parent);
    FreshListing(SlotsIn(u, c), DotSlot(c), DotDotSlot(parent));
    TwoDots(u, c, Item(0, DotSlot(c), DOT_NAME), Item(1, DotDotSlot(parent), DOTDOT_NAME));
  }

  lemma TwoDots(u: Tree, c: nat, a: Item, b: Item)
    requires ItemsIn(u, c) == [a, b] && ShortName(a.entry) != ShortName(b.entry)
    requires IsDot(a) && a.name == DOT_NAME == CString(Spelled(ShortName(a.entry)))
    requires IsDot(b) && b.name == DOTDOT_NAME == CString(Spelled(ShortName(b.entry)))
    ensures ShortsUnique(ItemsIn(u, c))
    ensures forall it :: it in ItemsIn(u, c) ==> IsDot(it) && ItemOk(u, c, it)
  {
    hide ItemsIn, ShortName, Spelled, CString;
  }

  lemma DirsAreChains(t: Tree)
    requires TreeOk(t)
    ensures t.root in t.dirs && forall d :: d in t.dirs ==> d in t.chains && d in t.depth
  {
    forall d | d in t.dirs
      ensures d in t.chains && d in t.depth
    {
      assert DirOk(t, d);
    }
  }

  lemma OneCluster(disk: Disk, c: nat)
    requires c in disk
    ensures DirSlots(disk, [c]) == Slots(disk[c])
  {
    assert Bytes(disk, [c]) == disk[c] + Bytes(disk, []);
    assert disk[c] + [] == disk[c];
  }

  /** A volume on which only the root directory has been made holds a well-formed tree with nothing in it. */
  lemma FormattedTree(t: Tree, n: nat)
    requires t.root in t.chains && t.dirs == {t.root} && t.root in t.depth && BytesIn(t, t.root) == Zeros(n)
    ensures TreeOk(t) && ItemsIn(t, t.root) == []
  {
    hide Bytes, Listing, DirectoryOk;
    var zeros := Slots(Zeros(n));
    assert SlotsIn(t, t.root) == zeros;
    NothingListed();
    GrowKeeps([], zeros);
    assert [] + zeros == zeros;
  }

  lemma NothingListed()
    ensures DirectoryOk([]) && Listing([]) == []
  {
  }

  /** The directory joins the tree below `x`, and an entry may now name it. */
  lemma JoinDirectory(u: Tree, c: nat, x: nat)
    requires TreeOk(u) && NobodyOwns(u, c) && c != u.root && c !in u.dirs && c in u.chains && c >= 2 && x in u.dirs
    requires DirectoryOk(SlotsIn(u, c)) && ShortsUnique(ItemsIn(u, c))
    requires forall it :: it in ItemsIn(u, c) ==> IsDot(it) && ItemOk(u, c, it)
    ensures x in u.depth && TreeOk(WithDir(u, c, x)) && Joined(u, WithDir(u, c, x), c)
    ensures MayName(WithDir(u, c, x), x, ATTR_DIRECTORY, c)
  {
    hide TreeOk, DirectoryOk, ShortsUnique, NobodyOwns, Listing, ItemOk, IsDot;
    DirsAreChains(u);
    NewDirKeepsTree(u, c, x);
    StillNobodyOwns(u, c, x);
  }

  lemma StillNobodyOwns(u: Tree, c: nat, x: nat)
    requires NobodyOwns(u, c) && x in u.depth && forall it :: it in ItemsIn(u, c) ==> IsDot(it)
    ensures NobodyOwns(WithDir(u, c, x), c)
  {
    hide Listing, DirSlots, IsDot;
    var w := WithDir(u, c, x);
    forall d, it | d in w.dirs && it in ItemsIn(w, d) && Owns(it)
      ensures ClusterOf(it) != c
    {
      assert it in ItemsIn(u, d);
    }
  }

  /** `u` has one directory more than `t`: `it` in directory `x` names it, and it lists dot entries only. */
  ghost predicate DirectoryAdded(t: Tree, u: Tree, x: nat, it: Item)
  {
    var c := ClusterOf(it);
    && IsDirectory(it.entry[11]) && Owns(it) && c !in t.chains
    && t.root == u.root && u.dirs == t.dirs + {c} && u.chains.Keys == t.chains.Keys + {c}
    && Inserted(ItemsIn(t, x), ItemsIn(u, x), it)
    && (forall d :: d in t.dirs && d != x ==> ItemsIn(u, d) == ItemsIn(t, d))
    && (forall jt :: jt in ItemsIn(u, c) ==> IsDot(jt))
    && (forall h :: h in t.chains && h !in t.dirs ==> h in u.chains && BytesIn(u, h) == BytesIn(t, h))
  }

  /** `w` is `t` with the unowned chain `c`, which lists dot entries only, among its directories. */
  ghost predicate Joined(t: Tree, w: Tree, c: nat)
  {
    && w.root == t.root && w.chains == t.chains && w.disk == t.disk && w.dirs == t.dirs + {c}
    && (forall d :: d in t.dirs ==> ItemsIn(w, d) == ItemsIn(t, d))
    && (forall it :: it in ItemsIn(w, c) ==> IsDot(it))
    && NobodyOwns(w, c)
  }

  lemma DirectoryNamed(t: Tree, t2: Tree, w: Tree, u: Tree, x: nat, c: nat, it: Item)
    requires TreeOk(t) && x in t.dirs && c !in t.chains && SameListings(t, t2) && Joined(t2, w, c)
    requires t2.chains.Keys == t.chains.Keys + {c}
    requires ItemAdded(w, u, x, it) && ClusterOf(it) == c >= 2 && IsDirectory(it.entry[11])
    ensures DirectoryAdded(t, u, x, it)
  {
    hide TreeOk, ItemsIn, Inserted, IsDot, BytesIn, NobodyOwns;
    DirsAreChains(t);
    forall h | h in t.chains && h !in t.dirs
      ensures h in u.chains && BytesIn(u, h) == BytesIn(t, h)
    {
      SameDiskSameBytes(t2, w, h);
    }
  }

  /** What making the directory `it` for a name in directory `x` has done: it is there, or its entry is
      deleted on arrival and its chain is one that nobody names. */
  ghost predicate DirectoryMade(t: Tree, u: Tree, x: nat, name: seq<byte>, it: Item)
    requires IsName(name)
  {
    && IsDirectory(it.entry[11]) && ClusterOf(it) !in t.chains
    && if Vanishes(name, ItemsIn(t, x)) then
         SameListings(t, u) && u.chains.Keys == t.chains.Keys + {ClusterOf(it)} && NobodyOwns(u, ClusterOf(it))
       else DirectoryAdded(t, u, x, it) && NamedAs(SlotsIn(u, x), it, name, ItemsIn(t, x))
  }

  /** To the tree `t` a chain `c` came in `t2`, and joined the directories in `w` to be named in directory `x`. */
  ghost predicate Entering(t: Tree, t2: Tree, w: Tree, x: nat, c: nat)
  {
    && TreeOk(t) && x in t.dirs && c !in t.chains && SameListings(t, t2) && Joined(t2, w, c)
    && t2.chains.Keys == t.chains.Keys + {c} && ItemsIn(w, x) == ItemsIn(t, x)
    && (forall d :: d in t.dirs ==> d in w.depth && w.depth[d] == t.depth[d])
    && MayName(w, x, ATTR_DIRECTORY, c)
  }

  lemma EnteringFacts(t: Tree, t2: Tree, w: Tree, x: nat, c: nat)
    requires Entering(t, t2, w, x, c)
    ensures w.chains.Keys == t.chains.Keys + {c} && ItemsIn(w, x) == ItemsIn(t, x) && MayName(w, x, ATTR_DIRECTORY, c)
    ensures c !in t.chains
  {
    hide TreeOk, ItemsIn, SameListings, MayName;
  }

  /** What entering the directory `c` in directory `x` has done. */
  lemma DirectoryEntered(t: Tree, t2: Tree, w: Tree, t4: Tree, u: Tree, x: nat, c: nat, name: seq<byte>, it: Item)
    requires Entering(t, t2, w, x, c) && IsName(name)
    requires TreeOk(t4) && EntryMade(w, t4, x, name, it) && ClusterOf(it) == c >= 2 && IsDirectory(it.entry[11])
    requires u == if Vanishes(name, ItemsIn(t, x)) then t4.(dirs := t.dirs, depth := t.depth) else t4
    ensures TreeOk(u) && DirectoryMade(t, u, x, name, it)
  {
    hide TreeOk, ItemsIn, SlotsIn, SameListings, ItemAdded, DirectoryAdded, NamedAs, Vanishes, NobodyOwns, IsDirectory,
      FirstCluster, MayName;
    if Vanishes(name, ItemsIn(t, x)) {
      DirectoryUndone(t, t2, w, t4, u, c);
    } else {
      DirectoryNamed(t, t2, w, u, x, c, it);
    }
  }

  /** A directory that could not be named is one no longer, whether its chain is released again or stays. */
  lemma DirectoryUndone(t: Tree, t2: Tree, w: Tree, t4: Tree, u: Tree, c: nat)
    requires TreeOk(t) && c !in t.chains && SameListings(t, t2) && Joined(t2, w, c)
    requires forall d :: d in t.dirs ==> d in w.depth && w.depth[d] == t.depth[d]
    requires TreeOk(t4) && SameListings(w, t4)
    requires u.root == t4.root && u.disk == t4.disk && u.dirs == t.dirs && u.depth == t.depth
    requires u.chains == t4.chains || u.chains == t4.chains - {c}
    ensures TreeOk(u) && SameListings(t, u) && NobodyOwns(u, c)
  {
    hide TreeOk, ItemsIn, IsDot, BytesIn, NobodyOwns;
    DirsAreChains(t);
    StillUnowned(w, t4, c);
    DropChainKeepsTree(t4, u, c);
    forall h | h in t.chains && h !in t.dirs
      ensures h in u.chains && BytesIn(u, h) == BytesIn(t, h)
    {
      SameDiskSameBytes(t2, w, h);
    }
  }

  lemma StillUnowned(w: Tree, u: Tree, c: nat)
    requires NobodyOwns(w, c) && SameListings(w, u)
    ensures NobodyOwns(u, c)
  {
    hide ItemsIn, BytesIn, Owns;
  }

  lemma SameDiskSameBytes(t: Tree, u: Tree, h: nat)
    requires t.disk == u.disk && t.chains == u.chains
    ensures BytesIn(u, h) == BytesIn(t, h)
  {
  }

  /** A cleared cluster on no chain makes no difference. */
  lemma LooseCluster(t: Tree, u: Tree, c: nat)
    requires TreeOk(t) && ChainsStored(t.chains, t.disk)
    requires forall h :: h in t.chains ==> c !in t.chains[h]
    requires u.chains == t.chains && u.dirs == t.dirs && u.depth == t.depth && u.root == t.root
    requires forall k :: k in t.disk && k != c ==> k in u.disk && u.disk[k] == t.disk[k]
    ensures TreeOk(u) && SameListings(t, u)
  {
    hide TreeOk, Bytes, ItemsIn;
    forall h | h in t.chains
      ensures BytesIn(u, h) == BytesIn(t, h)
    {
      BytesFrame(t.disk, u.disk, t.chains[h]);
    }
    DirsAreChains(t);
    hide BytesIn;
    SameBytesSameTree(t, u);
  }

  lemma SameBytesSameTree(t: Tree, u: Tree)
    requires TreeOk(t) && u.chains == t.chains && u.dirs == t.dirs && u.depth == t.depth && u.root == t.root
    requires forall h :: h in t.chains ==> BytesIn(u, h) == BytesIn(t, h)
    ensures TreeOk(u) && SameListings(t, u)
  {
    DirsAreChains(t);
    SameBytesSameItems(t, u, t.root);
    assert DirOk(t, t.root);
    hide DirectoryOk, BytesIn, ItemsIn, ItemOk, NoSharing;
    assert OnlyChanged(t, u, t.root);
    GrowKeepsTree(t, u, t.root);
  }

  // ---------------------------------------------------------------- finding a new entry again

  /** A name that the driver shows as it is. */
  predicate IsShown(name: seq<byte>)
  {
    |name| <= UNITS && forall i :: 0 <= i < |name| ==> name[i] < 0x80
  }

  /** What a short name spells. */
  function SpelledBy(s: Slot): seq<byte> { CString(Spelled(ShortName(s))) }

  /** A name whose plain short form is free and spells it. */
  ghost predicate IsPlain(name: seq<byte>, items: seq<Item>)
  {
    PlainFree(name, items) && CaseEqual(CString(Spelled(PlainShort(name).value)), name)
  }

  /** An entry is matched by the name it was created with exactly if the name is ASCII of at most 13
      characters, or its plain short form was free and spells it. */
  lemma FoundAgain(slots: seq<Slot>, it: Item, name: seq<byte>, items: seq<Item>)
    requires IsName(name) && NamedAs(slots, it, name, items)
    ensures Matches(it, name) <==> IsShown(name) || IsPlain(name, items)
  {
    hide Spelled, CString, ShortName, NeedsLong, ItemOf, GatheredAt, Shorts, PlainFree, Printable;
    DriverKeepsShortNames(name);
    var shown := Shown(name);
    assert forall i :: 0 <= i < |shown| ==> shown[i] == Ascii(name[i]);
    if !PlainFree(name, items) && CaseEqual(SpelledBy(it.entry), name) {
      AliasesAreShown(it.entry, name);
    }
    if !NeedsLong(name, items) {
      NoLongIsPlain(name, items);
    }
  }

  lemma NoLongIsPlain(name: seq<byte>, items: seq<Item>)
    requires !NeedsLong(name, items)
    ensures IsPlain(name, items)
  {
    hide PlainShort, Spelled, CString;
  }

  /** A name that a printable short name spells is one the driver shows. */
  lemma AliasesAreShown(s: Slot, name: seq<byte>)
    requires Printable(ShortName(s)) && CaseEqual(SpelledBy(s), name)
    ensures IsShown(name)
  {
    hide Spelled, ShortName, Printable;
    PrintableSpells(ShortName(s));
    SpelledLength(ShortName(s));
    assert forall i :: 0 <= i < |name| ==> ToLower(SpelledBy(s)[i]) == ToLower(name[i]);
  }

  lemma SpelledLength(short: seq<byte>)
    requires |short| == SHORT_SIZE
    ensures |CString(Spelled(short))| <= |Spelled(short)| <= 12
  {
  }

  /** So a name of more than 13 characters is never found again. */
  lemma LongNamesAreLost(slots: seq<Slot>, it: Item, name: seq<byte>, items: seq<Item>)
    requires IsName(name) && |name| > UNITS && NamedAs(slots, it, name, items)
    ensures !Matches(it, name)
  {
    hide NamedAs, Shorts, Spelled;
    FoundAgain(slots, it, name, items);
    if PlainFree(name, items) {
      SpelledLength(PlainShort(name).value);
    }
  }
}
