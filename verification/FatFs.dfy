/** The file system operations on paths, and what they do to the tree of directories and files. */
module FatFs {
  import opened Machine
  import opened FatTable
  import opened FatData
  import opened FatSlot
  import opened FatVolume
  import opened FatLongName
  import opened FatShortName
  import opened FatListing
  import opened FatDirData
  import opened FatSearch
  import opened FatDirectory
  import opened FatTree
  import opened FatSteps
  import opened FatFile
  import opened FatCursor
  import opened FatEdits
  import opened FatCommands
  import opened FatOwners
  import opened FatLookup

  lemma ChainsApart(v: Volume)
    requires v.Valid()
    ensures forall h :: h in v.chains ==> Distinct(v.chains[h])
    ensures forall h, k :: h in v.chains && k in v.chains && h != k ==> Disjoint(v.chains[h], v.chains[k])
  {
    hide Distinct, Disjoint;
    forall h | h in v.chains
      ensures Distinct(v.chains[h])
    {
      v.ChainShape(h);
    }
  }

  const MAX_OPEN := 16

  const NO_ITEM := Item(0, seq(SLOT_SIZE, _ => 0), [])

  class FileSystem {
    const v: Volume
    const root: nat
    ghost var dirs: set<nat>
    ghost var depth: map<nat, nat>
    var inUse: nat

    ghost function Now(): Tree
      reads this`dirs, this`depth, v
    {
      TreeOf(v, dirs, depth, root)
    }

    /** Well formed, as a volume and as a tree. */
    ghost predicate Valid()
      reads this`dirs, this`depth, v, v.fat
    {
      v.Valid() && TreeOk(Now())
    }

    /** Mount a volume that holds a well-formed tree. */
    constructor (v: Volume, root: nat, ghost dirs: set<nat>, ghost depth: map<nat, nat>)
      requires v.Valid() && TreeOk(TreeOf(v, dirs, depth, root))
      ensures Valid() && this.v == v && this.root == root && this.dirs == dirs && this.depth == depth && inUse == 0
    {
      this.v, this.root, this.dirs, this.depth, this.inUse := v, root, dirs, depth, 0;
    }

    // ---------------------------------------------------------------- adding an entry

    /** Choose a short name, reserve slots, and write the long entries and the short one. */
    method AddEntry(x: nat, name: seq<byte>, attributes: byte, cluster: nat)
      returns (r: bool, e: Ending, ghost it: Item)
      requires Valid() && v.intact && x in dirs && IsName(name)
      requires cluster < TWO_32 && MayName(Now(), x, attributes, cluster)
      modifies v, v.fat
      ensures r <==> e == Done
      ensures e == Refused ==> v.intact && Valid() && SameListings(old(Now()), Now())
      ensures e == Done ==>
                && v.intact && Valid() && EntryMade(old(Now()), Now(), x, name, it)
                && it.entry[11] == attributes && ClusterOf(it) == cluster && FileSize(it.entry) == 0
      ensures v.intact ==> SameChains(old(v.chains)) && v.AccountedClusters() == old(v.AccountedClusters())
      ensures v.reliable ==> e != Unfinished && v.intact
      ensures v.reliable && e == Refused ==>
                AliasesUsedUp(ItemsIn(old(Now()), x)) || (Crowded(old(Now()), x, name) && v.Free() == {})
      ensures old(Elsewhere(v, x, cluster)) ==> LinkAt(v, cluster) == old(LinkAt(v, cluster))
    {
      hide Volume.Valid, TreeOk, MayName, GoodChoice, SameListings, EntryMade, Accounted, ItemsIn, SlotsIn,
        DirSlots, Slots, Elsewhere, AliasesUsedUp, Crowded;
      ghost var t := Now();
      DirsHaveChains(t, x);
      it := NO_ITEM;
      SameTree(t);
      var choice := PrepareShortName(v, x, name);
      SameListing(v, t, x);
      if choice.None? {
        return false, Refused, it;
      }
      r, e, it := PlaceEntry(x, name, choice.value, attributes, cluster);
    }

    /** The volume is well formed and has every chain it had. */
    ghost predicate Settled(was: Chains)
      reads v, v.fat
    {
      v.Valid() && was.Keys <= v.chains.Keys
    }

    /** It has just those chains. */
    ghost predicate SameChains(was: Chains)
      reads v, v.fat
    {
      v.Valid() && v.chains.Keys == was.Keys
    }

    method PlaceEntry(x: nat, name: seq<byte>, choice: Chosen, attributes: byte, cluster: nat)
      returns (r: bool, e: Ending, ghost it: Item)
      requires Valid() && v.intact && x in dirs && x in v.chains && IsName(name)
      requires cluster < TWO_32 && MayName(Now(), x, attributes, cluster)
      requires GoodChoice(choice, name, ItemsIn(Now(), x))
      modifies v, v.fat
      ensures r <==> e == Done
      ensures e == Refused ==> v.intact && Valid() && SameListings(old(Now()), Now())
      ensures e == Done ==>
                && v.intact && Valid() && EntryMade(old(Now()), Now(), x, name, it)
                && it.entry[11] == attributes && ClusterOf(it) == cluster && FileSize(it.entry) == 0
      ensures v.intact ==> SameChains(old(v.chains)) && v.AccountedClusters() == old(v.AccountedClusters())
      ensures v.reliable ==> e != Unfinished && v.intact
      ensures v.reliable && e == Refused ==> Crowded(old(Now()), x, name) && v.Free() == {}
      ensures old(Elsewhere(v, x, cluster)) ==> LinkAt(v, cluster) == old(LinkAt(v, cluster))
    {
      hide Volume.Valid, TreeOk, MayName, DirGrew, GoodChoice, ShortEntry, EntryMade, SameListings, FreeRun,
        EntriesFor, Located, DirRewritten, Accounted, Replaced, ItemsIn, SlotsIn, IsName, DirSlots, Slots,
        Elsewhere, NoRun, FreeSet, SlotsNeeded;
      ghost var t := Now();
      ValidIsStored(v);
      it := NO_ITEM;
      ChoiceFits(choice, name, ItemsIn(t, x));
      var count := (if choice.long then EntryCount(name) else 0) + 1;
      var ok, locations, first := ReserveEntries(v, x, count, cluster);
      if v.intact {
        GrewIsWork(v, x, t, Now());
        ReservedKeepsTree(t, Now(), x);
        DirGrewIsValid(v, x, t.chains, t.disk);
      }
      if !ok {
        if v.reliable {
          StillCrowded(t, x, name, count);
        }
        return false, if v.intact then Refused else Unfinished, it;
      }
      var failed := v.Fails();
      if failed {
        return false, Refused, it;
      }
      var s := ShortEntry(choice.short, attributes, cluster, 0);
      var entries := BuildEntries(name, choice.long, s);
      ghost var t1 := Now();
      SameListingsMayName(t, t1, x, attributes, cluster);
      SameListed(t, t1, x);
      SameListing(v, t1, x);
      ValidIsStored(v);
      ok := WriteEntries(v, x, locations, entries, first);
      if !ok {
        return false, Unfinished, it;
      }
      r, e := true, Done;
      RewriteIsWork(v, x, t1, Now(), Replaced(SlotsIn(t1, x), first, entries));
      it := WrittenAddsItem(t1, Now(), x, first, name, choice.long, s);
      EntryMadeAfterSame(t, t1, Now(), x, name, it);
    }

    /** A directory that has no room even after it has grown had none before. */
    lemma StillCrowded(t: Tree, x: nat, name: seq<byte>, count: nat)
      requires IsName(name) && count == SlotsNeeded(name, ItemsIn(t, x))
      requires EndsAdded(SlotsIn(Now(), x), SlotsIn(t, x)) && x in v.chains && NoRun(DirOf(v, x), |DirOf(v, x)|, count)
      ensures Crowded(t, x, name)
    {
      hide DirSlots, NoRun, SlotsNeeded, ItemsIn;
      SlotsHere(Now(), x);
      var slots, now := SlotsIn(t, x), DirOf(v, x);
      assert now == slots + now[|slots|..];
      NoRunBefore(slots, now[|slots|..], count);
    }

    lemma SameListed(t: Tree, u: Tree, x: nat)
      requires SameListings(t, u) && x in t.dirs
      ensures ItemsIn(u, x) == ItemsIn(t, x)
    {
    }

    // ---------------------------------------------------------------- resolving paths

    method LookupDir(path: Path) returns (r: Option<nat>)
      requires Valid() && IsPath(path)
      ensures r.Some? ==> r == DirAt(Now(), path) && r.value in dirs
      ensures v.reliable ==> r == DirAt(Now(), path)
    {
      hide Volume.Valid, TreeOk, Walked, StoredAt, ItemsIn;
      if path == [] {
        RootIsDir(Now());
        return Some(root);
      }
      var found, location, readFailed := LookupPath(v, path, dirs, depth, root);
      if found.None? || !IsDirectory(found.value.item.entry[11]) {
        return None;
      }
      r := Some(FirstCluster(found.value.item.entry));
    }

    /** Both operations that make entries first make sure that the path leads nowhere yet and that
        its parent is a directory. */
    method ParentForNew(path: Path) returns (r: Option<nat>, ghost readFailed: bool)
      requires Valid() && IsPath(path)
      ensures r.Some? ==>
                && path != [] && r.value in dirs && r == DirAt(Now(), path[..|path| - 1])
                && (!readFailed ==> Walked(Now(), root, None, path) == None)
      ensures v.reliable ==> !readFailed && (r.Some? <==> Creatable(Now(), path))
    {
      hide Volume.Valid, TreeOk, Walked, StoredAt, ItemsIn, FoundOk, DirAt;
      if path == [] {
        return None, false;
      }
      var existing, location;
      existing, location, readFailed := LookupPath(v, path, dirs, depth, root);
      if existing.Some? {
        return None, readFailed;
      }
      r := LookupDir(path[..|path| - 1]);
    }

    // ---------------------------------------------------------------- create and mkdir

    /** Create an empty file. A lookup that fails on the device counts as "not there". */
    method Create(path: Path) returns (r: bool, e: Ending, ghost x: nat, ghost it: Item, ghost readFailed: bool)
      requires Valid() && v.intact && IsPath(path)
      modifies v, v.fat
      ensures r <==> e == Done
      ensures e == Refused ==>
                && v.intact && Valid() && SameListings(old(Now()), Now())
                && Now().chains.Keys == old(Now()).chains.Keys
      ensures r ==>
                && v.intact && Valid() && Means(DoCreate(path), old(Now()), Now(), x, it, it)
                && (!readFailed ==> Creatable(old(Now()), path))
      ensures v.intact ==> SameChains(old(v.chains)) && v.AccountedClusters() == old(v.AccountedClusters())
      ensures v.reliable ==> e != Unfinished && v.intact && !readFailed
      ensures v.reliable && e == Refused && Creatable(old(Now()), path) ==>
                && DirAt(old(Now()), Front(path)) == Some(x)
                && (AliasesUsedUp(ItemsIn(old(Now()), x)) || (Crowded(old(Now()), x, Last(path)) && v.Free() == {}))
    {
      hide Volume.Valid, TreeOk, Walked, SameListings, EntryMade, DirAt, Accounted, IsName, Elsewhere, ItemsIn,
        AliasesUsedUp, Crowded, IsDirectory;
      it := NO_ITEM;
      x := 0;
      SameTree(Now());
      AttributeBits();
      var dir;
      dir, readFailed := ParentForNew(path);
      if dir.None? {
        return false, Refused, x, it, readFailed;
      }
      x := dir.value;
      r, e, it := AddEntry(dir.value, Last(path), ATTR_ARCHIVE, 0);
    }

    /** The two entries of a new directory, on the device. */
    method InitDirectory(c: nat, parent: nat) returns (ok: bool)
      requires v.Valid() && 2 <= c < TWO_32 && parent < TWO_32
      modifies v`disk, v`intact
      ensures ok ==> v.intact == old(v.intact) && v.Valid()
      ensures v.ClusterSize() >= 2 * SLOT_SIZE
      ensures ok ==> v.disk == old(v.disk)[c := FreshBlock(v.ClusterSize(), c, if parent >= 2 then parent else c)]
      ensures !ok && v.intact ==> v.disk == old(v.disk) && v.Valid()
      ensures v.reliable && c in old(v.disk) ==> ok
    {
      hide DotSlot, DotDotSlot, Zeros, WithSlot;
      ok := false;
      var failed := v.Fails();
      if failed {
        return;
      }
      var block := Zeros(v.ClusterSize());
      block := WithSlot(block, 0, DotSlot(c));
      block := WithSlot(block, 1, DotDotSlot(if parent >= 2 then parent else c));
      hide Volume.Valid;
      ok := v.WriteCluster(c, block);
    }

    /** Create an empty directory: claim and fill a cluster, then enter it in its parent. If the entry
        cannot be made the cluster is given back. */
    method Mkdir(path: Path) returns (r: bool, e: Ending, ghost x: nat, ghost it: Item, ghost readFailed: bool)
      requires Valid() && v.intact && IsPath(path)
      modifies this`dirs, this`depth, v, v.fat
      ensures r <==> e == Done
      ensures e == Refused ==>
                && v.intact && Valid() && SameListings(old(Now()), Now())
                && Now().chains.Keys == old(Now()).chains.Keys
      ensures r ==>
                && v.intact && Valid() && Means(DoMkdir(path), old(Now()), Now(), x, it, it)
                && (!readFailed ==> Creatable(old(Now()), path))
      ensures v.intact ==> Settled(old(v.chains)) && v.AccountedClusters() == old(v.AccountedClusters())
      ensures v.reliable ==> e != Unfinished && v.intact && !readFailed
      ensures v.reliable && e == Refused && Creatable(old(Now()), path) ==>
                && DirAt(old(Now()), Front(path)) == Some(x)
                && (v.Free() == {} || AliasesUsedUp(ItemsIn(old(Now()), x))
                    || (Crowded(old(Now()), x, Last(path)) && |v.Free()| == 1))
    {
      hide Volume.Valid, TreeOk, Walked, SameListings, DirectoryMade, DirAt, Accounted, IsName, Low28, FreeSet,
        ChainsStored, ItemsIn, AliasesUsedUp, Crowded;
      it := NO_ITEM;
      x := 0;
      SameTree(Now());
      ValidIsStored(v);
      v.FreshClusters();
      var dir;
      dir, readFailed := ParentForNew(path);
      if dir.None? {
        return false, Refused, x, it, readFailed;
      }
      x := dir.value;
      ghost var t := Now();
      var c := v.AllocateCluster(0, 0);
      if c == 0 {
        return false, if v.intact then Refused else Unfinished, x, it, readFailed;
      }
      r, e, it := FillAndEnter(t, dir.value, c, Last(path));
    }

    method FillAndEnter(ghost t: Tree, x: nat, c: nat, name: seq<byte>) returns (r: bool, e: Ending, ghost it: Item)
      requires v.Valid() && v.intact && IsName(name) && 2 <= c < END_CLUSTER
      requires TreeOk(t) && x in t.dirs && ChainsStored(t.chains, t.disk)
                 && Now() == t.(chains := v.chains, disk := v.disk)
      requires c !in t.chains && v.chains == t.chains[c := [c]] && forall h :: h in t.chains ==> c !in t.chains[h]
      requires v.disk == t.disk[c := Zeros(v.ClusterSize())]
      modifies this`dirs, this`depth, v, v.fat
      ensures r <==> e == Done
      ensures e == Refused ==> v.intact && Valid() && SameListings(t, Now()) && v.chains.Keys == t.chains.Keys
      ensures e == Done ==> v.intact && Valid() && DirectoryMade(t, Now(), x, name, it)
      ensures v.intact ==> Settled(t.chains) && v.AccountedClusters() == old(v.AccountedClusters())
      ensures v.reliable ==> e != Unfinished && v.intact
      ensures v.reliable && e == Refused ==>
                AliasesUsedUp(ItemsIn(t, x)) || (Crowded(t, x, name) && |v.Free()| == 1)
    {
      hide Volume.Valid, TreeOk, SameListings, DirectoryMade, DirAt, Accounted, IsName, FreshBlock, Zeros,
        ItemsIn, AliasesUsedUp, Crowded;
      it := NO_ITEM;
      NewChainLink(t, x, c);
      var ok := InitDirectory(c, x);
      if !ok {
        v.ReleaseChain(c);
        r, e := false, if v.intact then Refused else Unfinished;
        assert t.chains[c := [c]] - {c} == t.chains;
        if v.intact {
          LooseCluster(t, Now(), c);
        }
        return;
      }
      r, e, it := EnterDirectory(t, x, c, name);
    }

    method EnterDirectory(ghost t: Tree, x: nat, c: nat, name: seq<byte>) returns (r: bool, e: Ending, ghost it: Item)
      requires v.Valid() && v.intact && IsName(name) && 2 <= c < END_CLUSTER && 2 <= x < TWO_32
      requires TreeOk(t) && x in t.dirs && ChainsStored(t.chains, t.disk)
                 && Now() == t.(chains := v.chains, disk := v.disk)
      requires c !in t.chains && v.chains == t.chains[c := [c]] && forall h :: h in t.chains ==> c !in t.chains[h]
      requires v.ClusterSize() >= 2 * SLOT_SIZE && v.disk == t.disk[c := FreshBlock(v.ClusterSize(), c, x)]
      modifies this`dirs, this`depth, v, v.fat
      ensures r <==> e == Done
      ensures e == Refused ==> v.intact && Valid() && SameListings(t, Now()) && v.chains.Keys == t.chains.Keys
      ensures e == Done ==> v.intact && Valid() && DirectoryMade(t, Now(), x, name, it)
      ensures v.intact ==> Settled(t.chains) && v.AccountedClusters() == old(v.AccountedClusters())
      ensures v.reliable ==> e != Unfinished && v.intact
      ensures v.reliable && e == Refused ==>
                AliasesUsedUp(ItemsIn(t, x)) || (Crowded(t, x, name) && |v.Free()| == 1)
    {
      hide Volume.Valid, TreeOk, SameListings, DirectoryMade, Accounted, IsName, FreshBlock, MayName, Joined,
        NobodyOwns, ItemsIn, SlotsIn, Elsewhere, Low28, IsDot, ItemOk, DirectoryOk, ShortsUnique, ChainsStored,
        Contained, AliasesUsedUp, Crowded, FreeSet;
      NewChainLink(t, x, c);
      ghost var t2 := Now();
      FreshDirectory(t, t2, c, x, v.ClusterSize());
      JoinDirectory(t2, c, x);
      DirsAreChains(t);
      dirs, depth := dirs + {c}, depth[c := depth[x] + 1];
      ghost var w := Now();
      assert w == WithDir(t2, c, x);
      RoomBefore(t, w, x, c, name);
      assert Entering(t, t2, w, x, c);
      r, e, it := NameDirectory(t, t2, w, x, c, name);
    }

    /** Name the directory that has joined the tree, or let it go again. */
    method NameDirectory(ghost t: Tree, ghost t2: Tree, ghost w: Tree, x: nat, c: nat, name: seq<byte>)
      returns (r: bool, e: Ending, ghost it: Item)
      requires Valid() && v.intact && IsName(name) && 2 <= c < END_CLUSTER && Now() == w && x in dirs
      requires Entering(t, t2, w, x, c) && (Crowded(w, x, name) ==> Crowded(t, x, name))
      requires Elsewhere(v, x, c) && Low28(LinkAt(v, c)) == END_CLUSTER
      modifies this`dirs, this`depth, v, v.fat
      ensures r <==> e == Done
      ensures e == Refused ==> v.intact && Valid() && SameListings(t, Now()) && v.chains.Keys == t.chains.Keys
      ensures e == Done ==> v.intact && Valid() && DirectoryMade(t, Now(), x, name, it)
      ensures v.intact ==> Settled(t.chains) && v.AccountedClusters() == old(v.AccountedClusters())
      ensures v.reliable ==> e != Unfinished && v.intact
      ensures v.reliable && e == Refused ==>
                AliasesUsedUp(ItemsIn(t, x)) || (Crowded(t, x, name) && |v.Free()| == 1)
    {
      hide Volume.Valid, TreeOk, SameListings, EntryMade, DirectoryMade, Accounted, IsName, Vanishes, MayName, Joined,
        ItemsIn, Elsewhere, Low28, IsDirectory, AliasesUsedUp, Crowded, FreeSet, Contained, Entering;
      EnteringFacts(t, t2, w, x, c);
      AttributeBits();
      r, e, it := AddEntry(x, name, ATTR_DIRECTORY, c);
      if r {
        ghost var t4 := Now();
        if Vanishes(name, ItemsIn(t, x)) {
          dirs, depth := t.dirs, t.depth;
        }
        DirectoryEntered(t, t2, w, t4, Now(), x, c, name, it);
        return;
      }
      e := GiveBack(t, t2, w, x, c, e);
      assert v.reliable && v.Free() == {} + {c} ==> |v.Free()| == 1;
    }

    /** A fresh directory elsewhere makes no difference to the room in directory `x`. */
    lemma RoomBefore(t: Tree, w: Tree, x: nat, c: nat, name: seq<byte>)
      requires IsName(name) && ChainsStored(t.chains, t.disk) && x in t.chains && x != c && c !in t.chains[x]
      requires w.chains == t.chains[c := [c]] && c in w.disk && w.disk == t.disk[c := w.disk[c]]
      ensures Crowded(w, x, name) ==> Crowded(t, x, name)
      ensures ItemsIn(w, x) == ItemsIn(t, x)
    {
      hide Crowded, AliasesUsedUp, DirSlots, Listing;
      BytesFrame(t.disk, w.disk, t.chains[x]);
      SameBytesSameItems(t, w, x);
      CrowdedSame(t, w, x, name);
    }

    lemma CrowdedSame(t: Tree, w: Tree, x: nat, name: seq<byte>)
      requires IsName(name) && SlotsIn(w, x) == SlotsIn(t, x) && ItemsIn(w, x) == ItemsIn(t, x)
      ensures Crowded(w, x, name) <==> Crowded(t, x, name)
    {
    }

    /** Release the cluster of a directory that could not be entered. */
    method GiveBack(ghost t: Tree, ghost t2: Tree, ghost w: Tree, ghost x: nat, c: nat, was: Ending)
      returns (e: Ending)
      requires Low28(LinkAt(v, c)) == END_CLUSTER
      requires v.intact ==> v.Valid() && c in v.chains && t.chains.Keys <= v.chains.Keys
      requires was == Refused ==> v.chains.Keys == t.chains.Keys + {c}
      requires Entering(t, t2, w, x, c)
      requires was == Refused ==> v.intact && Valid() && SameListings(w, Now())
      modifies this`dirs, this`depth, v, v.fat
      ensures e == Refused ==> v.intact && Valid() && SameListings(t, Now()) && v.chains.Keys == t.chains.Keys
      ensures e != Done
      ensures v.intact ==> old(v.intact) && Settled(t.chains) && v.AccountedClusters() == old(v.AccountedClusters())
      ensures v.reliable && old(v.intact) && was == Refused ==>
                e == Refused && v.intact && v.Free() == old(v.Free()) + {c}
    {
      hide Volume.Valid, TreeOk, SameListings, Accounted, Joined, Low28, Contained, LinkAt, FreeSet, ItemsIn, MayName;
      ghost var t4 := Now();
      StillLone(c);
      if v.Valid() && c in v.chains {
        LoneChain(c);
      }
      v.ReleaseChain(c);
      dirs, depth := t.dirs, t.depth;
      e := Unfinished;
      if was == Refused && v.intact {
        DirectoryUndone(t, t2, w, t4, Now(), c);
        e := Refused;
      }
    }

    lemma AttributeBits()
      ensures IsDirectory(ATTR_DIRECTORY) && !IsDirectory(ATTR_ARCHIVE)
    {
    }

    lemma StillLone(c: nat)
      requires Low28(LinkAt(v, c)) == END_CLUSTER
      ensures Contained(v.fat[..], c)
    {
      LoneClusterContained(v.fat[..], c);
    }

    /** A cluster that links nowhere is a chain by itself. */
    lemma LoneChain(c: nat)
      requires v.Valid() && c in v.chains && Low28(LinkAt(v, c)) == END_CLUSTER
      ensures v.chains[c] == [c] && Elements(v.chains[c]) == {c}
    {
      v.ChainShape(c);
      v.ChainStep(c, 0);
    }

    /** A cluster just claimed is a chain of its own, and can be given back whatever happens to the
        others. */
    lemma NewChainLink(t: Tree, x: nat, c: nat)
      requires v.Valid() && TreeOk(t) && x in t.dirs && c !in t.chains && v.chains == t.chains[c := [c]]
      requires forall h :: h in t.chains ==> c !in t.chains[h]
      ensures 2 <= x < TWO_32 && x != c && x in v.chains && Elsewhere(v, x, c) && Low28(LinkAt(v, c)) == END_CLUSTER
      ensures Contained(v.fat[..], c)
    {
      hide Volume.Valid, TreeOk;
      DirsAreChains(t);
      v.ChainStep(c, 0);
      v.ChainShape(x);
      v.ChainStep(x, 0);
      LoneClusterContained(v.fat[..], c);
    }

    // ---------------------------------------------------------------- remove and rmdir

    /** Free the chain an entry names, then mark the entry and its long entries deleted. Nothing is
        undone if the second part fails. */
    method DropEntry(x: nat, cluster: nat, location: Location, ghost it: Item) returns (r: bool)
      requires Valid() && v.intact && FoundOk(Now(), Found(x, it)) && StoredAt(v, x, it.at, location)
      requires cluster == ClusterOf(it)
      modifies this`dirs, v, v.fat
      ensures r && v.intact ==> Valid() && ItemRemoved(old(Now()), Now(), x, it)
      ensures r && v.intact ==>
                v.Free() == old(v.Free()) + (if Owns(it) then Elements(old(v.chains)[cluster]) else {})
      ensures v.intact ==> v.Valid() && v.AccountedClusters() == old(v.AccountedClusters())
      ensures v.reliable ==> r && v.intact
    {
      hide Volume.Valid, TreeOk, SlotsIn, ItemsIn, ItemRemoved, Accounted, FreeSet, NameRun, WithDeleted,
        StoredAt, DirSlots, Elements, Cleared, DirRewritten, Span, LocationOf, InRange, FoundOk, ChainsStored,
        PairwiseDisjoint, Owns, Worked;
      ghost var t := Now();
      ValidIsStored(v);
      DirsAreChains(t);
      ItemChain(t, x, it);
      WhereStored(x, it.at, location);
      FoundParts(t, x, it);
      if cluster >= 2 {
        v.ReleaseChain(cluster);
        dirs := dirs - {cluster};
      }
      ghost var g := Now();
      assert g == Dangling(t, it);
      ValidIsStored(v);
      SlotsHere(t, x);
      ghost var l;
      r, l := MarkDeleted(v, x, location, it.at);
      if r && v.intact {
        NameRunFits(SlotsIn(t, x), l, it.at);
        RewriteIsWork(v, x, g, Now(), WithDeleted(SlotsIn(t, x), l, it.at));
        DeletedRemovesItem(t, Now(), x, it, l);
      }
    }

    /** Remove a file. */
    method Remove(path: Path) returns (r: bool, e: Ending, ghost f: Found)
      requires Valid() && v.intact && IsPath(path)
      modifies this`dirs, v, v.fat
      ensures e == Done <==> r && v.intact
      ensures e == Refused ==> !r && v.intact && Valid() && Now() == old(Now())
      ensures e == Done ==>
                && FileAt(old(Now()), path, f)
                && Valid() && Means(DoRemove(path), old(Now()), Now(), f.dir, f.item, f.item)
      ensures v.intact ==> v.Valid() && v.AccountedClusters() == old(v.AccountedClusters())
      ensures v.reliable ==> e != Unfinished && (e == Done <==> exists g :: FileAt(old(Now()), path, g))
    {
      hide Volume.Valid, TreeOk, Walked, ItemRemoved, Accounted, FoundOk, StoredAt, ItemsIn, Elements, IsDirectory;
      f := Found(0, NO_ITEM);
      if path == [] {
        return false, Refused, f;
      }
      var found, location, readFailed := LookupPath(v, path, dirs, depth, root);
      if found.None? || IsDirectory(found.value.item.entry[11]) {
        return false, Refused, f;
      }
      f := found.value;
      r := DropEntry(found.value.dir, FirstCluster(found.value.item.entry), location, found.value.item);
      e := if r && v.intact then Done else Unfinished;
    }

    /** Remove a directory that shows nothing but `.` and `..`. */
    method Rmdir(path: Path) returns (r: bool, e: Ending, ghost f: Found)
      requires Valid() && v.intact && IsPath(path)
      modifies this`dirs, v, v.fat
      ensures e == Done <==> r && v.intact
      ensures e == Refused ==> !r && v.intact && Valid() && Now() == old(Now())
      ensures e == Done ==>
                && DirectoryAt(old(Now()), path, f) && SeemsEmpty(old(Now()), ClusterOf(f.item))
                && Valid() && Means(DoRmdir(path), old(Now()), Now(), f.dir, f.item, f.item)
      ensures v.intact ==> v.Valid() && v.AccountedClusters() == old(v.AccountedClusters())
      ensures v.reliable ==>
                && e != Unfinished
                && (e == Done <==>
                    exists g :: DirectoryAt(old(Now()), path, g) && SeemsEmpty(old(Now()), ClusterOf(g.item)))
    {
      hide Volume.Valid, TreeOk, Walked, ItemRemoved, Accounted, FoundOk, StoredAt, ItemsIn, Elements,
        IsDirectory, IsDot;
      f := Found(0, NO_ITEM);
      if path == [] {
        return false, Refused, f;
      }
      var found, location, readFailed := LookupPath(v, path, dirs, depth, root);
      if found.None? || !IsDirectory(found.value.item.entry[11]) {
        return false, Refused, f;
      }
      DirectoryFound(Now(), found.value);
      var listed, empty := OnlyDots(FirstCluster(found.value.item.entry));
      if !listed || !empty {
        return false, Refused, f;
      }
      f := found.value;
      r := DropEntry(found.value.dir, FirstCluster(found.value.item.entry), location, found.value.item);
      e := if r && v.intact then Done else Unfinished;
    }

    /** Listing stops at the first entry that is not shown as `.` or `..`. */
    method OnlyDots(d: nat) returns (ok: bool, empty: bool)
      requires Valid() && d in dirs
      ensures ok ==> (empty <==> SeemsEmpty(Now(), d))
      ensures v.reliable ==> ok
    {
      hide Volume.Valid, TreeOk, IsDotName, StoredAt, Until, ItemsIn;
      DirsAreChains(Now());
      SameListing(v, Now(), d);
      var stop := (it: Item) => !IsDotName(it.name);
      var seen, location;
      ok, seen, location := Iterate(v, d, stop);
      empty := seen == [] || IsDotName(seen[|seen| - 1].name);
      if ok && empty {
        forall it | it in ItemsIn(Now(), d)
          ensures IsDotName(it.name)
        {
          var i :| 0 <= i < |seen| && seen[i] == it;
          assert i < |seen| - 1 ==> !stop(seen[i]);
        }
      }
    }

    lemma DirectoryFound(t: Tree, f: Found)
      requires FoundOk(t, f) && IsDirectory(f.item.entry[11])
      ensures ClusterOf(f.item) in t.dirs
    {
    }

    // ---------------------------------------------------------------- writing a file

    /** Open a file, move the cursor, write, and close it again. Opening fails when the path leads to no
        file or every descriptor is taken. */
    method WriteFile(path: Path, offset: uint32, data: seq<byte>)
      returns (r: int, ghost isOpen: bool, ghost f: Found, ghost jt: Item)
      requires Valid() && v.intact && IsPath(path)
      modifies this`inUse, v, v.fat
      ensures inUse == old(inUse)
      ensures v.intact ==> Valid() && v.AccountedClusters() == old(v.AccountedClusters())
      ensures !isOpen ==> r == -1 && v.intact && Now() == old(Now())
      ensures v.intact && isOpen ==>
                FileAt(old(Now()), path, f) && FileEdited(old(Now()), Now(), f.dir, f.item, jt)
      ensures r == |data| && data != [] ==>
                && v.intact && isOpen
                && FileIn(Now(), jt) == Edited(FileIn(old(Now()), f.item), offset, data)
      ensures r == |data| ==> Now().chains.Keys == old(Now()).chains.Keys + Named(jt)
      ensures v.reliable ==>
                && v.intact
                && (isOpen <==> inUse < MAX_OPEN && exists g :: FileAt(old(Now()), path, g))
                && (isOpen && r != |data| ==> v.Free() == {})
    {
      hide Volume.Valid, TreeOk, Walked, FoundOk, StoredAt, ItemsIn, IsDirectory, Accounted, FileEdited, Edited,
        FileIn, FreeSet;
      isOpen, f, jt := false, Found(0, NO_ITEM), NO_ITEM;
      if path == [] {
        return -1, isOpen, f, jt;
      }
      var found, location, readFailed := LookupPath(v, path, dirs, depth, root);
      if found.None? || IsDirectory(found.value.item.entry[11]) || inUse >= MAX_OPEN {
        return -1, isOpen, f, jt;
      }
      inUse := inUse + 1;
      isOpen, f := true, found.value;
      assert FileAt(Now(), path, f);
      r, jt := WriteFound(found.value, location, offset, data);
      inUse := inUse - 1;
    }

    /** Open a file, move the cursor, read, and close it again. */
    method ReadFile(path: Path, offset: uint32, count: uint32) returns (r: Option<seq<byte>>, ghost f: Found)
      requires Valid() && IsPath(path)
      modifies this`inUse
      ensures inUse == old(inUse)
      ensures r.Some? ==> FileAt(Now(), path, f)
      ensures r.Some? ==>
                (r.value == Piece(FileIn(Now(), f.item), offset, count) <==> NoSlackRead(Now(), f.item, offset, count))
      ensures v.reliable ==> (r.Some? <==> inUse < MAX_OPEN && exists g :: FileAt(Now(), path, g))
    {
      hide Volume.Valid, TreeOk, Walked, FoundOk, StoredAt, ItemsIn, IsDirectory, FileIn, BytesIn, FileSize,
        FirstCluster, OpenFile.Valid, EntryAt, ReadResult;
      f := Found(0, NO_ITEM);
      if path == [] {
        return None, f;
      }
      var found, location, readFailed := LookupPath(v, path, dirs, depth, root);
      if found.None? || IsDirectory(found.value.item.entry[11]) || inUse >= MAX_OPEN {
        return None, f;
      }
      f := found.value;
      assert FileAt(Now(), path, f);
      OpenFacts(Now(), f, location);
      var entry := found.value.item.entry;
      var handle := new OpenFile(v, FirstCluster(entry), FileSize(entry), found.value.dir, location.cluster,
        location.index);
      inUse := inUse + 1;
      handle.Seek(v, offset);
      ghost var pos := handle.position;
      r := handle.Read(v, count);
      inUse := inUse - 1;
      if r.Some? {
        handle.CursorFacts(v);
        PieceIsRead(Now(), f.item, handle.Data(v), pos, offset, count);
      }
    }

    /** A read does not reach into the slack: it begins at the end, does not wrap, or there is no slack. */
    ghost predicate NoSlackRead(t: Tree, it: Item, offset: uint32, count: uint32)
    {
      || offset >= FileSize(it.entry) || offset + count < TWO_32
      || FileSize(it.entry) == |BytesIn(t, ClusterOf(it))|
    }

    lemma PieceIsRead(t: Tree, it: Item, data: seq<byte>, pos: nat, offset: uint32, count: uint32)
      requires data == BytesIn(t, ClusterOf(it)) && FileSize(it.entry) <= |data| < TWO_32
      requires ClusterOf(it) < 2 ==> FileSize(it.entry) == 0
      requires pos == Min(offset, FileSize(it.entry))
      ensures ReadResult(data, FileSize(it.entry), pos, count) == Piece(FileIn(t, it), offset, count)
              <==> NoSlackRead(t, it, offset, count)
    {
      hide BytesIn, FileSize, FirstCluster, ReadResult;
      var size, contents := FileSize(it.entry), FileIn(t, it);
      assert contents == data[..size];
      ReadIsExact(data, size, pos, count);
      if pos < size {
        var end := if pos + count < size then pos + count else size;
        assert contents[pos..end] == data[pos..end];
      }
    }

    method WriteFound(f: Found, location: Location, offset: uint32, data: seq<byte>) returns (r: int, ghost jt: Item)
      requires Valid() && v.intact && FoundOk(Now(), f) && StoredAt(v, f.dir, f.item.at, location)
      requires !IsDirectory(f.item.entry[11])
      modifies v, v.fat
      ensures v.intact ==>
                && Valid() && v.AccountedClusters() == old(v.AccountedClusters())
                && FileEdited(old(Now()), Now(), f.dir, f.item, jt)
      ensures r == |data| && data != [] ==>
                && v.intact
                && FileIn(Now(), jt) == Edited(FileIn(old(Now()), f.item), offset, data)
      ensures r == |data| ==> Now().chains.Keys == old(Now()).chains.Keys + Named(jt)
      ensures v.reliable ==> v.intact && (r != |data| ==> v.Free() == {})
    {
      hide Volume.Valid, TreeOk, FoundOk, StoredAt, ItemsIn, IsDirectory, Accounted, FileEdited, Edited, FileIn,
        OpenedOn, Wrote, FileSize, FirstCluster, BytesIn, OpenFile.Valid, OpenFile.Written, OpenFile.EntryState,
        EntryAt;
      ghost var t := Now();
      ValidIsStored(v);
      OpenFacts(t, f, location);
      jt := NO_ITEM;
      var entry := f.item.entry;
      var handle := new OpenFile(v, FirstCluster(entry), FileSize(entry), f.dir, location.cluster, location.index);
      HandleOpened(handle, t, f, location);
      handle.Seek(v, offset);
      ghost var pos, done := handle.position, 0;
      r, done := handle.Write(v, data);
      if v.intact {
        ghost var recorded := r == |data| && data != [];
        WroteAll(handle, t, f, pos, data, done, recorded);
        WriteKeepsTree(handle, v, t, Now(), f.dir, f.item, pos, data, done, recorded);
        jt := ItemAfter(handle, f.item, recorded);
        if data == [] {
          assert jt == f.item;
          assert t.chains.Keys + Named(jt) == t.chains.Keys;
        }
        if recorded {
          FileSized(t, f.item);
          WriteEditsContents(handle, v, t, Now(), f.dir, f.item, offset, data);
        }
      }
    }

    lemma FileSized(t: Tree, it: Item)
      requires ClusterOf(it) >= 2 ==> ClusterOf(it) in t.chains && FileSize(it.entry) <= |BytesIn(t, ClusterOf(it))|
      requires ClusterOf(it) < 2 ==> FileSize(it.entry) == 0
      ensures |FileIn(t, it)| == FileSize(it.entry)
    {
      hide BytesIn, FileSize, FirstCluster;
    }

    lemma WroteAll(h: OpenFile, t: Tree, f: Found, pos: nat, data: seq<byte>, done: nat, recorded: bool)
      requires h.EntryState(v, t.disk, recorded)
      requires h.Written(v, v.disk[h.entryCluster := t.disk[h.entryCluster]], t.chains, t.disk, ClusterOf(f.item),
                 FileSize(f.item.entry), pos, data, done)
      ensures Wrote(h, v, t, f.dir, f.item, pos, data, done, recorded) && v.Valid()
    {
      hide Volume.Valid;
    }

    /** What opening a found file needs to know. */
    lemma OpenFacts(t: Tree, f: Found, location: Location)
      requires Valid() && t == Now() && FoundOk(t, f) && StoredAt(v, f.dir, f.item.at, location)
                 && !IsDirectory(f.item.entry[11])
      ensures var c := ClusterOf(f.item);
              && (if c < 2 then FileSize(f.item.entry) == 0 && c !in v.chains
                  else c in v.chains && FileSize(f.item.entry) <= |BytesIn(t, c)|)
              && BytesIn(t, c) == v.BytesOf(c)
              && EntryAt(v.chains, v.ClusterSize(), c, f.dir, location.cluster, location.index)
    {
      hide TreeOk, ItemsIn, Span, Volume.Valid, FileSize, FirstCluster, IsDirectory;
      DirsAreChains(t);
      ItemChain(t, f.dir, f.item);
      FileOwnsNoDir(t, f.dir, f.item);
      v.ChainShape(f.dir);
      v.ChainShape(ClusterOf(f.item));
    }

    lemma HandleOpened(h: OpenFile, t: Tree, f: Found, location: Location)
      requires v.Valid() && t == Now() && StoredAt(v, f.dir, f.item.at, location)
      requires EntryAt(v.chains, v.ClusterSize(), ClusterOf(f.item), f.dir, location.cluster, location.index)
      requires h.entryCluster == location.cluster && h.entryIndex == location.index
      ensures OpenedOn(h, v.ClusterSize(), t, f.dir, f.item)
    {
      hide Volume.Valid, Span, LocationOf, FirstCluster, Shaped, Distinct, InRange, StoredAt;
      v.ChainShape(f.dir);
      WhereStored(f.dir, f.item.at, location);
      WholeSlots();
    }

    lemma WholeSlots()
      ensures v.ClusterSize() % SLOT_SIZE == 0
    {
    }

    // ---------------------------------------------------------------- runs

    /** Carry out one command. It does what it means, or leaves the tree as it was; and a reliable volume
        refuses only what cannot be done, or what there is no room for. */
    method Perform(c: Command) returns (e: Ending)
      requires Valid() && v.intact && Sensible(c)
      modifies this`dirs, this`depth, this`inUse, v, v.fat
      ensures inUse == old(inUse)
      ensures e == Done || e == Refused ==> Valid() && v.intact
      ensures Stepped(c, e, old(Now()), Now())
      ensures v.intact ==> v.Valid() && v.AccountedClusters() == old(v.AccountedClusters())
      ensures v.reliable ==> e != Unfinished
      ensures e == Done && old(AllOwned(Now())) ==> (AllOwned(Now()) <==> !Strands(c, old(Now())))
      ensures e == Refused && old(AllOwned(Now())) && !AllOwned(Now()) ==> BeganEmptyFile(c, old(Now()))
      ensures v.reliable && e == Refused && Possible(c, old(Now())) ==>
                !c.DoRemove? && !c.DoRmdir? && (|v.Free()| <= 1 || (c.DoWriteAt? && inUse >= MAX_OPEN))
    {
      hide Volume.Valid, TreeOk, Walked, DirAt, Accounted, ItemsIn, FileEdited, ItemRemoved, EntryMade,
        DirectoryMade, SameListings, Edited, FileIn, IsDot, IsDotName, IsDirectory, Crowded, AliasesUsedUp, FreeSet,
        Means, SeemsEmpty, AllOwned, Strands;
      ghost var t, x, it, readFailed, f, isOpen, jt := Now(), 0, NO_ITEM, false, Found(0, NO_ITEM), false, NO_ITEM;
      SameTree(t);
      var r;
      match c {
        case DoCreate(path) =>
          r, e, x, it, readFailed := Create(path);
          jt := it;
        case DoMkdir(path) =>
          r, e, x, it, readFailed := Mkdir(path);
          jt := it;
        case DoRemove(path) =>
          r, e, f := Remove(path);
          x, it, jt := f.dir, f.item, f.item;
        case DoRmdir(path) =>
          r, e, f := Rmdir(path);
          x, it, jt := f.dir, f.item, f.item;
        case DoWriteAt(path, offset, data) =>
          var n;
          n, isOpen, f, jt := WriteFile(path, offset, data);
          e := if !v.intact then Unfinished else if n == |data| then Done else Refused;
          x, it := f.dir, f.item;
          if e == Done {
            WriteMeans(path, offset, data, t, Now(), f, jt);
          }
      }
      assert e == Done ==> Means(c, t, Now(), x, it, jt);
      assert e == Refused ==> Unchanged(c, t, Now(), x, it, jt);
      if AllOwned(t) {
        if e == Done {
          DoneKeepsOwners(c, t, Now(), x, it, jt);
        } else if e == Refused {
          RefusedKeepsOwners(c, t, Now(), x, it, jt);
        }
      }
    }

    /** The device has let the last command down half-way. */
    predicate GivenUp(endings: seq<Ending>)
    {
      endings != [] && endings[|endings| - 1] == Unfinished
    }

    /** Over any run of commands on closed files every command does what it means or nothing, the chains
        stay acyclic and disjoint, the directories stay a tree in which no chain has two owners, and no
        cluster is gained or lost. The run ends early only at a command that the device lets down
        half-way; `trees` is its history. */
    method Script(commands: seq<Command>) returns (endings: seq<Ending>, ghost trees: seq<Tree>)
      requires Valid() && v.intact && forall i :: 0 <= i < |commands| ==> Sensible(commands[i])
      modifies this`dirs, this`depth, this`inUse, v, v.fat
      ensures |endings| <= |commands| && forall i :: 0 <= i < |endings| - 1 ==> endings[i] != Unfinished
      ensures |endings| < |commands| ==> GivenUp(endings)
      ensures !GivenUp(endings) ==> Valid() && v.intact
      ensures v.reliable ==> |endings| == |commands| && !GivenUp(endings)
      ensures IsHistory(commands, endings, trees) && trees[0] == old(Now()) && trees[|endings|] == Now()
      ensures old(AllOwned(Now())) && !GivenUp(endings) && NothingStranded(commands, endings, trees) ==>
                AllOwned(Now())
      ensures v.intact ==>
                && v.Valid() && v.AccountedClusters() == old(v.AccountedClusters())
                && (forall h :: h in v.chains ==> Distinct(v.chains[h]))
                && (forall h, k :: h in v.chains && k in v.chains && h != k ==> Disjoint(v.chains[h], v.chains[k]))
    {
      hide Volume.Valid, TreeOk, Accounted, Sensible, Distinct, Disjoint, Stepped, Possible, FreeSet, AllOwned,
        Strands, BeganEmptyFile;
      endings, trees := [], [Now()];
      while |endings| < |commands| && !GivenUp(endings)
        invariant |endings| <= |commands| && forall i :: 0 <= i < |endings| - 1 ==> endings[i] != Unfinished
        invariant !GivenUp(endings) ==> Valid() && v.intact
        invariant v.reliable ==> !GivenUp(endings)
        invariant IsHistory(commands, endings, trees) && trees[0] == old(Now()) && trees[|endings|] == Now()
        invariant old(AllOwned(Now())) && !GivenUp(endings) && NothingStranded(commands, endings, trees) ==>
                    AllOwned(Now())
        invariant v.intact ==> v.Valid() && v.AccountedClusters() == old(v.AccountedClusters())
        decreases |commands| - |endings|
      {
        var e := Perform(commands[|endings|]);
        endings, trees := endings + [e], trees + [Now()];
      }
      if v.intact {
        ChainsApart(v);
      }
    }

    /** Create a file, write into it, read it back and remove it: the data comes back, and in the end
        everything is listed and stored as before. Other names than these are not found again. */
    method RoundTrip(path: Path, data: seq<byte>) returns (e: Ending, read: Option<seq<byte>>)
      requires Valid() && v.intact && v.reliable && Sensible(DoCreate(path)) && Creatable(Now(), path)
      requires Findable(Last(path), ItemsIn(Now(), DirAt(Now(), Front(path)).value))
      requires 0 < |data| < TWO_32 && inUse < MAX_OPEN
      modifies this`dirs, this`depth, this`inUse, v, v.fat
      ensures Valid() && v.intact && v.AccountedClusters() == old(v.AccountedClusters())
      ensures e == Done ==>
                && read == Some(data) && SameListings(old(Now()), Now())
                && Now().chains.Keys == old(Now()).chains.Keys
      ensures e != Done ==> !Possible(DoCreate(path), old(Now())) || v.Free() == {}
    {
      hide Volume.Valid, TreeOk, Walked, DirAt, Accounted, ItemsIn, FileEdited, ItemRemoved, EntryMade,
        SameListings, Edited, FileIn, IsDirectory, Crowded, AliasesUsedUp, FreeSet, Means, Findable, Vanishes;
      read := None;
      ghost var t := Now();
      ghost var x, it, readFailed, isOpen, f, jt, g, h;
      var r;
      r, e, x, it, readFailed := Create(path);
      if e != Done {
        return;
      }
      ghost var u := Now();
      CreatedBelow(path, t, u, x, it);
      CreatedIsThere(t, u, path, x, it);
      var n;
      n, isOpen, f, jt := WriteFile(path, 0, data);
      if n != |data| {
        return Refused, read;
      }
      ghost var w := Now();
      WriteMeans(path, 0, data, u, w, f, jt);
      CreatedThenWritten(t, u, w, path, data, x, it, f.dir, f.item, jt);
      WrittenIsThere(t, u, w, path, x, it, jt);
      read, g := ReadFile(path, 0, |data|);
      assert Piece(data, 0, |data|) == data;
      r, e, h := Remove(path);
      WrittenThenRemoved(t, u, w, Now(), path, 0, data, x, it, jt, h.dir, h.item);
    }

    lemma NameRunFits(slots: seq<Slot>, l: nat, e: nat)
      requires NameRun(slots, l, e)
      ensures l <= e < |slots|
    {
    }

    lemma FoundParts(t: Tree, x: nat, it: Item)
      requires FoundOk(t, Found(x, it))
      ensures x in t.dirs && it in ItemsIn(t, x) && !IsDot(it)
    {
    }

    lemma WhereStored(x: nat, at: nat, location: Location)
      requires StoredAt(v, x, at, location)
      ensures at < Span(|v.ChainOf(x)|, v.ClusterSize() / SLOT_SIZE)
      ensures LocationOf(v.ChainOf(x), v.ClusterSize() / SLOT_SIZE, at) == location
    {
    }

    lemma SlotsHere(t: Tree, x: nat)
      requires x in t.chains && v.ChainOf(x) == t.chains[x] && v.disk == t.disk
      ensures DirOf(v, x) == SlotsIn(t, x)
    {
    }

    lemma ItemChain(t: Tree, x: nat, it: Item)
      requires TreeOk(t) && FoundOk(t, Found(x, it))
      ensures ClusterOf(it) >= 2 ==>
                Owns(it) && ClusterOf(it) in t.chains && ClusterOf(it) != x && ClusterOf(it) != t.root
      ensures ClusterOf(it) < 2 ==> !Owns(it) && FileSize(it.entry) == 0 && !IsDirectory(it.entry[11])
      ensures ClusterOf(it) >= 2 ==> (ClusterOf(it) in t.dirs <==> IsDirectory(it.entry[11]))
      ensures ClusterOf(it) >= 2 && ClusterOf(it) !in t.dirs ==> FileSize(it.entry) <= |BytesIn(t, ClusterOf(it))|
    {
      hide ItemsIn, NoSharing, BytesIn, FileSize, FirstCluster, IsDirectory, IsDotName, TreeOk;
      OwnerElsewhere(t, x, it);
      ItemIsOk(t, x, it);
    }

    lemma SameTree(t: Tree)
      requires TreeOk(t)
      ensures SameListings(t, t)
    {
      hide ItemsIn, BytesIn;
    }

    lemma ChoiceFits(c: Chosen, name: seq<byte>, items: seq<Item>)
      requires IsName(name) && GoodChoice(c, name, items)
      ensures |c.short| == SHORT_SIZE
      ensures (if c.long then EntryCount(name) else 0) + 1 == SlotsNeeded(name, items)
    {
    }
  }

  /** Format a volume and mount it: a file system with an empty root directory. */
  method NewFileSystem(total: nat, sectorsPerCluster: nat, tables: nat, reliable: bool) returns (fs: FileSystem)
    requires ROOT_CLUSTER < total <= MAX_ENTRIES && 1 <= sectorsPerCluster <= 255
    ensures fresh(fs) && fresh(fs.v) && fresh(fs.v.fat)
    ensures fs.Valid() && fs.v.intact && fs.v.reliable == reliable && fs.inUse == 0
    ensures ItemsIn(fs.Now(), fs.root) == [] && fs.dirs == {fs.root} && AllOwned(fs.Now())
  {
    hide Volume.Valid, TreeOk, ItemsIn;
    var v := new Volume.Format(total, sectorsPerCluster, tables, reliable);
    ghost var dirs, depth := {ROOT_CLUSTER}, map[ROOT_CLUSTER := 0];
    FormattedTree(TreeOf(v, dirs, depth, ROOT_CLUSTER), v.ClusterSize());
    fs := new FileSystem(v, ROOT_CLUSTER, dirs, depth);
  }

  /** The slots for a name: long entries from the last piece down to the first, then the short entry. */
  method BuildEntries(name: seq<byte>, long: bool, s: Slot) returns (r: seq<Slot>)
    requires IsName(name)
    ensures r == EntriesFor(name, long, s)
  {
    hide EntryOf, ChecksumOf, IsName, EntryCount;
    r := [];
    if long {
      var checksum := Checksum(ShortName(s));
      var count := EntryCount(name);
      var i := 0;
      while i < count
        invariant i <= count && r == LongEntries(name, checksum)[..i]
      {
        var order := count - i;
        var units := FillChunk(name, (order - 1) * UNITS);
        EntryParts(name, checksum, i);
        var entry := LongEntry(OrderByte(order, i == 0), checksum, units);
        r := r + [entry];
        i := i + 1;
      }
    }
    r := r + [s];
  }

  lemma EntryParts(name: seq<byte>, checksum: byte, i: nat)
    requires IsName(name) && i < EntryCount(name)
    ensures var order := EntryCount(name) - i;
            && 1 <= order <= 20
            && EntryOf(name, checksum, i) == LongEntry(OrderByte(order, i == 0), checksum,
                 ChunkOf(name, (order - 1) * UNITS))
  {
    hide LongEntry, OrderByte, ChunkOf;
  }
}
