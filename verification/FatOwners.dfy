/** Every chain of the tree but the root's is named by some entry: which commands keep it so, and which
    leave a chain behind that nobody owns. */
module FatOwners {
  import opened Machine
  import opened FatVolume
  import opened FatData
  import opened FatSlot
  import opened FatShortName
  import opened FatListing
  import opened FatDirData
  import opened FatSearch
  import opened FatTree
  import opened FatLookup
  import opened FatSteps
  import opened FatEdits
  import opened FatCommands

  ghost predicate Owned(t: Tree, h: nat)
  {
    exists d, it :: d in t.dirs && it in ItemsIn(t, d) && Owns(it) && ClusterOf(it) == h
  }

  ghost predicate AllOwned(t: Tree)
  {
    forall h :: h in t.chains && h != t.root ==> Owned(t, h)
  }

  // ---------------------------------------------------------------- what a walk finds

  /** Whatever a walk ends at is listed in a directory of the tree, and no dot entry. */
  lemma {:induction false} WalkFinds(t: Tree, d: nat, last: Option<Found>, path: Path)
    requires TreeOk(t) && d in t.dirs && (last.Some? ==> FoundOk(t, last.value))
    ensures Walked(t, d, last, path).Some? ==> FoundOk(t, Walked(t, d, last, path).value)
    decreases |path|
  {
    hide ItemsIn, TreeOk, FirstMatch, IsDirectory, IsDotName, FirstCluster;
    if path != [] {
      if path[0] == DOT_NAME {
        WalkFinds(t, d, last, path[1..]);
      } else if path[0] != DOTDOT_NAME {
        NotDotName(path[0]);
        MatchIsProper(t, d, path[0]);
        var found := FirstMatch(ItemsIn(t, d), path[0]);
        if found.Some? && |path| > 1 && IsDirectory(found.value.entry[11]) {
          WalkFinds(t, ClusterOf(found.value), Some(Found(d, found.value)), path[1..]);
        }
      }
    }
  }

  lemma FoundAt(t: Tree, path: Path, f: Found)
    requires TreeOk(t) && Walked(t, t.root, None, path) == Some(f)
    ensures f.dir in t.dirs && f.item in ItemsIn(t, f.dir) && !IsDot(f.item)
    ensures ItemOk(t, f.dir, f.item)
  {
    hide ItemsIn, TreeOk, IsDot, Walked, ItemOk;
    RootIsDir(t);
    WalkFinds(t, t.root, None, path);
    ItemIsOk(t, f.dir, f.item);
  }

  // ---------------------------------------------------------------- commands that are carried out

  lemma SwappedKeeps(was: seq<Item>, now: seq<Item>, it: Item, jt: Item)
    requires Swapped(was, now, it, jt)
    ensures jt in now && forall k :: k in was && k != it ==> k in now
    ensures forall k :: k in now ==> k in was || k == jt
  {
    var i :| 0 <= i < |was| && was[i] == it && now == was[i := jt];
    forall k | k in was && k != it
      ensures k in now
    {
      var j :| 0 <= j < |was| && was[j] == k;
      assert now[j] == k;
    }
    assert now[i] == jt;
  }

  lemma AddedOwners(t: Tree, u: Tree, x: nat, it: Item)
    requires AllOwned(t) && u.root == t.root && t.dirs <= u.dirs && SameElsewhere(t, u, x)
    requires Inserted(ItemsIn(t, x), ItemsIn(u, x), it) && x in u.dirs
    requires forall h :: h in u.chains ==> h in t.chains || (Owns(it) && h == ClusterOf(it))
    ensures AllOwned(u)
  {
    hide ItemsIn, IsDot, FirstCluster, Inserted;
    InsertedKeeps(ItemsIn(t, x), ItemsIn(u, x), it);
    forall h | h in u.chains && h != u.root
      ensures Owned(u, h)
    {
      if h in t.chains {
        var d, kt :| d in t.dirs && kt in ItemsIn(t, d) && Owns(kt) && ClusterOf(kt) == h;
        assert kt in ItemsIn(u, d);
      }
    }
  }

  /** Directory `d` lists an entry that owns a chain. */
  ghost predicate ListsOwner(t: Tree, d: nat)
  {
    exists it :: it in ItemsIn(t, d) && Owns(it)
  }

  /** After a removal, every chain is owned exactly if it was no directory that listed an owner. */
  lemma RemovedOwners(t: Tree, u: Tree, x: nat, it: Item)
    requires TreeOk(t) && AllOwned(t) && ItemRemoved(t, u, x, it) && x in t.dirs && it in ItemsIn(t, x)
    ensures AllOwned(u) <==> !(Owns(it) && ClusterOf(it) in t.dirs && ListsOwner(t, ClusterOf(it)))
  {
    hide ItemsIn, TreeOk, FirstCluster, Inserted, BytesIn, IsDot;
    InsertedKeeps(ItemsIn(u, x), ItemsIn(t, x), it);
    if Owns(it) && ClusterOf(it) in t.dirs && ListsOwner(t, ClusterOf(it)) {
      var kt :| kt in ItemsIn(t, ClusterOf(it)) && Owns(kt);
      OwnerStranded(t, u, x, it, kt);
    } else {
      forall h | h in u.chains && h != u.root
        ensures Owned(u, h)
      {
        var d, kt :| d in t.dirs && kt in ItemsIn(t, d) && Owns(kt) && ClusterOf(kt) == h;
        assert kt != it;
        assert d in u.dirs && kt in ItemsIn(u, d);
      }
    }
  }

  lemma OwnerStranded(t: Tree, u: Tree, x: nat, it: Item, kt: Item)
    requires TreeOk(t) && ItemRemoved(t, u, x, it) && x in t.dirs && it in ItemsIn(t, x)
    requires Owns(it) && ClusterOf(it) in t.dirs && kt in ItemsIn(t, ClusterOf(it)) && Owns(kt)
    ensures !AllOwned(u)
  {
    hide ItemsIn, TreeOk, FirstCluster, Inserted, BytesIn, IsDot;
    InsertedKeeps(ItemsIn(u, x), ItemsIn(t, x), it);
    var c, h := ClusterOf(it), ClusterOf(kt);
    OwnerElsewhere(t, x, it);
    OwnerElsewhere(t, c, kt);
    OneOwner(t, c, kt);
    ItemIsOk(t, c, kt);
    OwnerInChains(t, c, kt);
    assert h in u.chains && h != u.root && !Owned(u, h);
  }

  lemma OneOwner(t: Tree, d: nat, it: Item)
    requires TreeOk(t) && d in t.dirs && it in ItemsIn(t, d) && Owns(it)
    ensures forall e, jt :: e in t.dirs && jt in ItemsIn(t, e) && Owns(jt) && ClusterOf(jt) == ClusterOf(it) ==>
              e == d && jt == it
  {
    hide ItemsIn, Owns, DirOk, ItemOk;
  }

  /** After a write, every chain is owned exactly if the file's entry names whatever chain it has. */
  lemma EditedOwners(t: Tree, u: Tree, x: nat, it: Item, jt: Item)
    requires TreeOk(t) && AllOwned(t) && FileEdited(t, u, x, it, jt) && x in t.dirs && !IsDot(it)
    ensures AllOwned(u) <==> u.chains.Keys == t.chains.Keys + Named(jt)
  {
    hide ItemsIn, TreeOk, FirstCluster, Swapped, BytesIn, IsDot, ShortName;
    SwappedKeeps(ItemsIn(t, x), ItemsIn(u, x), it, jt);
    SameDot(it, jt);
    if u.chains.Keys == t.chains.Keys + Named(jt) {
      forall h | h in u.chains && h != u.root
        ensures Owned(u, h)
      {
        if h in t.chains {
          var d, kt :| d in t.dirs && kt in ItemsIn(t, d) && Owns(kt) && ClusterOf(kt) == h;
          assert if d == x && kt == it then jt in ItemsIn(u, d) && Owns(jt) && ClusterOf(jt) == h
                 else kt in ItemsIn(u, d);
        } else {
          assert h == ClusterOf(jt) && jt in ItemsIn(u, x) && Owns(jt);
        }
      }
    } else {
      var s :| s !in t.chains.Keys && u.chains.Keys == t.chains.Keys + {s};
      NobodyNames(t, u, x, it, jt, s);
    }
  }

  lemma NobodyNames(t: Tree, u: Tree, x: nat, it: Item, jt: Item, s: nat)
    requires TreeOk(t) && FileEdited(t, u, x, it, jt) && s !in t.chains && s in u.chains && ClusterOf(jt) < 2
    ensures s != u.root && !Owned(u, s)
  {
    hide ItemsIn, FirstCluster, Swapped, BytesIn, IsDot, ShortName, NoSharing, IsDirectory, FileSize, IsDotName;
    SwappedKeeps(ItemsIn(t, x), ItemsIn(u, x), it, jt);
    RootIsDir(t);
    DirsAreChains(t);
    forall d, kt | d in u.dirs && kt in ItemsIn(u, d) && Owns(kt)
      ensures ClusterOf(kt) != s
    {
      if d != x || kt != jt {
        assert kt in ItemsIn(t, d);
        ItemIsOk(t, d, kt);
      }
    }
  }

  /** The command makes a directory whose entry is deleted on arrival, or removes one that lists owners, which
      it can because they are shown as dot entries. */
  ghost predicate Strands(c: Command, t: Tree)
    requires Sensible(c)
  {
    || (c.DoMkdir? && c.path != [] && DirAt(t, Front(c.path)).Some?
        && Vanishes(Last(c.path), ItemsIn(t, DirAt(t, Front(c.path)).value)))
    || (c.DoRmdir? && exists f :: DirectoryAt(t, c.path, f) && ListsOwner(t, ClusterOf(f.item)))
  }

  /** No command of a run left a chain without an owner. */
  ghost predicate NothingStranded(commands: seq<Command>, endings: seq<Ending>, trees: seq<Tree>)
    requires |endings| <= |commands| && |trees| == |endings| + 1
    requires forall i :: 0 <= i < |commands| ==> Sensible(commands[i])
  {
    forall i :: 0 <= i < |endings| ==>
      !(if endings[i] == Done then Strands(commands[i], trees[i]) else BeganEmptyFile(commands[i], trees[i]))
  }

  lemma {:induction false} SameOwners(t: Tree, u: Tree)
    requires AllOwned(t) && SameListings(t, u) && u.chains.Keys == t.chains.Keys
    ensures AllOwned(u)
  {
    hide ItemsIn, BytesIn, Owns;
    forall h | h in u.chains && h != u.root
      ensures Owned(u, h)
    {
      var d, kt :| d in t.dirs && kt in ItemsIn(t, d) && Owns(kt) && ClusterOf(kt) == h;
      assert kt in ItemsIn(u, d);
    }
  }

  lemma NotOwned(u: Tree, c: nat)
    requires NobodyOwns(u, c) && c in u.chains && c != u.root
    ensures !AllOwned(u)
  {
    hide ItemsIn, Owns;
    assert !Owned(u, c);
  }

  /** A volume with one empty file `A` in its root directory. */
  ghost function OneEmptyFile(): Tree
  {
    Tree(map[2 := [2]], map[2 := WithSlot(Zeros(512), 0, EmptyFile())], {2}, map[2 := 0], 2)
  }

  function EmptyFile(): (s: Slot)
    ensures IsShort(s) && s[0] == 0x41 && !IsDirectory(s[11]) && FirstCluster(s) == 0 && FileSize(s) == 0
  {
    var s := ShortEntry(Pad([0x41], SHORT_SIZE), ATTR_ARCHIVE, 0, 0);
    assert s[0] == ShortName(s)[0];
    s
  }

  lemma OneEmptyFileIsOk() returns (it: Item)
    ensures var t := OneEmptyFile(); TreeOk(t) && AllOwned(t) && ItemsIn(t, t.root) == [it] && it.entry == EmptyFile()
  {
    hide Listing, DirectoryOk, EmptyFile, Slots, Zeros, IsShort, NameBehind, ScanFrom, FirstCluster, FileSize,
      IsDirectory, TreeOk, AllOwned, WithSlot, Bytes, DirSlots;
    var t, s := OneEmptyFile(), EmptyFile();
    EndsOnly(Zeros(512));
    var zeros := Slots(Zeros(512));
    OneCluster(t.disk, 2);
    WithSlotSlots(Zeros(512), 0, s);
    assert EntriesFor([0x41], false, s) == [s];
    assert SlotsIn(t, 2) == Replaced(zeros, 0, [s]);
    InsertOne(zeros, 0, [0x41], false, s);
    InsertKeepsOk(zeros, 0, [0x41], false, s);
    it := Item(0, s, NameBehind(GatheredAt(zeros, 0), [0x41], false, s));
    OnlyOne([], ItemsIn(t, 2), Listing(zeros[..0]), it, ScanFrom(START, zeros[1..], 1).items);
    OnlyRoot(t, it);
  }

  lemma OnlyOne(was: seq<Item>, now: seq<Item>, before: seq<Item>, it: Item, after: seq<Item>)
    requires was == [] && was == before + after && now == before + [it] + after
    ensures now == [it]
  {
    assert before == [] && after == [];
  }

  /** A tree of the root directory alone, with one file that has no chain. */
  lemma OnlyRoot(t: Tree, it: Item)
    requires t.dirs == {t.root} == t.chains.Keys && t.root in t.depth && DirectoryOk(SlotsIn(t, t.root))
    requires ItemsIn(t, t.root) == [it] && !IsDot(it) && ClusterOf(it) == 0 && FileSize(it.entry) == 0
    requires !IsDirectory(it.entry[11])
    ensures TreeOk(t) && AllOwned(t)
  {
    hide ItemsIn, SlotsIn, DirectoryOk, FirstCluster, FileSize, IsDirectory, ShortName;
    assert forall d :: d in t.dirs ==> d == t.root;
  }

  lemma EndsOnly(zeros: seq<byte>)
    requires zeros == Zeros(512)
    ensures |Slots(zeros)| == 16 && DirectoryOk(Slots(zeros)) && Listing(Slots(zeros)) == []
    ensures FreeRun(Slots(zeros), 0, 1)
  {
    hide Listing, DirectoryOk, ScanFrom;
    var slots := Slots(zeros);
    NothingListed();
    GrowKeeps([], slots);
    assert [] + slots == slots;
  }

  /** A write to that file that claims a cluster and then cannot record it leaves a chain without an owner. */
  lemma UnrecordedIsUnowned() returns (it: Item)
    ensures var t := OneEmptyFile(); var u := WithLoneCluster(t, 3);
            && TreeOk(t) && AllOwned(t) && TreeOk(u) && !AllOwned(u) && FileEdited(t, u, t.root, it, it)
  {
    hide ItemsIn, TreeOk, AllOwned, EmptyFile, Bytes, NobodyOwns, FirstCluster, Zeros, WithSlot;
    it := OneEmptyFileIsOk();
    var t := OneEmptyFile();
    var u := WithLoneCluster(t, 3);
    BytesFrame(t.disk, u.disk, [2]);
    NewChainKeepsTree(t, u, 3);
    NotOwned(u, 3);
    assert ItemsIn(u, 2) == [it];
    SwappedAt([it], [it], [], it, it, []);
  }

  /** `t` with a fresh chain of one cluster. */
  ghost function WithLoneCluster(t: Tree, c: nat): Tree
  {
    t.(chains := t.chains[c := [c]], disk := t.disk[c := Zeros(512)])
  }

  /** A command that was carried out leaves a chain without an owner exactly in two cases. */
  lemma DoneKeepsOwners(c: Command, t: Tree, u: Tree, x: nat, it: Item, jt: Item)
    requires Sensible(c) && TreeOk(t) && AllOwned(t) && Means(c, t, u, x, it, jt)
    ensures AllOwned(u) <==> !Strands(c, t)
  {
    hide ItemsIn, TreeOk, FirstCluster, Inserted, BytesIn, IsDot, NamedAs, Walked, FileIn, Edited, DirAt, AllOwned,
      ShortName, Swapped, ItemOk, NobodyOwns, Vanishes, SlotsIn, IsDirectory, ListsOwner, IsDotName;
    match c {
      case DoCreate(path) =>
        ParentIsDir(t, path, x);
        if Vanishes(Last(path), ItemsIn(t, x)) {
          SameOwners(t, u);
        } else {
          AddedOwners(t, u, x, it);
        }
      case DoMkdir(path) =>
        ParentIsDir(t, path, x);
        if Vanishes(Last(path), ItemsIn(t, x)) {
          DirsAreChains(t);
          NotOwned(u, ClusterOf(it));
        } else {
          AddedOwners(t, u, x, it);
        }
      case DoRemove(path) =>
        FoundAt(t, path, Found(x, it));
        FileNamesNoDir(t, x, it);
        RemovedOwners(t, u, x, it);
      case DoRmdir(path) =>
        FoundAt(t, path, Found(x, it));
        DirectoryOwns(t, x, it);
        assert DirectoryAt(t, path, Found(x, it));
        RemovedOwners(t, u, x, it);
      case DoWriteAt(path, _, _) =>
        FoundAt(t, path, Found(x, it));
        EditedOwners(t, u, x, it, jt);
    }
  }

  lemma DirectoryOwns(t: Tree, x: nat, it: Item)
    requires ItemOk(t, x, it) && !IsDot(it) && IsDirectory(it.entry[11])
    ensures Owns(it) && ClusterOf(it) in t.dirs
  {
    hide ItemsIn, BytesIn, IsDirectory, FirstCluster;
  }

  lemma FileNamesNoDir(t: Tree, x: nat, it: Item)
    requires TreeOk(t) && ItemOk(t, x, it) && !IsDot(it) && !IsDirectory(it.entry[11])
    ensures Owns(it) ==> ClusterOf(it) !in t.dirs
  {
    hide ItemsIn, BytesIn, NoSharing, IsDirectory, FileSize, FirstCluster, DirectoryOk, ShortsUnique;
  }

  /** A write to an empty file. */
  ghost predicate BeganEmptyFile(c: Command, t: Tree)
  {
    c.DoWriteAt? && exists f :: FileAt(t, c.path, f) && ClusterOf(f.item) < 2
  }

  /** A refused one does so unless it is a write that began to fill an empty file. */
  lemma RefusedKeepsOwners(c: Command, t: Tree, u: Tree, x: nat, it: Item, jt: Item)
    requires Sensible(c) && TreeOk(t) && AllOwned(t) && Unchanged(c, t, u, x, it, jt)
    ensures AllOwned(u) || BeganEmptyFile(c, t)
  {
    hide ItemsIn, TreeOk, FirstCluster, BytesIn, IsDot, Walked, ShortName, Swapped, ItemOk;
    if SameListings(t, u) && u.chains.Keys == t.chains.Keys {
      SameOwners(t, u);
    } else {
      FoundAt(t, c.path, Found(x, it));
      EditedOwners(t, u, x, it, jt);
      assert FileAt(t, c.path, Found(x, it));
    }
  }
}
