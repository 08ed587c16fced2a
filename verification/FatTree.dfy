/** The directory tree of a volume: which chains are directories, and how every entry owns the chain it
    names. All on values, so that each operation's effect is a lemma about before and after. */
module FatTree {
  import opened Machine
  import opened FatTable
  import opened FatData
  import opened FatSlot
  import opened FatLongName
  import opened FatShortName
  import opened FatListing
  import opened FatDirData
  import opened FatSearch

  const DOT_NAME: seq<byte> := [DOT]
  const DOTDOT_NAME: seq<byte> := [DOT, DOT]

  predicate IsDotName(name: seq<byte>) { name == DOT_NAME || name == DOTDOT_NAME }

  /** The two entries every subdirectory starts with; no other short name begins with a dot. */
  predicate IsDot(it: Item) { it.entry[0] == DOT }

  function ClusterOf(it: Item): nat { FirstCluster(it.entry) }

  /** An entry that owns the chain it names. */
  predicate Owns(it: Item) { !IsDot(it) && ClusterOf(it) >= 2 }

  /** Chains and disk, with the directories among the chains and their depth in the tree. */
  datatype Tree = Tree(chains: Chains, disk: Disk, dirs: set<nat>, depth: map<nat, nat>, root: nat)

  ghost function SlotsIn(t: Tree, d: nat): seq<Slot>
  {
    DirSlots(t.disk, if d in t.chains then t.chains[d] else [])
  }

  ghost function ItemsIn(t: Tree, d: nat): seq<Item>
  {
    Listing(SlotsIn(t, d))
  }

  ghost function BytesIn(t: Tree, c: nat): seq<byte>
  {
    Bytes(t.disk, if c in t.chains then t.chains[c] else [])
  }

  ghost predicate ShortsUnique(items: seq<Item>)
  {
    forall i, j :: 0 <= i < j < |items| ==> ShortName(items[i].entry) != ShortName(items[j].entry)
  }

  ghost predicate DirOk(t: Tree, d: nat)
  {
    && d in t.chains && d in t.depth
    && DirectoryOk(SlotsIn(t, d))
    && ShortsUnique(ItemsIn(t, d))
  }

  /** What an entry of directory `d` must satisfy. */
  ghost predicate ItemOk(t: Tree, d: nat, it: Item)
  {
    if IsDot(it) then IsDotName(it.name) && it.name == CString(Spelled(ShortName(it.entry)))
    else if ClusterOf(it) < 2 then FileSize(it.entry) == 0 && !IsDirectory(it.entry[11])
    else OwnerOk(t, d, it)
  }

  ghost predicate OwnerOk(t: Tree, d: nat, it: Item)
  {
    var c := ClusterOf(it);
    && c in t.chains && c != t.root
    && (IsDirectory(it.entry[11]) <==> c in t.dirs)
    && (if c in t.dirs then c in t.depth && d in t.depth && t.depth[c] > t.depth[d]
        else FileSize(it.entry) <= |BytesIn(t, c)|)
  }

  /** No two entries anywhere own the same chain. */
  ghost predicate NoSharing(t: Tree)
  {
    forall d, e, it, jt ::
      (d in t.dirs && e in t.dirs && it in ItemsIn(t, d) && jt in ItemsIn(t, e)
       && Owns(it) && Owns(jt) && ClusterOf(it) == ClusterOf(jt))
      ==> d == e && it == jt
  }

  ghost predicate TreeOk(t: Tree)
  {
    && t.root in t.dirs
    && (forall d :: d in t.dirs ==> DirOk(t, d))
    && (forall d, it :: d in t.dirs && it in ItemsIn(t, d) ==> ItemOk(t, d, it))
    && NoSharing(t)
  }

  // ---------------------------------------------------------------- one directory changes

  /** From `t` to `u` only the chain at `x` changed: all others are there with the same bytes. */
  ghost predicate OnlyChanged(t: Tree, u: Tree, x: nat)
  {
    && t.root == u.root && t.dirs == u.dirs && t.depth == u.depth
    && (forall h :: h in t.chains && h != x ==> h in u.chains && BytesIn(u, h) == BytesIn(t, h))
    && (x in t.chains ==> x in u.chains)
  }

  lemma OthersListedSame(t: Tree, u: Tree, x: nat, d: nat)
    requires OnlyChanged(t, u, x) && d in t.chains && d != x
    ensures SlotsIn(u, d) == SlotsIn(t, d) && ItemsIn(u, d) == ItemsIn(t, d)
  {
  }

  lemma SameBytesSameItems(t: Tree, u: Tree, d: nat)
    requires BytesIn(u, d) == BytesIn(t, d)
    ensures SlotsIn(u, d) == SlotsIn(t, d) && ItemsIn(u, d) == ItemsIn(t, d)
  {
  }

  lemma ItemSurvives(t: Tree, u: Tree, x: nat, d: nat, it: Item)
    requires OnlyChanged(t, u, x) && ItemOk(t, d, it)
    requires Owns(it) && ClusterOf(it) == x && x !in t.dirs ==> FileSize(it.entry) <= |BytesIn(u, x)|
    ensures ItemOk(u, d, it)
  {
    hide Bytes;
  }

  /** Nobody in the tree owns the chain that `it` names. */
  ghost predicate FreshOwner(t: Tree, it: Item)
  {
    Owns(it) ==> NobodyOwns(t, ClusterOf(it))
  }

  /** Adding one entry to directory `x`. */
  lemma InsertKeepsTree(t: Tree, u: Tree, x: nat, before: seq<Item>, it: Item, after: seq<Item>)
    requires TreeOk(t) && x in t.dirs && OnlyChanged(t, u, x)
    requires ItemsIn(t, x) == before + after && ItemsIn(u, x) == before + [it] + after
    requires DirectoryOk(SlotsIn(u, x)) && ShortName(it.entry) !in Shorts(ItemsIn(t, x))
    requires ItemOk(u, x, it) && FreshOwner(t, it)
    ensures TreeOk(u)
  {
    hide DirectoryOk, SlotsIn, ItemsIn, ItemOk, NoSharing, ShortName, FreshOwner;
    forall d | d in u.dirs
      ensures DirOk(u, d)
    {
      if d == x {
        InsertedUnique(before, it, after);
      } else {
        OthersListedSame(t, u, x, d);
      }
    }
    forall d, jt | d in u.dirs && jt in ItemsIn(u, d)
      ensures ItemOk(u, d, jt)
    {
      if d == x {
        assert jt == it || jt in ItemsIn(t, x);
      } else {
        OthersListedSame(t, u, x, d);
      }
      if jt != it || d != x {
        ItemSurvives(t, u, x, d, jt);
      }
    }
    InsertSharesNothing(t, u, x, it);
  }

  lemma InsertedUnique(before: seq<Item>, it: Item, after: seq<Item>)
    requires ShortsUnique(before + after) && ShortName(it.entry) !in Shorts(before + after)
    ensures ShortsUnique(before + [it] + after)
  {
    hide ShortName;
    var all, grown := before + after, before + [it] + after;
    forall i, j | 0 <= i < j < |grown|
      ensures ShortName(grown[i].entry) != ShortName(grown[j].entry)
    {
      var n := |before|;
      assert i < n ==> grown[i] == all[i];
      assert i > n ==> grown[i] == all[i - 1];
      assert j < n ==> grown[j] == all[j];
      assert j > n ==> grown[j] == all[j - 1];
    }
  }

  lemma InsertSharesNothing(t: Tree, u: Tree, x: nat, it: Item)
    requires NoSharing(t) && OnlyChanged(t, u, x) && x in t.dirs && FreshOwner(t, it)
    requires forall d :: d in t.dirs ==> d in t.chains
    requires forall jt :: jt in ItemsIn(u, x) ==> jt == it || jt in ItemsIn(t, x)
    ensures NoSharing(u)
  {
    hide ItemsIn, SlotsIn, Owns;
    forall d, e, jt, kt | d in u.dirs && e in u.dirs && jt in ItemsIn(u, d) && kt in ItemsIn(u, e)
      && Owns(jt) && Owns(kt) && ClusterOf(jt) == ClusterOf(kt)
      ensures d == e && jt == kt
    {
      if d != x {
        OthersListedSame(t, u, x, d);
      }
      if e != x {
        OthersListedSame(t, u, x, e);
      }
    }
  }

  /** More clusters of end markers behind directory `x`. */
  lemma GrowKeepsTree(t: Tree, u: Tree, x: nat)
    requires TreeOk(t) && x in t.dirs && OnlyChanged(t, u, x)
    requires ItemsIn(u, x) == ItemsIn(t, x) && DirectoryOk(SlotsIn(u, x))
    ensures TreeOk(u) && SameListings(t, u)
  {
    hide DirectoryOk, SlotsIn, ItemsIn, ItemOk, NoSharing, BytesIn;
    forall d | d in u.dirs
      ensures ItemsIn(u, d) == ItemsIn(t, d) && DirOk(u, d)
    {
      assert DirOk(t, d);
      if d != x {
        OthersListedSame(t, u, x, d);
      }
    }
    forall d, it | d in u.dirs && it in ItemsIn(u, d)
      ensures ItemOk(u, d, it)
    {
      ItemSurvives(t, u, x, d, it);
    }
    SameListingsShareNothing(t, u);
  }

  /** Every directory reports the same, and every file's chain holds the same bytes. */
  ghost predicate SameListings(t: Tree, u: Tree)
  {
    && t.root == u.root && t.dirs == u.dirs && t.depth == u.depth
    && (forall d :: d in t.dirs ==> ItemsIn(u, d) == ItemsIn(t, d))
    && (forall h :: h in t.chains && h !in t.dirs ==> h in u.chains && BytesIn(u, h) == BytesIn(t, h))
  }

  // ---------------------------------------------------------------- a chain nobody owns yet

  /** A chain that nobody owns is a directory no longer, and may go away. */
  lemma DropChainKeepsTree(t: Tree, u: Tree, c: nat)
    requires TreeOk(t) && c != t.root && NobodyOwns(t, c)
    requires u.root == t.root && u.disk == t.disk && u.dirs == t.dirs - {c}
    requires u.chains == t.chains || u.chains == t.chains - {c}
    requires forall d :: d in u.dirs ==> d in u.depth && d in t.depth && u.depth[d] == t.depth[d]
    ensures TreeOk(u) && NobodyOwns(u, c)
    ensures forall d :: d in u.dirs ==> ItemsIn(u, d) == ItemsIn(t, d)
    ensures forall h :: h in u.chains ==> BytesIn(u, h) == BytesIn(t, h)
  {
    hide DirectoryOk, Listing, DirSlots, NoSharing, ShortsUnique;
    forall d | d in u.dirs
      ensures ItemsIn(u, d) == ItemsIn(t, d) && DirOk(u, d)
    {
      assert DirOk(t, d);
    }
    forall d, it | d in u.dirs && it in ItemsIn(u, d)
      ensures ItemOk(u, d, it)
    {
      assert ItemOk(t, d, it);
    }
    SameListingsShareNothing(t, u);
  }

  ghost predicate NobodyOwns(t: Tree, c: nat)
  {
    forall d, it :: d in t.dirs && it in ItemsIn(t, d) && Owns(it) ==> ClusterOf(it) != c
  }

  lemma NewChainKeepsTree(t: Tree, u: Tree, c: nat)
    requires TreeOk(t) && OnlyChanged(t, u, c) && c !in t.chains
    ensures TreeOk(u)
    ensures NobodyOwns(u, c) && SameListings(t, u)
  {
    hide DirectoryOk, SlotsIn, ItemsIn, ItemOk, NoSharing, Owns, BytesIn;
    forall d | d in u.dirs
      ensures d in t.chains && ItemsIn(u, d) == ItemsIn(t, d) && DirOk(u, d)
    {
      assert DirOk(t, d);
      OthersListedSame(t, u, c, d);
    }
    forall d, it | d in u.dirs && it in ItemsIn(u, d)
      ensures ItemOk(u, d, it) && (Owns(it) ==> ClusterOf(it) != c)
    {
      assert it in ItemsIn(t, d);
      OwnerInChains(t, d, it);
      ItemSurvives(t, u, c, d, it);
    }
    SameListingsShareNothing(t, u);
  }

  lemma OwnerInChains(t: Tree, d: nat, it: Item)
    requires ItemOk(t, d, it)
    ensures Owns(it) ==> ClusterOf(it) in t.chains
  {
  }

  lemma SameListingsShareNothing(t: Tree, u: Tree)
    requires NoSharing(t) && u.dirs <= t.dirs
    requires forall d :: d in u.dirs ==> ItemsIn(u, d) == ItemsIn(t, d)
    ensures NoSharing(u)
  {
    hide ItemsIn, Owns;
    forall d, e, jt, kt | d in u.dirs && e in u.dirs && jt in ItemsIn(u, d) && kt in ItemsIn(u, e)
      && Owns(jt) && Owns(kt) && ClusterOf(jt) == ClusterOf(kt)
      ensures d == e && jt == kt
    {
      assert d in t.dirs && e in t.dirs;
    }
  }

  // ---------------------------------------------------------------- a new directory

  /** `t` with the unowned chain `c` made a directory below `parent`. */
  ghost function WithDir(t: Tree, c: nat, parent: nat): Tree
    requires parent in t.depth
  {
    t.(dirs := t.dirs + {c}, depth := t.depth[c := t.depth[parent] + 1])
  }

  lemma NewDirKeepsTree(t: Tree, c: nat, parent: nat)
    requires TreeOk(t) && parent in t.depth && c in t.chains && c !in t.dirs
    requires NobodyOwns(t, c) && DirectoryOk(SlotsIn(t, c)) && ShortsUnique(ItemsIn(t, c))
    requires forall it :: it in ItemsIn(t, c) ==> IsDot(it) && ItemOk(t, c, it)
    ensures TreeOk(WithDir(t, c, parent))
  {
    hide DirectoryOk, Listing, DirSlots, NoSharing, ShortsUnique;
    var u := WithDir(t, c, parent);
    forall d | d in u.dirs
      ensures ItemsIn(u, d) == ItemsIn(t, d) && DirOk(u, d)
    {
      assert d != c ==> DirOk(t, d);
    }
    forall d, it | d in u.dirs && it in ItemsIn(u, d)
      ensures ItemOk(u, d, it)
    {
      assert ItemOk(t, d, it);
      assert Owns(it) ==> ClusterOf(it) != c;
    }
    DotsShareNothing(t, u, c);
  }

  lemma DotsShareNothing(t: Tree, u: Tree, c: nat)
    requires NoSharing(t) && u.dirs == t.dirs + {c}
    requires forall d :: d in u.dirs ==> ItemsIn(u, d) == ItemsIn(t, d)
    requires forall it :: it in ItemsIn(t, c) ==> IsDot(it)
    ensures NoSharing(u)
  {
    hide ItemsIn, IsDot;
    forall d, e, jt, kt | d in u.dirs && e in u.dirs && jt in ItemsIn(u, d) && kt in ItemsIn(u, e)
      && Owns(jt) && Owns(kt) && ClusterOf(jt) == ClusterOf(kt)
      ensures d == e && jt == kt
    {
      assert d == c ==> IsDot(jt);
      assert e == c ==> IsDot(kt);
      assert d in t.dirs && e in t.dirs;
    }
  }

  // ---------------------------------------------------------------- an entry goes, with its chain

  /** From `t` to `u` the entry `it` of directory `x` and the chain it owned disappeared. */
  ghost predicate OnlyGone(t: Tree, u: Tree, x: nat, it: Item)
  {
    && t.root == u.root && t.depth == u.depth
    && u.dirs == (if Owns(it) then t.dirs - {ClusterOf(it)} else t.dirs)
    && x in u.chains
    && (forall h :: h in t.chains && h != x && (Owns(it) ==> h != ClusterOf(it)) ==>
          h in u.chains && BytesIn(u, h) == BytesIn(t, h))
  }

  lemma DeleteKeepsTree(t: Tree, u: Tree, x: nat, before: seq<Item>, it: Item, after: seq<Item>)
    requires TreeOk(t) && x in t.dirs && OnlyGone(t, u, x, it) && !IsDot(it)
    requires ItemsIn(t, x) == before + [it] + after && ItemsIn(u, x) == before + after
    requires DirectoryOk(SlotsIn(u, x)) && it !in before && it !in after
    ensures TreeOk(u)
  {
    hide DirectoryOk, ItemOk, NoSharing, ItemsIn, SlotsIn, BytesIn, ShortsUnique, IsDot;
    assert it in ItemsIn(t, x);
    OwnerElsewhere(t, x, it);
    forall d | d in u.dirs
      ensures d != x ==> ItemsIn(u, d) == ItemsIn(t, d)
      ensures DirOk(u, d)
    {
      assert DirOk(t, d);
      if d == x {
        RemovedUnique(before, it, after);
      } else {
        SameBytesSameItems(t, u, d);
      }
    }
    forall d, jt | d in u.dirs && jt in ItemsIn(u, d)
      ensures ItemOk(u, d, jt)
    {
      assert jt in ItemsIn(t, d) && (d == x ==> jt != it);
      ItemOutlives(t, u, x, it, d, jt);
    }
    RemovedShareNothing(t, u, x);
  }

  lemma OwnerElsewhere(t: Tree, x: nat, it: Item)
    requires TreeOk(t) && x in t.dirs && it in ItemsIn(t, x)
    ensures Owns(it) ==> ClusterOf(it) != x && ClusterOf(it) != t.root
  {
    hide ItemsIn, NoSharing;
    assert ItemOk(t, x, it);
  }

  lemma RemovedUnique(before: seq<Item>, it: Item, after: seq<Item>)
    requires ShortsUnique(before + [it] + after)
    ensures ShortsUnique(before + after)
  {
    hide ShortName;
    var all, rest := before + [it] + after, before + after;
    forall i, j | 0 <= i < j < |rest|
      ensures ShortName(rest[i].entry) != ShortName(rest[j].entry)
    {
      var i', j' := if i < |before| then i else i + 1, if j < |before| then j else j + 1;
      assert all[i'] == rest[i] && all[j'] == rest[j];
    }
  }

  lemma ItemOutlives(t: Tree, u: Tree, x: nat, it: Item, d: nat, jt: Item)
    requires OnlyGone(t, u, x, it) && ItemOk(t, d, jt) && NoSharing(t) && x in t.dirs
    requires it in ItemsIn(t, x) && d in t.dirs && jt in ItemsIn(t, d) && (d == x ==> jt != it)
    requires Owns(it) ==> ClusterOf(it) != x
    ensures ItemOk(u, d, jt)
  {
    hide ItemsIn, BytesIn;
  }

  lemma RemovedShareNothing(t: Tree, u: Tree, x: nat)
    requires NoSharing(t) && u.dirs <= t.dirs
    requires forall d :: d in u.dirs && d != x ==> ItemsIn(u, d) == ItemsIn(t, d)
    requires forall jt :: jt in ItemsIn(u, x) ==> jt in ItemsIn(t, x)
    ensures NoSharing(u)
  {
    hide ItemsIn, Owns;
    forall d, e, jt, kt | d in u.dirs && e in u.dirs && jt in ItemsIn(u, d) && kt in ItemsIn(u, e)
      && Owns(jt) && Owns(kt) && ClusterOf(jt) == ClusterOf(kt)
      ensures d == e && jt == kt
    {
      assert d in t.dirs && e in t.dirs && jt in ItemsIn(t, d) && kt in ItemsIn(t, e);
    }
  }

  // ---------------------------------------------------------------- a file's extent changes

  /** From `t` to `u` the file entry `it` of directory `x` became `jt`, and its chain changed, perhaps
      from none to a fresh one. */
  ghost predicate OnlyRewritten(t: Tree, u: Tree, x: nat, it: Item, jt: Item)
  {
    && t.root == u.root && t.depth == u.depth && u.dirs == t.dirs
    && x in u.chains
    && (forall h :: h in t.chains && h != x && (ClusterOf(it) >= 2 ==> h != ClusterOf(it))
          ==> h in u.chains && BytesIn(u, h) == BytesIn(t, h))
    && ShortName(jt.entry) == ShortName(it.entry) && jt.entry[0] == it.entry[0] && jt.name == it.name
    && (ClusterOf(jt) == ClusterOf(it) || (ClusterOf(jt) !in t.chains && ClusterOf(it) < 2))
  }

  lemma RewriteKeepsTree(t: Tree, u: Tree, x: nat, before: seq<Item>, it: Item, jt: Item, after: seq<Item>)
    requires TreeOk(t) && x in t.dirs && OnlyRewritten(t, u, x, it, jt) && !IsDot(it)
    requires !IsDirectory(it.entry[11])
    requires ItemsIn(t, x) == before + [it] + after && ItemsIn(u, x) == before + [jt] + after
    requires DirectoryOk(SlotsIn(u, x)) && it !in before && it !in after && ItemOk(u, x, jt)
    ensures TreeOk(u)
  {
    hide DirectoryOk, ItemOk, NoSharing, ItemsIn, SlotsIn, BytesIn, ShortsUnique, IsDot, IsDirectory;
    assert it in ItemsIn(t, x);
    OwnerElsewhere(t, x, it);
    FileOwnsNoDir(t, x, it);
    forall d | d in u.dirs
      ensures d != x ==> ItemsIn(u, d) == ItemsIn(t, d)
      ensures DirOk(u, d)
    {
      assert DirOk(t, d);
      if d == x {
        RewrittenUnique(before, it, jt, after);
      } else {
        SameBytesSameItems(t, u, d);
      }
    }
    forall d, kt | d in u.dirs && kt in ItemsIn(u, d)
      ensures ItemOk(u, d, kt)
    {
      if d != x || kt != jt {
        assert kt in ItemsIn(t, d) && (d == x ==> kt != it);
        ItemUnaffected(t, u, x, it, jt, d, kt);
      }
    }
    RewrittenShareNothing(t, u, x, it, jt);
  }

  lemma FileOwnsNoDir(t: Tree, x: nat, it: Item)
    requires TreeOk(t) && x in t.dirs && it in ItemsIn(t, x) && !IsDot(it) && !IsDirectory(it.entry[11])
    ensures ClusterOf(it) >= 2 ==> ClusterOf(it) !in t.dirs
  {
    hide ItemsIn, NoSharing;
    assert ItemOk(t, x, it);
  }

  lemma RewrittenUnique(before: seq<Item>, it: Item, jt: Item, after: seq<Item>)
    requires ShortsUnique(before + [it] + after) && ShortName(jt.entry) == ShortName(it.entry)
    ensures ShortsUnique(before + [jt] + after)
  {
    hide ShortName;
    var was, now := before + [it] + after, before + [jt] + after;
    assert forall i :: 0 <= i < |now| ==> ShortName(now[i].entry) == ShortName(was[i].entry);
  }

  lemma ItemUnaffected(t: Tree, u: Tree, x: nat, it: Item, jt: Item, d: nat, kt: Item)
    requires OnlyRewritten(t, u, x, it, jt) && ItemOk(t, d, kt) && NoSharing(t) && x in t.dirs
    requires it in ItemsIn(t, x) && d in t.dirs && kt in ItemsIn(t, d) && (d == x ==> kt != it)
    requires !IsDot(it)
    ensures ItemOk(u, d, kt)
  {
    hide ItemsIn, BytesIn;
  }

  lemma RewrittenShareNothing(t: Tree, u: Tree, x: nat, it: Item, jt: Item)
    requires TreeOk(t) && OnlyRewritten(t, u, x, it, jt) && x in t.dirs && it in ItemsIn(t, x) && !IsDot(it)
    requires forall d :: d in u.dirs && d != x ==> ItemsIn(u, d) == ItemsIn(t, d)
    requires forall kt :: kt in ItemsIn(u, x) ==> kt == jt || (kt in ItemsIn(t, x) && kt != it)
    ensures NoSharing(u)
  {
    assert u.dirs == t.dirs;
    hide ItemsIn, BytesIn, DirOk, ShortName, TreeOk, OnlyRewritten, IsDot;
    forall d, e, kt, lt | d in u.dirs && e in u.dirs && kt in ItemsIn(u, d) && lt in ItemsIn(u, e)
      && Owns(kt) && Owns(lt) && ClusterOf(kt) == ClusterOf(lt)
      ensures d == e && kt == lt
    {
      if d == x && kt == jt {
        if !(e == x && lt == jt) {
          RewrittenOwnsAlone(t, u, x, it, jt, e, lt);
        }
      } else if e == x && lt == jt {
        RewrittenOwnsAlone(t, u, x, it, jt, d, kt);
      } else {
        SharedBefore(t, u, x, it, jt, d, kt, e, lt);
      }
    }
  }

  lemma SharedBefore(t: Tree, u: Tree, x: nat, it: Item, jt: Item, d: nat, kt: Item, e: nat, lt: Item)
    requires TreeOk(t) && OnlyRewritten(t, u, x, it, jt)
    requires d in t.dirs && e in t.dirs && kt in ItemsIn(t, d) && lt in ItemsIn(t, e)
    requires Owns(kt) && Owns(lt) && ClusterOf(kt) == ClusterOf(lt)
    ensures d == e && kt == lt
  {
    hide ItemsIn, DirOk, ItemOk, IsDot;
  }

  /** No untouched entry owns the chain that the rewritten one names. */
  lemma RewrittenOwnsAlone(t: Tree, u: Tree, x: nat, it: Item, jt: Item, d: nat, kt: Item)
    requires TreeOk(t) && OnlyRewritten(t, u, x, it, jt) && x in t.dirs && it in ItemsIn(t, x) && !IsDot(it)
    requires d in t.dirs && kt in ItemsIn(t, d) && (d == x ==> kt != it) && Owns(kt)
    ensures Owns(jt) ==> ClusterOf(kt) != ClusterOf(jt)
  {
    hide ItemsIn, BytesIn, DirOk, ShortName, FileSize, IsDirectory;
    assert ItemOk(t, d, kt);
  }
}
