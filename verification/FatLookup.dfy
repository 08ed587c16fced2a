/** Walking a path through the directory tree. */
module FatLookup {
  import opened Machine
  import opened FatSlot
  import opened FatVolume
  import opened FatLongName
  import opened FatShortName
  import opened FatListing
  import opened FatDirData
  import opened FatSearch
  import opened FatTree

  /** The components of an absolute path. */
  type Path = seq<seq<byte>>

  predicate IsPath(path: Path)
  {
    forall i :: 0 <= i < |path| ==> IsName(path[i])
  }

  /** An entry found by a walk: the directory it is in, the item, and where its slot is stored. */
  datatype Found = Found(dir: nat, item: Item)

  /** Where a walk over `path` ends that starts in directory `d`; `last` is what it met so far. */
  ghost function Walked(t: Tree, d: nat, last: Option<Found>, path: Path): Option<Found>
    decreases |path|
  {
    if path == [] then last
    else if path[0] == DOT_NAME then Walked(t, d, last, path[1..])
    else if path[0] == DOTDOT_NAME then None
    else
      var found := FirstMatch(ItemsIn(t, d), path[0]);
      if found.None? then None
      else if |path| == 1 then Some(Found(d, found.value))
      else if !IsDirectory(found.value.entry[11]) then None
      else Walked(t, ClusterOf(found.value), Some(Found(d, found.value)), path[1..])
  }

  /** What the volume looks like as a tree. */
  ghost function TreeOf(v: Volume, dirs: set<nat>, depth: map<nat, nat>, root: nat): Tree
    reads v
  {
    Tree(v.chains, v.disk, dirs, depth, root)
  }

  lemma CaseOfDots(name: seq<byte>, shown: seq<byte>)
    requires CaseEqual(shown, name) && IsDotName(shown)
    ensures IsDotName(name)
  {
    assert forall i :: 0 <= i < |name| ==> ToLower(name[i]) == DOT;
    assert forall i :: 0 <= i < |name| ==> name[i] == DOT;
  }

  /** No proper name finds a dot entry, and a directory that is found is one of the tree's. */
  lemma MatchIsProper(t: Tree, d: nat, name: seq<byte>)
    requires TreeOk(t) && d in t.dirs && !IsDotName(name)
    ensures var found := FirstMatch(ItemsIn(t, d), name);
            found.Some? ==>
              && found.value in ItemsIn(t, d) && !IsDot(found.value)
              && (IsDirectory(found.value.entry[11]) ==> ClusterOf(found.value) in t.dirs)
  {
    hide ItemsIn, IsDotName, NoSharing, DirOk;
    var found := FirstMatch(ItemsIn(t, d), name);
    if found.Some? {
      var it := found.value;
      assert ItemOk(t, d, it);
      if IsDot(it) {
        CaseOfDots(name, it.name);
      }
    }
  }

  /** What a walk that succeeded found. */
  ghost predicate FoundOk(t: Tree, f: Found)
  {
    && f.dir in t.dirs && f.item in ItemsIn(t, f.dir) && !IsDot(f.item)
    && (IsDirectory(f.item.entry[11]) ==> ClusterOf(f.item) in t.dirs)
  }

  /** Look up every component in the directory the ones before it lead to. Parent components are
      left to the caller, and the device may refuse a read. */
  method LookupPath(v: Volume, path: Path, ghost dirs: set<nat>, ghost depth: map<nat, nat>, root: nat)
    returns (r: Option<Found>, location: Location, ghost readFailed: bool)
    requires v.Valid() && TreeOk(TreeOf(v, dirs, depth, root)) && IsPath(path)
    ensures !readFailed ==> r == Walked(TreeOf(v, dirs, depth, root), root, None, path)
    ensures readFailed ==> r == None && !v.reliable
    ensures r.Some? ==> FoundOk(TreeOf(v, dirs, depth, root), r.value)
    ensures r.Some? ==> StoredAt(v, r.value.dir, r.value.item.at, location)
  {
    hide Volume.Valid, FirstMatch, TreeOk, StoredAt, ItemsIn, FoundOk, Matches;
    ghost var t := TreeOf(v, dirs, depth, root);
    var current, rest := root, path;
    r, location := None, Location(0, 0);
    RootIsDir(t);
    while rest != []
      invariant IsPath(rest) && current in t.dirs
      invariant Walked(t, root, None, path) == Walked(t, current, r, rest)
      invariant r.Some? ==> FoundOk(t, r.value) && StoredAt(v, r.value.dir, r.value.item.at, location)
    {
      var name := rest[0];
      if name == DOTDOT_NAME {
        return None, location, false;
      }
      if name != DOT_NAME {
        DirsHaveChains(t, current);
        var ok, found;
        ok, found, location := FindEntry(v, current, name);
        if !ok {
          return None, location, true;
        }
        SameListing(v, t, current);
        MatchFound(t, current, name);
        if found.None? {
          return None, location, false;
        }
        r := Some(Found(current, found.value));
        if |rest| > 1 {
          if !IsDirectory(found.value.entry[11]) {
            return None, location, false;
          }
          current := FirstCluster(found.value.entry);
        }
      }
      rest := rest[1..];
    }
    readFailed := false;
  }

  lemma RootIsDir(t: Tree)
    requires TreeOk(t)
    ensures t.root in t.dirs
  {
  }

  lemma DirsHaveChains(t: Tree, d: nat)
    requires TreeOk(t) && d in t.dirs
    ensures d in t.chains && d in t.depth
  {
    assert DirOk(t, d);
  }

  lemma SameListing(v: Volume, t: Tree, d: nat)
    requires t.chains == v.chains && t.disk == v.disk
    ensures ItemsIn(t, d) == ListingOf(v, d) && SlotsIn(t, d) == DirOf(v, d)
  {
  }

  lemma MatchFound(t: Tree, d: nat, name: seq<byte>)
    requires TreeOk(t) && d in t.dirs && !IsDotName(name)
    ensures var found := FirstMatch(ItemsIn(t, d), name);
            found.Some? ==>
              && FoundOk(t, Found(d, found.value))
              && (IsDirectory(found.value.entry[11]) ==> ClusterOf(found.value) in t.dirs)
  {
    hide ItemsIn;
    MatchIsProper(t, d, name);
  }
}
