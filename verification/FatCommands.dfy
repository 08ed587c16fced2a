/** What the commands of the file system mean for the tree, and what they mean for one another: an entry
    that was made is found under its path, a file that was written reads back, and removing what was just
    made leaves every listing as it was. */
module FatCommands {
  import opened Machine
  import opened FatSlot
  import opened FatLongName
  import opened FatShortName
  import opened FatListing
  import opened FatSearch
  import opened FatDirectory
  import opened FatTree
  import opened FatLookup
  import opened FatSteps
  import opened FatCursor
  import opened FatEdits

  /** How a command ends. What was refused left the tree as it was; what the device let down half-way
      promises nothing about the tree any more. */
  datatype Ending = Done | Refused | Unfinished

  datatype Command =
    | DoCreate(path: Path)
    | DoMkdir(path: Path)
    | DoRemove(path: Path)
    | DoRmdir(path: Path)
    | DoWriteAt(path: Path, offset: uint32, data: seq<byte>)

  predicate Sensible(c: Command) { IsPath(c.path) }

  /** The directory a path leads to. */
  ghost function DirAt(t: Tree, path: Path): Option<nat>
  {
    if path == [] then Some(t.root) else
      var f := Walked(t, t.root, None, path);
      if f.Some? && IsDirectory(f.value.item.entry[11]) then Some(ClusterOf(f.value.item)) else None
  }

  function Front(path: Path): Path
    requires path != []
  {
    path[..|path| - 1]
  }

  function Last(path: Path): seq<byte>
    requires path != []
  {
    path[|path| - 1]
  }

  /** Nothing is there yet, and its parent is a directory. */
  ghost predicate Creatable(t: Tree, path: Path)
  {
    path != [] && Walked(t, t.root, None, path) == None && DirAt(t, Front(path)).Some?
  }

  ghost predicate FileAt(t: Tree, path: Path, f: Found)
  {
    path != [] && Walked(t, t.root, None, path) == Some(f) && !IsDirectory(f.item.entry[11])
  }

  ghost predicate DirectoryAt(t: Tree, path: Path, f: Found)
  {
    path != [] && Walked(t, t.root, None, path) == Some(f) && IsDirectory(f.item.entry[11])
  }

  ghost predicate EmptyDir(t: Tree, d: nat)
  {
    forall it :: it in ItemsIn(t, d) ==> IsDot(it)
  }

  /** Everything in directory `d` is shown as `.` or `..`, which is what the driver takes for empty. */
  ghost predicate SeemsEmpty(t: Tree, d: nat)
  {
    forall it :: it in ItemsIn(t, d) ==> IsDotName(it.name)
  }

  /** No run of free slots in directory `x` takes an entry for `name`. */
  ghost predicate Crowded(t: Tree, x: nat, name: seq<byte>)
    requires IsName(name)
  {
    NoRun(SlotsIn(t, x), |SlotsIn(t, x)|, SlotsNeeded(name, ItemsIn(t, x)))
  }

  /** What a command that was carried out has done to the tree: `it` is the entry in directory `x` that it
      made, removed or wrote, and `jt` what has become of a written one. */
  ghost predicate Means(c: Command, t: Tree, u: Tree, x: nat, it: Item, jt: Item)
    requires Sensible(c)
  {
    c.path != [] &&
    match c
    case DoCreate(path) =>
      && DirAt(t, Front(path)) == Some(x) && EntryMade(t, u, x, Last(path), it)
      && !IsDirectory(it.entry[11]) && ClusterOf(it) == 0 && FileSize(it.entry) == 0
    case DoMkdir(path) =>
      DirAt(t, Front(path)) == Some(x) && DirectoryMade(t, u, x, Last(path), it)
    case DoRemove(path) =>
      FileAt(t, path, Found(x, it)) && ItemRemoved(t, u, x, it)
    case DoRmdir(path) =>
      DirectoryAt(t, path, Found(x, it)) && SeemsEmpty(t, ClusterOf(it)) && ItemRemoved(t, u, x, it)
    case DoWriteAt(path, offset, data) =>
      && FileAt(t, path, Found(x, it)) && FileEdited(t, u, x, it, jt) && u.chains.Keys == t.chains.Keys + Named(jt)
      && (data != [] ==> FileIn(u, jt) == Edited(FileIn(t, it), offset, data))
  }

  /** A refused command has changed no listing and no chain's name; a write that ran out of clusters may
      have written a part. */
  ghost predicate Unchanged(c: Command, t: Tree, u: Tree, x: nat, it: Item, jt: Item)
  {
    || (SameListings(t, u) && u.chains.Keys == t.chains.Keys)
    || (c.DoWriteAt? && FileAt(t, c.path, Found(x, it)) && FileEdited(t, u, x, it, jt))
  }

  ghost predicate Stepped(c: Command, e: Ending, t: Tree, u: Tree)
    requires Sensible(c)
  {
    && (e == Done ==> exists x, it, jt :: Means(c, t, u, x, it, jt))
    && (e == Refused ==> exists x, it, jt :: Unchanged(c, t, u, x, it, jt))
  }

  /** Every step of a run took the tree to the next one of its history. */
  ghost predicate IsHistory(commands: seq<Command>, endings: seq<Ending>, trees: seq<Tree>)
    requires forall i :: 0 <= i < |commands| ==> Sensible(commands[i])
  {
    && |endings| <= |commands| && |trees| == |endings| + 1
    && forall i :: 0 <= i < |endings| ==> Stepped(commands[i], endings[i], trees[i], trees[i + 1])
  }

  /** What the command asks for can be done, given room. */
  ghost predicate Possible(c: Command, t: Tree)
  {
    match c
    case DoRemove(path) => exists f :: FileAt(t, path, f)
    case DoRmdir(path) => exists f :: DirectoryAt(t, path, f) && SeemsEmpty(t, ClusterOf(f.item))
    case DoWriteAt(path, _, _) => exists f :: FileAt(t, path, f)
    case _ => Creatable(t, c.path) && !AliasesUsedUp(ItemsIn(t, DirAt(t, Front(c.path)).value))
  }

  /** The part of a file that a read of `count` bytes at `offset` delivers. */
  function Piece(s: seq<byte>, offset: nat, count: nat): seq<byte>
  {
    s[Min(offset, |s|)..Min(offset + count, |s|)]
  }

  lemma WriteMeans(path: Path, offset: uint32, data: seq<byte>, t: Tree, u: Tree, f: Found, jt: Item)
    requires Sensible(DoWriteAt(path, offset, data)) && FileAt(t, path, f) && FileEdited(t, u, f.dir, f.item, jt)
    requires data != [] ==> FileIn(u, jt) == Edited(FileIn(t, f.item), offset, data)
    requires u.chains.Keys == t.chains.Keys + Named(jt)
    ensures Means(DoWriteAt(path, offset, data), t, u, f.dir, f.item, jt)
  {
    hide Walked, FileEdited, FileIn, Edited, IsDirectory, Named;
  }

  // ---------------------------------------------------------------- walking in two trees

  /** The directory that a path leads to from directory `d`. */
  ghost function Leads(t: Tree, d: nat, path: Path): Option<nat>
    decreases |path|
  {
    if path == [] then Some(d)
    else if path[0] == DOT_NAME then Leads(t, d, path[1..])
    else if path[0] == DOTDOT_NAME then None
    else
      var found := FirstMatch(ItemsIn(t, d), path[0]);
      if found.None? || !IsDirectory(found.value.entry[11]) then None
      else Leads(t, ClusterOf(found.value), path[1..])
  }

  ghost function FoundIn(t: Tree, x: Option<nat>, name: seq<byte>): Option<Found>
  {
    if x.None? then None else
      var found := FirstMatch(ItemsIn(t, x.value), name);
      if found.None? then None else Some(Found(x.value, found.value))
  }

  /** A walk is a walk to the parent and one look there. */
  lemma {:induction false} WalkEnds(t: Tree, d: nat, last: Option<Found>, front: Path, name: seq<byte>)
    requires !IsDotName(name)
    ensures Walked(t, d, last, front + [name]) == FoundIn(t, Leads(t, d, front), name)
    decreases |front|
  {
    hide ItemsIn, FirstMatch, IsDirectory, FirstCluster;
    var path := front + [name];
    if front != [] {
      assert path[1..] == front[1..] + [name];
      var found := FirstMatch(ItemsIn(t, d), front[0]);
      if front[0] == DOT_NAME {
        WalkEnds(t, d, last, front[1..], name);
      } else if front[0] != DOTDOT_NAME && found.Some? && IsDirectory(found.value.entry[11]) {
        WalkEnds(t, ClusterOf(found.value), Some(Found(d, found.value)), front[1..], name);
      }
    }
  }

  /** A walk that ends in a component `..` finds nothing, and one that ends in `.` finds what it would
      have found without it: no entry is looked up by such a name. */
  lemma {:induction false} DotNamesAreNotFound(t: Tree, d: nat, last: Option<Found>, front: Path)
    ensures Walked(t, d, last, front + [DOTDOT_NAME]) == None
    ensures Leads(t, d, front).Some? ==> Walked(t, d, last, front + [DOT_NAME]) == Walked(t, d, last, front)
    decreases |front|
  {
    hide ItemsIn, FirstMatch, IsDirectory, FirstCluster;
    if front == [] {
      assert [DOT_NAME][1..] == [];
    } else {
      assert (front + [DOT_NAME])[1..] == front[1..] + [DOT_NAME];
      assert (front + [DOTDOT_NAME])[1..] == front[1..] + [DOTDOT_NAME];
      var found := FirstMatch(ItemsIn(t, d), front[0]);
      if front[0] == DOT_NAME {
        DotNamesAreNotFound(t, d, last, front[1..]);
      } else if front[0] != DOTDOT_NAME && found.Some? && IsDirectory(found.value.entry[11]) {
        DotNamesAreNotFound(t, ClusterOf(found.value), Some(Found(d, found.value)), front[1..]);
        if front[1..] == [] {
          assert front[1..] + [DOT_NAME] == [DOT_NAME];
        }
      }
    }
  }

  /** Where a walk ends at a directory, the path leads there. */
  lemma {:induction false} WalkLeads(t: Tree, d: nat, last: Option<Found>, path: Path)
    requires last.Some? ==> IsDirectory(last.value.item.entry[11]) && ClusterOf(last.value.item) == d
    requires var f := Walked(t, d, last, path); f.Some? && IsDirectory(f.value.item.entry[11])
    ensures Leads(t, d, path) == Some(ClusterOf(Walked(t, d, last, path).value.item))
    decreases |path|
  {
    hide ItemsIn, FirstMatch, IsDirectory, FirstCluster;
    if path != [] {
      var found := FirstMatch(ItemsIn(t, d), path[0]);
      if path[0] == DOT_NAME {
        WalkLeads(t, d, last, path[1..]);
      } else if |path| == 1 {
        assert path[1..] == [];
      } else {
        WalkLeads(t, ClusterOf(found.value), Some(Found(d, found.value)), path[1..]);
      }
    }
  }

  lemma DirAtLeads(t: Tree, path: Path)
    requires DirAt(t, path).Some?
    ensures Leads(t, t.root, path) == DirAt(t, path)
  {
    hide Walked;
    if path != [] {
      WalkLeads(t, t.root, None, path);
    }
  }

  /** All directories of `t` but `x` report the same in `u`. */
  ghost predicate SameElsewhere(t: Tree, u: Tree, x: nat)
  {
    forall d :: d in t.dirs && d != x ==> ItemsIn(u, d) == ItemsIn(t, d)
  }

  /** A path that leads to `x` does not pass through `x` before, so it still leads there. */
  lemma {:induction false} LeadsSame(t: Tree, u: Tree, d: nat, path: Path, x: nat)
    requires TreeOk(t) && d in t.dirs && SameElsewhere(t, u, x) && Leads(t, d, path) == Some(x)
    ensures d in t.depth && x in t.dirs && x in t.depth && t.depth[d] <= t.depth[x]
    ensures Leads(u, d, path) == Some(x)
    decreases |path|
  {
    hide ItemsIn, FirstMatch, IsDirectory, FirstCluster, TreeOk, IsDotName;
    DepthIsKnown(t, d);
    if path != [] {
      if path[0] == DOT_NAME {
        LeadsSame(t, u, d, path[1..], x);
      } else {
        var it := FirstMatch(ItemsIn(t, d), path[0]).value;
        NotDotName(path[0]);
        Descends(t, d, path[0]);
        LeadsSame(t, u, ClusterOf(it), path[1..], x);
        assert d != x;
        assert ItemsIn(u, d) == ItemsIn(t, d);
      }
    }
  }

  lemma DepthIsKnown(t: Tree, d: nat)
    requires TreeOk(t) && d in t.dirs
    ensures d in t.depth
  {
    assert DirOk(t, d);
  }

  lemma NotDotName(name: seq<byte>)
    requires name != DOT_NAME && name != DOTDOT_NAME
    ensures !IsDotName(name)
  {
  }

  /** A directory found in a directory is one of the tree's, and lies deeper. */
  lemma Descends(t: Tree, d: nat, name: seq<byte>)
    requires TreeOk(t) && d in t.dirs && !IsDotName(name)
    requires var found := FirstMatch(ItemsIn(t, d), name); found.Some? && IsDirectory(found.value.entry[11])
    ensures var c := ClusterOf(FirstMatch(ItemsIn(t, d), name).value);
            c in t.dirs && c in t.depth && d in t.depth && t.depth[d] < t.depth[c]
  {
    hide ItemsIn, NoSharing, DirOk, IsDotName, IsDirectory, FirstMatch;
    MatchIsProper(t, d, name);
    var it := FirstMatch(ItemsIn(t, d), name).value;
    assert ItemOk(t, d, it);
  }

  // ---------------------------------------------------------------- what was made is found

  lemma {:induction false} MatchInserted(before: seq<Item>, it: Item, after: seq<Item>, name: seq<byte>)
    requires FirstMatch(before + after, name).None? && Matches(it, name)
    ensures FirstMatch(before + [it] + after, name) == Some(it)
  {
    hide Matches;
    var all := before + [it] + after;
    if before != [] {
      assert before + after == [before[0]] + (before[1..] + after);
      assert (before + after)[1..] == before[1..] + after;
      assert all[1..] == before[1..] + [it] + after;
      MatchInserted(before[1..], it, after, name);
    }
  }

  lemma MatchNone(before: seq<Item>, it: Item, after: seq<Item>, name: seq<byte>)
    requires FirstMatch(before + after, name).None? && !Matches(it, name)
    ensures FirstMatch(before + [it] + after, name).None?
  {
    hide Matches, FirstMatch;
    forall kt | kt in before + [it] + after
      ensures !Matches(kt, name)
    {
      assert kt == it || kt in before + after;
    }
  }

  /** A path whose last component is looked up finds in `u` what directory `x` now lists. */
  lemma LooksInto(t: Tree, u: Tree, x: nat, path: Path)
    requires TreeOk(t) && u.root == t.root && SameElsewhere(t, u, x)
    requires path != [] && !IsDotName(Last(path)) && DirAt(t, Front(path)) == Some(x)
    ensures Walked(t, t.root, None, path) == FoundIn(t, Some(x), Last(path))
    ensures Walked(u, u.root, None, path) == FoundIn(u, Some(x), Last(path))
  {
    hide ItemsIn, TreeOk, IsDotName, DirAt, Walked, FirstMatch, FoundIn;
    var front, name := Front(path), Last(path);
    assert path == front + [name];
    DirAtLeads(t, front);
    RootIsDir(t);
    LeadsSame(t, u, t.root, front, x);
    WalkEnds(t, t.root, None, front, name);
    WalkEnds(u, u.root, None, front, name);
  }

  /** Whatever lists one item more at the end of a path where nothing was found finds it there exactly if
      the item matches. */
  lemma InsertedIsFound(t: Tree, u: Tree, x: nat, path: Path, it: Item)
    requires TreeOk(t) && u.root == t.root && SameElsewhere(t, u, x) && Inserted(ItemsIn(t, x), ItemsIn(u, x), it)
    requires path != [] && !IsDotName(Last(path)) && DirAt(t, Front(path)) == Some(x)
    requires Walked(t, t.root, None, path) == None
    ensures Walked(u, u.root, None, path) == if Matches(it, Last(path)) then Some(Found(x, it)) else None
  {
    hide ItemsIn, Matches, TreeOk, IsDotName, DirAt, Walked, FirstMatch;
    LooksInto(t, u, x, path);
    var was := ItemsIn(t, x);
    var i :| 0 <= i <= |was| && ItemsIn(u, x) == was[..i] + [it] + was[i..];
    assert was == was[..i] + was[i..];
    if Matches(it, Last(path)) {
      MatchInserted(was[..i], it, was[i..], Last(path));
    } else {
      MatchNone(was[..i], it, was[i..], Last(path));
    }
  }

  /** A name by which the entry that is made for it in a directory of `items` is found: no dot name, not
      deleted on arrival, and shown as it is or spelled by its free plain short form. */
  ghost predicate Findable(name: seq<byte>, items: seq<Item>)
    requires IsName(name)
  {
    !IsDotName(name) && !Vanishes(name, items) && (IsShown(name) || IsPlain(name, items))
  }

  ghost predicate Makes(c: Command) { c.DoCreate? || c.DoMkdir? }

  /** What a command that made an entry has done to the listings. */
  lemma MadeLists(c: Command, t: Tree, u: Tree, x: nat, it: Item)
    requires Sensible(c) && Makes(c) && Means(c, t, u, x, it, it) && TreeOk(t)
    ensures u.root == t.root && SameElsewhere(t, u, x) && x in t.dirs
    ensures if Vanishes(Last(c.path), ItemsIn(t, x)) then ItemsIn(u, x) == ItemsIn(t, x)
            else Inserted(ItemsIn(t, x), ItemsIn(u, x), it) && NamedAs(SlotsIn(u, x), it, Last(c.path), ItemsIn(t, x))
                 && !IsDot(it)
  {
    hide ItemsIn, TreeOk, DirAt, Walked, Inserted, BytesIn, NamedAs, Vanishes, IsDirectory, FileSize, FirstCluster,
      NobodyOwns, IsDot;
    ParentIsDir(t, c.path, x);
    OwningIsNoDot(it);
  }

  lemma OwningIsNoDot(it: Item)
    ensures Owns(it) ==> !IsDot(it)
  {
  }

  lemma ParentIsDir(t: Tree, path: Path, x: nat)
    requires TreeOk(t) && path != [] && DirAt(t, Front(path)) == Some(x)
    ensures x in t.dirs
  {
    hide ItemsIn, TreeOk, Walked;
    RootIsDir(t);
    DirAtLeads(t, Front(path));
    LeadsSame(t, t, t.root, Front(path), x);
  }

  /** A file or directory that was made under a path where nothing was is found there exactly if its entry
      can be found by its name at all. */
  lemma MadeIsFound(c: Command, t: Tree, u: Tree, x: nat, it: Item)
    requires Sensible(c) && Makes(c) && Means(c, t, u, x, it, it) && TreeOk(t)
    requires Walked(t, t.root, None, c.path) == None
    ensures Walked(u, u.root, None, c.path)
            == if Findable(Last(c.path), ItemsIn(t, x)) then Some(Found(x, it)) else None
  {
    hide ItemsIn, Matches, TreeOk, DirAt, Walked, Inserted, NamedAs, Vanishes, IsDotName, IsShown, IsPlain,
      FirstMatch, EntryMade, DirectoryMade, SameElsewhere, SlotsIn;
    var name, items := Last(c.path), ItemsIn(t, x);
    MadeLists(c, t, u, x, it);
    if IsDotName(name) {
      DotStaysUnfound(t, u, x, c.path);
    } else if Vanishes(name, items) {
      LooksInto(t, u, x, c.path);
    } else {
      FoundAgain(SlotsIn(u, x), it, name, items);
      InsertedIsFound(t, u, x, c.path, it);
    }
  }

  lemma DotStaysUnfound(t: Tree, u: Tree, x: nat, path: Path)
    requires path != [] && IsDotName(Last(path)) && DirAt(t, Front(path)) == Some(x)
    requires Walked(t, t.root, None, path) == None
    ensures Walked(u, u.root, None, path) == None
  {
    hide ItemsIn, FirstMatch, Walked;
    var front := Front(path);
    assert path == front + [Last(path)];
    DirAtLeads(t, front);
    DotNamesAreNotFound(t, t.root, None, front);
    DotNamesAreNotFound(u, u.root, None, front);
    if Last(path) == DOT_NAME {
      assert front == [];
      NowhereLeft(u, u.root);
    }
  }

  lemma NowhereLeft(u: Tree, d: nat)
    ensures Walked(u, d, None, []) == None && Leads(u, d, []) == Some(d)
  {
  }

  /** Whatever else it is, an entry that is listed is found by what its short name spells. */
  lemma FoundByAlias(c: Command, t: Tree, u: Tree, x: nat, it: Item)
    requires Sensible(c) && Makes(c) && Means(c, t, u, x, it, it) && TreeOk(t)
    requires !Vanishes(Last(c.path), ItemsIn(t, x)) && !IsDotName(SpelledBy(it.entry))
    requires Walked(t, t.root, None, Front(c.path) + [SpelledBy(it.entry)]) == None
    ensures Walked(u, u.root, None, Front(c.path) + [SpelledBy(it.entry)]) == Some(Found(x, it))
  {
    hide ItemsIn, TreeOk, DirAt, Walked, Inserted, NamedAs, Vanishes, IsDotName, SpelledBy, FirstMatch, EntryMade,
      DirectoryMade, SameElsewhere, SlotsIn, Matches;
    MadeLists(c, t, u, x, it);
    MatchesAlias(it);
    var path := Front(c.path) + [SpelledBy(it.entry)];
    assert Front(path) == Front(c.path) && Last(path) == SpelledBy(it.entry);
    InsertedIsFound(t, u, x, path, it);
  }

  lemma MatchesAlias(it: Item)
    ensures Matches(it, SpelledBy(it.entry))
  {
  }

  /** So an entry that was made under the name `..` where no short name begins like it is found as `_~1`. */
  lemma AliasOfDots()
    ensures CString(Spelled(Candidate(StemOf(DOTDOT_NAME), 1))) == [0x5F, 0x7E, 0x31]
  {
    var alias := [UNDERSCORE, TILDE, 0x31];
    assert StemOf(DOTDOT_NAME) == Stem([UNDERSCORE], []) by {
      assert DOTDOT_NAME[..1] == [DOT] && DOTDOT_NAME[2..] == [];
      assert Component([DOT], 255) == [UNDERSCORE] + Component([DOT][1..], 254);
    }
    var short := Candidate(Stem([UNDERSCORE], []), 1);
    assert Decimal(1) == [0x31];
    assert AliasBase([UNDERSCORE], 1) == alias;
    assert [short[0]] + short[1..8] == Pad(alias, 8) && short[8..] == Pad([], 3);
    UnpaddedPad(alias, 8);
    UnpaddedPad([], 3);
    WholeCString(alias);
  }

  /** Three names that are not found again: a dot name, a byte that marks deleted slots, and one of 14
      characters. */
  lemma NamesThatAreLost(items: seq<Item>)
    ensures IsName(DOTDOT_NAME) && !Findable(DOTDOT_NAME, items)
    ensures var mark := [MARK_DELETED]; IsName(mark) && (PlainFree(mark, items) ==> !Findable(mark, items))
    ensures var long := seq(14, _ => 0x41); IsName(long) && !Findable(long, items)
  {
    hide Shorts, PlainShort, Spelled;
    LongIsLost(seq(14, _ => 0x41), items);
  }

  lemma LongIsLost(name: seq<byte>, items: seq<Item>)
    requires IsName(name) && |name| > UNITS
    ensures !Findable(name, items)
  {
    hide Shorts, PlainShort, Spelled;
    if PlainShort(name).Some? {
      SpelledLength(PlainShort(name).value);
    }
  }
  /** A walk that ends at directory `x` ends there in `u` too. */
  lemma {:induction false} WalkSame(t: Tree, u: Tree, d: nat, last: Option<Found>, path: Path, x: nat)
    requires TreeOk(t) && d in t.dirs && SameElsewhere(t, u, x)
    requires last.Some? ==> IsDirectory(last.value.item.entry[11]) && ClusterOf(last.value.item) == d
    requires var f := Walked(t, d, last, path);
             f.Some? && IsDirectory(f.value.item.entry[11]) && ClusterOf(f.value.item) == x
    ensures Walked(u, d, last, path) == Walked(t, d, last, path)
    decreases |path|
  {
    hide ItemsIn, FirstMatch, IsDirectory, FirstCluster, TreeOk, IsDotName;
    if path != [] {
      if path[0] == DOT_NAME {
        WalkSame(t, u, d, last, path[1..], x);
      } else {
        var it := FirstMatch(ItemsIn(t, d), path[0]).value;
        NotDotName(path[0]);
        Descends(t, d, path[0]);
        if |path| > 1 {
          WalkLeads(t, ClusterOf(it), Some(Found(d, it)), path[1..]);
          LeadsSame(t, u, ClusterOf(it), path[1..], x);
          WalkSame(t, u, ClusterOf(it), Some(Found(d, it)), path[1..], x);
        }
        assert d != x;
        assert ItemsIn(u, d) == ItemsIn(t, d);
      }
    }
  }

  /** Exactly what cannot be found again can be made again under the same path. */
  lemma LostNamesAreMadeTwice(c: Command, t: Tree, u: Tree, x: nat, it: Item)
    requires Sensible(c) && Makes(c) && Means(c, t, u, x, it, it) && TreeOk(t) && Creatable(t, c.path)
    ensures Creatable(u, c.path) <==> !Findable(Last(c.path), ItemsIn(t, x))
  {
    hide ItemsIn, TreeOk, Walked, Findable, Inserted, NamedAs, Vanishes, EntryMade, DirectoryMade, IsDirectory,
      SlotsIn;
    MadeIsFound(c, t, u, x, it);
    MadeLists(c, t, u, x, it);
    if Front(c.path) != [] {
      RootIsDir(t);
      WalkSame(t, u, t.root, None, Front(c.path), x);
    }
  }

  /** So the driver lets a name of more than 13 characters be created twice in one directory. */
  lemma LongNamesAreMadeTwice(t: Tree, u: Tree, path: Path, x: nat, it: Item)
    requires TreeOk(t) && Sensible(DoCreate(path)) && Creatable(t, path) && Means(DoCreate(path), t, u, x, it, it)
    requires |Last(path)| > UNITS
    ensures Creatable(u, path)
  {
    hide ItemsIn, TreeOk, Walked, Means, Findable;
    LostNamesAreMadeTwice(DoCreate(path), t, u, x, it);
    LongIsLost(Last(path), ItemsIn(t, x));
  }

  /** Any name that the driver shows will do. */
  lemma ShownIsFindable(name: seq<byte>, items: seq<Item>)
    requires IsName(name) && IsShown(name) && !IsDotName(name)
    ensures Findable(name, items)
  {
    hide IsDotName, Shorts, IsPlain;
  }

  /** A file or directory made under the name `..` hides in its directory: the driver takes that for empty. */
  lemma HiddenEntry(c: Command, t: Tree, u: Tree, x: nat, it: Item)
    requires Sensible(c) && Makes(c) && Means(c, t, u, x, it, it) && TreeOk(t)
    requires Last(c.path) == DOTDOT_NAME && EmptyDir(t, x)
    ensures SeemsEmpty(u, x) && !EmptyDir(u, x) && it in ItemsIn(u, x)
  {
    hide ItemsIn, TreeOk, DirAt, Inserted, EntryMade, DirectoryMade, SlotsIn, IsDot, IsDotName, Shorts;
    NeedsLongForDots(ItemsIn(t, x));
    MadeLists(c, t, u, x, it);
    ShownAsDots(SlotsIn(u, x), it, ItemsIn(t, x));
    InsertedKeeps(ItemsIn(t, x), ItemsIn(u, x), it);
    forall kt | kt in ItemsIn(u, x)
      ensures IsDotName(kt.name)
    {
      if kt != it {
        DotsAreNamed(t, x, kt);
      }
    }
  }

  /** A directory that seems empty is so exactly if none but its dot entries are shown as such. */
  lemma EmptyDirs(t: Tree, d: nat)
    requires TreeOk(t) && d in t.dirs
    ensures EmptyDir(t, d) <==> SeemsEmpty(t, d) && forall it :: it in ItemsIn(t, d) && IsDotName(it.name) ==> IsDot(it)
  {
    hide ItemsIn, TreeOk, IsDot, IsDotName;
    forall it | it in ItemsIn(t, d) && IsDot(it)
      ensures IsDotName(it.name)
    {
      DotsAreNamed(t, d, it);
    }
  }

  lemma DotsAreNamed(t: Tree, d: nat, it: Item)
    requires TreeOk(t) && d in t.dirs && it in ItemsIn(t, d) && IsDot(it)
    ensures IsDotName(it.name)
  {
    hide ItemsIn, NoSharing;
    assert ItemOk(t, d, it);
  }

  lemma NeedsLongForDots(items: seq<Item>)
    ensures IsName(DOTDOT_NAME) && NeedsLong(DOTDOT_NAME, items) && !Vanishes(DOTDOT_NAME, items)
  {
    hide Shorts;
    assert PlainShort(DOTDOT_NAME).None?;
  }

  lemma ShownAsDots(slots: seq<Slot>, it: Item, items: seq<Item>)
    requires IsName(DOTDOT_NAME) && NeedsLong(DOTDOT_NAME, items) && NamedAs(slots, it, DOTDOT_NAME, items)
    ensures IsDotName(it.name)
  {
    hide Shorts, NeedsLong, Shown;
    DriverKeepsShortNames(DOTDOT_NAME);
  }

  lemma InsertedKeeps(was: seq<Item>, now: seq<Item>, it: Item)
    requires Inserted(was, now, it)
    ensures it in now && forall k :: k in now <==> k in was || k == it
  {
    var i :| 0 <= i <= |was| && now == was[..i] + [it] + was[i..];
    assert was == was[..i] + was[i..];
    assert it in [it];
    forall k | k in was
      ensures k in now
    {
      assert k in was[..i] || k in was[i..];
    }
  }

  lemma CreatedBelow(path: Path, t: Tree, u: Tree, x: nat, it: Item)
    requires Sensible(DoCreate(path)) && Means(DoCreate(path), t, u, x, it, it)
    ensures path != [] && DirAt(t, Front(path)) == Some(x)
  {
    hide DirAt, EntryMade, IsDirectory, FirstCluster, FileSize;
  }

  lemma CreatedIsThere(t: Tree, u: Tree, path: Path, x: nat, it: Item)
    requires TreeOk(t) && Sensible(DoCreate(path)) && Creatable(t, path) && Means(DoCreate(path), t, u, x, it, it)
    requires Findable(Last(path), ItemsIn(t, x))
    ensures Walked(t, t.root, None, path) == None && FileAt(u, path, Found(x, it))
    ensures !IsDotName(Last(path)) && !Vanishes(Last(path), ItemsIn(t, x))
  {
    hide TreeOk, Walked, DirAt, EntryMade, FirstCluster, FileSize, IsDirectory, ItemsIn, IsPlain, IsShown, IsDotName,
      Vanishes;
    MadeIsFound(DoCreate(path), t, u, x, it);
  }

  lemma WrittenIsThere(t: Tree, u: Tree, w: Tree, path: Path, x: nat, it: Item, jt: Item)
    requires TreeOk(u) && IsPath(path) && path != [] && !IsDotName(Last(path)) && FileAt(u, path, Found(x, it))
               && FileEdited(u, w, x, it, jt)
    ensures FileAt(w, path, Found(x, jt))
  {
    hide TreeOk, Walked, IsDirectory, Swapped, IsDotName, FirstCluster, ShortName, BytesIn, ItemsIn;
    EditedIsFound(u, w, x, path, it, jt);
  }

  /** Creating a file and writing into it leaves exactly what was written. */
  lemma CreatedThenWritten(t: Tree, u: Tree, w: Tree, path: Path, data: seq<byte>,
                           x: nat, it: Item, y: nat, kt: Item, jt: Item)
    requires Sensible(DoCreate(path)) && Sensible(DoWriteAt(path, 0, data)) && data != []
    requires TreeOk(t) && Means(DoCreate(path), t, u, x, it, it) && Means(DoWriteAt(path, 0, data), u, w, y, kt, jt)
    requires Walked(t, t.root, None, path) == None && Findable(Last(path), ItemsIn(t, x))
    ensures y == x && kt == it && FileIn(w, jt) == data
  {
    hide ItemsIn, Findable, TreeOk, DirAt, Walked, EntryMade, FileEdited, BytesIn, FileIn, Edited, FirstCluster,
      FileSize;
    MadeIsFound(DoCreate(path), t, u, x, it);
    NothingInIt(u, it);
    EditedNothing(data);
  }

  lemma NothingInIt(t: Tree, it: Item)
    requires ClusterOf(it) < 2
    ensures FileIn(t, it) == []
  {
  }

  lemma EditedNothing(data: seq<byte>)
    ensures Edited([], 0, data) == data
  {
  }

  lemma InsertedOnce(a: seq<Item>, b: seq<Item>, c: seq<Item>, it: Item)
    requires Inserted(a, c, it) && Inserted(b, c, it)
    ensures a == b
  {
    var i :| 0 <= i <= |a| && c == a[..i] + [it] + a[i..];
    RemovedFrom(a, i, c, b, it);
  }

  /** Removing the file that was just created leaves every listing and every other file as it was. */
  lemma CreatedThenRemoved(t: Tree, u: Tree, w: Tree, path: Path, x: nat, it: Item, y: nat, kt: Item)
    requires Sensible(DoCreate(path)) && Sensible(DoRemove(path))
    requires TreeOk(t) && Means(DoCreate(path), t, u, x, it, it) && Means(DoRemove(path), u, w, y, kt, kt)
    requires Walked(t, t.root, None, path) == None && Findable(Last(path), ItemsIn(t, x))
    ensures y == x && kt == it && SameListings(t, w)
  {
    hide ItemsIn, IsPlain, IsShown, IsDotName, TreeOk, DirAt, Walked, Inserted, BytesIn, NamedAs, IsDirectory,
      FirstCluster, FileSize, Vanishes, SlotsIn;
    MadeIsFound(DoCreate(path), t, u, x, it);
    InsertedOnce(ItemsIn(t, x), ItemsIn(w, x), ItemsIn(u, x), it);
  }

  /** The same for a directory. */
  lemma MadeThenRemoved(t: Tree, u: Tree, w: Tree, path: Path, x: nat, it: Item, y: nat, kt: Item)
    requires Sensible(DoMkdir(path)) && Sensible(DoRmdir(path))
    requires TreeOk(t) && Means(DoMkdir(path), t, u, x, it, it) && Means(DoRmdir(path), u, w, y, kt, kt)
    requires Walked(t, t.root, None, path) == None && Findable(Last(path), ItemsIn(t, x))
    ensures y == x && kt == it && w.dirs == t.dirs
    ensures forall d :: d in t.dirs ==> ItemsIn(w, d) == ItemsIn(t, d)
    ensures forall h :: h in t.chains && h !in t.dirs ==> h in w.chains && BytesIn(w, h) == BytesIn(t, h)
  {
    hide ItemsIn, IsPlain, IsShown, IsDotName, DirAt, Walked, Inserted, BytesIn, NamedAs, IsDirectory,
      FirstCluster, FileSize, NoSharing, ItemOk, DirectoryOk, ShortsUnique, Vanishes, SlotsIn;
    MadeIsFound(DoMkdir(path), t, u, x, it);
    InsertedOnce(ItemsIn(t, x), ItemsIn(w, x), ItemsIn(u, x), it);
    assert ClusterOf(it) !in t.dirs;
  }

  // ---------------------------------------------------------------- writing again and again

  lemma {:induction false} MatchSwapped(was: seq<Item>, i: nat, jt: Item, name: seq<byte>)
    requires i < |was| && FirstMatch(was, name) == Some(was[i]) && was[i] !in was[..i]
    requires Matches(jt, name) <==> Matches(was[i], name)
    ensures FirstMatch(was[i := jt], name) == Some(jt)
  {
    hide Matches;
    if i > 0 {
      assert was[0] in was[..i];
      assert was[1..][..i - 1] == was[..i][1..];
      MatchSwapped(was[1..], i - 1, jt, name);
      assert was[i := jt][1..] == was[1..][i - 1 := jt];
    }
  }

  /** A written file is found where it was, and a further write continues from what the first left. */
  lemma WrittenTwice(t: Tree, u: Tree, w: Tree, path: Path, o1: uint32, d1: seq<byte>, o2: uint32, d2: seq<byte>,
                     x: nat, it: Item, jt: Item, y: nat, kt: Item, lt: Item)
    requires Sensible(DoWriteAt(path, o1, d1)) && Sensible(DoWriteAt(path, o2, d2))
    requires path != [] && !IsDotName(Last(path)) && d1 != [] && d2 != [] && TreeOk(t)
    requires Means(DoWriteAt(path, o1, d1), t, u, x, it, jt) && Means(DoWriteAt(path, o2, d2), u, w, y, kt, lt)
    ensures y == x && kt == jt && FileIn(w, lt) == Edited(Edited(FileIn(t, it), o1, d1), o2, d2)
  {
    hide ItemsIn, Matches, TreeOk, DirAt, Walked, BytesIn, FileIn, Edited, IsDirectory, FirstMatch, IsDotName,
      FirstCluster;
    EditedIsFound(t, u, x, path, it, jt);
  }

  lemma EditedIsFound(t: Tree, u: Tree, x: nat, path: Path, it: Item, jt: Item)
    requires TreeOk(t) && path != [] && !IsDotName(Last(path)) && FileEdited(t, u, x, it, jt)
    requires Walked(t, t.root, None, path) == Some(Found(x, it))
    ensures Walked(u, u.root, None, path) == Some(Found(x, jt))
  {
    hide ItemsIn, Matches, TreeOk, IsDotName, Walked, FirstMatch, BytesIn, FirstCluster, ShortName;
    var front, name := Front(path), Last(path);
    assert path == front + [name];
    RootIsDir(t);
    WalkEnds(t, t.root, None, front, name);
    WalkEnds(u, u.root, None, front, name);
    LeadsSame(t, u, t.root, front, x);
    var was := ItemsIn(t, x);
    var i :| 0 <= i < |was| && was[i] == it && ItemsIn(u, x) == was[i := jt];
    ListedOnce(t, x, i);
    SameNamesMatch(it, jt, name);
    MatchSwapped(was, i, jt, name);
  }

  /** Removing a file that was created and written leaves every listing and every other file as it was. */
  lemma WrittenThenRemoved(t: Tree, u: Tree, w: Tree, z: Tree, path: Path, offset: uint32, data: seq<byte>,
                           x: nat, it: Item, jt: Item, y: nat, kt: Item)
    requires Sensible(DoCreate(path)) && TreeOk(t) && TreeOk(u) && Means(DoCreate(path), t, u, x, it, it)
    requires !Vanishes(Last(path), ItemsIn(t, x))
    requires Means(DoWriteAt(path, offset, data), u, w, x, it, jt) && FileAt(w, path, Found(x, jt))
    requires Means(DoRemove(path), w, z, y, kt, kt)
    ensures y == x && kt == jt && SameListings(t, z) && z.chains.Keys == t.chains.Keys
  {
    hide ItemsIn, TreeOk, DirAt, BytesIn, NamedAs, IsDirectory, FileSize, FirstCluster, ShortName, Inserted,
      Swapped, IsDot, Walked, Edited, FileIn, Vanishes, SlotsIn;
    DirsAreChains(t);
    DirsAreChains(u);
    SameDot(it, jt);
    SwapThenRemove(ItemsIn(t, x), ItemsIn(u, x), ItemsIn(w, x), ItemsIn(z, x), it, jt);
  }

  lemma SameDot(it: Item, jt: Item)
    requires ShortName(jt.entry) == ShortName(it.entry)
    ensures IsDot(jt) <==> IsDot(it)
  {
    assert it.entry[0] == ShortName(it.entry)[0] && jt.entry[0] == ShortName(jt.entry)[0];
  }

  lemma SwapThenRemove(a: seq<Item>, b: seq<Item>, c: seq<Item>, d: seq<Item>, it: Item, jt: Item)
    requires Inserted(a, b, it) && Swapped(b, c, it, jt) && Inserted(d, c, jt)
    ensures d == a
  {
    var i :| 0 <= i <= |a| && b == a[..i] + [it] + a[i..];
    var k :| 0 <= k < |b| && b[k] == it && c == b[k := jt];
    SwappedInPlace(a, i, k, it, jt);
    RemovedFrom(a, i, c, d, jt);
  }

  /** Everything but the inserted item was there before. */
  lemma InsertedOnlyThere(a: seq<Item>, i: nat, k: nat, it: Item)
    requires i <= |a| && k <= |a|
    ensures k != i ==> (a[..i] + [it] + a[i..])[k] in a
  {
    if k != i {
      assert (a[..i] + [it] + a[i..])[k] == a[if k < i then k else k - 1];
    }
  }

  lemma SwappedInPlace(a: seq<Item>, i: nat, k: nat, it: Item, jt: Item)
    requires i <= |a| && it !in a && k < |a| + 1 && (a[..i] + [it] + a[i..])[k] == it
    ensures (a[..i] + [it] + a[i..])[k := jt] == a[..i] + [jt] + a[i..]
  {
    InsertedOnlyThere(a, i, k, it);
  }

  lemma RemovedFrom(a: seq<Item>, i: nat, c: seq<Item>, d: seq<Item>, jt: Item)
    requires i <= |a| && c == a[..i] + [jt] + a[i..] && Inserted(d, c, jt)
    ensures d == a
  {
    var j :| 0 <= j <= |d| && c == d[..j] + [jt] + d[j..];
    assert c[i] == jt;
    InsertedOnlyThere(d, j, i, jt);
    SameWithout(a, i, c, jt);
    SameWithout(d, i, c, jt);
  }

  lemma SameWithout(a: seq<Item>, i: nat, c: seq<Item>, jt: Item)
    requires i <= |a| && c == a[..i] + [jt] + a[i..]
    ensures a == c[..i] + c[i + 1..]
  {
  }

  lemma SameNamesMatch(it: Item, jt: Item, name: seq<byte>)
    requires jt.name == it.name && ShortName(jt.entry) == ShortName(it.entry)
    ensures Matches(jt, name) <==> Matches(it, name)
  {
  }

  lemma ListedOnce(t: Tree, x: nat, i: nat)
    requires TreeOk(t) && x in t.dirs && i < |ItemsIn(t, x)|
    ensures ItemsIn(t, x)[i] !in ItemsIn(t, x)[..i]
  {
    hide ItemsIn, DirectoryOk, NoSharing, ItemOk;
    assert DirOk(t, x);
  }
}
