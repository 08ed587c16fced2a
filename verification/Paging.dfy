/** Two-level page tables: a directory page whose present entries point to table pages, all of them
    frames taken from the frame allocator. */
module Paging {
  import opened Machine
  import opened Frames

  const ENTRIES := 1024
  const PAGES := 0x10_0000
  const IDENTITY_TABLES := 8

  type Page = seq<uint32>

  // ---------------------------------------------------------------- entries

  predicate Present(e: uint32) { e % 2 == 1 }

  predicate Writable(e: uint32) { e / 2 % 2 == 1 }

  function FrameOf(e: uint32): nat { e / PAGE_SIZE }

  /** A frame address with its low bits replaced by flags. */
  function Entry(addr: uint32, rw: bool): (e: uint32)
    ensures Present(e) && FrameOf(e) == addr / PAGE_SIZE && (Writable(e) <==> rw)
  {
    addr / PAGE_SIZE * PAGE_SIZE + if rw then 3 else 1
  }

  function WithEntry(p: Page, i: nat, e: uint32): (r: Page)
    requires i < |p|
    ensures |r| == |p| && forall j :: 0 <= j < |p| ==> r[j] == if j == i then e else p[j]
  {
    p[i := e]
  }

  // ---------------------------------------------------------------- the walk

  /** A mapping of one page. */
  datatype Mapping = Mapping(frame: nat, writable: bool)

  function Decode(e: uint32): Option<Mapping>
  {
    if Present(e) then Some(Mapping(FrameOf(e), Writable(e))) else None
  }

  /** What the hardware finds for page number `page`: the directory entry, then the table entry. */
  function Walk(memory: map<nat, Page>, dir: nat, page: nat): Option<Mapping>
  {
    var d := Slot(memory, dir, page / ENTRIES);
    if !Present(d) then None else Decode(Slot(memory, FrameOf(d), page % ENTRIES))
  }

  function Slot(memory: map<nat, Page>, frame: nat, i: nat): uint32
  {
    if frame in memory && i < |memory[frame]| then memory[frame][i] else 0
  }

  /** The translation of an address: its page's frame, at the same offset. */
  function Translate(memory: map<nat, Page>, dir: nat, addr: uint32): Option<nat>
  {
    var m := Walk(memory, dir, addr / PAGE_SIZE);
    if m.None? then None else Some(m.value.frame * PAGE_SIZE + addr % PAGE_SIZE)
  }

  // ---------------------------------------------------------------- the structure

  /** The directory and every table it points to are whole pages in frames that are in use, no two of
      them the same. */
  ghost predicate TablesOk(memory: map<nat, Page>, dir: nat, used: set<nat>)
  {
    && dir in memory && |memory[dir]| == ENTRIES && dir in used
    && (forall i :: 0 <= i < ENTRIES && Present(memory[dir][i]) ==> TableOk(memory, dir, used, FrameOf(memory[dir][i])))
    && (forall i, j :: 0 <= i < j < ENTRIES && Present(memory[dir][i]) && Present(memory[dir][j]) ==>
          FrameOf(memory[dir][i]) != FrameOf(memory[dir][j]))
  }

  ghost predicate TableOk(memory: map<nat, Page>, dir: nat, used: set<nat>, f: nat)
  {
    f in memory && |memory[f]| == ENTRIES && f in used && f != dir
  }

  /** A fresh zeroed table behind an absent directory entry changes no translation. */
  lemma AddTable(memory: map<nat, Page>, dir: nat, used: set<nat>, i: nat, f: nat, e: uint32)
    requires TablesOk(memory, dir, used) && i < ENTRIES && !Present(memory[dir][i])
    requires f !in used && Present(e) && FrameOf(e) == f
    ensures var now := memory[f := Zeroed()][dir := WithEntry(memory[dir], i, e)];
            && TablesOk(now, dir, used + {f})
            && now[dir][i] == e
            && forall page :: 0 <= page < PAGES ==> Walk(now, dir, page) == Walk(memory, dir, page)
  {
    var now := memory[f := Zeroed()][dir := WithEntry(memory[dir], i, e)];
    hide Present, FrameOf, Decode;
    forall page | 0 <= page < PAGES
      ensures Walk(now, dir, page) == Walk(memory, dir, page)
    {
      AddedTableWalk(memory, dir, used, i, f, e, page);
    }
  }

  function Zeroed(): (p: Page)
    ensures |p| == ENTRIES && forall i :: 0 <= i < ENTRIES ==> p[i] == 0
  {
    seq(ENTRIES, _ => 0)
  }

  /** The same for a table filled beforehand: its region is translated by its entries. */
  lemma AddFullTable(memory: map<nat, Page>, dir: nat, used: set<nat>, i: nat, f: nat, table: Page, e: uint32)
    requires TablesOk(memory, dir, used) && i < ENTRIES && !Present(Slot(memory, dir, i)) && |table| == ENTRIES
    requires f !in used && Present(e) && FrameOf(e) == f && i < |memory[dir]|
    ensures var now := memory[f := table][dir := WithEntry(memory[dir], i, e)];
            && TablesOk(now, dir, used + {f})
            && forall page :: 0 <= page < PAGES ==>
                 Walk(now, dir, page) == if page / ENTRIES == i then Decode(table[page % ENTRIES])
                   else Walk(memory, dir, page)
  {
    var now := memory[f := table][dir := WithEntry(memory[dir], i, e)];
    hide Present, FrameOf, Decode;
    forall page | 0 <= page < PAGES
      ensures Walk(now, dir, page) == if page / ENTRIES == i then Decode(table[page % ENTRIES])
                else Walk(memory, dir, page)
    {
      var d := page / ENTRIES;
      if d != i && Present(memory[dir][d]) {
        assert TableOk(memory, dir, used, FrameOf(memory[dir][d]));
      }
    }
  }

  lemma AddedTableWalk(memory: map<nat, Page>, dir: nat, used: set<nat>, i: nat, f: nat, e: uint32, page: nat)
    requires TablesOk(memory, dir, used) && i < ENTRIES && !Present(memory[dir][i]) && page < PAGES
    requires f !in used && Present(e) && FrameOf(e) == f
    ensures Walk(memory[f := Zeroed()][dir := WithEntry(memory[dir], i, e)], dir, page) == Walk(memory, dir, page)
  {
    hide FrameOf;
    var now := memory[f := Zeroed()][dir := WithEntry(memory[dir], i, e)];
    var d := page / ENTRIES;
    if d == i {
      assert Slot(now, f, page % ENTRIES) == 0;
    } else if Present(memory[dir][d]) {
      assert TableOk(memory, dir, used, FrameOf(memory[dir][d]));
    }
  }

  /** Writing entry `k` of the table behind directory entry `i` changes the translation of exactly one
      page. */
  lemma SetEntry(memory: map<nat, Page>, dir: nat, used: set<nat>, i: nat, k: nat, e: uint32)
    requires TablesOk(memory, dir, used) && i < ENTRIES && k < ENTRIES && Present(memory[dir][i])
    ensures var f := FrameOf(memory[dir][i]);
            && f in memory && |memory[f]| == ENTRIES
            && var now := memory[f := WithEntry(memory[f], k, e)];
               && TablesOk(now, dir, used) && now[dir] == memory[dir]
               && forall page :: 0 <= page < PAGES ==>
                    Walk(now, dir, page) == if page == i * ENTRIES + k then Decode(e) else Walk(memory, dir, page)
  {
    hide FrameOf, Present, Decode;
    var f := FrameOf(memory[dir][i]);
    assert TableOk(memory, dir, used, f);
    var now := memory[f := WithEntry(memory[f], k, e)];
    forall page | 0 <= page < PAGES
      ensures Walk(now, dir, page) == if page == i * ENTRIES + k then Decode(e) else Walk(memory, dir, page)
    {
      SetEntryWalk(memory, dir, used, i, k, e, page);
    }
  }

  lemma SetEntryWalk(memory: map<nat, Page>, dir: nat, used: set<nat>, i: nat, k: nat, e: uint32, page: nat)
    requires TablesOk(memory, dir, used) && i < ENTRIES && k < ENTRIES && Present(memory[dir][i]) && page < PAGES
    requires TableOk(memory, dir, used, FrameOf(memory[dir][i]))
    ensures var f := FrameOf(memory[dir][i]);
            var now := memory[f := WithEntry(memory[f], k, e)];
            Walk(now, dir, page) == if page == i * ENTRIES + k then Decode(e) else Walk(memory, dir, page)
  {
    hide FrameOf, Decode;
    var d := page / ENTRIES;
    assert page == d * ENTRIES + page % ENTRIES;
    if d != i && Present(memory[dir][d]) {
      assert TableOk(memory, dir, used, FrameOf(memory[dir][d]));
      assert FrameOf(memory[dir][d]) != FrameOf(memory[dir][i]);
    }
  }

  // ---------------------------------------------------------------- ranges

  /** How many pages the driver maps for a range; the sum is taken in 32 bits. */
  function PageCount(addr: uint32, size: uint32): (n: nat)
    ensures n <= PAGES
  {
    Wrap(Wrap(size + addr % PAGE_SIZE) + PAGE_SIZE - 1) / PAGE_SIZE
  }

  /** The page count that covers the range. */
  function Covering(addr: uint32, size: uint32): nat
  {
    (addr % PAGE_SIZE + size + PAGE_SIZE - 1) / PAGE_SIZE
  }

  /** The driver's count is the covering one exactly when rounding up stays within 32 bits. */
  lemma CountCovers(addr: uint32, size: uint32)
    requires size > 0
    ensures PageCount(addr, size) == Covering(addr, size) <==> addr % PAGE_SIZE + size + PAGE_SIZE - 1 < TWO_32
  {
    var sum := addr % PAGE_SIZE + size;
    if sum + PAGE_SIZE - 1 >= TWO_32 {
      assert Covering(addr, size) >= PAGES;
      assert PageCount(addr, size) < PAGES;
    } else {
      assert Wrap(sum) == sum && Wrap(sum + PAGE_SIZE - 1) == sum + PAGE_SIZE - 1;
    }
  }

  /** For instance, of the 4 GB from address 0, less 4095 bytes, no page is mapped at all. */
  lemma LargestRangeIsEmpty()
    ensures PageCount(0, 0xFFFF_F001) == 0 && Covering(0, 0xFFFF_F001) == PAGES
  {
    assert Wrap(0xFFFF_F001 + PAGE_SIZE - 1) == 0;
  }

  /** Page `k` of a range that starts at page `first`; addresses wrap. */
  function PageAt(first: nat, k: nat): (page: nat)
    ensures page < PAGES
  {
    (first + k) % PAGES
  }

  lemma PagesDistinct(first: nat, j: nat, k: nat)
    requires j < PAGES && k < PAGES && PageAt(first, j) == PageAt(first, k)
    ensures j == k
  {
    var q, r := (first + j) / PAGES, (first + k) / PAGES;
    assert first + j - (first + k) == PAGES * (q - r);
  }

  /** How many table regions the first `n` pages of a range touch. */
  function Regions(first: nat, n: nat): (r: nat)
  {
    if n == 0 then 0 else (first + n - 1) / ENTRIES - first / ENTRIES + 1
  }

  lemma RegionOfPage(first: nat, k: nat)
    ensures PageAt(first, k) / ENTRIES == (first + k) / ENTRIES % ENTRIES
  {
    var n := first + k;
    assert n == PAGES * (n / PAGES) + n % PAGES;
    assert n / ENTRIES == ENTRIES * (n / PAGES) + n % PAGES / ENTRIES;
  }

  /** From `was` to `now` exactly the pages numbered `mapped` of a range were mapped, in order. */
  ghost predicate RangeMapped(now: map<nat, Page>, was: map<nat, Page>, dir: nat, first: nat, to: nat, rw: bool,
                              mapped: set<nat>)
  {
    && (forall k :: k in mapped ==> Walk(now, dir, PageAt(first, k)) == Some(Mapping(PageAt(to, k), rw)))
    && (forall page :: 0 <= page < PAGES && (forall k :: k in mapped ==> page != PageAt(first, k)) ==>
          Walk(now, dir, page) == Walk(was, dir, page))
  }

  /** When every page of a range is mapped, each of its addresses translates to the matching one. */
  lemma RangeTranslates(now: map<nat, Page>, was: map<nat, Page>, dir: nat, addr: uint32, target: uint32,
                        size: uint32, rw: bool, x: nat)
    requires addr % PAGE_SIZE == target % PAGE_SIZE && addr + size <= TWO_32 && target + size <= TWO_32 && x < size
    requires RangeMapped(now, was, dir, addr / PAGE_SIZE, target / PAGE_SIZE, rw, Counting.Below(Covering(addr, size)))
    ensures Translate(now, dir, addr + x) == Some(target + x)
  {
    hide Walk, PageAt, Covering;
    var k := (addr % PAGE_SIZE + x) / PAGE_SIZE;
    PageWithin(addr, x);
    PageWithin(target, x);
    PageCovered(addr, size, x);
    hide RangeMapped;
    assert Walk(now, dir, PageAt(addr / PAGE_SIZE, k)) == Some(Mapping(PageAt(target / PAGE_SIZE, k), rw)) by {
      MappedPage(now, was, dir, addr / PAGE_SIZE, target / PAGE_SIZE, rw, Counting.Below(Covering(addr, size)), k);
    }
    assert target + x == (target + x) / PAGE_SIZE * PAGE_SIZE + (target + x) % PAGE_SIZE;
  }

  lemma MappedPage(now: map<nat, Page>, was: map<nat, Page>, dir: nat, first: nat, to: nat, rw: bool,
                   mapped: set<nat>, k: nat)
    requires RangeMapped(now, was, dir, first, to, rw, mapped) && k in mapped
    ensures Walk(now, dir, PageAt(first, k)) == Some(Mapping(PageAt(to, k), rw))
  {
    hide Walk, PageAt;
  }

  lemma PageCovered(addr: uint32, size: uint32, x: nat)
    requires x < size
    ensures (addr % PAGE_SIZE + x) / PAGE_SIZE in Counting.Below(Covering(addr, size))
  {
  }

  lemma PageWithin(addr: uint32, x: nat)
    requires addr + x < TWO_32
    ensures var k := (addr % PAGE_SIZE + x) / PAGE_SIZE;
            && PageAt(addr / PAGE_SIZE, k) == (addr + x) / PAGE_SIZE
            && (addr + x) % PAGE_SIZE == (addr % PAGE_SIZE + x) % PAGE_SIZE
  {
    var o := addr % PAGE_SIZE + x;
    assert addr + x == addr / PAGE_SIZE * PAGE_SIZE + o;
    assert o == o / PAGE_SIZE * PAGE_SIZE + o % PAGE_SIZE;
  }

  lemma NothingMapped(memory: map<nat, Page>, dir: nat, first: nat, to: nat, rw: bool)
    ensures RangeMapped(memory, memory, dir, first, to, rw, {})
  {
  }

  lemma RangeStep(next: map<nat, Page>, now: map<nat, Page>, was: map<nat, Page>, dir: nat, first: nat, to: nat,
                  rw: bool,
                  mapped: set<nat>, k: nat, ok: bool)
    requires RangeMapped(now, was, dir, first, to, rw, mapped) && k < PAGES && forall j :: j in mapped ==> j < k
    requires forall page :: 0 <= page < PAGES ==>
               Walk(next, dir, page)
               == if ok && page == PageAt(first, k) then Some(Mapping(PageAt(to, k), rw)) else Walk(now, dir, page)
    ensures RangeMapped(next, was, dir, first, to, rw, if ok then mapped + {k} else mapped)
  {
    hide Walk, PageAt;
    forall j | j in mapped
      ensures PageAt(first, j) != PageAt(first, k)
    {
      if PageAt(first, j) == PageAt(first, k) {
        PagesDistinct(first, j, k);
      }
    }
    assert k in mapped + {k};
  }

  // ---------------------------------------------------------------- the driver

  class PageTables {
    const frames: FrameAllocator
    var memory: map<nat, Page>
    var dir: nat

    ghost predicate Valid()
      reads this, frames, frames.bitmap
    {
      frames.Valid() && TablesOk(memory, dir, frames.Used())
    }

    predicate HasTable(i: nat)
      reads this
    {
      Present(Slot(memory, dir, i))
    }

    constructor (frames: FrameAllocator)
      ensures this.frames == frames
    {
      this.frames := frames;
      memory, dir := map[], 0;
    }

    ghost function FreeCount(): nat
      reads frames, frames.bitmap
    {
      |Counting.Below(frames.total) - frames.Used()|
    }

    /** Take a frame and clear it. */
    method NewPage() returns (f: nat)
      requires frames.Valid()
      modifies this`memory, frames`usedFrames, frames.bitmap
      ensures frames.Valid()
      ensures f < PAGES && (f == 0 <==> old(FreeCount()) == 0)
      ensures f == 0 ==> frames.Used() == old(frames.Used()) && memory == old(memory)
      ensures f != 0 ==>
                && f !in old(frames.Used()) && frames.Used() == old(frames.Used()) + {f}
                && FreeCount() == old(FreeCount()) - 1
                && memory == old(memory)[f := Zeroed()]
    {
      hide UsedSet;
      ghost var free, used := Counting.Below(frames.total) - frames.Used(), frames.Used();
      var addr := frames.Allocate();
      f := addr / PAGE_SIZE;
      if f == 0 {
        NoneFree(used, frames.total);
      } else {
        assert f in free && Counting.Below(frames.total) - frames.Used() == free - {f};
        memory := memory[f := Zeroed()];
      }
    }

    lemma NoneFree(used: set<nat>, total: nat)
      requires forall g :: 0 <= g < total ==> g in used
      ensures Counting.Below(total) - used == {}
    {
    }

    /** The kernel's tables: the first 32 MiB mapped to themselves. Running out of frames here is not
        checked for. */
    method Init()
      requires frames.Valid() && FreeCount() > IDENTITY_TABLES
      modifies this, frames`usedFrames, frames.bitmap
      ensures Valid()
      ensures forall page :: 0 <= page < PAGES ==>
                Walk(memory, dir, page) == if page < IDENTITY_TABLES * ENTRIES then Some(Mapping(page, true)) else None
    {
      hide Walk, UsedSet, PageTables.FreeCount, Entry, Present, FrameOf, Slot, FrameAllocator.Valid, TablesOk;
      dir := NewPage();
      EmptyDirectory(memory, dir, frames.Used());
      var t := 0;
      while t < IDENTITY_TABLES
        invariant t <= IDENTITY_TABLES && Valid() && FreeCount() >= IDENTITY_TABLES - t
        invariant forall i :: t <= i < ENTRIES ==> !HasTable(i)
        invariant forall page :: 0 <= page < PAGES ==>
                    Walk(memory, dir, page) == if page < t * ENTRIES then Some(Mapping(page, true)) else None
      {
        AddIdentityTable(t);
        t := t + 1;
      }
    }

    /** One table of the identity mapping. */
    method AddIdentityTable(t: nat)
      requires Valid() && t < IDENTITY_TABLES && FreeCount() > 0 && !HasTable(t)
      modifies this`memory, frames`usedFrames, frames.bitmap
      ensures Valid() && dir == old(dir) && FreeCount() == old(FreeCount()) - 1
      ensures forall i :: 0 <= i < ENTRIES && i != t ==> HasTable(i) == old(HasTable(i))
      ensures forall page :: 0 <= page < PAGES ==>
                Walk(memory, dir, page) == if page / ENTRIES == t then Some(Mapping(page, true))
                  else old(Walk(memory, dir, page))
    {
      hide Walk, UsedSet, PageTables.FreeCount, Entry, Present, FrameOf, Slot, FrameAllocator.Valid, TablesOk,
        Decode, Zeroed;
      ghost var before, used := memory, frames.Used();
      DirectoryThere();
      SlotHere(memory, dir);
      var f := NewPage();
      FrameIsUsed(before, dir, used);
      NewEntry(f);
      var table := IdentityTable(t);
      IdentityPages(t, table);
      AddFullTable(before, dir, used, t, f, table, Entry(f * PAGE_SIZE, true));
      memory := memory[f := table];
      ghost var filled: map<nat, Page> := before[f := table];
      assert memory == filled;
      memory := memory[dir := WithEntry(memory[dir], t, Entry(f * PAGE_SIZE, true))];
      SlotHere(memory, dir);
    }

    /** The inner loop: entry after entry of one table. */
    method IdentityTable(t: nat) returns (p: Page)
      requires t < IDENTITY_TABLES
      ensures |p| == ENTRIES && forall i :: 0 <= i < ENTRIES ==> Decode(p[i]) == Some(Mapping(t * ENTRIES + i, true))
    {
      hide Entry, Decode;
      p := Zeroed();
      var i := 0;
      while i < ENTRIES
        invariant i <= ENTRIES && |p| == ENTRIES
        invariant forall j :: 0 <= j < i ==> Decode(p[j]) == Some(Mapping(t * ENTRIES + j, true))
      {
        DecodeEntry(t * 0x40_0000 + i * 0x1000, true);
        p := WithEntry(p, i, Entry(t * 0x40_0000 + i * 0x1000, true));
        i := i + 1;
      }
    }

    lemma IdentityPages(t: nat, p: Page)
      requires |p| == ENTRIES && forall i :: 0 <= i < ENTRIES ==> Decode(p[i]) == Some(Mapping(t * ENTRIES + i, true))
      ensures forall page :: 0 <= page < PAGES && page / ENTRIES == t ==>
                Decode(p[page % ENTRIES]) == Some(Mapping(page, true))
    {
      hide Decode;
      forall page | 0 <= page < PAGES && page / ENTRIES == t
        ensures Decode(p[page % ENTRIES]) == Some(Mapping(page, true))
      {
        assert page == t * ENTRIES + page % ENTRIES;
      }
    }

    lemma EmptyDirectory(m: map<nat, Page>, d: nat, used: set<nat>)
      requires d in m && m[d] == Zeroed() && d in used
      ensures TablesOk(m, d, used) && (forall i :: !Present(Slot(m, d, i))) && forall page :: Walk(m, d, page) == None
    {
    }

    /** Map one page, behind a new table if its region has none yet. */
    method MapPage(addr: uint32, target: uint32, rw: bool) returns (ok: bool)
      requires Valid()
      modifies this`memory, frames`usedFrames, frames.bitmap
      ensures Valid() && dir == old(dir)
      ensures ok <==> old(HasTable(addr / PAGE_SIZE / ENTRIES)) || old(FreeCount()) > 0
      ensures forall page :: 0 <= page < PAGES ==>
                Walk(memory, dir, page)
                == if ok && page == addr / PAGE_SIZE then Some(Mapping(target / PAGE_SIZE, rw))
                  else old(Walk(memory, dir, page))
      ensures ok ==> HasTable(addr / PAGE_SIZE / ENTRIES)
      ensures forall i :: 0 <= i < ENTRIES && old(HasTable(i)) ==> HasTable(i)
      ensures FreeCount() >= old(FreeCount()) - (if old(HasTable(addr / PAGE_SIZE / ENTRIES)) then 0 else 1)
    {
      hide TablesOk, Walk, Present, FrameOf, Decode, UsedSet, Slot;
      var i, k := addr / PAGE_SIZE / ENTRIES, addr / PAGE_SIZE % ENTRIES;
      ok := EnsureTable(i);
      if !ok {
        return;
      }
      TableThere(i);
      SetEntry(memory, dir, frames.Used(), i, k, Entry(target, rw));
      DecodeEntry(target, rw);
      ghost var before := memory;
      var table := FrameOf(memory[dir][i]);
      memory := memory[table := WithEntry(memory[table], k, Entry(target, rw))];
      SameDirectory(before, memory, dir);
    }

    /** Map page after page. Where no table can be had the page keeps its old translation. */
    method MapRange(addr: uint32, target: uint32, size: uint32, rw: bool) returns (ghost mapped: set<nat>)
      requires Valid()
      modifies this`memory, frames`usedFrames, frames.bitmap
      ensures Valid() && dir == old(dir)
      ensures size == 0 || addr % PAGE_SIZE != target % PAGE_SIZE ==> mapped == {}
      ensures forall k :: k in mapped ==> k < PageCount(addr, size)
      ensures RangeMapped(memory, old(memory), dir, addr / PAGE_SIZE, target / PAGE_SIZE, rw, mapped)
      ensures size > 0 && addr % PAGE_SIZE == target % PAGE_SIZE
              && old(FreeCount()) >= Regions(addr / PAGE_SIZE, PageCount(addr, size)) ==>
                mapped == Counting.Below(PageCount(addr, size))
    {
      hide TablesOk, Walk, Present, FrameOf, UsedSet, Slot, PageTables.FreeCount, FrameAllocator.Valid, PageAt,
        Regions, RangeMapped, OnTrack;
      mapped := {};
      NothingMapped(memory, dir, addr / PAGE_SIZE, target / PAGE_SIZE, rw);
      if size == 0 {
        return;
      }
      if addr % PAGE_SIZE != target % PAGE_SIZE {
        return;
      }
      ghost var first, to := addr / PAGE_SIZE, target / PAGE_SIZE;
      var count := Wrap(Wrap(size + addr % PAGE_SIZE) + PAGE_SIZE - 1) / PAGE_SIZE;
      ghost var free, plenty := FreeCount(), FreeCount() >= Regions(first, count);
      var k := 0;
      TrackStarts(first);
      while k < count
        invariant k <= count <= PAGES && Valid() && dir == old(dir)
        invariant forall j :: j in mapped ==> j < k
        invariant RangeMapped(memory, old(memory), dir, first, to, rw, mapped)
        invariant plenty ==> OnTrack(mapped, k, free, first)
      {
        RegionStep(first, k, count);
        var ok := MapNext(addr, target, rw, k, old(memory), mapped, free);
        if ok {
          mapped := mapped + {k};
        }
        k := k + 1;
      }
      if plenty {
        TrackEnds(mapped, k, free, first);
      }
    }

    /** Every page so far was mapped, with one new table at most for every region touched. */
    ghost predicate OnTrack(mapped: set<nat>, k: nat, free: nat, first: nat)
      reads this, frames, frames.bitmap
    {
      && mapped == Counting.Below(k) && FreeCount() >= free - Regions(first, k)
      && (k > 0 ==> HasTable(PageAt(first, k - 1) / ENTRIES))
    }

    lemma TrackStarts(first: nat)
      ensures OnTrack({}, 0, FreeCount(), first)
    {
      hide PageTables.FreeCount;
    }

    lemma TrackEnds(mapped: set<nat>, k: nat, free: nat, first: nat)
      requires OnTrack(mapped, k, free, first)
      ensures mapped == Counting.Below(k)
    {
    }

    /** One round of the loop. */
    method MapNext(addr: uint32, target: uint32, rw: bool, k: nat, ghost was: map<nat, Page>, ghost mapped: set<nat>,
                   ghost free: nat)
      returns (ok: bool)
      requires Valid() && k < PAGES && forall j :: j in mapped ==> j < k
      requires RangeMapped(memory, was, dir, addr / PAGE_SIZE, target / PAGE_SIZE, rw, mapped)
      modifies this`memory, frames`usedFrames, frames.bitmap
      ensures Valid() && dir == old(dir)
      ensures RangeMapped(memory, was, dir, addr / PAGE_SIZE, target / PAGE_SIZE, rw,
                          if ok then mapped + {k} else mapped)
      ensures var first := addr / PAGE_SIZE;
              old(OnTrack(mapped, k, free, first)) && free >= Regions(first, k + 1) ==>
                ok && OnTrack(mapped + {k}, k + 1, free, first)
    {
      hide TablesOk, Walk, Present, FrameOf, UsedSet, Slot, PageTables.FreeCount, FrameAllocator.Valid,
        RangeMapped, Regions, PageAt;
      RegionStep(addr / PAGE_SIZE, k, k + 1);
      assert Counting.Below(k) + {k} == Counting.Below(k + 1);
      ghost var before := memory;
      PageAddress(addr / PAGE_SIZE, addr, k);
      PageAddress(target / PAGE_SIZE, target, k);
      ok := MapPage(Wrap(addr / PAGE_SIZE * PAGE_SIZE + k * PAGE_SIZE),
        Wrap(target / PAGE_SIZE * PAGE_SIZE + k * PAGE_SIZE), rw);
      RangeStep(memory, before, was, dir, addr / PAGE_SIZE, target / PAGE_SIZE, rw, mapped, k, ok);
    }

    lemma RegionStep(first: nat, k: nat, count: nat)
      requires k < count
      ensures Regions(first, k + 1) <= Regions(first, count)
      ensures k > 0 && PageAt(first, k) / ENTRIES == PageAt(first, k - 1) / ENTRIES ==>
                Regions(first, k + 1) >= Regions(first, k)
      ensures k == 0 || PageAt(first, k) / ENTRIES != PageAt(first, k - 1) / ENTRIES ==>
                Regions(first, k + 1) == Regions(first, k) + 1
    {
      RegionOfPage(first, k);
      if k > 0 {
        RegionOfPage(first, k - 1);
      }
    }

    lemma PageAddress(first: nat, addr: uint32, k: nat)
      requires first == addr / PAGE_SIZE
      ensures Wrap(addr / PAGE_SIZE * PAGE_SIZE + k * PAGE_SIZE) / PAGE_SIZE == PageAt(first, k)
    {
      var n := first + k;
      assert n == PAGES * (n / PAGES) + n % PAGES;
      assert n * PAGE_SIZE == TWO_32 * (n / PAGES) + n % PAGES * PAGE_SIZE;
    }

    lemma SameDirectory(was: map<nat, Page>, now: map<nat, Page>, d: nat)
      requires d in was && d in now && was[d] == now[d]
      ensures forall i :: Slot(now, d, i) == Slot(was, d, i)
    {
    }

    lemma TableThere(i: nat)
      requires Valid() && i < ENTRIES && HasTable(i)
      ensures dir in memory && i < |memory[dir]| == ENTRIES && Present(memory[dir][i])
    {
    }

    lemma DecodeEntry(target: uint32, rw: bool)
      ensures Decode(Entry(target, rw)) == Some(Mapping(target / PAGE_SIZE, rw))
    {
    }

    /** The directory entry of a region, pointing to a fresh table if it was absent. */
    method EnsureTable(i: nat) returns (ok: bool)
      requires Valid() && i < ENTRIES
      modifies this`memory, frames`usedFrames, frames.bitmap
      ensures Valid() && dir == old(dir)
      ensures ok <==> old(HasTable(i)) || old(FreeCount()) > 0
      ensures ok ==> HasTable(i)
      ensures forall page :: 0 <= page < PAGES ==> Walk(memory, dir, page) == old(Walk(memory, dir, page))
      ensures forall j :: 0 <= j < ENTRIES && old(HasTable(j)) ==> HasTable(j)
      ensures FreeCount() >= old(FreeCount()) - (if old(HasTable(i)) then 0 else 1)
    {
      hide TablesOk, Walk, Present, FrameOf, UsedSet, Slot, PageTables.FreeCount, Entry;
      DirectoryThere();
      SlotHere(memory, dir);
      if Present(memory[dir][i]) {
        return true;
      }
      ghost var before, used := memory, frames.Used();
      var f := NewPage();
      if f == 0 {
        return false;
      }
      NewEntry(f);
      AddTable(before, dir, used, i, f, Entry(f * PAGE_SIZE, true));
      FrameIsUsed(before, dir, used);
      memory := memory[dir := WithEntry(memory[dir], i, Entry(f * PAGE_SIZE, true))];
      SlotHere(memory, dir);
      ok := true;
    }

    lemma SlotHere(m: map<nat, Page>, d: nat)
      requires d in m
      ensures forall i :: 0 <= i < |m[d]| ==> Slot(m, d, i) == m[d][i]
    {
    }

    lemma DirectoryThere()
      requires Valid()
      ensures dir in memory && |memory[dir]| == ENTRIES
    {
    }

    lemma FrameIsUsed(m: map<nat, Page>, d: nat, used: set<nat>)
      requires TablesOk(m, d, used)
      ensures d in used && d in m && |m[d]| == ENTRIES
    {
    }

    lemma NewEntry(f: nat)
      requires f < 0x10_0000
      ensures f * PAGE_SIZE < TWO_32
      ensures Present(Entry(f * PAGE_SIZE, true)) && FrameOf(Entry(f * PAGE_SIZE, true)) == f
    {
    }
  }
}
