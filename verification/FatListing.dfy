/** A directory as a sequence of slots: what the iterator reports for it, and what inserting and
    deleting entries does to that report. */
module FatListing {
  import opened Machine
  import opened FatSlot
  import opened FatLongName
  import opened FatShortName

  /** One reported entry: its slot number, the slot, and the name under which it is shown. */
  datatype Item = Item(at: nat, entry: Slot, name: seq<byte>)

  datatype Scan = Scan(items: seq<Item>, gathered: Gathered, ended: bool)

  predicate ScanOk(sc: Scan) { sc.gathered.Pieces? ==> |sc.gathered.text| == BUFFER }

  function ItemOf(g: Gathered, s: Slot, at: nat): (it: Item)
    requires TextOk(g)
  {
    var long := LongNameFor(g, ShortName(s));
    Item(at, s, if long.Some? then long.value else CString(Spelled(ShortName(s))))
  }

  /** The iterator's treatment of one slot. */
  function Visit(sc: Scan, s: Slot, at: nat): (r: Scan)
    requires ScanOk(sc)
    ensures ScanOk(r)
  {
    if sc.ended then sc
    else if s[0] == MARK_END then sc.(ended := true)
    else if s[0] == MARK_DELETED then sc.(gathered := Nothing)
    else if IsLong(s) then sc.(gathered := Gather(sc.gathered, s, true))
    else if IsVolume(s) then sc.(gathered := Nothing)
    else Scan(sc.items + [ItemOf(sc.gathered, s, at)], Nothing, false)
  }

  function ScanFrom(sc: Scan, slots: seq<Slot>, at: nat): (r: Scan)
    requires ScanOk(sc)
    ensures ScanOk(r)
  {
    if slots == [] then sc
    else Visit(ScanFrom(sc, slots[..|slots| - 1], at), slots[|slots| - 1], at + |slots| - 1)
  }

  const START := Scan([], Nothing, false)

  /** Everything the iterator reports for a directory. */
  function Listing(slots: seq<Slot>): seq<Item>
  {
    ScanFrom(START, slots, 0).items
  }

  /** No end marker stands in front of a live slot. */
  ghost predicate EndIsLast(slots: seq<Slot>)
  {
    forall i, j :: 0 <= i < j < |slots| && slots[i][0] == MARK_END ==> IsFree(slots[j])
  }

  ghost predicate DirectoryOk(slots: seq<Slot>)
  {
    EndIsLast(slots)
  }

  ghost predicate AllFree(slots: seq<Slot>)
  {
    forall i :: 0 <= i < |slots| ==> IsFree(slots[i])
  }

  // ---------------------------------------------------------------- scanning in parts

  lemma {:induction false} ScanJoin(sc: Scan, a: seq<Slot>, b: seq<Slot>, at: nat)
    requires ScanOk(sc)
    ensures ScanFrom(sc, a + b, at) == ScanFrom(ScanFrom(sc, a, at), b, at + |a|)
    decreases |b|
  {
    hide Visit;
    if b == [] {
      assert a + b == a;
    } else {
      var n := |b| - 1;
      ScanJoin(sc, a, b[..n], at);
      assert (a + b)[..|a + b| - 1] == a + b[..n];
      assert (a + b)[|a + b| - 1] == b[n];
    }
  }

  /** Earlier items do not influence later ones. */
  lemma {:induction false} ScanItems(sc: Scan, slots: seq<Slot>, at: nat)
    requires ScanOk(sc)
    ensures var r := ScanFrom(sc.(items := []), slots, at);
            ScanFrom(sc, slots, at) == r.(items := sc.items + r.items)
    decreases |slots|
  {
    hide Visit;
    if slots != [] {
      var n := |slots| - 1;
      ScanItems(sc, slots[..n], at);
      VisitItems(ScanFrom(sc.(items := []), slots[..n], at), sc.items, slots[n], at + n);
    }
  }

  lemma VisitItems(sc: Scan, before: seq<Item>, s: Slot, at: nat)
    requires ScanOk(sc)
    ensures var r := Visit(sc, s, at);
            Visit(sc.(items := before + sc.items), s, at) == r.(items := before + r.items)
  {
    hide Gather, ItemOf, IsLong, IsVolume;
  }

  lemma {:induction false} ScanEnded(sc: Scan, slots: seq<Slot>, at: nat)
    requires ScanOk(sc) && sc.ended
    ensures ScanFrom(sc, slots, at) == sc
    decreases |slots|
  {
    if slots != [] {
      ScanEnded(sc, slots[..|slots| - 1], at);
    }
  }

  /** Free slots report nothing and forget what was gathered, or end the scan. */
  lemma {:induction false} ScanFree(sc: Scan, slots: seq<Slot>, at: nat)
    requires ScanOk(sc) && AllFree(slots)
    ensures var r := ScanFrom(sc, slots, at);
            && r.items == sc.items
            && (r.ended <==> sc.ended || exists i :: 0 <= i < |slots| && slots[i][0] == MARK_END)
            && (!r.ended && slots != [] ==> r.gathered == Nothing)
            && (!r.ended && slots == [] ==> r.gathered == sc.gathered)
    decreases |slots|
  {
    hide Gather, ItemOf;
    if slots != [] {
      var n := |slots| - 1;
      ScanFree(sc, slots[..n], at);
    }
  }

  /** In front of a live slot nothing has ended, and behind a slot that is no long entry nothing is
      gathered. */
  lemma {:induction false} ScanSettled(slots: seq<Slot>, n: nat)
    requires n <= |slots|
    requires forall i :: 0 <= i < n ==> slots[i][0] != MARK_END
    ensures !ScanFrom(START, slots[..n], 0).ended
    ensures n == 0 || !IsLong(slots[n - 1]) ==> ScanFrom(START, slots[..n], 0).gathered == Nothing
    decreases n
  {
    hide Gather, ItemOf;
    if n > 0 {
      assert slots[..n][..n - 1] == slots[..n - 1];
      ScanSettled(slots, n - 1);
      assert ScanFrom(START, slots[..n], 0) == Visit(ScanFrom(START, slots[..n - 1], 0), slots[n - 1], n - 1);
    }
  }

  // ---------------------------------------------------------------- new entries

  /** Long entries only gather. */
  lemma {:induction false} ScanLong(sc: Scan, slots: seq<Slot>, at: nat)
    requires ScanOk(sc) && !sc.ended && forall i :: 0 <= i < |slots| ==> IsLong(slots[i])
    ensures ScanFrom(sc, slots, at) == sc.(gathered := GatherAll(sc.gathered, slots, true))
    decreases |slots|
  {
    hide Gather, ItemOf, IsVolume;
    if slots != [] {
      var n := |slots| - 1;
      ScanLong(sc, slots[..n], at);
      assert IsLong(slots[n]);
    }
  }

  /** The slots written for a name: its long entries if it needs them, then the short entry. */
  function EntriesFor(name: seq<byte>, long: bool, s: Slot): (r: seq<Slot>)
    requires IsName(name)
    ensures |r| == (if long then EntryCount(name) else 0) + 1 && r[|r| - 1] == s
  {
    (if long then LongEntries(name, ChecksumOf(ShortName(s))) else []) + [s]
  }

  /** What stands in front of a new entry is its long entries, none of which is an end marker. */
  lemma EntriesAreLong(name: seq<byte>, long: bool, s: Slot)
    requires IsName(name) && s[0] != MARK_END
    ensures var r := EntriesFor(name, long, s);
            && r != [] && r[|r| - 1] == s
            && (forall i :: 0 <= i < |r| - 1 ==> IsLong(r[i]))
            && forall i :: 0 <= i < |r| ==> r[i][0] != MARK_END
  {
    hide EntryOf;
    var r := EntriesFor(name, long, s);
    forall i | 0 <= i < |r| - 1
      ensures IsLong(r[i])
    {
      assert r[i] == EntryOf(name, ChecksumOf(ShortName(s)), i);
    }
  }

  /** How a new entry is shown when `g` has been gathered in front of it: its long entries begin afresh, but
      without them it takes over whatever long name was left behind there for an equal checksum. */
  function NameBehind(g: Gathered, name: seq<byte>, long: bool, s: Slot): seq<byte>
    requires IsName(name) && TextOk(g)
  {
    if long then Shown(name) else ItemOf(g, s, 0).name
  }

  /** Scanned from any state, new entries report exactly one item, or none if they are deleted on arrival. */
  lemma ScanEntries(sc: Scan, name: seq<byte>, long: bool, s: Slot, at: nat)
    requires ScanOk(sc) && !sc.ended && IsName(name) && (IsShort(s) || s[0] == MARK_DELETED)
    ensures var r := EntriesFor(name, long, s);
            ScanFrom(sc, r, at)
            == Scan(sc.items
                    + if IsShort(s) then [Item(at + |r| - 1, s, NameBehind(sc.gathered, name, long, s))] else [],
                    Nothing, false)
  {
    hide LongEntries, GatherAll, EntryOf, Gather, LongNameFor, Shown, Spelled;
    var checksum := ChecksumOf(ShortName(s));
    var r := EntriesFor(name, long, s);
    var n := |r| - 1;
    EntriesAreLong(name, long, s);
    ScanLong(sc, r[..n], at);
    if long {
      assert r[..n] == LongEntries(name, checksum);
      DriverRoundTrip(name, ShortName(s), sc.gathered);
    } else {
      assert r[..n] == [];
      GatherNothing(sc.gathered);
    }
  }

  lemma GatherNothing(g: Gathered)
    requires TextOk(g)
    ensures GatherAll(g, [], true) == g
  {
  }

  // ---------------------------------------------------------------- inserting

  /** `count` free slots from `a` on, at the very front or right behind a live slot. */
  ghost predicate FreeRun(slots: seq<Slot>, a: nat, count: nat)
  {
    && a + count <= |slots|
    && AllFree(slots[a..a + count])
    && (a > 0 ==> IsLive(slots[a - 1]))
  }

  function Replaced(slots: seq<Slot>, a: nat, added: seq<Slot>): (r: seq<Slot>)
    requires a + |added| <= |slots|
    ensures |r| == |slots|
    ensures forall i :: 0 <= i < |r| ==> r[i] == if a <= i < a + |added| then added[i - a] else slots[i]
  {
    slots[..a] + added + slots[a + |added|..]
  }

  lemma FrontHasNoEnd(slots: seq<Slot>, a: nat, count: nat)
    requires EndIsLast(slots) && FreeRun(slots, a, count)
    ensures forall i :: 0 <= i < a ==> slots[i][0] != MARK_END
  {
    assert a > 0 ==> IsLive(slots[a - 1]);
  }

  lemma FrontIsOpen(slots: seq<Slot>, a: nat, count: nat)
    requires DirectoryOk(slots) && FreeRun(slots, a, count)
    ensures !ScanFrom(START, slots[..a], 0).ended
    ensures a == 0 || !IsLong(slots[a - 1]) ==> ScanFrom(START, slots[..a], 0).gathered == Nothing
  {
    FrontHasNoEnd(slots, a, count);
    ScanSettled(slots, a);
  }

  /** What the iterator has gathered in front of slot `a`. */
  ghost function GatheredAt(slots: seq<Slot>, a: nat): (g: Gathered)
    requires a <= |slots|
    ensures TextOk(g)
  {
    ScanFrom(START, slots[..a], 0).gathered
  }

  /** Creating an entry in a first-fit run inserts exactly one item into the listing: the items in
      front of the run, the new one, the items behind it. If the entry is deleted on arrival it
      inserts none. */
  lemma InsertOne(slots: seq<Slot>, a: nat, name: seq<byte>, long: bool, s: Slot)
    requires IsName(name) && (IsShort(s) || s[0] == MARK_DELETED) && DirectoryOk(slots)
    requires FreeRun(slots, a, |EntriesFor(name, long, s)|)
    ensures var added := EntriesFor(name, long, s);
            var before := Listing(slots[..a]);
            var after := ScanFrom(START, slots[a + |added|..], a + |added|).items;
            var it := Item(a + |added| - 1, s, NameBehind(GatheredAt(slots, a), name, long, s));
            && Listing(slots) == before + after
            && Listing(Replaced(slots, a, added)) == before + (if IsShort(s) then [it] else []) + after
  {
    hide EntriesFor, NameBehind, ScanFrom, DirectoryOk, AllFree, IsShort, IsName, FreeRun, Replaced;
    var added := EntriesFor(name, long, s);
    FreeRunFits(slots, a, |added|);
    FrontIsOpen(slots, a, |added|);
    WithoutEntries(slots, a, |added|);
    WithEntries(slots, a, name, long, s);
  }

  lemma FreeRunFits(slots: seq<Slot>, a: nat, count: nat)
    requires FreeRun(slots, a, count)
    ensures a + count <= |slots|
  {
  }

  lemma WithoutEntries(slots: seq<Slot>, a: nat, count: nat)
    requires DirectoryOk(slots) && FreeRun(slots, a, count) && count > 0
    ensures a + count <= |slots|
    ensures Listing(slots) == Listing(slots[..a]) + ScanFrom(START, slots[a + count..], a + count).items
  {
    hide ScanFrom, DirectoryOk, AllFree, IsLive;
    var front, run, back := slots[..a], slots[a..a + count], slots[a + count..];
    FrontIsOpen(slots, a, count);
    RunThenBack(slots, ScanFrom(START, front, 0), a, count);
    assert slots == front + (run + back);
    ScanJoin(START, front, run + back, 0);
  }

  lemma WithEntries(slots: seq<Slot>, a: nat, name: seq<byte>, long: bool, s: Slot)
    requires IsName(name) && (IsShort(s) || s[0] == MARK_DELETED) && a + |EntriesFor(name, long, s)| <= |slots|
    requires !ScanFrom(START, slots[..a], 0).ended
    ensures var added := EntriesFor(name, long, s);
            var it := Item(a + |added| - 1, s, NameBehind(GatheredAt(slots, a), name, long, s));
            Listing(Replaced(slots, a, added))
            == Listing(slots[..a]) + (if IsShort(s) then [it] else [])
               + ScanFrom(START, slots[a + |added|..], a + |added|).items
  {
    hide EntriesFor, NameBehind, ScanFrom, IsShort, IsName;
    var added := EntriesFor(name, long, s);
    var front, back := slots[..a], slots[a + |added|..];
    var sc := ScanFrom(START, front, 0);
    ScanEntries(sc, name, long, s, a);
    assert Replaced(slots, a, added) == front + (added + back);
    ScanJoin(START, front, added + back, 0);
    ScanJoin(sc, added, back, a);
    ScanItems(ScanFrom(sc, added, a), back, a + |added|);
  }

  /** Over the free run the scan reports nothing; if it ends there, nothing behind it is live. */
  lemma RunThenBack(slots: seq<Slot>, sc: Scan, a: nat, count: nat)
    requires DirectoryOk(slots) && FreeRun(slots, a, count) && count > 0
    requires ScanOk(sc) && !sc.ended
    ensures var run, back := slots[a..a + count], slots[a + count..];
            ScanFrom(sc, run + back, a).items == sc.items + ScanFrom(START, back, a + count).items
  {
    hide ScanFrom;
    var run, back := slots[a..a + count], slots[a + count..];
    ScanJoin(sc, run, back, a);
    ScanFree(sc, run, a);
    var sc' := ScanFrom(sc, run, a);
    if sc'.ended {
      var i :| 0 <= i < count && run[i][0] == MARK_END;
      assert AllFree(back) by {
        forall j | 0 <= j < |back|
          ensures IsFree(back[j])
        {
          assert slots[a + i][0] == MARK_END && back[j] == slots[a + count + j];
        }
      }
      ScanEnded(sc', back, a + count);
      ScanFree(START, back, a + count);
    } else {
      ScanItems(sc', back, a + count);
    }
  }

  /** Long entries whose short one was deleted on arrival stay behind: a plain entry that is made in its place
      with an equal checksum is shown by the other's name. */
  lemma OrphanTakesOver(name: seq<byte>, s: Slot, s': Slot)
    requires IsName(name) && s[0] == MARK_DELETED && IsShort(s')
    requires ChecksumOf(ShortName(s')) == ChecksumOf(ShortName(s))
    ensures var was := EntriesFor(name, true, s);
            && DirectoryOk(was) && Listing(was) == [] && FreeRun(was, |was| - 1, 1)
            && Listing(Replaced(was, |was| - 1, [s'])) == [Item(|was| - 1, s', Shown(name))]
  {
    hide LongEntries, GatherAll, EntryOf, Gather, LongNameFor, Shown, Spelled, IsLong, IsVolume;
    var was, now := EntriesFor(name, true, s), EntriesFor(name, true, s');
    EntriesAreLong(name, true, s);
    ScanEntries(START, name, true, s, 0);
    ScanEntries(START, name, true, s', 0);
    assert Replaced(was, |was| - 1, [s']) == now;
    LongIsLive(was, |was| - 1);
    assert forall i :: 0 <= i < |was| ==> was[i][0] != MARK_END;
    assert was[|was| - 1..] == [s];
  }

  lemma LongIsLive(slots: seq<Slot>, n: nat)
    requires n <= |slots| && forall i :: 0 <= i < n ==> IsLong(slots[i])
    ensures n > 0 ==> IsLive(slots[n - 1])
  {
  }

  lemma InsertKeepsOk(slots: seq<Slot>, a: nat, name: seq<byte>, long: bool, s: Slot)
    requires IsName(name) && s[0] != MARK_END && DirectoryOk(slots)
    requires FreeRun(slots, a, |EntriesFor(name, long, s)|)
    ensures DirectoryOk(Replaced(slots, a, EntriesFor(name, long, s)))
  {
    hide EntriesFor, IsLong, IsLive, IsShort, AllFree, Replaced;
    EntriesAreLong(name, long, s);
    var added := EntriesFor(name, long, s);
    var r := Replaced(slots, a, added);
    forall i, j | 0 <= i < j < |r| && r[i][0] == MARK_END
      ensures IsFree(r[j])
    {
      InsertEnds(slots, a, added, i, j);
    }
  }

  lemma InsertEnds(slots: seq<Slot>, a: nat, added: seq<Slot>, i: nat, j: nat)
    requires EndIsLast(slots) && FreeRun(slots, a, |added|) && added != []
    requires forall k :: 0 <= k < |added| ==> added[k][0] != MARK_END
    requires i < j < |slots| && Replaced(slots, a, added)[i][0] == MARK_END
    ensures IsFree(Replaced(slots, a, added)[j])
  {
    FrontHasNoEnd(slots, a, |added|);
    assert i >= a + |added|;
  }

  // ---------------------------------------------------------------- growing

  /** A cluster of zeros behind the directory changes nothing that is reported. */
  lemma GrowKeeps(slots: seq<Slot>, zeros: seq<Slot>)
    requires DirectoryOk(slots) && forall i :: 0 <= i < |zeros| ==> zeros[i][0] == MARK_END
    ensures DirectoryOk(slots + zeros) && Listing(slots + zeros) == Listing(slots)
  {
    hide ScanFrom;
    ScanJoin(START, slots, zeros, 0);
    ScanFree(ScanFrom(START, slots, 0), zeros, |slots|);
  }

  // ---------------------------------------------------------------- deleting

  /** Entry `e` with the long entries directly in front of it, which start at `l`. */
  ghost predicate NameRun(slots: seq<Slot>, l: nat, e: nat)
  {
    && l <= e < |slots|
    && (forall i :: l <= i < e ==> IsLong(slots[i]))
    && (l == 0 || !IsLong(slots[l - 1]))
  }

  function WithDeleted(slots: seq<Slot>, l: nat, e: nat): (r: seq<Slot>)
    requires l <= e < |slots|
    ensures |r| == |slots|
    ensures forall i :: 0 <= i < |r| ==> r[i] == if l <= i <= e then Deleted(slots[i]) else slots[i]
  {
    seq<Slot>(|slots|, i requires 0 <= i < |slots| => if l <= i <= e then Deleted(slots[i]) else slots[i])
  }

  /** Deleting an entry and its long entries removes exactly that item from the listing. */
  lemma DeleteOne(slots: seq<Slot>, l: nat, e: nat)
    requires NameRun(slots, l, e) && IsShort(slots[e])
    requires forall i :: 0 <= i < e ==> slots[i][0] != MARK_END
    ensures var before := Listing(slots[..l]);
            var after := ScanFrom(START, slots[e + 1..], e + 1).items;
            && (exists name :: Listing(slots) == before + [Item(e, slots[e], name)] + after)
            && Listing(WithDeleted(slots, l, e)) == before + after
  {
    hide ScanFrom, IsLong, IsShort, IsLive, WithDeleted;
    var back := slots[e + 1..];
    var name := ListingAround(slots, l, e);
    assert Listing(slots) == Listing(slots[..l]) + [Item(e, slots[e], name)] + ScanFrom(START, back, e + 1).items;
    ListingWithout(slots, l, e);
  }

  lemma ListingAround(slots: seq<Slot>, l: nat, e: nat) returns (name: seq<byte>)
    requires NameRun(slots, l, e) && IsShort(slots[e])
    requires forall i :: 0 <= i < e ==> slots[i][0] != MARK_END
    ensures Listing(slots)
            == Listing(slots[..l]) + [Item(e, slots[e], name)] + ScanFrom(START, slots[e + 1..], e + 1).items
  {
    hide ScanFrom, IsLong, IsShort, IsLive;
    var front, run, back := slots[..l], slots[l..e + 1], slots[e + 1..];
    var sc := ScanFrom(START, front, 0);
    ScanSettled(slots, l);
    assert slots == front + (run + back);
    ScanJoin(START, front, run + back, 0);
    ScanJoin(sc, run, back, l);
    name := ScanNamed(sc, slots, l, e);
    ScanItems(ScanFrom(sc, run, l), back, e + 1);
  }

  lemma ListingWithout(slots: seq<Slot>, l: nat, e: nat)
    requires NameRun(slots, l, e)
    requires forall i :: 0 <= i < e ==> slots[i][0] != MARK_END
    ensures Listing(WithDeleted(slots, l, e)) == Listing(slots[..l]) + ScanFrom(START, slots[e + 1..], e + 1).items
  {
    hide ScanFrom, IsLong, IsLive;
    var all := WithDeleted(slots, l, e);
    var front, gone, back := slots[..l], all[l..e + 1], slots[e + 1..];
    var sc := ScanFrom(START, front, 0);
    ScanSettled(slots, l);
    assert all == front + (gone + back);
    ScanJoin(START, front, gone + back, 0);
    ScanJoin(sc, gone, back, l);
    GoneIsFree(slots, l, e);
    ScanFree(sc, gone, l);
    hide WithDeleted;
    ScanItems(ScanFrom(sc, gone, l), back, e + 1);
  }

  lemma GoneIsFree(slots: seq<Slot>, l: nat, e: nat)
    requires l <= e < |slots|
    ensures var gone := WithDeleted(slots, l, e)[l..e + 1];
            AllFree(gone) && forall i :: 0 <= i < |gone| ==> gone[i][0] != MARK_END
  {
  }

  lemma ScanNamed(sc: Scan, slots: seq<Slot>, l: nat, e: nat) returns (name: seq<byte>)
    requires ScanOk(sc) && !sc.ended && NameRun(slots, l, e) && IsShort(slots[e])
    ensures ScanFrom(sc, slots[l..e + 1], l) == Scan(sc.items + [Item(e, slots[e], name)], Nothing, false)
  {
    hide Gather, LongNameFor;
    assert slots[l..e + 1][..e - l] == slots[l..e];
    ScanLong(sc, slots[l..e], l);
    name := ItemOf(ScanFrom(sc, slots[l..e], l).gathered, slots[e], e).name;
  }

  lemma DeleteKeepsOk(slots: seq<Slot>, l: nat, e: nat)
    requires DirectoryOk(slots) && NameRun(slots, l, e)
    ensures DirectoryOk(WithDeleted(slots, l, e))
  {
    hide IsLong, WithDeleted;
    var r := WithDeleted(slots, l, e);
    forall i, j | 0 <= i < j < |r| && r[i][0] == MARK_END
      ensures IsFree(r[j])
    {
      assert slots[i][0] == MARK_END;
    }
  }
}
