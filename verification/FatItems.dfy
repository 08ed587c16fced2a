/** Single items of a listing: where they are stored, that they are distinct, and what updating an
    entry in place or starting a fresh directory does to the listing. */
module FatItems {
  import opened Machine
  import opened FatSlot
  import opened FatLongName
  import opened FatShortName
  import opened FatListing

  /** An item reported by a scan that began at slot `at`. */
  ghost predicate Reported(slots: seq<Slot>, at: nat, it: Item)
  {
    && at <= it.at < at + |slots|
    && slots[it.at - at] == it.entry && IsShort(it.entry)
    && forall i :: 0 <= i < it.at - at ==> slots[i][0] != MARK_END
  }

  lemma {:induction false} ScanReports(slots: seq<Slot>, at: nat)
    ensures var sc := ScanFrom(START, slots, at);
            && (forall it :: it in sc.items ==> Reported(slots, at, it))
            && (!sc.ended ==> forall i :: 0 <= i < |slots| ==> slots[i][0] != MARK_END)
    decreases |slots|
  {
    hide Gather, LongNameFor;
    if slots != [] {
      var n := |slots| - 1;
      ScanReports(slots[..n], at);
      var sc := ScanFrom(START, slots[..n], at);
      assert !sc.ended ==> forall i :: 0 <= i < n ==> slots[..n][i][0] != MARK_END;
      VisitReports(slots, at, sc);
    }
  }

  lemma VisitReports(slots: seq<Slot>, at: nat, sc: Scan)
    requires slots != [] && ScanOk(sc)
    requires forall it :: it in sc.items ==> Reported(slots[..|slots| - 1], at, it)
    requires !sc.ended ==> forall i :: 0 <= i < |slots| - 1 ==> slots[i][0] != MARK_END
    ensures var n := |slots| - 1;
            var r := Visit(sc, slots[n], at + n);
            && (forall it :: it in r.items ==> Reported(slots, at, it))
            && (!r.ended ==> forall i :: 0 <= i < |slots| ==> slots[i][0] != MARK_END)
  {
    hide Gather, LongNameFor;
    var n := |slots| - 1;
    OtherwiseShort(slots[n]);
    hide IsLong, IsVolume, IsShort;
    assert forall i :: 0 <= i < n ==> slots[..n][i] == slots[i];
    forall it | it in Visit(sc, slots[n], at + n).items
      ensures Reported(slots, at, it)
    {
      if it in sc.items {
        assert Reported(slots[..n], at, it);
      }
    }
  }

  lemma OtherwiseShort(s: Slot)
    ensures IsLive(s) && !IsLong(s) && !IsVolume(s) ==> IsShort(s)
  {
  }

  /** The item of slot `e`, between the items in front of it and those behind. */
  lemma ListingAt(slots: seq<Slot>, it: Item)
    requires it in Listing(slots)
    ensures Reported(slots, 0, it)
    ensures var before := Listing(slots[..it.at]);
            var after := ScanFrom(START, slots[it.at + 1..], it.at + 1).items;
            && Listing(slots) == before + [it] + after
            && it !in before && it !in after
  {
    hide ScanFrom;
    var e := it.at;
    ScanReports(slots, 0);
    assert Reported(slots, 0, it);
    ScanReports(slots[..e], 0);
    ScanReports(slots[e + 1..], e + 1);
    var jt := ItemAt(slots, e);
    assert forall kt :: kt in Listing(slots[..e]) ==> kt.at < e;
    assert forall kt :: kt in ScanFrom(START, slots[e + 1..], e + 1).items ==> kt.at > e;
  }

  lemma ItemAt(slots: seq<Slot>, e: nat) returns (it: Item)
    requires e < |slots| && IsShort(slots[e]) && forall i :: 0 <= i < e ==> slots[i][0] != MARK_END
    ensures it == ItemOf(GatheredAt(slots, e), slots[e], e)
    ensures Listing(slots) == Listing(slots[..e]) + [it] + ScanFrom(START, slots[e + 1..], e + 1).items
  {
    hide Gather, LongNameFor, ItemOf, IsLong, IsVolume;
    var sc := ScanFrom(START, slots[..e], 0);
    ScanSettled(slots, e);
    it := ItemOf(sc.gathered, slots[e], e);
    ShortIsShort(slots[e]);
    assert ScanFrom(START, slots[..e + 1], 0) == Scan(sc.items + [it], Nothing, false) by {
      assert slots[..e + 1][..e] == slots[..e];
    }
    hide ScanFrom, Visit;
    assert slots == slots[..e + 1] + slots[e + 1..];
    ScanJoin(START, slots[..e + 1], slots[e + 1..], 0);
    ScanItems(ScanFrom(START, slots[..e + 1], 0), slots[e + 1..], e + 1);
  }

  lemma ShortIsShort(s: Slot)
    requires IsShort(s)
    ensures s[0] != MARK_END && s[0] != MARK_DELETED && !IsLong(s) && !IsVolume(s)
  {
  }

  /** Updating the extent of an entry in place changes that item's extent and nothing else. */
  lemma ExtentInPlace(slots: seq<Slot>, it: Item, cluster: uint32, size: uint32)
    requires it in Listing(slots) && DirectoryOk(slots)
    ensures it.at < |slots| && slots[it.at] == it.entry
    ensures var s := WithExtent(it.entry, cluster, size);
            var updated := slots[it.at := s];
            var before := Listing(slots[..it.at]);
            var after := ScanFrom(START, slots[it.at + 1..], it.at + 1).items;
            && Listing(slots) == before + [it] + after
            && Listing(updated) == before + [it.(entry := s)] + after
            && DirectoryOk(updated)
            && it !in before && it !in after
  {
    hide ScanFrom, WithExtent, DirectoryOk;
    ListingAt(slots, it);
    var e := it.at;
    var s := WithExtent(it.entry, cluster, size);
    var updated := slots[e := s];
    SameKind(it.entry, cluster, size);
    var was := ItemAt(slots, e);
    assert it == was by {
      var before, after := Listing(slots[..e]), ScanFrom(START, slots[e + 1..], e + 1).items;
      assert (before + [it] + after)[|before|] == it;
      assert (before + [was] + after)[|before|] == was;
    }
    assert updated[..e] == slots[..e] && updated[e + 1..] == slots[e + 1..];
    var now := ItemAt(updated, e);
    assert GatheredAt(updated, e) == GatheredAt(slots, e);
    assert now == it.(entry := s);
    UpdateKeepsOk(slots, e, s);
  }

  lemma SameKind(s: Slot, cluster: uint32, size: uint32)
    ensures var r := WithExtent(s, cluster, size);
            && r[0] == s[0] && r[11] == s[11] && ShortName(r) == ShortName(s)
            && (IsShort(r) <==> IsShort(s)) && (IsLong(r) <==> IsLong(s)) && (IsFree(r) <==> IsFree(s))
  {
    var r := WithExtent(s, cluster, size);
    assert r[0] == s[0] && r[11] == s[11];
    hide WithExtent;
    assert ShortName(r) == ShortName(s);
  }

  lemma UpdateKeepsOk(slots: seq<Slot>, e: nat, s: Slot)
    requires DirectoryOk(slots) && e < |slots| && s[0] == slots[e][0] && (IsLong(s) <==> IsLong(slots[e]))
    ensures DirectoryOk(slots[e := s])
  {
    hide IsLong;
    var updated := slots[e := s];
    assert forall i :: 0 <= i < |slots| ==> updated[i][0] == slots[i][0] && (IsLong(updated[i]) <==> IsLong(slots[i]));
  }

  // ---------------------------------------------------------------- a fresh directory

  /** The two entries of a new directory, followed by end markers. */
  ghost predicate Fresh(slots: seq<Slot>, dot: Slot, dotdot: Slot)
  {
    && |slots| >= 2 && slots[0] == dot && slots[1] == dotdot
    && forall i :: 2 <= i < |slots| ==> slots[i][0] == MARK_END
  }

  lemma FreshListing(slots: seq<Slot>, dot: Slot, dotdot: Slot)
    requires Fresh(slots, dot, dotdot) && IsShort(dot) && IsShort(dotdot)
    ensures DirectoryOk(slots)
    ensures Listing(slots)
            == [Item(0, dot, CString(Spelled(ShortName(dot)))), Item(1, dotdot, CString(Spelled(ShortName(dotdot))))]
  {
    hide ScanFrom, DirectoryOk, IsShort, IsFree;
    FreshIsOk(slots, dot, dotdot);
    FreshScan(slots, dot, dotdot);
    assert slots == slots[..2] + slots[2..];
    ScanJoin(START, slots[..2], slots[2..], 0);
    ScanFree(ScanFrom(START, slots[..2], 0), slots[2..], 2);
  }

  lemma FreshIsOk(slots: seq<Slot>, dot: Slot, dotdot: Slot)
    requires Fresh(slots, dot, dotdot) && IsShort(dot) && IsShort(dotdot)
    ensures DirectoryOk(slots) && AllFree(slots[2..])
  {
    ShortIsShort(dot);
    ShortIsShort(dotdot);
    hide IsShort;
    assert forall i :: 2 <= i < |slots| ==> !IsLong(slots[i]);
  }

  lemma FreshScan(slots: seq<Slot>, dot: Slot, dotdot: Slot)
    requires Fresh(slots, dot, dotdot) && IsShort(dot) && IsShort(dotdot)
    ensures ScanFrom(START, slots[..2], 0)
            == Scan([Item(0, dot, CString(Spelled(ShortName(dot)))),
                     Item(1, dotdot, CString(Spelled(ShortName(dotdot))))],
                    Nothing, false)
  {
    hide Gather, Spelled, ChecksumOf, IsLong, IsVolume;
    ShortIsShort(dot);
    ShortIsShort(dotdot);
    assert slots[..2][..1] == slots[..1] && slots[..1][..0] == [];
    assert ScanFrom(START, slots[..1], 0) == Visit(ScanFrom(START, slots[..1][..0], 0), dot, 0);
    assert ScanFrom(START, slots[..2], 0) == Visit(ScanFrom(START, slots[..1], 0), dotdot, 1);
  }
}
