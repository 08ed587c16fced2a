/** Changing directories: reserving slots, writing entries into them, and deleting entries. */
module FatDirectory {
  import opened Machine
  import opened FatTable
  import opened FatData
  import opened FatSlot
  import opened FatVolume
  import opened FatListing
  import opened FatDirData
  import opened FatSearch

  // ---------------------------------------------------------------- reserving slots

  /** `run` free slots end in front of slot `at`, and they are all the free slots ending there. */
  ghost predicate RunAt(slots: seq<Slot>, at: nat, run: nat)
  {
    && run <= at <= |slots|
    && AllFree(slots[at - run..at])
    && (at > run ==> IsLive(slots[at - run - 1]))
  }

  ghost predicate Located(locations: seq<Location>, chain: seq<nat>, per: nat, first: nat)
  {
    && first + |locations| <= Span(|chain|, per)
    && forall j :: 0 <= j < |locations| ==> locations[j] == LocationOf(chain, per, first + j)
  }

  lemma RunGrows(slots: seq<Slot>, at: nat, run: nat)
    requires RunAt(slots, at, run) && at < |slots|
    ensures if IsFree(slots[at]) then RunAt(slots, at + 1, run + 1) else RunAt(slots, at + 1, 0)
  {
    if IsFree(slots[at]) {
      assert slots[at - run..at + 1] == slots[at - run..at] + [slots[at]];
    }
  }

  ghost predicate FreeFrom(slots: seq<Slot>, a: nat, count: nat)
  {
    a + count <= |slots| && AllFree(slots[a..a + count])
  }

  /** No `count` free slots in a row lie in front of slot `at`. */
  ghost predicate NoRun(slots: seq<Slot>, at: nat, count: nat)
  {
    at <= |slots| && forall a: nat :: a + count <= at ==> !FreeFrom(slots, a, count)
  }

  lemma NoRunGrows(slots: seq<Slot>, at: nat, run: nat, count: nat)
    requires RunAt(slots, at, run) && NoRun(slots, at, count) && at < |slots| && run < count
    ensures !IsFree(slots[at]) || run + 1 < count ==> NoRun(slots, at + 1, count)
  {
    if (!IsFree(slots[at]) || run + 1 < count) && count <= at + 1 {
      var a, live := at + 1 - count, if IsFree(slots[at]) then at - run - 1 else at;
      assert slots[a..a + count][live - a] == slots[live];
      assert !FreeFrom(slots, a, count);
    }
  }

  lemma NoRunSurvives(slots: seq<Slot>, more: seq<Slot>, at: nat, count: nat)
    requires NoRun(slots, at, count)
    ensures NoRun(slots + more, at, count)
  {
    forall a: nat | a + count <= at
      ensures !FreeFrom(slots + more, a, count)
    {
      assert (slots + more)[a..a + count] == slots[a..a + count];
      assert !FreeFrom(slots, a, count);
    }
  }

  lemma NoRunBefore(slots: seq<Slot>, more: seq<Slot>, count: nat)
    requires NoRun(slots + more, |slots + more|, count)
    ensures NoRun(slots, |slots|, count)
  {
    forall a: nat | a + count <= |slots|
      ensures !FreeFrom(slots, a, count)
    {
      assert (slots + more)[a..a + count] == slots[a..a + count];
      assert !FreeFrom(slots + more, a, count);
    }
  }

  lemma RunSurvives(slots: seq<Slot>, more: seq<Slot>, at: nat, run: nat)
    requires RunAt(slots, at, run)
    ensures RunAt(slots + more, at, run)
  {
    assert (slots + more)[at - run..at] == slots[at - run..at];
  }

  lemma LocatedGrows(locations: seq<Location>, chain: seq<nat>, per: nat, first: nat, i: nat, idx: nat)
    requires Located(locations, chain, per, first) && i < |chain| && idx < per
    requires first + |locations| == Span(i, per) + idx
    ensures Located(locations + [Location(chain[i], idx)], chain, per, first)
    ensures Located([], chain, per, Span(i, per) + idx + 1)
  {
    LocationIndex(chain, per, i, idx);
  }

  lemma LocatedSurvives(locations: seq<Location>, chain: seq<nat>, chain': seq<nat>, per: nat, first: nat)
    requires Located(locations, chain, per, first) && chain <= chain'
    ensures Located(locations, chain', per, first)
  {
    SpanMonotone(|chain|, |chain'|, per);
    forall j | 0 <= j < |locations|
      ensures locations[j] == LocationOf(chain', per, first + j)
    {
      LocationStable(chain, chain', per, first + j);
    }
  }

  /** The inner loop of the reservation: look through one cluster, continuing a run that may have
      begun in the clusters before it. */
  method ReserveInCluster(block: seq<byte>, cluster: nat, before: seq<Location>, count: nat,
                          ghost slots: seq<Slot>, ghost chain: seq<nat>, ghost i: nat)
    returns (temp: seq<Location>, found: bool, ghost at: nat)
    requires i < |chain| && chain[i] == cluster && |before| < count
    requires var per := |block| / SLOT_SIZE;
             && |slots| == Span(|chain|, per)
             && Span(i, per) + per <= |slots| && slots[Span(i, per)..Span(i, per) + per] == Slots(block)
             && RunAt(slots, Span(i, per), |before|) && NoRun(slots, Span(i, per), count)
             && Located(before, chain, per, Span(i, per) - |before|)
    ensures |temp| <= at <= |slots| && RunAt(slots, at, |temp|)
    ensures Located(temp, chain, |block| / SLOT_SIZE, at - |temp|)
    ensures if found then |temp| == count && at > 0 && NoRun(slots, at - 1, count)
            else |temp| < count && at == Span(i, |block| / SLOT_SIZE) + |block| / SLOT_SIZE && NoRun(slots, at, count)
  {
    hide RunAt, NoRun, Slots, Located, Span, IsFree;
    ghost var per := |block| / SLOT_SIZE;
    temp, found, at := before, false, Span(i, per);
    var idx := 0;
    RunBounds(slots, at, |temp|);
    while idx < |block| / SLOT_SIZE
      invariant idx <= per && at == Span(i, per) + idx
      invariant |temp| <= at && |temp| < count && RunAt(slots, at, |temp|) && NoRun(slots, at, count)
      invariant Located(temp, chain, per, at - |temp|)
    {
      assert slots[at] == SlotAt(block, idx) by {
        assert Slots(block)[idx] == SlotAt(block, idx);
      }
      RunGrows(slots, at, |temp|);
      NoRunGrows(slots, at, |temp|, count);
      LocatedGrows(temp, chain, per, at - |temp|, i, idx);
      if IsFree(SlotAt(block, idx)) {
        temp := temp + [Location(cluster, idx)];
        at := at + 1;
        if |temp| == count {
          return temp, true, at;
        }
      } else {
        temp, at := [], at + 1;
      }
      idx := idx + 1;
    }
  }

  lemma RunBounds(slots: seq<Slot>, at: nat, run: nat)
    requires RunAt(slots, at, run)
    ensures run <= at <= |slots|
  {
  }

  /** Compared with an earlier state, the directory has at most gained end markers, and nothing else on
      the volume has changed. */
  ghost predicate DirGrew(v: Volume, dir: nat, was: Chains, wasDisk: Disk)
    reads v, v.fat
  {
    && v.Valid()
    && dir in v.chains && dir in was
    && OthersKept(was, wasDisk, dir, v.chains, v.disk, dir)
    && EndsAdded(DirOf(v, dir), DirSlots(wasDisk, was[dir]))
  }

  ghost predicate EndsAdded(now: seq<Slot>, was: seq<Slot>)
  {
    was <= now && forall i :: |was| <= i < |now| ==> now[i][0] == MARK_END
  }

  lemma DirUnchanged(v: Volume, dir: nat)
    requires v.Valid() && dir in v.chains
    ensures DirGrew(v, dir, v.chains, v.disk)
  {
    hide Volume.Valid, DirSlots;
  }

  ghost function LinkAt(v: Volume, k: nat): uint32
    reads v.fat
  {
    if k < v.fat.Length then v.fat[k] else FREE_CLUSTER
  }

  /** A table entry in use that is none of the directory's. */
  ghost predicate Elsewhere(v: Volume, dir: nat, keep: nat)
    reads v, v.fat
  {
    Low28(LinkAt(v, keep)) != FREE_CLUSTER && keep !in v.ChainOf(dir)
  }

  /** One more cluster of end markers behind the directory. The entry of `keep` stays even if the
      device fails. */
  method GrowDirectory(v: Volume, dir: nat, last: nat, ghost was: Chains, ghost wasDisk: Disk, ghost keep: nat)
    returns (c: nat)
    requires v.Valid() && v.intact && v.IsTail(last, dir)
    requires DirGrew(v, dir, was, wasDisk)
    modifies v, v.fat
    ensures c == 0 && v.intact ==> DirGrew(v, dir, was, wasDisk) && v.chains == old(v.chains) && v.disk == old(v.disk)
    ensures c != 0 ==>
              && v.intact && DirGrew(v, dir, was, wasDisk)
              && v.ChainOf(dir) == old(v.ChainOf(dir)) + [c]
              && old(DirOf(v, dir)) <= DirOf(v, dir)
              && |v.Free()| < |old(v.Free())|
    ensures v.reliable ==> v.intact && (c == 0 ==> v.Free() == {})
    ensures v.intact ==> v.AccountedClusters() == old(v.AccountedClusters())
    ensures old(Elsewhere(v, dir, keep)) ==>
              LinkAt(v, keep) == old(LinkAt(v, keep)) && (c != 0 ==> Elsewhere(v, dir, keep))
  {
    hide Volume.Valid, DirSlots, Accounted, FreeSet, EndsAdded, Bytes;
    v.ChainShape(dir);
    v.FreshClusters();
    ghost var disk0, chain0, chains0, free0, slots0 := v.disk, v.ChainOf(dir), v.chains, v.Free(), DirOf(v, dir);
    c := v.AllocateCluster(last, dir);
    if c != 0 {
      var zeros := Zeros(v.ClusterSize());
      SlotsGrow(disk0, v.ClusterSize(), chain0, c, zeros);
      EndsAddedMore(slots0, DirSlots(wasDisk, was[dir]), Slots(zeros));
      OthersKeptTransitive(was, wasDisk, dir, chains0, disk0, dir, v.chains, v.disk, dir);
      assert v.Free() < free0;
      FewerFree(v.Free(), free0, c);
    }
  }

  lemma FewerFree(now: set<nat>, was: set<nat>, c: nat)
    requires c in was && now == was - {c}
    ensures |now| < |was|
  {
  }

  lemma EndsAddedMore(now: seq<Slot>, was: seq<Slot>, ends: seq<Slot>)
    requires EndsAdded(now, was) && forall i :: 0 <= i < |ends| ==> ends[i][0] == MARK_END
    ensures EndsAdded(now + ends, was)
  {
  }

  /** Find the first run of `count` free slots, adding zeroed clusters behind the directory as needed.
      A reliable volume has no such run to offer only when the directory has none and no cluster is
      free. */
  method ReserveEntries(v: Volume, dir: nat, count: nat, ghost keep: nat)
    returns (ok: bool, locations: seq<Location>, ghost first: nat)
    requires v.Valid() && v.intact && dir in v.chains && count > 0
    modifies v, v.fat
    ensures v.intact ==>
              DirGrew(v, dir, old(v.chains), old(v.disk)) && v.AccountedClusters() == old(v.AccountedClusters())
    ensures ok ==>
              && v.intact && |locations| == count
              && FreeRun(DirOf(v, dir), first, count) && NoRun(DirOf(v, dir), first + count - 1, count)
              && Located(locations, v.ChainOf(dir), v.ClusterSize() / SLOT_SIZE, first)
    ensures v.reliable ==>
              v.intact && (!ok ==> v.Free() == {} && NoRun(DirOf(v, dir), |DirOf(v, dir)|, count))
    ensures old(Elsewhere(v, dir, keep)) ==> LinkAt(v, keep) == old(LinkAt(v, keep))
  {
    hide Volume.Valid, DirSlots, Accounted, DirGrew, Located, RunAt, NoRun, FreeRun, Span, Shaped, Distinct,
      InRange, Elsewhere, LinkAt, Volume.AccountedClusters, FreeSet, Slots, LocationOf, Low28;
    ghost var was, wasDisk, accounted0, per := v.chains, v.disk, v.AccountedClusters(), v.ClusterSize() / SLOT_SIZE;
    DirUnchanged(v, dir);
    ok, locations, first := false, [], 0;
    var failed := v.Fails();
    if failed {
      return;
    }
    var current, temp := dir, [];
    ghost var i := 0;
    v.ChainShape(dir);
    NothingReserved(v, dir, count);
    while true
      invariant v.intact && v.Valid() && dir in v.chains && DirGrew(v, dir, was, wasDisk)
      invariant v.AccountedClusters() == accounted0
      invariant old(Elsewhere(v, dir, keep)) ==> LinkAt(v, keep) == old(LinkAt(v, keep)) && Elsewhere(v, dir, keep)
      invariant i < |v.ChainOf(dir)| && current == v.ChainOf(dir)[i]
      invariant |temp| < count && RunAt(DirOf(v, dir), Span(i, per), |temp|)
                  && NoRun(DirOf(v, dir), Span(i, per), count)
      invariant |temp| <= Span(i, per) && Located(temp, v.ChainOf(dir), per, Span(i, per) - |temp|)
      decreases |v.Free()|, |v.ChainOf(dir)| - i
    {
      v.ClusterStored(dir, i);
      var read, block := v.ReadCluster(current);
      if !read {
        return;
      }
      ClusterSlots(v, dir, i);
      var found;
      ghost var at;
      temp, found, at := ReserveInCluster(block, current, temp, count, DirOf(v, dir), v.ChainOf(dir), i);
      if found {
        first := at - count;
        RunIsFree(DirOf(v, dir), at, count);
        return true, temp, first;
      }
      SpanNext(i, per);
      current := StepOrGrow(v, dir, current, i, was, wasDisk, temp, count, keep);
      if current == 0 {
        return;
      }
      i := i + 1;
    }
  }

  /** Go on to the next cluster of the directory, adding one if this was the last. */
  method StepOrGrow(v: Volume, dir: nat, current: nat, ghost i: nat, ghost was: Chains, ghost wasDisk: Disk,
                    ghost temp: seq<Location>, ghost count: nat, ghost keep: nat) returns (next: nat)
    requires v.Valid() && v.intact && dir in v.chains && DirGrew(v, dir, was, wasDisk)
    requires i < |v.ChainOf(dir)| && current == v.ChainOf(dir)[i]
    requires var per := v.ClusterSize() / SLOT_SIZE;
             && |temp| <= Span(i + 1, per) && RunAt(DirOf(v, dir), Span(i + 1, per), |temp|)
             && NoRun(DirOf(v, dir), Span(i + 1, per), count)
             && Located(temp, v.ChainOf(dir), per, Span(i + 1, per) - |temp|)
             && |DirOf(v, dir)| == Span(|v.ChainOf(dir)|, per)
    modifies v, v.fat
    ensures v.intact ==> DirGrew(v, dir, was, wasDisk) && v.AccountedClusters() == old(v.AccountedClusters())
    ensures next != 0 ==>
              var per := v.ClusterSize() / SLOT_SIZE;
              && v.intact && v.Valid() && dir in v.chains
              && i + 1 < |v.ChainOf(dir)| && next == v.ChainOf(dir)[i + 1]
              && (|v.Free()| < |old(v.Free())|
                  || (v.Free() == old(v.Free()) && v.ChainOf(dir) == old(v.ChainOf(dir))))
              && RunAt(DirOf(v, dir), Span(i + 1, per), |temp|) && NoRun(DirOf(v, dir), Span(i + 1, per), count)
              && Located(temp, v.ChainOf(dir), per, Span(i + 1, per) - |temp|)
    ensures v.reliable ==>
              v.intact && (next == 0 ==> v.Free() == {} && NoRun(DirOf(v, dir), |DirOf(v, dir)|, count))
    ensures old(Elsewhere(v, dir, keep)) ==>
              LinkAt(v, keep) == old(LinkAt(v, keep)) && (next != 0 ==> Elsewhere(v, dir, keep))
  {
    hide Volume.Valid, DirSlots, Accounted, DirGrew, Located, RunAt, NoRun, Span, Shaped, Distinct, InRange,
      Elsewhere, LinkAt, Volume.AccountedClusters, FreeSet, LocationOf;
    v.ChainStep(dir, i);
    next := v.GetNextCluster(current);
    if IsEnd(next) {
      next := ExtendRun(v, dir, current, was, wasDisk, temp, Span(i + 1, v.ClusterSize() / SLOT_SIZE), count, keep);
    }
  }

  /** Growing the directory keeps the run found so far. */
  method ExtendRun(v: Volume, dir: nat, last: nat, ghost was: Chains, ghost wasDisk: Disk,
                   ghost temp: seq<Location>, ghost at: nat, ghost count: nat, ghost keep: nat) returns (c: nat)
    requires v.Valid() && v.intact && v.IsTail(last, dir)
    requires DirGrew(v, dir, was, wasDisk)
    requires |temp| <= at && RunAt(DirOf(v, dir), at, |temp|) && at == |DirOf(v, dir)|
               && NoRun(DirOf(v, dir), at, count)
    requires Located(temp, v.ChainOf(dir), v.ClusterSize() / SLOT_SIZE, at - |temp|)
    modifies v, v.fat
    ensures v.intact ==> DirGrew(v, dir, was, wasDisk) && v.AccountedClusters() == old(v.AccountedClusters())
    ensures c != 0 ==>
              && v.intact && v.Valid() && dir in v.chains
              && v.ChainOf(dir) == old(v.ChainOf(dir)) + [c]
              && |v.Free()| < |old(v.Free())|
              && RunAt(DirOf(v, dir), at, |temp|) && NoRun(DirOf(v, dir), at, count)
              && Located(temp, v.ChainOf(dir), v.ClusterSize() / SLOT_SIZE, at - |temp|)
    ensures v.reliable ==>
              v.intact && (c == 0 ==> v.Free() == {} && NoRun(DirOf(v, dir), |DirOf(v, dir)|, count))
    ensures old(Elsewhere(v, dir, keep)) ==>
              LinkAt(v, keep) == old(LinkAt(v, keep)) && (c != 0 ==> Elsewhere(v, dir, keep))
  {
    hide Volume.Valid, DirSlots, Accounted, DirGrew, Located, RunAt, NoRun, Elsewhere;
    ghost var chain, slots := v.ChainOf(dir), DirOf(v, dir);
    c := GrowDirectory(v, dir, last, was, wasDisk, keep);
    if c != 0 {
      DirGrewIsValid(v, dir, was, wasDisk);
      LocatedSurvives(temp, chain, v.ChainOf(dir), v.ClusterSize() / SLOT_SIZE, at - |temp|);
      var more := DirOf(v, dir)[|slots|..];
      RunSurvives(slots, more, at, |temp|);
      NoRunSurvives(slots, more, at, count);
      assert DirOf(v, dir) == slots + more;
    }
  }

  lemma DirGrewIsValid(v: Volume, dir: nat, was: Chains, wasDisk: Disk)
    requires DirGrew(v, dir, was, wasDisk)
    ensures v.Valid() && dir in v.chains
  {
  }

  lemma NothingReserved(v: Volume, dir: nat, count: nat)
    requires count > 0
    ensures RunAt(DirOf(v, dir), Span(0, v.ClusterSize() / SLOT_SIZE), 0)
    ensures Span(0, v.ClusterSize() / SLOT_SIZE) == 0 && NoRun(DirOf(v, dir), 0, count)
    ensures Located([], v.ChainOf(dir), v.ClusterSize() / SLOT_SIZE, 0)
  {
    hide DirSlots;
  }

  lemma RunIsFree(slots: seq<Slot>, at: nat, count: nat)
    requires RunAt(slots, at, count)
    ensures FreeRun(slots, at - count, count)
  {
  }

  /** The slots of cluster number `i` within the directory. */
  lemma ClusterSlots(v: Volume, dir: nat, i: nat)
    requires v.Valid() && dir in v.chains && i < |v.ChainOf(dir)|
    ensures var per := v.ClusterSize() / SLOT_SIZE;
            var c := v.ChainOf(dir)[i];
            && c in v.disk && |v.disk[c]| == v.ClusterSize() && v.ClusterSize() % SLOT_SIZE == 0 && per > 0
            && |DirOf(v, dir)| == Span(|v.ChainOf(dir)|, per)
            && Span(i, per) + per <= |DirOf(v, dir)|
            && DirOf(v, dir)[Span(i, per)..Span(i, per) + per] == Slots(v.disk[c])
  {
    hide Volume.Valid;
    v.ChainShape(dir);
    SlotsAround(v.disk, v.ClusterSize(), v.ChainOf(dir), i);
    hide DirSlots, Shaped;
  }

  // ---------------------------------------------------------------- writing entries

  /** The disk as it will be once the buffered cluster is written. */
  function Buffered(disk: Disk, current: nat, buffer: seq<byte>): Disk
  {
    if current == 0 then disk else disk[current := buffer]
  }

  /** `disk` is `was` with the directory's slots replaced by `slots`, and nothing else touched. */
  ghost predicate DirRewritten(disk: Disk, was: Disk, cs: nat, chain: seq<nat>, slots: seq<Slot>)
  {
    && Shaped(disk, cs, chain)
    && DirSlots(disk, chain) == slots
    && (forall c :: c in was && c !in chain ==> c in disk && disk[c] == was[c])
  }

  lemma RewriteSlot(disk: Disk, was: Disk, cs: nat, chain: seq<nat>, slots: seq<Slot>, at: nat, s: Slot)
    requires DirRewritten(disk, was, cs, chain, slots) && Distinct(chain) && cs % SLOT_SIZE == 0
    requires at < Span(|chain|, cs / SLOT_SIZE)
    ensures var l := LocationOf(chain, cs / SLOT_SIZE, at);
            && l.cluster in disk && |disk[l.cluster]| == cs && SLOT_SIZE * l.index + SLOT_SIZE <= cs
            && at < |slots|
            && DirRewritten(disk[l.cluster := WithSlot(disk[l.cluster], l.index, s)], was, cs, chain, slots[at := s])
  {
    var i, k := LocationInverse(chain, cs / SLOT_SIZE, at);
    SlotRewrite(disk, cs, chain, i, k, s);
    hide DirSlots, LocationOf;
  }

  /** Write the entries into their slots, cluster by cluster through one buffer. */
  method WriteEntries(v: Volume, ghost dir: nat, locations: seq<Location>, entries: seq<Slot>, ghost first: nat)
    returns (ok: bool)
    requires v.Valid() && v.intact && dir in v.chains
    requires |locations| == |entries| && Located(locations, v.ChainOf(dir), v.ClusterSize() / SLOT_SIZE, first)
    modifies v`disk, v`intact
    ensures v.intact ==> v.Valid()
    ensures v.reliable ==> ok
    ensures ok ==>
              && v.intact
              && first + |entries| <= |old(DirOf(v, dir))|
              && DirRewritten(v.disk, old(v.disk), v.ClusterSize(), v.ChainOf(dir),
                              Replaced(old(DirOf(v, dir)), first, entries))
  {
    hide Volume.Valid, DirSlots, DirRewritten, LocationOf, Span, Replaced, InRange;
    ghost var was, chain, slots := v.disk, v.ChainOf(dir), DirOf(v, dir);
    ok := false;
    var failed := v.Fails();
    if failed {
      return;
    }
    WriteStarts(v, dir, first, entries);
    var current, buffer, i := 0, [], 0;
    ghost var eff := v.disk;
    while i < |entries|
      invariant i <= |entries| && v.intact && v.Valid()
      invariant eff == Buffered(v.disk, current, buffer)
      invariant current == 0 || (2 <= current && current in v.disk && |buffer| == v.ClusterSize())
      invariant DirRewritten(eff, was, v.ClusterSize(), chain, Replaced(slots, first, entries[..i]))
      invariant i == 0 ==> current == 0
    {
      RewriteNext(v, dir, eff, was, slots, first, entries, i, locations);
      var target := locations[i];
      if target.cluster != current {
        if current != 0 {
          var flushed := v.WriteCluster(current, buffer);
          if !flushed {
            return;
          }
        }
        var read;
        read, buffer := v.ReadCluster(target.cluster);
        if !read {
          return;
        }
        current := target.cluster;
      }
      assert buffer == eff[current];
      buffer := WithSlot(buffer, target.index, entries[i]);
      eff := eff[current := buffer];
      i := i + 1;
    }
    if current != 0 {
      ok := v.WriteCluster(current, buffer);
    } else {
      ok := true;
    }
    assert entries[..|entries|] == entries;
  }

  lemma WriteStarts(v: Volume, dir: nat, first: nat, entries: seq<Slot>)
    requires v.Valid() && dir in v.chains
    requires first + |entries| <= Span(|v.ChainOf(dir)|, v.ClusterSize() / SLOT_SIZE)
    ensures v.ClusterSize() % SLOT_SIZE == 0 && Distinct(v.ChainOf(dir))
    ensures first + |entries| <= |DirOf(v, dir)|
    ensures DirRewritten(v.disk, v.disk, v.ClusterSize(), v.ChainOf(dir), Replaced(DirOf(v, dir), first, entries[..0]))
  {
    hide Volume.Valid;
    v.ChainShape(dir);
    DirSlotsLength(v.disk, v.ClusterSize(), v.ChainOf(dir));
    hide DirSlots;
    assert Replaced(DirOf(v, dir), first, entries[..0]) == DirOf(v, dir);
  }

  lemma RewriteNext(v: Volume, dir: nat, eff: Disk, was: Disk, slots: seq<Slot>, first: nat,
                    entries: seq<Slot>, i: nat, locations: seq<Location>)
    requires v.Valid() && dir in v.chains && i < |entries| == |locations| && first + |entries| <= |slots|
    requires Located(locations, v.ChainOf(dir), v.ClusterSize() / SLOT_SIZE, first)
    requires DirRewritten(eff, was, v.ClusterSize(), v.ChainOf(dir), Replaced(slots, first, entries[..i]))
    ensures var l := locations[i];
            && 2 <= l.cluster
            && l.cluster in eff && |eff[l.cluster]| == v.ClusterSize()
            && SLOT_SIZE * l.index + SLOT_SIZE <= v.ClusterSize()
            && DirRewritten(eff[l.cluster := WithSlot(eff[l.cluster], l.index, entries[i])], was, v.ClusterSize(),
                            v.ChainOf(dir), Replaced(slots, first, entries[..i + 1]))
  {
    hide Volume.Valid, DirRewritten;
    v.ChainShape(dir);
    var chain, now := v.ChainOf(dir), Replaced(slots, first, entries[..i]);
    RewriteSlot(eff, was, v.ClusterSize(), chain, now, first + i, entries[i]);
    assert now[first + i := entries[i]] == Replaced(slots, first, entries[..i + 1]);
    assert locations[i].cluster in chain;
  }

  // ---------------------------------------------------------------- deleting an entry

  /** The cluster in front of `target` in its directory; 0 for the first one and for any that is not there. */
  method FindPrevious(v: Volume, dir: nat, target: nat) returns (prev: nat)
    requires v.Valid() && dir in v.chains
    ensures dir == target || (target !in v.ChainOf(dir) && target != END_CLUSTER) ==> prev == 0
    ensures forall j :: 0 < j < |v.ChainOf(dir)| && v.ChainOf(dir)[j] == target ==> prev == v.ChainOf(dir)[j - 1]
  {
    hide Volume.Valid, Shaped, Span;
    v.ChainShape(dir);
    if dir == target {
      return 0;
    }
    ghost var chain, i := v.ChainOf(dir), 0;
    var current := dir;
    while true
      invariant i < |chain| && current == chain[i]
      invariant forall j :: 0 <= j <= i ==> chain[j] != target
      decreases |chain| - i
    {
      v.ChainStep(dir, i);
      var next := v.GetNextCluster(current);
      if next == target {
        return current;
      }
      if IsEnd(next) {
        return 0;
      }
      current, i := next, i + 1;
    }
  }

  /** Slots `p` to `e` are marked deleted on `disk`; in front of `e` they were long entries. */
  ghost predicate Marked(disk: Disk, was: Disk, cs: nat, chain: seq<nat>, slots: seq<Slot>, p: nat, e: nat)
  {
    && p <= e < |slots|
    && (forall i :: p <= i < e ==> IsLong(slots[i]))
    && DirRewritten(disk, was, cs, chain, WithDeleted(slots, p, e))
  }

  lemma MarkFirst(disk: Disk, cs: nat, chain: seq<nat>, e: nat)
    requires Shaped(disk, cs, chain) && Distinct(chain) && cs % SLOT_SIZE == 0 && e < Span(|chain|, cs / SLOT_SIZE)
    ensures var l := LocationOf(chain, cs / SLOT_SIZE, e);
            && l.cluster in disk && SLOT_SIZE * l.index + SLOT_SIZE <= |disk[l.cluster]| == cs
            && Marked(disk[l.cluster := MarkedBlock(disk[l.cluster], l.index)], disk, cs, chain,
                 DirSlots(disk, chain), e, e)
  {
    hide DirSlots, LocationOf;
    var slots, l := DirSlots(disk, chain), LocationOf(chain, cs / SLOT_SIZE, e);
    assert DirRewritten(disk, disk, cs, chain, slots);
    SlotThere(disk, cs, chain, e);
    RewriteSlot(disk, disk, cs, chain, slots, e, Deleted(SlotAt(disk[l.cluster], l.index)));
    assert slots[e := Deleted(slots[e])] == WithDeleted(slots, e, e);
    hide DirRewritten;
  }

  /** A cluster with the first byte of slot `k` overwritten by the deletion mark. */
  function MarkedBlock(block: seq<byte>, k: nat): (r: seq<byte>)
    requires SLOT_SIZE * k + SLOT_SIZE <= |block|
    ensures |r| == |block|
  {
    WithSlot(block, k, Deleted(SlotAt(block, k)))
  }

  /** The stored slot is the slot of the directory. */
  lemma SlotThere(disk: Disk, cs: nat, chain: seq<nat>, at: nat)
    requires Shaped(disk, cs, chain) && cs % SLOT_SIZE == 0 && at < Span(|chain|, cs / SLOT_SIZE)
    ensures var l := LocationOf(chain, cs / SLOT_SIZE, at);
            && l.cluster in disk && SLOT_SIZE * l.index + SLOT_SIZE <= |disk[l.cluster]|
            && at < |DirSlots(disk, chain)| && SlotAt(disk[l.cluster], l.index) == DirSlots(disk, chain)[at]
  {
    hide DirSlots;
    var i, k := LocationInverse(chain, cs / SLOT_SIZE, at);
    SlotOnDisk(disk, cs, chain, i, k);
  }

  /** One more long entry in front of the marked ones: mark it too, or the run is complete. */
  lemma MarkNext(disk: Disk, was: Disk, cs: nat, chain: seq<nat>, slots: seq<Slot>, p: nat, e: nat)
    requires Marked(disk, was, cs, chain, slots, p, e) && p > 0
    requires Distinct(chain) && cs % SLOT_SIZE == 0 && |slots| == Span(|chain|, cs / SLOT_SIZE)
    ensures var l := LocationOf(chain, cs / SLOT_SIZE, p - 1);
            && l.cluster in disk && SLOT_SIZE * l.index + SLOT_SIZE <= |disk[l.cluster]| == cs
            && (if IsLong(SlotAt(disk[l.cluster], l.index))
                then Marked(disk[l.cluster := MarkedBlock(disk[l.cluster], l.index)], was, cs, chain, slots, p - 1, e)
                else NameRun(slots, p, e))
  {
    hide DirSlots, LocationOf, IsLong;
    var l := LocationOf(chain, cs / SLOT_SIZE, p - 1);
    var now := WithDeleted(slots, p, e);
    assert Shaped(disk, cs, chain) && DirSlots(disk, chain) == now;
    SlotThere(disk, cs, chain, p - 1);
    assert now[p - 1] == slots[p - 1];
    RewriteSlot(disk, was, cs, chain, now, p - 1, Deleted(SlotAt(disk[l.cluster], l.index)));
    assert now[p - 1 := Deleted(now[p - 1])] == WithDeleted(slots, p - 1, e);
    hide DirRewritten, WithDeleted;
  }

  /** The backward walk of a deletion, starting at the entry already marked. */
  method MarkRun(v: Volume, dir: nat, location: Location, block: seq<byte>,
                 ghost was: Disk, ghost slots: seq<Slot>, ghost e: nat) returns (ok: bool, ghost p: nat)
    requires v.Valid() && dir in v.chains
    requires e < |slots| == Span(|v.ChainOf(dir)|, v.ClusterSize() / SLOT_SIZE)
    requires LocationOf(v.ChainOf(dir), v.ClusterSize() / SLOT_SIZE, e) == location
    requires location.cluster in v.disk && v.disk[location.cluster] == block
    requires Marked(v.disk, was, v.ClusterSize(), v.ChainOf(dir), slots, e, e)
    modifies v`disk, v`intact
    ensures v.intact ==> old(v.intact) && v.Valid()
    ensures ok ==>
              && v.intact == old(v.intact) && v.Valid() && NameRun(slots, p, e)
              && DirRewritten(v.disk, was, v.ClusterSize(), v.ChainOf(dir), WithDeleted(slots, p, e))
    ensures v.reliable ==> ok
  {
    hide Volume.Valid, DirSlots, Marked, Span, InRange, IsLong, MarkedBlock, LocationOf, NameRun, DirRewritten,
      Shaped, WithDeleted;
    ghost var chain, per := v.ChainOf(dir), v.ClusterSize() / SLOT_SIZE;
    v.ChainShape(dir);
    ghost var j: nat, k: nat := 0, 0;
    j, k := LocationInverse(chain, per, e);
    var cluster, buffer, index: int, dirty := location.cluster, block, location.index - 1, false;
    p := e;
    ghost var eff := v.disk;
    MarkedBlocks(eff, was, v.ClusterSize(), chain, slots, e, e, j);
    while true
      invariant v.intact == old(v.intact) && v.Valid()
      invariant j < |chain| && chain[j] == cluster && |buffer| == v.ClusterSize()
      invariant -1 <= index < per && p == Span(j, per) + index + 1
      invariant eff == v.disk[cluster := buffer] && (!dirty ==> eff == v.disk)
      invariant Marked(eff, was, v.ClusterSize(), chain, slots, p, e)
      decreases p, if index < 0 then 1 else 0
    {
      if index < 0 {
        var done;
        ok, done, cluster, buffer := StepBack(v, dir, cluster, buffer, dirty, was, slots, p, e, j);
        if !ok || done {
          return;
        }
        j, dirty, index := j - 1, false, v.ClusterSize() / SLOT_SIZE - 1;
        eff := v.disk;
      } else {
        MarkStep(eff, was, v.ClusterSize(), chain, slots, p, e, j, index, buffer);
        if !IsLong(SlotAt(buffer, index)) {
          break;
        }
        buffer, dirty := MarkedBlock(buffer, index), true;
        index, p := index - 1, p - 1;
        eff := eff[cluster := buffer];
      }
    }
    ok := true;
    v.ClusterStored(dir, j);
    if dirty {
      ok := v.WriteCluster(cluster, buffer);
    }
  }

  /** What the slot in front of the marked ones allows, read from the buffered cluster. */
  lemma MarkStep(eff: Disk, was: Disk, cs: nat, chain: seq<nat>, slots: seq<Slot>, p: nat, e: nat,
                 j: nat, index: nat, buffer: seq<byte>)
    requires Marked(eff, was, cs, chain, slots, p, e) && Distinct(chain) && cs % SLOT_SIZE == 0
    requires |slots| == Span(|chain|, cs / SLOT_SIZE) && j < |chain| && index < cs / SLOT_SIZE
    requires p == Span(j, cs / SLOT_SIZE) + index + 1 && chain[j] in eff && eff[chain[j]] == buffer
    ensures |buffer| == cs && SLOT_SIZE * index + SLOT_SIZE <= cs && e < |slots|
    ensures if IsLong(SlotAt(buffer, index))
            then Marked(eff[chain[j] := MarkedBlock(buffer, index)], was, cs, chain, slots, p - 1, e)
            else NameRun(slots, p, e) && DirRewritten(eff, was, cs, chain, WithDeleted(slots, p, e))
  {
    hide Marked, IsLong, MarkedBlock, LocationOf, NameRun, DirRewritten, WithDeleted, SlotAt;
    LocationIndex(chain, cs / SLOT_SIZE, j, index);
    MarkNext(eff, was, cs, chain, slots, p, e);
    MarkedParts(eff, was, cs, chain, slots, p, e);
  }

  /** Leave the current cluster for the one in front of it, if there is one. */
  method StepBack(v: Volume, dir: nat, cluster: nat, buffer: seq<byte>, dirty: bool,
                  ghost was: Disk, ghost slots: seq<Slot>, ghost p: nat, ghost e: nat, ghost j: nat)
    returns (ok: bool, done: bool, cluster': nat, buffer': seq<byte>)
    requires v.Valid() && dir in v.chains && j < |v.ChainOf(dir)| && v.ChainOf(dir)[j] == cluster
    requires |buffer| == v.ClusterSize() && p == Span(j, v.ClusterSize() / SLOT_SIZE)
    requires Marked(v.disk[cluster := buffer], was, v.ClusterSize(), v.ChainOf(dir), slots, p, e)
    requires !dirty ==> v.disk[cluster := buffer] == v.disk
    modifies v`disk, v`intact
    ensures v.intact ==> old(v.intact) && v.Valid()
    ensures ok ==> v.intact == old(v.intact) && v.Valid()
    ensures ok && done ==>
              && NameRun(slots, p, e)
              && DirRewritten(v.disk, was, v.ClusterSize(), v.ChainOf(dir), WithDeleted(slots, p, e))
    ensures ok && !done ==>
              && j > 0 && cluster' == v.ChainOf(dir)[j - 1] && cluster' in v.disk && v.disk[cluster'] == buffer'
              && |buffer'| == v.ClusterSize()
              && p == Span(j - 1, v.ClusterSize() / SLOT_SIZE) + v.ClusterSize() / SLOT_SIZE
              && Marked(v.disk, was, v.ClusterSize(), v.ChainOf(dir), slots, p, e)
    ensures v.reliable ==> ok
  {
    hide Volume.Valid, DirSlots, Marked, Span, InRange, NameRun, DirRewritten, Shaped, WithDeleted;
    ok, done, cluster', buffer' := false, false, cluster, buffer;
    v.ClusterStored(dir, j);
    if dirty {
      var flushed := v.WriteCluster(cluster, buffer);
      if !flushed {
        return;
      }
    }
    var prev := FindPrevious(v, dir, cluster);
    v.ChainShape(dir);
    PreviousSpan(v.ChainOf(dir), v.total, v.ClusterSize() / SLOT_SIZE, j);
    if prev < 2 {
      MarkedAll(v.disk, was, v.ClusterSize(), v.ChainOf(dir), slots, p, e);
      return true, true, cluster, buffer;
    }
    cluster' := prev;
    v.ClusterStored(dir, j - 1);
    var read;
    read, buffer' := v.ReadCluster(prev);
    if read {
      MarkedBlocks(v.disk, was, v.ClusterSize(), v.ChainOf(dir), slots, p, e, j - 1);
      ok := true;
    }
  }

  lemma MarkedBlocks(disk: Disk, was: Disk, cs: nat, chain: seq<nat>, slots: seq<Slot>, p: nat, e: nat, j: nat)
    requires Marked(disk, was, cs, chain, slots, p, e) && j < |chain|
    ensures chain[j] in disk && |disk[chain[j]]| == cs
  {
    hide DirSlots;
  }

  lemma MarkedParts(disk: Disk, was: Disk, cs: nat, chain: seq<nat>, slots: seq<Slot>, p: nat, e: nat)
    requires Marked(disk, was, cs, chain, slots, p, e)
    ensures p <= e < |slots| && DirRewritten(disk, was, cs, chain, WithDeleted(slots, p, e))
  {
  }

  lemma MarkedAll(disk: Disk, was: Disk, cs: nat, chain: seq<nat>, slots: seq<Slot>, p: nat, e: nat)
    requires Marked(disk, was, cs, chain, slots, p, e) && p == 0
    ensures NameRun(slots, p, e)
    ensures p <= e < |slots| && DirRewritten(disk, was, cs, chain, WithDeleted(slots, p, e))
  {
  }

  lemma PreviousSpan(chain: seq<nat>, total: nat, per: nat, j: nat)
    requires j < |chain| && InRange(total, chain)
    ensures if j == 0 then Span(j, per) == 0 else Span(j, per) == Span(j - 1, per) + per && chain[j - 1] >= 2
  {
  }

  /** Mark an entry deleted, then every long entry directly in front of it, walking back over cluster
      boundaries. */
  method MarkDeleted(v: Volume, dir: nat, location: Location, ghost e: nat) returns (ok: bool, ghost l: nat)
    requires v.Valid() && dir in v.chains
    requires e < Span(|v.ChainOf(dir)|, v.ClusterSize() / SLOT_SIZE)
    requires LocationOf(v.ChainOf(dir), v.ClusterSize() / SLOT_SIZE, e) == location
    modifies v`disk, v`intact
    ensures v.intact ==> old(v.intact) && v.Valid()
    ensures ok ==>
              && v.intact == old(v.intact) && v.Valid()
              && NameRun(old(DirOf(v, dir)), l, e)
              && DirRewritten(v.disk, old(v.disk), v.ClusterSize(), v.ChainOf(dir),
                              WithDeleted(old(DirOf(v, dir)), l, e))
    ensures v.reliable ==> ok
  {
    hide Volume.Valid, DirSlots, Marked, Span, InRange, IsLong, MarkedBlock, LocationOf;
    ghost var was, chain, per := v.disk, v.ChainOf(dir), v.ClusterSize() / SLOT_SIZE;
    v.ChainShape(dir);
    MarkFirst(v.disk, v.ClusterSize(), chain, e);
    DirSlotsLength(v.disk, v.ClusterSize(), chain);
    ok, l := false, e;
    var failed := v.Fails();
    if failed {
      return;
    }
    var read, buffer := v.ReadCluster(location.cluster);
    if !read {
      return;
    }
    buffer := MarkedBlock(buffer, location.index);
    var written := v.WriteCluster(location.cluster, buffer);
    if !written {
      return;
    }
    assert v.disk[location.cluster := buffer] == v.disk;
    ok, l := MarkRun(v, dir, location, buffer, was, DirSlots(was, chain), e);
  }
}
