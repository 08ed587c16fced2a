/** A mounted FAT32 volume: the in-memory allocation table, the data clusters and the table copies
    on the device. The device may refuse any access, and memory may run out; `intact` records that no
    write has failed so far, and every promise about the volume is made under it. Nothing of the kind
    happens on a `reliable` volume: there an operation may only fail for a reason of its own. */
module FatVolume {
  import opened Machine
  import opened FatTable
  import opened FatData
  import Counting

  const SECTOR_SIZE := 512
  const ROOT_CLUSTER := 2

  class Volume {
    const fat: array<uint32>
    const total: nat
    const sectorsPerCluster: nat
    const reliable: bool
    var disk: map<nat, seq<byte>>
    var copies: seq<Table>
    ghost var chains: Chains
    var intact: bool

    function ClusterSize(): nat
    {
      sectorsPerCluster * SECTOR_SIZE
    }

    /** What mounting establishes: the table covers the volume, and its sector count and the sectors
        of a cluster fit the 8-bit count of the block device. */
    ghost predicate Geometry()
    {
      && 2 <= total <= fat.Length <= MAX_ENTRIES
      && 1 <= sectorsPerCluster <= 255
    }

    ghost predicate DiskShape()
      reads this
    {
      forall c :: 2 <= c < total ==> c in disk && |disk[c]| == ClusterSize()
    }

    ghost predicate Valid()
      reads this, fat
    {
      && Geometry()
      && DiskShape()
      && WellFormed(fat[..], total, chains)
    }

    /** A freshly formatted volume: all clusters are free but the root directory's, which is all zeros. */
    constructor Format(total: nat, sectorsPerCluster: nat, tables: nat, reliable: bool)
      requires ROOT_CLUSTER < total <= MAX_ENTRIES && 1 <= sectorsPerCluster <= 255
      ensures Valid() && intact && InSync() && fresh(fat) && this.reliable == reliable && |copies| == tables
      ensures chains == map[ROOT_CLUSTER := [ROOT_CLUSTER]] && BytesOf(ROOT_CLUSTER) == Zeros(ClusterSize())
    {
      this.total, this.sectorsPerCluster, this.reliable, this.intact := total, sectorsPerCluster, reliable, true;
      fat := new uint32[total](i => if i < 2 || i == ROOT_CLUSTER then END_CLUSTER else FREE_CLUSTER);
      disk := map c: nat | c < total && IsCluster(c, total) :: Zeros(sectorsPerCluster * SECTOR_SIZE);
      chains := map[ROOT_CLUSTER := [ROOT_CLUSTER]];
      copies := [];
      new;
      var table := fat[..];
      copies := seq(tables, _ => table);
      OneClusterBytes(disk, ROOT_CLUSTER);
      LoneChainIsWellFormed(table, total, ROOT_CLUSTER);
      hide WellFormed;
      forall c | 2 <= c < this.total
        ensures c in disk && |disk[c]| == ClusterSize()
      {
        assert IsCluster(c, this.total) && disk[c] == Zeros(ClusterSize());
      }
    }

    /** Every table copy on the device is the table in memory. */
    ghost predicate InSync()
      reads this, fat
    {
      forall i :: 0 <= i < |copies| ==> copies[i] == fat[..]
    }

    ghost function Free(): set<nat>
      reads fat
    {
      FreeSet(fat[..], total)
    }

    ghost function AccountedClusters(): nat
      reads this, fat
    {
      Accounted(fat[..], total, chains)
    }

    /** The chain of `head`, or no chain at all. */
    ghost function ChainOf(head: nat): seq<nat>
      reads this
    {
      if head in chains then chains[head] else []
    }

    /** The bytes stored on a chain. */
    ghost function BytesOf(head: nat): seq<byte>
      reads this
    {
      Bytes(disk, ChainOf(head))
    }

    lemma ChainShape(head: nat)
      requires Valid()
      ensures head in chains ==> !IsEnd(head) && |chains[head]| > 0 && chains[head][0] == head
      ensures Shaped(disk, ClusterSize(), ChainOf(head))
      ensures Distinct(ChainOf(head)) && InRange(total, ChainOf(head))
      ensures |BytesOf(head)| == Span(|ChainOf(head)|, ClusterSize()) < TWO_32
      ensures Geometry() && ClusterSize() > 0
    {
      var chain := ChainOf(head);
      if head in chains {
        assert IsChain(fat[..], total, chain);
        ChainIsAcyclic(fat[..], total, chain);
        Counting.Pigeonhole(chain, Counting.Below(total));
      }
      SpanFits(|chain|, ClusterSize());
      BytesLength(disk, ClusterSize(), chain);
    }

    /** A free cluster is on no chain, and a chain's key is on it. */
    lemma FreshClusters()
      requires Valid()
      ensures forall c, h :: c in Free() && h in chains ==> c !in chains[h]
      ensures forall c :: c in Free() ==> 2 <= c < total < END_CLUSTER && c !in chains
    {
      forall c | c in Free()
        ensures c !in chains && forall h :: h in chains ==> c !in chains[h]
      {
        FreeIsUnchained(fat[..], total, chains, c);
        if c in chains {
          ChainShape(c);
        }
      }
    }

    /** The link out of position `i` of a chain. */
    lemma ChainStep(head: nat, i: nat)
      requires Valid() && head in chains && i < |chains[head]|
      ensures 2 <= chains[head][i] < total <= fat.Length && total < END_CLUSTER && Geometry()
      ensures i + 1 < |chains[head]| ==> !IsEnd(chains[head][i + 1])
      ensures Low28(fat[chains[head][i]])
              == if i + 1 < |chains[head]| then chains[head][i + 1] else END_CLUSTER
    {
      var chain := chains[head];
      assert IsChain(fat[..], total, chain);
      if i + 1 < |chain| {
        assert Low28(fat[..][chain[i + 1 - 1]]) == chain[i + 1];
      }
    }

    /** The clusters of a chain are on the device. */
    lemma ClusterStored(head: nat, i: nat)
      requires Valid() && head in chains && i < |chains[head]|
      ensures 2 <= chains[head][i] && chains[head][i] in disk
    {
      ChainShape(head);
    }

    /** The first cluster of a chain, its last cluster, or no chain at all. */
    ghost predicate IsTail(c: nat, head: nat)
      reads this
    {
      head in chains && |chains[head]| > 0 && c == chains[head][|chains[head]| - 1]
    }

    /** Whether the device, or the allocator of a buffer, refuses this time. */
    method Fails() returns (failed: bool)
      ensures reliable ==> !failed
    {
      failed := *;
      if reliable {
        failed := false;
      }
    }

    method ReadCluster(c: nat) returns (ok: bool, data: seq<byte>)
      ensures ok ==> 2 <= c && c in disk && data == disk[c]
      ensures reliable && 2 <= c && c in disk ==> ok
    {
      ok, data := false, [];
      if 2 <= c && c in disk {
        var failed := Fails();
        if !failed {
          ok, data := true, disk[c];
        }
      }
    }

    method WriteCluster(c: nat, data: seq<byte>) returns (ok: bool)
      modifies this`disk, this`intact
      ensures ok ==> 2 <= c && disk == old(disk)[c := data] && intact == old(intact)
      ensures ok && old(Valid()) && |data| == ClusterSize() ==> Valid()
      ensures !ok ==> !intact
      ensures reliable && 2 <= c && c in old(disk) ==> ok
    {
      hide WellFormed;
      ok := false;
      if 2 <= c && c in disk {
        var failed := Fails();
        if !failed {
          ok, disk := true, disk[c := data];
        }
      }
      if !ok {
        intact := false;
      }
    }

    method FlushFat() returns (ok: bool)
      modifies this`copies, this`intact
      ensures ok ==> InSync() && intact == old(intact)
      ensures !ok ==> !intact
      ensures reliable ==> ok
      ensures |copies| == |old(copies)|
    {
      var copy := 0;
      while copy < |copies|
        invariant copy <= |copies| == |old(copies)|
        invariant forall i :: 0 <= i < copy ==> copies[i] == fat[..]
        invariant intact == old(intact)
      {
        var failed := Fails();
        if failed {
          intact := false;
          return false;
        }
        copies := copies[copy := fat[..]];
        copy := copy + 1;
      }
      ok := true;
    }

    method GetNextCluster(c: nat) returns (next: nat)
      requires Geometry()
      ensures c < total ==> next == Low28(fat[c])
      ensures c >= total ==> next == END_CLUSTER
    {
      if c >= total {
        next := END_CLUSTER;
      } else {
        next := Low28(fat[c]);
      }
    }

    /** The last cluster of the chain that starts here, however it ends; an end value is its own. */
    method GetLastCluster(start: nat, ghost chain: seq<nat>) returns (last: nat)
      requires Geometry() && (IsEnd(start) || (IsWalk(fat[..], total, chain) && chain[0] == start))
      ensures IsEnd(start) ==> last == start
      ensures !IsEnd(start) ==> last == chain[|chain| - 1]
    {
      if IsEnd(start) {
        return start;
      }
      ghost var i := 0;
      last := start;
      while true
        invariant 0 <= i < |chain| && last == chain[i]
        decreases |chain| - i
      {
        var next := Low28(fat[last]);
        assert i + 1 < |chain| ==> Low28(fat[..][chain[i + 1 - 1]]) == chain[i + 1];
        if IsEnd(next) {
          break;
        }
        i, last := i + 1, next;
      }
    }

    /** Take the first free cluster, hang it behind `prev` if there is one, and clear it on the
        device. Returns 0 on failure. */
    method AllocateCluster(prev: nat, ghost head: nat) returns (c: nat)
      requires Valid() && intact
      requires IsEnd(prev) || IsTail(prev, head)
      modifies this, fat
      ensures intact ==> Valid() && AccountedClusters() == old(AccountedClusters())
      ensures c != 0 ==>
                && intact && InSync()
                && 2 <= c < total && Low28(old(fat[c])) == FREE_CLUSTER
                && (forall d :: 2 <= d < c ==> Low28(old(fat[d])) != FREE_CLUSTER)
                && disk == old(disk)[c := Zeros(ClusterSize())]
                && c in old(Free()) && Free() == old(Free()) - {c}
      ensures c != 0 && IsEnd(prev) ==>
                && fat[..] == Claimed(old(fat[..]), c)
                && chains == old(chains)[c := [c]]
      ensures c != 0 && !IsEnd(prev) ==>
                && fat[..] == Extended(old(fat[..]), prev, c)
                && chains == old(chains)[head := old(chains)[head] + [c]]
      ensures c == 0 && intact ==>
                fat[..] == old(fat[..]) && disk == old(disk) && chains == old(chains) && copies == old(copies)
      ensures reliable ==> intact && (c == 0 <==> old(Free()) == {}) && (c == 0 ==> Free() == {})
      ensures OthersLinked(old(fat[..]), prev)
    {
      var failed := Fails();
      if failed {
        return 0;
      }
      c := 2;
      while c < total
        invariant 2 <= c <= total
        invariant forall d :: 2 <= d < c ==> Low28(fat[d]) != FREE_CLUSTER
      {
        if Low28(fat[c]) == FREE_CLUSTER {
          c := TakeCluster(prev, head, c);
          return;
        }
        c := c + 1;
      }
      c := 0;
    }

    /** Of the entries that were in use, only that of `prev` may have changed. */
    ghost predicate OthersLinked(was: Table, prev: nat)
      reads fat
    {
      |was| == fat.Length
      && forall k :: 0 <= k < fat.Length && k != prev && Low28(was[k]) != FREE_CLUSTER ==> fat[k] == was[k]
    }

    /** The body of the allocation loop once a free cluster is found. */
    method TakeCluster(prev: nat, ghost head: nat, c: nat) returns (r: nat)
      requires Valid() && intact
      requires IsEnd(prev) || IsTail(prev, head)
      requires 2 <= c < total && Low28(fat[c]) == FREE_CLUSTER
      modifies this, fat
      ensures r == 0 || r == c
      ensures r == 0 ==> !intact
      ensures reliable ==> r != 0
      ensures r != 0 ==>
                && intact && Valid() && InSync()
                && AccountedClusters() == old(AccountedClusters())
                && disk == old(disk)[c := Zeros(ClusterSize())]
                && Free() == old(Free()) - {c}
      ensures r != 0 && IsEnd(prev) ==>
                && fat[..] == Claimed(old(fat[..]), c)
                && chains == old(chains)[c := [c]]
      ensures r != 0 && !IsEnd(prev) ==>
                && fat[..] == Extended(old(fat[..]), prev, c)
                && chains == old(chains)[head := old(chains)[head] + [c]]
      ensures OthersLinked(old(fat[..]), prev)
    {
      hide WellFormed, FreeSet, Accounted, Low28;
      LinkCluster(prev, head, c);
      var ok := WriteCluster(c, Zeros(ClusterSize()));
      if !ok {
        fat[c] := FREE_CLUSTER;
        return 0;
      }
      ok := FlushFat();
      r := if ok then c else 0;
    }

    /** The table updates of an allocation, before the device is touched. */
    method LinkCluster(prev: nat, ghost head: nat, c: nat)
      requires Valid()
      requires IsEnd(prev) || IsTail(prev, head)
      requires 2 <= c < total && Low28(fat[c]) == FREE_CLUSTER
      modifies this`chains, fat
      ensures Valid()
      ensures AccountedClusters() == old(AccountedClusters())
      ensures Free() == old(Free()) - {c}
      ensures IsEnd(prev) ==>
                && fat[..] == Claimed(old(fat[..]), c)
                && chains == old(chains)[c := [c]]
      ensures !IsEnd(prev) ==>
                && fat[..] == Extended(old(fat[..]), prev, c)
                && chains == old(chains)[head := old(chains)[head] + [c]]
    {
      hide WellFormed, FreeSet, Accounted, Low28;
      ghost var before := fat[..];
      if IsEnd(prev) {
        ClaimSummary(before, total, chains, c);
        chains := chains[c := [c]];
        fat[c] := END_CLUSTER;
        assert fat[..] == Claimed(before, c);
      } else {
        ExtendSummary(before, total, chains, head, c);
        chains := chains[head := chains[head] + [c]];
        fat[c] := END_CLUSTER;
        fat[prev] := Relink(fat[prev], c);
        assert fat[..] == Extended(before, prev, c);
      }
    }

    /** Release every cluster reachable from `start`, on any table that the walk does not leave. */
    method FreeClusterChain(start: nat)
      requires Contained(fat[..], start)
      modifies this`copies, this`intact, fat
      ensures fat[..] == Freed(old(fat[..]), start)
      ensures intact ==> old(intact)
      ensures reliable ==> intact == old(intact)
      ensures intact && !IsEnd(start) ==> InSync()
    {
      if IsEnd(start) {
        return;
      }
      var cluster := start;
      while !IsEnd(cluster)
        invariant Contained(fat[..], cluster)
        invariant Freed(fat[..], cluster) == Freed(old(fat[..]), start)
        invariant intact == old(intact)
        decreases |UsedEntries(fat[..])|, if IsEnd(cluster) then 0 else 1
      {
        ghost var before := fat[..];
        assert Walk(before, cluster, 0) == cluster;
        ZeroingShrinks(before, cluster);
        ZeroingContains(before, cluster);
        var next := Low28(fat[cluster]);
        fat[cluster] := FREE_CLUSTER;
        assert fat[..] == before[cluster := FREE_CLUSTER];
        cluster := next;
      }
      var flushed := FlushFat();
    }

    /** Freeing a registered chain releases exactly that chain. On a volume that a failed write has left
        damaged the walk must still stay inside the table. */
    method ReleaseChain(head: nat)
      requires (Valid() && head in chains) || Contained(fat[..], head)
      modifies this`copies, this`intact, this`chains, fat
      ensures intact ==> old(intact)
      ensures reliable ==> intact == old(intact)
      ensures old(Valid() && head in chains) ==>
                && Valid() && AccountedClusters() == old(AccountedClusters())
                && chains == old(chains) - {head} && InRange(fat.Length, old(chains)[head])
                && fat[..] == Cleared(old(fat[..]), old(chains)[head])
                && Free() == old(Free()) + Elements(old(chains)[head])
                && (intact ==> InSync())
    {
      hide WellFormed, FreeSet, Accounted, Freed, Contained, Cleared;
      if Valid() && head in chains {
        ReleaseSummary(fat[..], total, chains, head);
      }
      FreeClusterChain(head);
      chains := chains - {head};
    }
  }

  /** Work on the chain at `wasStart` (at `nowStart` afterwards) left every other chain, and every
      cluster not on it, alone. */
  ghost predicate OthersKept(was: Chains, wasDisk: Disk, wasStart: nat, now: Chains, nowDisk: Disk, nowStart: nat)
  {
    && (nowStart == wasStart || (wasStart !in was && nowStart !in was))
    && (forall h :: h in was && h != wasStart ==> h in now && now[h] == was[h])
    && (wasStart in was ==> nowStart in now && was[wasStart] <= now[nowStart])
    && (forall h :: h in now ==> h in was || h == nowStart)
    && (forall c :: c in wasDisk && !OnChain(now, nowStart, c) ==> c in nowDisk && nowDisk[c] == wasDisk[c])
  }

  ghost predicate OnChain(chains: Chains, head: nat, c: nat)
  {
    head in chains && c in chains[head]
  }

  lemma OthersKeptTransitive(c0: Chains, d0: Disk, s0: nat, c1: Chains, d1: Disk, s1: nat, c2: Chains, d2: Disk,
                             s2: nat)
    requires OthersKept(c0, d0, s0, c1, d1, s1) && OthersKept(c1, d1, s1, c2, d2, s2)
    ensures OthersKept(c0, d0, s0, c2, d2, s2)
  {
  }

  /** Positions on a chain fit 32 bits: a table of at most 255 sectors is too small for more. */
  lemma SpanFits(n: nat, cs: nat)
    requires n <= MAX_ENTRIES && cs <= 255 * SECTOR_SIZE
    ensures Span(n, cs) < TWO_32
  {
    SpanIsProduct(n, cs);
    MultiplyMonotone(n, MAX_ENTRIES, cs);
  }

  lemma MultiplyMonotone(a: nat, b: nat, c: nat)
    requires a <= b
    ensures a * c <= b * c
  {
  }

  predicate IsCluster(c: nat, total: nat) { 2 <= c < total }

  lemma LoneChainIsWellFormed(fat: Table, total: nat, c: nat)
    requires 2 <= c < total <= |fat| && total <= END_CLUSTER && fat[c] == END_CLUSTER
    ensures WellFormed(fat, total, map[c := [c]])
  {
    assert IsChain(fat, total, [c]);
  }

  lemma OneClusterBytes(disk: Disk, c: nat)
    requires c in disk
    ensures Bytes(disk, [c]) == disk[c]
  {
    assert [c][1..] == [] && Bytes(disk, []) == [];
    assert disk[c] + [] == disk[c];
  }

  function Zeros(n: nat): (z: seq<byte>)
    ensures |z| == n && forall i :: 0 <= i < n ==> z[i] == 0
  {
    seq(n, _ => 0)
  }
}
