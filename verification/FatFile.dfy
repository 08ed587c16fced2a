/** An open file: a cursor over the byte sequence stored on its cluster chain. */
module FatFile {
  import opened Machine
  import opened FatTable
  import opened FatData
  import opened FatSlot
  import opened FatVolume

  /** How the handle's cluster fields stand for position `pos`: in cluster number `at` of the chain at
      offset `offset`, possibly resting on its very end, or past the last cluster. */
  ghost predicate Positioned(chain: seq<nat>, cs: nat, start: nat, current: nat, last: nat,
                             at: nat, offset: nat, pos: nat)
  {
    && at <= |chain|
    && offset <= cs
    && pos == Span(at, cs) + offset
    && (at < |chain| ==> current == chain[at])
    && (at == |chain| ==> offset == 0 && (if chain == [] then current < 2 else current == END_CLUSTER))
    && (if chain == [] then start < 2 && last < 2 else start == chain[0] && last == chain[|chain| - 1])
  }

  /** The directory entry of a file starting at `start` sits on another chain of the volume. */
  ghost predicate EntryAt(chains: Chains, cs: nat, start: nat, dirCluster: nat, entryCluster: nat, entryIndex: nat)
  {
    && dirCluster in chains
    && dirCluster != start
    && entryCluster in chains[dirCluster]
    && SLOT_SIZE * entryIndex + SLOT_SIZE <= cs
  }

  lemma PositionedBounds(chain: seq<nat>, cs: nat, start: nat, current: nat, last: nat,
                         at: nat, offset: nat, pos: nat)
    requires Positioned(chain, cs, start, current, last, at, offset, pos)
    ensures pos <= Span(|chain|, cs)
    ensures at == |chain| ==> pos == Span(|chain|, cs)
  {
    SpanMonotone(at, |chain|, cs);
  }

  /** `n` bytes further within the current cluster, and what they are. */
  lemma PositionedMove(disk: Disk, chain: seq<nat>, cs: nat, start: nat, current: nat, last: nat,
                       at: nat, offset: nat, pos: nat, n: nat)
    requires Positioned(chain, cs, start, current, last, at, offset, pos) && Shaped(disk, cs, chain)
    requires at < |chain| && offset + n <= cs
    ensures Positioned(chain, cs, start, current, last, at, offset + n, pos + n)
    ensures current in disk && |disk[current]| == cs && pos + n <= |Bytes(disk, chain)|
    ensures disk[current][offset..offset + n] == Bytes(disk, chain)[pos..pos + n]
  {
    ClusterSlice(disk, cs, chain, at, offset, offset + n);
  }

  /** Follow the link out of an exhausted cluster. */
  lemma PositionedNext(chain: seq<nat>, cs: nat, start: nat, current: nat, last: nat,
                       at: nat, offset: nat, pos: nat, next: nat)
    requires Positioned(chain, cs, start, current, last, at, offset, pos)
    requires at < |chain| && offset == cs
    requires next == if at + 1 < |chain| then chain[at + 1] else END_CLUSTER
    ensures Positioned(chain, cs, start, next, last, at + 1, 0, pos)
  {
  }

  /** `done` bytes of `data` were written at `wasPos`: cursor, size, bytes on the chain, and everybody
      else, compared with the state before. */
  ghost predicate WroteTo(start: nat, size: nat, pos: nat, bytes: seq<byte>, chains: Chains, disk: Disk,
                          was: Chains, wasDisk: Disk, wasStart: nat, wasSize: nat, wasPos: nat,
                          data: seq<byte>, done: nat)
  {
    && done <= |data|
    && pos == wasPos + done
    && size == (if done > 0 && pos > wasSize then pos else wasSize)
    && Overlaid(bytes, Bytes(wasDisk, if wasStart in was then was[wasStart] else []), wasPos, data[..done])
    && OthersKept(was, wasDisk, wasStart, chains, disk, start)
  }

  class OpenFile {
    var start: nat
    var current: nat
    var last: nat
    var size: nat
    var position: nat
    var offset: nat
    const dirCluster: nat
    const entryCluster: nat
    const entryIndex: nat
    ghost var at: nat

    ghost predicate Valid(v: Volume)
      reads this, v, v.fat
    {
      && v.Valid()
      && Positioned(v.ChainOf(start), v.ClusterSize(), start, current, last, at, offset, position)
      && size <= |v.BytesOf(start)|
      && EntryAt(v.chains, v.ClusterSize(), start, dirCluster, entryCluster, entryIndex)
    }

    /** The bytes on the chain; the visible contents are the first `size` of them. */
    ghost function Data(v: Volume): seq<byte>
      reads this, v
    {
      v.BytesOf(start)
    }

    ghost function Contents(v: Volume): seq<byte>
      requires Valid(v)
      reads this, v, v.fat
    {
      Data(v)[..size]
    }

    /** What the handle fields mean, without the definitions behind them. */
    lemma CursorFacts(v: Volume)
      requires Valid(v)
      ensures position <= |Data(v)| && size <= |Data(v)| < TWO_32 && start < TWO_32
      ensures at <= |v.ChainOf(start)| && offset <= v.ClusterSize() && v.ClusterSize() > 0
      ensures at == |v.ChainOf(start)| ==> position == |Data(v)| && offset == 0
      ensures at < |v.ChainOf(start)| ==> current == v.ChainOf(start)[at] && start in v.chains
      ensures v.ChainOf(start) != [] ==> (current < END_CLUSTER <==> at < |v.ChainOf(start)|)
      ensures v.ChainOf(start) == [] ==> |Data(v)| == 0
    {
      v.ChainShape(start);
      PositionedBounds(v.ChainOf(start), v.ClusterSize(), start, current, last, at, offset, position);
      hide Volume.Valid;
    }

    constructor (v: Volume, cluster: nat, size: nat, dirCluster: nat, entryCluster: nat, entryIndex: nat)
      requires v.Valid()
      requires if cluster < 2 then size == 0 else cluster in v.chains && size <= |v.BytesOf(cluster)|
      requires EntryAt(v.chains, v.ClusterSize(), cluster, dirCluster, entryCluster, entryIndex)
      ensures Valid(v) && position == 0
      ensures start == cluster && this.size == size
      ensures this.dirCluster == dirCluster && this.entryCluster == entryCluster && this.entryIndex == entryIndex
    {
      this.start, this.current, this.last := cluster, cluster, cluster;
      this.size, this.position, this.offset := size, 0, 0;
      this.dirCluster, this.entryCluster, this.entryIndex := dirCluster, entryCluster, entryIndex;
      this.at := 0;
      new;
      hide Volume.Valid, EntryAt;
      v.ChainShape(cluster);
      if cluster >= 2 {
        last := v.GetLastCluster(cluster, v.ChainOf(cluster));
      }
    }

    /** Step past an exhausted cluster. */
    method Advance(v: Volume)
      requires Valid(v) && at < |v.ChainOf(start)| && offset == v.ClusterSize()
      modifies this`current, this`offset, this`at
      ensures Valid(v) && at == old(at) + 1 && offset == 0
    {
      hide Volume.Valid, EntryAt, Positioned, Volume.BytesOf;
      CursorFacts(v);
      v.ChainShape(start);
      v.ChainStep(start, at);
      var next := v.GetNextCluster(current);
      PositionedNext(v.ChainOf(start), v.ClusterSize(), start, current, last, at, offset, position, next);
      current, offset, at := next, 0, at + 1;
    }

    /** Read up to `n` bytes at the cursor. `None` is the device refusing a read. */
    method Read(v: Volume, n: uint32) returns (r: Option<seq<byte>>)
      requires Valid(v)
      modifies this`current, this`offset, this`position, this`at
      ensures Valid(v)
      ensures old(position) <= |Data(v)| && size <= |Data(v)|
      ensures r.Some? ==>
                && r.value == ReadResult(Data(v), size, old(position), n)
                && position == old(position) + |r.value|
      ensures v.reliable ==> r.Some?
    {
      hide Valid, Volume.BytesOf, Volume.ChainOf;
      CursorFacts(v);
      if position >= size {
        assert Data(v)[position..position] == [];
        return Some([]);
      }
      var limit := n;
      if Wrap(position + n) > size {
        limit := size - position;
      }
      var failed := v.Fails();
      if failed {
        return None;
      }
      r := ReadLoop(v, limit);
    }

    /** The loop of a read: up to `limit` bytes, cut short only by the end of the chain. */
    method ReadLoop(v: Volume, limit: nat) returns (r: Option<seq<byte>>)
      requires Valid(v) && v.ChainOf(start) != []
      modifies this`current, this`offset, this`position, this`at
      ensures Valid(v)
      ensures r.Some? ==>
                && position == old(position) + |r.value| <= |Data(v)|
                && r.value == Data(v)[old(position)..position]
                && |r.value| <= limit
                && (|r.value| < limit ==> position == |Data(v)|)
      ensures v.reliable ==> r.Some?
    {
      hide Valid, Volume.BytesOf, Volume.ChainOf;
      CursorFacts(v);
      ghost var p0 := position;
      var data: seq<byte> := [];
      while |data| < limit && current < END_CLUSTER
        invariant Valid(v) && |data| <= limit
        invariant position == p0 + |data| <= |Data(v)|
        invariant data == Data(v)[p0..position]
        decreases |v.ChainOf(start)| - at, limit - |data|
      {
        CursorFacts(v);
        var ok, piece := ReadChunk(v, limit - |data|);
        if !ok {
          return None;
        }
        data := data + piece;
      }
      CursorFacts(v);
      return Some(data);
    }

    /** The part of a read that one cluster serves. */
    method ReadChunk(v: Volume, n: nat) returns (ok: bool, piece: seq<byte>)
      requires Valid(v) && at < |v.ChainOf(start)|
      modifies this`current, this`offset, this`position, this`at
      ensures Valid(v)
      ensures ok ==>
                && |piece| <= n
                && position == old(position) + |piece| <= |Data(v)|
                && piece == Data(v)[old(position)..position]
                && ((|piece| == n && at == old(at)) || at == old(at) + 1)
      ensures v.reliable ==> ok
    {
      hide Volume.Valid, EntryAt, Positioned, Distinct, InRange, Shaped, Bytes;
      CursorFacts(v);
      v.ChainShape(start);
      ok, piece := v.ReadCluster(current);
      if !ok {
        return;
      }
      var room := v.ClusterSize() - offset;
      var take := if n < room then n else room;
      PositionedMove(v.disk, v.ChainOf(start), v.ClusterSize(), start, current, last, at, offset, position, take);
      piece := piece[offset..offset + take];
      position, offset := position + take, offset + take;
      if offset >= v.ClusterSize() {
        Advance(v);
      }
    }

    /** Move the cursor, never beyond the end of file. */
    method Seek(v: Volume, target: uint32)
      requires Valid(v)
      modifies this`current, this`offset, this`position, this`at
      ensures Valid(v)
      ensures position == if target > size then size else target
    {
      hide Volume.Valid, EntryAt, Volume.BytesOf;
      v.ChainShape(start);
      var rest: nat := if target > size then size else target;
      current, position, offset, at := start, 0, 0, 0;
      while rest >= v.ClusterSize() && current < END_CLUSTER
        invariant Valid(v) && offset == 0
        invariant position + rest == if target > size then size else target
        decreases rest
      {
        SkipCluster(v);
        rest := rest - v.ClusterSize();
      }
      CursorFacts(v);
      if rest > 0 {
        PositionedMove(v.disk, v.ChainOf(start), v.ClusterSize(), start, current, last, at, offset, position, rest);
      }
      hide Positioned;
      offset := rest;
      position := position + rest;
    }

    /** Skip one whole cluster of the file. */
    method SkipCluster(v: Volume)
      requires Valid(v) && offset == 0 && position + v.ClusterSize() <= size
      modifies this`current, this`position, this`at
      ensures Valid(v) && position == old(position) + v.ClusterSize()
    {
      hide Volume.Valid, EntryAt, Positioned, Volume.BytesOf, Span, Distinct, InRange;
      CursorFacts(v);
      v.ChainShape(start);
      v.ChainStep(start, at);
      PositionedMove(v.disk, v.ChainOf(start), v.ClusterSize(), start, current, last, at, offset, position,
        v.ClusterSize());
      var next := v.GetNextCluster(current);
      PositionedNext(v.ChainOf(start), v.ClusterSize(), start, current, last, at, v.ClusterSize(),
                     position + v.ClusterSize(), next);
      current, position, at := next, position + v.ClusterSize(), at + 1;
    }

    // -------------------------------------------------------------- writing

    /** One more zeroed cluster for this file: behind its tail, or as its first. Returns 0 on failure. */
    method Grow(v: Volume, prev: nat) returns (c: nat)
      requires Valid(v) && v.intact
      requires if v.ChainOf(start) == [] then prev < 2 else v.IsTail(prev, start)
      modifies v, v.fat
      ensures c == 0 && v.intact ==> Valid(v) && v.chains == old(v.chains) && v.disk == old(v.disk)
      ensures c != 0 ==>
                var head := if old(v.ChainOf(start)) == [] then c else start;
                && v.intact && v.Valid()
                && 2 <= c < END_CLUSTER
                && v.ChainOf(head) == old(v.ChainOf(start)) + [c]
                && ZeroExtended(v.BytesOf(head), old(v.BytesOf(start)))
                && |old(v.BytesOf(start))| <= |v.BytesOf(head)|
                && OthersKept(old(v.chains), old(v.disk), start, v.chains, v.disk, head)
                && EntryAt(v.chains, v.ClusterSize(), head, dirCluster, entryCluster, entryIndex)
      ensures v.reliable ==> v.intact && (c == 0 ==> v.Free() == {})
      ensures v.intact ==> v.AccountedClusters() == old(v.AccountedClusters())
    {
      hide Volume.Valid, Positioned, ZeroExtended, Overlaid, Accounted, FreeSet;
      v.ChainShape(start);
      ghost var disk0, chain0, chains0 := v.disk, v.ChainOf(start), v.chains;
      v.FreshClusters();
      ghost var free0 := v.Free();
      c := v.AllocateCluster(prev, start);
      if c != 0 {
        assert c in free0;
        var zeros := Zeros(v.ClusterSize());
        BytesGrow(disk0, v.ClusterSize(), chain0, c, zeros);
        ZerosExtend(Bytes(disk0, chain0), zeros);
      }
    }

    /** Make the cursor rest inside a cluster that can take at least one byte. */
    method EnsureCluster(v: Volume) returns (ok: bool)
      requires Valid(v) && v.intact
      modifies this`start, this`current, this`last, this`offset, this`at, v, v.fat
      ensures !ok && v.intact ==> Valid(v) && v.chains == old(v.chains) && v.disk == old(v.disk) && start == old(start)
      ensures ok ==> CanWrite(v) && Grew(v, old(v.chains), old(v.disk), old(start))
      ensures v.reliable ==> v.intact && (!ok ==> v.Free() == {})
      ensures v.intact ==> v.AccountedClusters() == old(v.AccountedClusters())
    {
      hide Valid, CanWrite, Grew, Accounted, Volume.AccountedClusters;
      if start < 2 {
        ok := StartChain(v);
      } else if IsEnd(current) {
        ok := AppendCluster(v);
      } else if offset >= v.ClusterSize() {
        ok := NextCluster(v);
      } else {
        CursorFacts(v);
        InsideCluster(v);
        ok := true;
      }
    }

    /** Ready to write: the cursor is inside a cluster, before its last byte. */
    ghost predicate CanWrite(v: Volume)
      reads this, v, v.fat
    {
      v.intact && Valid(v) && at < |v.ChainOf(start)| && offset < v.ClusterSize()
    }

    /** Compared with an earlier state the file is the same up to zeros, and the rest is untouched. */
    ghost predicate Grew(v: Volume, was: Chains, wasDisk: Disk, wasStart: nat)
      reads this, v
    {
      && ZeroExtended(Data(v), Bytes(wasDisk, if wasStart in was then was[wasStart] else []))
      && OthersKept(was, wasDisk, wasStart, v.chains, v.disk, start)
    }

    lemma InsideCluster(v: Volume)
      requires Valid(v) && v.intact && start >= 2 && !IsEnd(current) && offset < v.ClusterSize()
      ensures CanWrite(v) && Grew(v, v.chains, v.disk, start)
    {
      hide Volume.Valid, EntryAt;
      ZerosExtend(Data(v), []);
      assert Data(v) + [] == Data(v);
    }

    method StartChain(v: Volume) returns (ok: bool)
      requires Valid(v) && v.intact && start < 2
      modifies this`start, this`current, this`last, this`offset, this`at, v, v.fat
      ensures !ok && v.intact ==> Valid(v) && v.chains == old(v.chains) && v.disk == old(v.disk) && start == old(start)
      ensures ok ==> CanWrite(v) && Grew(v, old(v.chains), old(v.disk), old(start))
      ensures v.reliable ==> v.intact && (!ok ==> v.Free() == {})
      ensures v.intact ==> v.AccountedClusters() == old(v.AccountedClusters())
    {
      hide Volume.Valid, EntryAt, ZeroExtended, OthersKept, Volume.AccountedClusters, Bytes;
      CursorFacts(v);
      v.ChainShape(start);
      var c := Grow(v, start);
      ok := c != 0;
      if ok {
        start, current, last, offset := c, c, c, 0;
        v.ChainShape(start);
      }
    }

    method AppendCluster(v: Volume) returns (ok: bool)
      requires Valid(v) && v.intact && start >= 2 && IsEnd(current)
      modifies this`current, this`last, this`offset, v, v.fat
      ensures !ok && v.intact ==> Valid(v) && v.chains == old(v.chains) && v.disk == old(v.disk)
      ensures ok ==> CanWrite(v) && Grew(v, old(v.chains), old(v.disk), start)
      ensures v.reliable ==> v.intact && (!ok ==> v.Free() == {})
      ensures v.intact ==> v.AccountedClusters() == old(v.AccountedClusters())
    {
      hide Volume.Valid, EntryAt, ZeroExtended, OthersKept, Volume.AccountedClusters, Bytes;
      CursorFacts(v);
      v.ChainShape(start);
      var c := Grow(v, if last >= 2 then last else start);
      ok := c != 0;
      if ok {
        assert !IsEnd(last);
        current, last, offset := c, c, 0;
        v.ChainShape(start);
      }
    }

    method NextCluster(v: Volume) returns (ok: bool)
      requires Valid(v) && v.intact && start >= 2 && !IsEnd(current) && offset >= v.ClusterSize()
      modifies this`current, this`last, this`offset, this`at, v, v.fat
      ensures !ok && v.intact ==> Valid(v) && v.chains == old(v.chains) && v.disk == old(v.disk)
      ensures ok ==> CanWrite(v) && Grew(v, old(v.chains), old(v.disk), start)
      ensures v.reliable ==> v.intact && (!ok ==> v.Free() == {})
      ensures v.intact ==> v.AccountedClusters() == old(v.AccountedClusters())
    {
      hide Volume.Valid, EntryAt, OthersKept, Volume.AccountedClusters, Bytes;
      CursorFacts(v);
      v.ChainShape(start);
      v.ChainStep(start, at);
      var next := Low28(v.fat[current]);
      if IsEnd(next) {
        ok := ExtendAndStep(v);
      } else {
        current, offset, at := next, 0, at + 1;
        InsideCluster(v);
        ok := true;
      }
    }

    /** The exhausted cluster is the last one: grow, then step into the new cluster. */
    method ExtendAndStep(v: Volume) returns (ok: bool)
      requires Valid(v) && v.intact && start >= 2
      requires at + 1 == |v.ChainOf(start)| && offset == v.ClusterSize()
      modifies this`current, this`last, this`offset, this`at, v, v.fat
      ensures !ok && v.intact ==> Valid(v) && v.chains == old(v.chains) && v.disk == old(v.disk)
      ensures ok ==> CanWrite(v) && Grew(v, old(v.chains), old(v.disk), start)
      ensures v.reliable ==> v.intact && (!ok ==> v.Free() == {})
      ensures v.intact ==> v.AccountedClusters() == old(v.AccountedClusters())
    {
      hide Volume.Valid, EntryAt, ZeroExtended, OthersKept, Volume.AccountedClusters, Bytes;
      CursorFacts(v);
      v.ChainShape(start);
      var c := Grow(v, current);
      ok := c != 0;
      if ok {
        last, current, offset, at := c, c, 0, at + 1;
        v.ChainShape(start);
      }
    }

    /** Write as much of `data` as the current cluster takes. Returns 0 if the device refuses. */
    method WriteChunk(v: Volume, data: seq<byte>) returns (n: nat)
      requires CanWrite(v) && data != []
      modifies this`size, this`position, this`offset, v`disk, v`intact
      ensures n != 0 ==> v.intact
      ensures v.reliable ==> v.intact && n != 0
      ensures v.intact ==>
                && Valid(v)
                && n <= |data| && old(position) + n <= |old(Data(v))|
                && Data(v) == Splice(old(Data(v)), old(position), data[..n])
                && position == old(position) + n
                && size == (if n > 0 && position > old(size) then position else old(size))
                && OthersKept(v.chains, old(v.disk), start, v.chains, v.disk, start)
    {
      hide Volume.Valid, EntryAt, Positioned, Bytes, Span, InRange;
      CursorFacts(v);
      v.ChainShape(start);
      ghost var chain, cs := v.ChainOf(start), v.ClusterSize();
      var room := v.ClusterSize() - offset;
      n := if |data| < room then |data| else room;
      PositionedMove(v.disk, chain, cs, start, current, last, at, offset, position, n);
      var block := Zeros(v.ClusterSize());
      if offset != 0 || n < v.ClusterSize() {
        var ok, old_block := v.ReadCluster(current);
        if !ok {
          NoChunk(v, data);
          return 0;
        }
        block := old_block;
      }
      ChunkSplice(v.disk, chain, cs, at, offset, position, data[..n], block);
      block := Splice(block, offset, data[..n]);
      var ok := v.WriteCluster(current, block);
      if !ok {
        return 0;
      }
      offset, position := offset + n, position + n;
      if position > size {
        size := position;
      }
    }

    lemma NoChunk(v: Volume, data: seq<byte>)
      requires position <= |Data(v)|
      ensures Data(v) == Splice(Data(v), position, data[..0])
      ensures OthersKept(v.chains, v.disk, start, v.chains, v.disk, start)
    {
    }

    /** The loop of a write; stops early only on failure. */
    method WriteLoop(v: Volume, data: seq<byte>) returns (done: nat)
      requires Valid(v) && v.intact
      modifies this`start, this`current, this`last, this`offset, this`position, this`size, this`at, v, v.fat
      ensures v.intact ==>
                Written(v, v.disk, old(v.chains), old(v.disk), old(start), old(size), old(position), data, done)
      ensures v.intact ==> v.AccountedClusters() == old(v.AccountedClusters())
      ensures done <= |data| && (done == |data| ==> v.intact)
      ensures v.reliable ==> v.intact && (done < |data| ==> v.Free() == {})
    {
      hide Valid, CanWrite, Grew, Written, Volume.AccountedClusters;
      ghost var chains0, disk0, start0, size0, pos0 := v.chains, v.disk, start, size, position;
      ghost var accounted0 := v.AccountedClusters();
      done := 0;
      NothingWritten(v, data);
      while done < |data|
        invariant v.intact && done <= |data|
        invariant Written(v, v.disk, chains0, disk0, start0, size0, pos0, data, done)
        invariant v.AccountedClusters() == accounted0
      {
        WrittenIsValid(v, v.disk, chains0, disk0, start0, size0, pos0, data, done);
        var ok := WriteRound(v, chains0, disk0, start0, size0, pos0, data, done);
        if ok == 0 {
          return;
        }
        done := done + ok;
      }
    }

    /** The state after `done` bytes of `data` have been written from a given starting state; `view`
        is the disk to compare with. */
    ghost predicate Written(v: Volume, view: Disk, was: Chains, wasDisk: Disk, wasStart: nat, wasSize: nat, wasPos: nat,
                            data: seq<byte>, done: nat)
      reads this, v, v.fat
    {
      && Valid(v)
      && WroteTo(start, size, position, Data(v), v.chains, view, was, wasDisk, wasStart, wasSize, wasPos, data, done)
    }

    lemma WrittenIsValid(v: Volume, view: Disk, was: Chains, wasDisk: Disk, wasStart: nat, wasSize: nat, wasPos: nat,
                         data: seq<byte>, done: nat)
      requires Written(v, view, was, wasDisk, wasStart, wasSize, wasPos, data, done)
      ensures Valid(v)
    {
      hide Valid, WroteTo;
    }

    lemma NothingWritten(v: Volume, data: seq<byte>)
      requires Valid(v)
      ensures Written(v, v.disk, v.chains, v.disk, start, size, position, data, 0)
    {
      hide Volume.Valid, Positioned, EntryAt, Bytes;
      CursorFacts(v);
      OverlayNothing(Data(v), position);
      assert data[..0] == [];
    }

    /** One round of the write loop. Returns the number of bytes written, 0 on failure. */
    method WriteRound(v: Volume, ghost was: Chains, ghost wasDisk: Disk, ghost wasStart: nat, ghost wasSize: nat,
                      ghost wasPos: nat, data: seq<byte>, done: nat) returns (n: nat)
      requires Valid(v) && v.intact && done < |data|
      requires Written(v, v.disk, was, wasDisk, wasStart, wasSize, wasPos, data, done)
      modifies this`start, this`current, this`last, this`offset, this`position, this`size, this`at, v, v.fat
      ensures n == 0 && v.intact ==> Written(v, v.disk, was, wasDisk, wasStart, wasSize, wasPos, data, done)
      ensures n != 0 ==>
                && v.intact && n <= |data| - done
                && Written(v, v.disk, was, wasDisk, wasStart, wasSize, wasPos, data, done + n)
      ensures v.reliable ==> v.intact && (n == 0 ==> v.Free() == {})
      ensures v.intact ==> v.AccountedClusters() == old(v.AccountedClusters())
    {
      hide Valid, Overlaid, OthersKept, ZeroExtended, Bytes, Accounted;
      ghost var chains1, disk1, start1, bytes1 := v.chains, v.disk, start, Data(v);
      var ok := EnsureCluster(v);
      if !ok {
        return 0;
      }
      ghost var chains2, disk2, bytes2 := v.chains, v.disk, Data(v);
      n := WriteChunk(v, data[done..]);
      if v.intact {
        assert data[..done] + data[done..][..n] == data[..done + n];
        assert n == 0 ==> data[..done + n] == data[..done];
        var w := Bytes(wasDisk, if wasStart in was then was[wasStart] else []);
        OverlayMore(bytes1, bytes2, w, wasPos, data[..done], data[done..][..n]);
        OthersKeptTransitive(chains1, disk1, start1, chains2, disk2, start, v.chains, v.disk, start);
        OthersKeptTransitive(was, wasDisk, wasStart, chains1, disk1, start1, v.chains, v.disk, start);
      }
    }

    /** The directory block with this file's start cluster and size stored in its entry. */
    function Recorded(block: seq<byte>): (r: seq<byte>)
      requires SLOT_SIZE * entryIndex + SLOT_SIZE <= |block| && start < TWO_32 && size < TWO_32
      reads this
    {
      WithSlot(block, entryIndex, WithExtent(SlotAt(block, entryIndex), start, size))
    }

    /** Store start cluster and size in the directory entry. */
    method UpdateEntry(v: Volume) returns (ok: bool)
      requires Valid(v) && v.intact
      modifies v`disk, v`intact
      ensures ok ==> v.intact
      ensures v.intact ==> Valid(v) && Data(v) == old(Data(v))
      ensures v.intact ==> entryCluster in old(v.disk) && start < TWO_32 && size < TWO_32
      ensures v.intact ==> SLOT_SIZE * entryIndex + SLOT_SIZE <= |old(v.disk)[entryCluster]| == v.ClusterSize()
      ensures ok ==> v.disk == old(v.disk)[entryCluster := Recorded(old(v.disk)[entryCluster])]
      ensures !ok && v.intact ==> v.disk == old(v.disk)
      ensures v.reliable ==> ok
    {
      hide Volume.Valid, Positioned;
      CursorFacts(v);
      EntryFacts(v);
      v.ChainShape(start);
      v.ChainShape(dirCluster);
      ok := false;
      var failed := v.Fails();
      if failed {
        return;
      }
      var read, block := v.ReadCluster(entryCluster);
      if !read {
        return;
      }
      block := Recorded(block);
      BytesFrame(v.disk, v.disk[entryCluster := block], v.ChainOf(start));
      ok := v.WriteCluster(entryCluster, block);
    }

    lemma EntryFacts(v: Volume)
      requires Valid(v)
      ensures dirCluster in v.chains && entryCluster in v.chains[dirCluster]
      ensures 2 <= entryCluster < v.total && entryCluster in v.disk && |v.disk[entryCluster]| == v.ClusterSize()
      ensures SLOT_SIZE * entryIndex + SLOT_SIZE <= v.ClusterSize()
      ensures entryCluster !in v.ChainOf(start)
    {
      v.ChainShape(dirCluster);
      if start in v.chains {
        assert Disjoint(v.chains[dirCluster], v.chains[start]);
      }
      hide Positioned;
    }

    /** Write at the cursor, overwriting or extending the file. `done` bytes reach the chain; the
        directory entry is brought up to date only when all of them did. */
    method Write(v: Volume, data: seq<byte>) returns (r: int, ghost done: nat)
      requires Valid(v) && v.intact
      modifies this`start, this`current, this`last, this`offset, this`position, this`size, this`at, v, v.fat
      ensures v.intact ==>
                && entryCluster in old(v.disk)
                && Written(v, v.disk[entryCluster := old(v.disk)[entryCluster]], old(v.chains), old(v.disk),
                           old(start), old(size), old(position), data, done)
      ensures v.intact ==> v.AccountedClusters() == old(v.AccountedClusters())
      ensures r >= 0 ==> r == done
      ensures data == [] ==> v.chains == old(v.chains)
      ensures r == |data| ==> v.intact
      ensures v.intact ==> EntryState(v, old(v.disk), r == |data| && data != [])
      ensures v.reliable ==> v.intact && (r == |data| || (v.Free() == {} && r == if done > 0 then done else -1))
    {
      hide Valid, Written, Accounted;
      ghost var disk0 := v.disk;
      EntryFacts(v);
      NothingWritten(v, data);
      done := 0;
      if data == [] {
        SameEntry(v, v.disk, v.chains, start, size, position, data, 0);
        return 0, 0;
      }
      var failed := v.Fails();
      if failed {
        SameEntry(v, v.disk, v.chains, start, size, position, data, 0);
        return -1, 0;
      }
      ghost var chains0, start0, size0, pos0 := v.chains, start, size, position;
      var n := WriteLoop(v, data);
      done := n;
      if v.intact {
        SameEntry(v, disk0, chains0, start0, size0, pos0, data, n);
      }
      if n < |data| {
        return if n > 0 then n else -1, n;
      }
      var ok := RecordExtent(v, disk0, chains0, start0, size0, pos0, data);
      r := if ok then n else -1;
    }

    /** The last step of a write that transferred everything. */
    method RecordExtent(v: Volume, ghost wasDisk: Disk, ghost was: Chains, ghost wasStart: nat, ghost wasSize: nat,
                        ghost wasPos: nat, ghost data: seq<byte>) returns (ok: bool)
      requires v.intact && Written(v, v.disk, was, wasDisk, wasStart, wasSize, wasPos, data, |data|)
      requires entryCluster in wasDisk && EntryState(v, wasDisk, false)
      modifies v`disk, v`intact
      ensures ok ==> v.intact
      ensures v.reliable ==> ok
      ensures v.intact ==>
                && Written(v, v.disk[entryCluster := wasDisk[entryCluster]], was, wasDisk, wasStart, wasSize, wasPos,
                     data, |data|)
                && EntryState(v, wasDisk, ok)
    {
      hide Valid, WroteTo;
      ghost var view := v.disk;
      ok := UpdateEntry(v);
      if v.intact {
        ViewKept(v, view, wasDisk, ok);
      }
    }

    /** A finished loop has not touched the directory entry. */
    lemma SameEntry(v: Volume, wasDisk: Disk, was: Chains, wasStart: nat, wasSize: nat, wasPos: nat,
                    data: seq<byte>, done: nat)
      requires Written(v, v.disk, was, wasDisk, wasStart, wasSize, wasPos, data, done)
      requires entryCluster in wasDisk
      ensures EntryState(v, wasDisk, false)
      ensures v.disk[entryCluster := wasDisk[entryCluster]] == v.disk
    {
      hide Volume.Valid, Positioned, Overlaid;
      EntryFacts(v);
      CursorFacts(v);
    }

    /** Restoring the entry's cluster undoes the entry update. */
    lemma ViewKept(v: Volume, view: Disk, wasDisk: Disk, recorded: bool)
      requires entryCluster in view && entryCluster in wasDisk && view[entryCluster] == wasDisk[entryCluster]
      requires SLOT_SIZE * entryIndex + SLOT_SIZE <= |wasDisk[entryCluster]| && start < TWO_32 && size < TWO_32
      requires v.disk == if recorded then view[entryCluster := Recorded(view[entryCluster])] else view
      ensures v.disk[entryCluster := wasDisk[entryCluster]] == view
      ensures EntryState(v, wasDisk, recorded)
    {
    }

    /** What the directory entry looks like after a write. */
    ghost predicate EntryState(v: Volume, wasDisk: Disk, recorded: bool)
      reads this, v
    {
      && entryCluster in wasDisk && entryCluster in v.disk
      && SLOT_SIZE * entryIndex + SLOT_SIZE <= |wasDisk[entryCluster]|
      && start < TWO_32 && size < TWO_32
      && v.disk[entryCluster] == if recorded then Recorded(wasDisk[entryCluster]) else wasDisk[entryCluster]
    }
  }

  /** The effect of one cluster write on the file's bytes. */
  lemma ChunkSplice(disk: Disk, chain: seq<nat>, cs: nat, at: nat, offset: nat, pos: nat, d: seq<byte>,
                    block: seq<byte>)
    requires Shaped(disk, cs, chain) && Distinct(chain) && at < |chain| && offset + |d| <= cs
    requires pos == Span(at, cs) + offset && |block| == cs
    requires block == disk[chain[at]] || (offset == 0 && |d| == cs)
    ensures var disk' := disk[chain[at] := Splice(block, offset, d)];
            && pos + |d| <= |Bytes(disk, chain)|
            && Bytes(disk', chain) == Splice(Bytes(disk, chain), pos, d)
  {
    ClusterSplice(disk, cs, chain, at, offset, d);
    assert Splice(block, offset, d) == Splice(disk[chain[at]], offset, d);
  }

  /** The byte count after clamping to the end of file, in 32-bit arithmetic. */
  function ReadLimit(size: nat, pos: nat, n: uint32): nat
  {
    if pos >= size then 0 else if Wrap(pos + n) > size then size - pos else n
  }

  /** What a read at `pos` delivers from the chain's bytes. */
  function ReadResult(data: seq<byte>, size: nat, pos: nat, n: uint32): seq<byte>
    requires size <= |data| && pos <= |data|
  {
    var end := pos + ReadLimit(size, pos, n);
    data[pos..if end < |data| then end else |data|]
  }

  /** A read delivers exactly the next min(n, remaining) bytes of the file, unless the 32-bit sum of
      position and count wraps: then the clamp is skipped and the slack of the last cluster leaks
      into the result, which goes unnoticed only when there is no slack. */
  lemma ReadIsExact(data: seq<byte>, size: nat, pos: nat, n: uint32)
    requires pos <= |data| && size <= |data| < TWO_32
    ensures var want := if pos >= size then [] else data[pos..if pos + n < size then pos + n else size];
            ReadResult(data, size, pos, n) == want
            <==> (pos >= size || pos + n < TWO_32 || size == |data|)
  {
    var want := if pos >= size then [] else data[pos..if pos + n < size then pos + n else size];
    var got := ReadResult(data, size, pos, n);
    if pos < size && pos + n >= TWO_32 {
      assert Wrap(pos + n) == pos + n - TWO_32;
      assert |got| == |data| - pos && |want| == size - pos;
    } else if pos < size {
      assert Wrap(pos + n) == pos + n;
    }
  }

  /** For instance, of a file of 100 bytes in a cluster of 512 a read of the largest count at 50 delivers
      the 50 bytes that are left and the 412 behind the end. */
  lemma SlackIsRead(data: seq<byte>)
    requires |data| == 512
    ensures ReadResult(data, 100, 50, 0xFFFF_FFFF) == data[50..512] != data[50..100]
  {
    assert |data[50..512]| != |data[50..100]|;
  }
}
