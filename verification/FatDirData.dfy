/** The slots of a directory, laid end to end over its clusters, and where each one is stored. */
module FatDirData {
  import opened Machine
  import opened FatData
  import opened FatSlot
  import opened FatTable

  datatype Location = Location(cluster: nat, index: nat)

  ghost function DirSlots(disk: Disk, chain: seq<nat>): seq<Slot>
  {
    Slots(Bytes(disk, chain))
  }

  /** The cluster and the index in it of slot `at`, with `per` slots to a cluster. */
  function LocationOf(chain: seq<nat>, per: nat, at: nat): (l: Location)
    requires at < Span(|chain|, per)
    ensures l.cluster in chain && l.index < per
  {
    if at < per then Location(chain[0], at) else LocationOf(chain[1..], per, at - per)
  }

  lemma {:induction false} LocationIndex(chain: seq<nat>, per: nat, i: nat, k: nat)
    requires i < |chain| && k < per
    ensures Span(i, per) + k < Span(|chain|, per)
    ensures LocationOf(chain, per, Span(i, per) + k) == Location(chain[i], k)
  {
    SpanMonotone(i, |chain|, per);
    if i > 0 {
      LocationIndex(chain[1..], per, i - 1, k);
    }
  }

  lemma {:induction false} LocationInverse(chain: seq<nat>, per: nat, at: nat) returns (i: nat, k: nat)
    requires at < Span(|chain|, per)
    ensures i < |chain| && k < per && at == Span(i, per) + k
    ensures LocationOf(chain, per, at) == Location(chain[i], k)
  {
    if at < per {
      return 0, at;
    }
    var j;
    j, k := LocationInverse(chain[1..], per, at - per);
    i := j + 1;
  }

  /** Longer chains keep the places of their first slots. */
  lemma {:induction false} LocationStable(chain: seq<nat>, chain': seq<nat>, per: nat, at: nat)
    requires at < Span(|chain|, per) && chain <= chain'
    ensures at < Span(|chain'|, per)
    ensures LocationOf(chain', per, at) == LocationOf(chain, per, at)
  {
    SpanMonotone(|chain|, |chain'|, per);
    if at >= per {
      assert chain[1..] <= chain'[1..];
      LocationStable(chain[1..], chain'[1..], per, at - per);
    }
  }

  lemma {:induction false} SpanSlots(i: nat, cs: nat)
    requires cs % SLOT_SIZE == 0
    ensures Span(i, cs) == SLOT_SIZE * Span(i, cs / SLOT_SIZE)
    ensures Span(i, cs) % SLOT_SIZE == 0 && Span(i, cs) / SLOT_SIZE == Span(i, cs / SLOT_SIZE)
  {
    assert cs == SLOT_SIZE * (cs / SLOT_SIZE);
    if i > 0 {
      SpanSlots(i - 1, cs);
    }
    var n := Span(i, cs / SLOT_SIZE);
    assert Span(i, cs) == SLOT_SIZE * n;
  }

  lemma SlotsAround(disk: Disk, cs: nat, chain: seq<nat>, i: nat)
    requires Shaped(disk, cs, chain) && i < |chain| && cs % SLOT_SIZE == 0
    ensures DirSlots(disk, chain)
            == DirSlots(disk, chain[..i]) + Slots(disk[chain[i]]) + DirSlots(disk, chain[i + 1..])
    ensures |DirSlots(disk, chain[..i])| == Span(i, cs / SLOT_SIZE)
    ensures |Slots(disk[chain[i]])| == cs / SLOT_SIZE
    ensures |DirSlots(disk, chain)| == Span(|chain|, cs / SLOT_SIZE)
  {
    BytesAround(disk, cs, chain, i);
    SpanSlots(i, cs);
    SpanSlots(|chain|, cs);
    BytesLength(disk, cs, chain);
    var pre, b, post := Bytes(disk, chain[..i]), disk[chain[i]], Bytes(disk, chain[i + 1..]);
    SlotsJoin(pre, b);
    SlotsJoin(pre + b, post);
  }

  lemma DirSlotsLength(disk: Disk, cs: nat, chain: seq<nat>)
    requires Shaped(disk, cs, chain) && cs % SLOT_SIZE == 0
    ensures |DirSlots(disk, chain)| == Span(|chain|, cs / SLOT_SIZE)
  {
    SpanSlots(|chain|, cs);
    BytesLength(disk, cs, chain);
  }

  /** The slots up to and including cluster `i`. */
  lemma SlotsNext(disk: Disk, cs: nat, chain: seq<nat>, i: nat)
    requires Shaped(disk, cs, chain) && i < |chain| && cs % SLOT_SIZE == 0
    ensures DirSlots(disk, chain[..i + 1]) == DirSlots(disk, chain[..i]) + Slots(disk[chain[i]])
    ensures DirSlots(disk, chain[..i + 1]) <= DirSlots(disk, chain)
  {
    var c := chain[..i + 1];
    assert c[..i] == chain[..i] && c[i + 1..] == [];
    SlotsAround(disk, cs, c, i);
    SlotsAround(disk, cs, chain, i);
  }

  /** Slot `k` of cluster number `i`. */
  lemma SlotOnDisk(disk: Disk, cs: nat, chain: seq<nat>, i: nat, k: nat)
    requires Shaped(disk, cs, chain) && i < |chain| && cs % SLOT_SIZE == 0 && k < cs / SLOT_SIZE
    ensures Span(i, cs / SLOT_SIZE) + k < |DirSlots(disk, chain)|
    ensures DirSlots(disk, chain)[Span(i, cs / SLOT_SIZE) + k] == SlotAt(disk[chain[i]], k)
  {
    SlotsAround(disk, cs, chain, i);
  }

  /** Rewriting one slot on the device rewrites that slot of the directory. */
  lemma SlotRewrite(disk: Disk, cs: nat, chain: seq<nat>, i: nat, k: nat, s: Slot)
    requires Shaped(disk, cs, chain) && Distinct(chain) && i < |chain|
    requires cs % SLOT_SIZE == 0 && k < cs / SLOT_SIZE
    ensures var disk' := disk[chain[i] := WithSlot(disk[chain[i]], k, s)];
            && Shaped(disk', cs, chain)
            && Span(i, cs / SLOT_SIZE) + k < |DirSlots(disk, chain)|
            && DirSlots(disk', chain) == DirSlots(disk, chain)[Span(i, cs / SLOT_SIZE) + k := s]
  {
    var disk' := disk[chain[i] := WithSlot(disk[chain[i]], k, s)];
    SlotsAround(disk, cs, chain, i);
    SlotsAround(disk', cs, chain, i);
    BytesFrame(disk, disk', chain[..i]);
    BytesFrame(disk, disk', chain[i + 1..]);
    WithSlotSlots(disk[chain[i]], k, s);
    hide Bytes, Slots, WithSlot, Span;
    MiddleUpdate(DirSlots(disk, chain[..i]), Slots(disk[chain[i]]), DirSlots(disk, chain[i + 1..]), k, s);
  }

  lemma MiddleUpdate(pre: seq<Slot>, mid: seq<Slot>, post: seq<Slot>, k: nat, s: Slot)
    requires k < |mid|
    ensures pre + mid[k := s] + post == (pre + mid + post)[|pre| + k := s]
  {
  }

  /** A zeroed cluster behind the directory adds end markers. */
  lemma SlotsGrow(disk: Disk, cs: nat, chain: seq<nat>, c: nat, zeros: seq<byte>)
    requires Shaped(disk, cs, chain) && c !in chain && |zeros| == cs && cs % SLOT_SIZE == 0
    requires forall i :: 0 <= i < |zeros| ==> zeros[i] == 0
    ensures Shaped(disk[c := zeros], cs, chain + [c])
    ensures DirSlots(disk[c := zeros], chain + [c]) == DirSlots(disk, chain) + Slots(zeros)
    ensures forall k :: 0 <= k < |Slots(zeros)| ==> Slots(zeros)[k][0] == MARK_END
  {
    BytesGrow(disk, cs, chain, c, zeros);
    BytesLength(disk, cs, chain);
    SpanSlots(|chain|, cs);
    SlotsJoin(Bytes(disk, chain), zeros);
  }
}
