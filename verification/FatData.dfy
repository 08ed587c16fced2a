/** The data region seen through a chain: the bytes of its clusters laid end to end. */
module FatData {
  import opened Machine

  type Disk = map<nat, seq<byte>>

  /** The bytes in `i` clusters of `cs` bytes, counted cluster by cluster. */
  function Span(i: nat, cs: nat): (n: nat)
  {
    if i == 0 then 0 else Span(i - 1, cs) + cs
  }

  lemma {:induction false} SpanIsProduct(i: nat, cs: nat)
    ensures Span(i, cs) == i * cs
  {
    if i > 0 {
      SpanIsProduct(i - 1, cs);
    }
  }

  lemma {:induction false} SpanMonotone(i: nat, j: nat, cs: nat)
    requires i <= j
    ensures Span(i, cs) <= Span(j, cs)
    ensures i < j ==> Span(i, cs) + cs <= Span(j, cs)
    decreases j
  {
    if i < j {
      SpanMonotone(i, j - 1, cs);
    }
  }

  ghost predicate Shaped(disk: Disk, cs: nat, chain: seq<nat>)
  {
    forall i :: 0 <= i < |chain| ==> chain[i] in disk && |disk[chain[i]]| == cs
  }

  ghost function Bytes(disk: Disk, chain: seq<nat>): seq<byte>
  {
    if chain == [] then [] else
      (if chain[0] in disk then disk[chain[0]] else []) + Bytes(disk, chain[1..])
  }

  lemma {:induction false} BytesLength(disk: Disk, cs: nat, chain: seq<nat>)
    requires Shaped(disk, cs, chain)
    ensures |Bytes(disk, chain)| == Span(|chain|, cs)
  {
    if chain != [] {
      BytesLength(disk, cs, chain[1..]);
    }
  }

  lemma {:induction false} BytesJoin(disk: Disk, a: seq<nat>, b: seq<nat>)
    ensures Bytes(disk, a + b) == Bytes(disk, a) + Bytes(disk, b)
  {
    if a == [] {
      assert a + b == b;
    } else {
      BytesJoin(disk, a[1..], b);
      assert (a + b)[1..] == a[1..] + b;
    }
  }

  lemma {:induction false} BytesFrame(disk: Disk, disk': Disk, chain: seq<nat>)
    requires forall i :: 0 <= i < |chain| ==> chain[i] in disk && chain[i] in disk' && disk'[chain[i]] == disk[chain[i]]
    ensures Bytes(disk', chain) == Bytes(disk, chain)
  {
    if chain != [] {
      BytesFrame(disk, disk', chain[1..]);
    }
  }

  /** The clusters before, at and after position `i`. */
  lemma BytesAround(disk: Disk, cs: nat, chain: seq<nat>, i: nat)
    requires Shaped(disk, cs, chain) && i < |chain|
    ensures Shaped(disk, cs, chain[..i]) && Shaped(disk, cs, chain[i + 1..])
    ensures Bytes(disk, chain)
            == Bytes(disk, chain[..i]) + disk[chain[i]] + Bytes(disk, chain[i + 1..])
    ensures |Bytes(disk, chain[..i])| == Span(i, cs)
  {
    assert chain == chain[..i] + chain[i..];
    assert Shaped(disk, cs, chain[i..]);
    BytesJoin(disk, chain[..i], chain[i..]);
    BytesLength(disk, cs, chain[..i]);
    assert chain[i..][1..] == chain[i + 1..];
  }

  /** One cluster of a chain is a slice of its bytes. */
  lemma ClusterSlice(disk: Disk, cs: nat, chain: seq<nat>, i: nat, from: nat, to: nat)
    requires Shaped(disk, cs, chain) && i < |chain| && from <= to <= cs
    ensures Span(i, cs) + to <= |Bytes(disk, chain)|
    ensures disk[chain[i]][from..to] == Bytes(disk, chain)[Span(i, cs) + from..Span(i, cs) + to]
  {
    BytesAround(disk, cs, chain, i);
    BytesLength(disk, cs, chain);
    SpanMonotone(i, |chain|, cs);
    var pre, post := Bytes(disk, chain[..i]), Bytes(disk, chain[i + 1..]);
    var all := pre + disk[chain[i]] + post;
    assert all[|pre| + from..|pre| + to] == disk[chain[i]][from..to];
  }

  /** `b` with `d` written at `p`. */
  function Splice(b: seq<byte>, p: nat, d: seq<byte>): (r: seq<byte>)
    requires p + |d| <= |b|
    ensures |r| == |b|
    ensures forall i :: 0 <= i < |b| ==> r[i] == if p <= i < p + |d| then d[i - p] else b[i]
  {
    b[..p] + d + b[p + |d|..]
  }

  /** Rewriting part of one cluster rewrites the same part of the chain's bytes, and no other chain
      position, provided the cluster occurs once. */
  lemma ClusterSplice(disk: Disk, cs: nat, chain: seq<nat>, i: nat, o: nat, d: seq<byte>)
    requires Shaped(disk, cs, chain) && i < |chain| && o + |d| <= cs
    requires forall j :: 0 <= j < |chain| && j != i ==> chain[j] != chain[i]
    ensures var disk' := disk[chain[i] := Splice(disk[chain[i]], o, d)];
            && Shaped(disk', cs, chain)
            && Span(i, cs) + o + |d| <= |Bytes(disk, chain)|
            && Bytes(disk', chain) == Splice(Bytes(disk, chain), Span(i, cs) + o, d)
  {
    var disk' := disk[chain[i] := Splice(disk[chain[i]], o, d)];
    BytesAround(disk, cs, chain, i);
    BytesAround(disk', cs, chain, i);
    BytesFrame(disk, disk', chain[..i]);
    BytesFrame(disk, disk', chain[i + 1..]);
    ClusterSlice(disk, cs, chain, i, o, o + |d|);
    var pre, post := Bytes(disk, chain[..i]), Bytes(disk, chain[i + 1..]);
    SpliceMiddle(pre, disk[chain[i]], post, o, d);
  }

  lemma SpliceMiddle(pre: seq<byte>, b: seq<byte>, post: seq<byte>, o: nat, d: seq<byte>)
    requires o + |d| <= |b|
    ensures pre + Splice(b, o, d) + post == Splice(pre + b + post, |pre| + o, d)
  {
  }

  /** Hanging a cluster behind a chain appends its bytes. */
  lemma BytesGrow(disk: Disk, cs: nat, chain: seq<nat>, c: nat, block: seq<byte>)
    requires Shaped(disk, cs, chain) && c !in chain && |block| == cs
    ensures Shaped(disk[c := block], cs, chain + [c])
    ensures Bytes(disk[c := block], chain + [c]) == Bytes(disk, chain) + block
  {
    var disk' := disk[c := block];
    BytesFrame(disk, disk', chain);
    BytesJoin(disk', chain, [c]);
    assert Bytes(disk', [c]) == block + Bytes(disk', []);
  }

  // ---------------------------------------------------------------- a file being overwritten

  /** `now` is `was`, grown by zeros if it is longer, with `d` laid over it at `p`. */
  ghost predicate Overlaid(now: seq<byte>, was: seq<byte>, p: nat, d: seq<byte>)
  {
    && |was| <= |now|
    && p + |d| <= |now|
    && forall i :: 0 <= i < |now| ==>
         now[i] == if p <= i < p + |d| then d[i - p] else if i < |was| then was[i] else 0
  }

  /** Only zeros were added. */
  ghost predicate ZeroExtended(now: seq<byte>, was: seq<byte>)
  {
    Overlaid(now, was, 0, [])
  }

  lemma ZerosExtend(was: seq<byte>, zeros: seq<byte>)
    requires forall i :: 0 <= i < |zeros| ==> zeros[i] == 0
    ensures ZeroExtended(was + zeros, was)
  {
  }

  lemma OverlayNothing(b: seq<byte>, p: nat)
    requires p <= |b|
    ensures Overlaid(b, b, p, [])
  {
  }

  /** One round of the write loop: grow by zeros if need be, then write the next piece. */
  lemma OverlayMore(now: seq<byte>, grown: seq<byte>, was: seq<byte>, p: nat, d: seq<byte>, e: seq<byte>)
    requires Overlaid(now, was, p, d) && ZeroExtended(grown, now) && p + |d| + |e| <= |grown|
    ensures Overlaid(Splice(grown, p + |d|, e), was, p, d + e)
  {
  }

  /** What an overlay means for the visible contents: overwrite at the cursor, extend if it runs past
      the end. */
  lemma OverlaidContents(now: seq<byte>, was: seq<byte>, size: nat, p: nat, d: seq<byte>)
    requires Overlaid(now, was, p, d) && p <= size <= |was|
    ensures var end := p + |d|;
            var size' := if end > size then end else size;
            now[..size'] == was[..p] + d + (if end < size then was[end..size] else [])
  {
    var end := p + |d|;
    var size' := if end > size then end else size;
    var rest := if end < size then was[end..size] else [];
    assert |now[..size']| == |was[..p] + d + rest|;
  }
}
