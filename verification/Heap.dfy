/** The kernel heap: a list of blocks with in-band headers, split on allocation, merged forward on
    release. */
module Heap {
  import opened Machine

  const START := 0x80_0000
  const SIZE := 0x80_0000
  const HEADER := 12
  const SPLIT_MINIMUM := 16

  /** Rounding up to 16 bytes, in 32 bits. */
  function Align16(size: uint32): (n: uint32)
    ensures n % 16 == 0
  {
    Wrap(size + 15) / 16 * 16
  }

  /** The rounded size covers the request except for the last 15 sizes, where the sum wraps to 0. */
  lemma AlignCovers(size: uint32)
    ensures Align16(size) >= size <==> size <= 0xFFFF_FFF0
    ensures size <= 0xFFFF_FFF0 ==> Align16(size) < size + 16
    ensures size > 0xFFFF_FFF0 ==> Align16(size) == 0
  {
    if size <= 0xFFFF_FFF0 {
      assert Wrap(size + 15) == size + 15;
    } else {
      assert Wrap(size + 15) == size + 15 - TWO_32 < 15;
    }
  }

  // ---------------------------------------------------------------- the heap as a sequence of blocks

  datatype Block = Block(size: nat, free: bool)

  /** The bytes that blocks take up, headers included. */
  function Total(b: seq<Block>): (n: nat)
  {
    if b == [] then 0 else HEADER + b[0].size + Total(b[1..])
  }

  ghost predicate Tiled(b: seq<Block>)
  {
    b != [] && Total(b) == SIZE
  }

  /** Where block `i` begins. */
  function At(b: seq<Block>, i: nat): (a: nat)
    requires i <= |b|
    ensures a >= START
  {
    START + Total(b[..i])
  }

  function NextOf(b: seq<Block>, i: nat): (a: nat)
    requires i < |b|
  {
    if i + 1 < |b| then At(b, i + 1) else 0
  }

  lemma {:induction false} TotalJoin(a: seq<Block>, b: seq<Block>)
    ensures Total(a + b) == Total(a) + Total(b)
  {
    if a == [] {
      assert a + b == b;
    } else {
      TotalJoin(a[1..], b);
      assert (a + b)[1..] == a[1..] + b;
    }
  }

  lemma AtNext(b: seq<Block>, i: nat)
    requires i < |b|
    ensures At(b, i + 1) == At(b, i) + HEADER + b[i].size
  {
    TotalJoin(b[..i], [b[i]]);
    assert b[..i + 1] == b[..i] + [b[i]];
    assert Total([b[i]]) == HEADER + b[i].size;
  }

  lemma {:induction false} AtMonotone(b: seq<Block>, i: nat, j: nat)
    requires i < j <= |b|
    ensures At(b, i) + HEADER + b[i].size <= At(b, j)
    decreases j
  {
    AtNext(b, j - 1);
    if i < j - 1 {
      AtMonotone(b, i, j - 1);
    }
  }

  lemma AtBounds(b: seq<Block>, i: nat)
    requires Tiled(b) && i < |b|
    ensures START <= At(b, i) && At(b, i) + HEADER + b[i].size <= START + SIZE
  {
    AtMonotone(b, i, |b|);
    assert b[..|b|] == b;
  }

  /** Blocks do not overlap. */
  lemma BlocksApart(b: seq<Block>, i: nat, j: nat)
    requires i < |b| && j < |b| && i != j
    ensures At(b, i) + HEADER + b[i].size <= At(b, j) || At(b, j) + HEADER + b[j].size <= At(b, i)
  {
    if i < j {
      AtMonotone(b, i, j);
    } else {
      AtMonotone(b, j, i);
    }
  }

  // ---------------------------------------------------------------- live allocations

  /** The live allocations: payload address to payload size. */
  ghost function Live(b: seq<Block>, addr: nat): map<nat, nat>
  {
    if b == [] then map[] else
      var rest := Live(b[1..], addr + HEADER + b[0].size);
      if b[0].free then rest else rest[addr + HEADER := b[0].size]
  }

  lemma {:induction false} LiveBounds(b: seq<Block>, addr: nat)
    ensures forall p :: p in Live(b, addr) ==> addr + HEADER <= p && p + Live(b, addr)[p] <= addr + Total(b)
  {
    if b != [] {
      LiveBounds(b[1..], addr + HEADER + b[0].size);
    }
  }

  lemma {:induction false} LiveJoin(a: seq<Block>, b: seq<Block>, addr: nat)
    ensures Live(a + b, addr) == Live(a, addr) + Live(b, addr + Total(a))
  {
    if a == [] {
      assert a + b == b;
    } else {
      var from := addr + HEADER + a[0].size;
      LiveJoin(a[1..], b, from);
      assert (a + b)[1..] == a[1..] + b;
      LiveBounds(b, addr + Total(a));
      AddFront(Live(a[1..], from), Live(b, addr + Total(a)), addr + HEADER, a[0].size);
    }
  }

  lemma AddFront(front: map<nat, nat>, back: map<nat, nat>, p: nat, size: nat)
    requires p !in back
    ensures (front + back)[p := size] == front[p := size] + back
  {
  }

  /** Every live allocation is the payload of a used block. */
  lemma {:induction false} LiveOwner(b: seq<Block>, addr: nat, p: nat) returns (i: nat)
    requires p in Live(b, addr)
    ensures i < |b| && !b[i].free && p == addr + Total(b[..i]) + HEADER && Live(b, addr)[p] == b[i].size
  {
    if !b[0].free && p == addr + HEADER {
      i := 0;
    } else {
      var j := LiveOwner(b[1..], addr + HEADER + b[0].size, p);
      i := j + 1;
      assert b[..i][1..] == b[1..][..j];
    }
  }

  /** Distinct live payloads never overlap and lie inside the heap. */
  lemma LiveDisjoint(b: seq<Block>, p: nat, q: nat)
    requires Tiled(b) && p in Live(b, START) && q in Live(b, START) && p != q
    ensures START + HEADER <= p && p + Live(b, START)[p] <= START + SIZE
    ensures p + Live(b, START)[p] + HEADER <= q || q + Live(b, START)[q] + HEADER <= p
  {
    var i := LiveOwner(b, START, p);
    var j := LiveOwner(b, START, q);
    BlocksApart(b, i, j);
    AtBounds(b, i);
  }

  // ---------------------------------------------------------------- what the operations do to the blocks

  predicate Fits(b: Block, n: nat) { b.free && b.size >= n }

  function FirstFit(b: seq<Block>, n: nat): (i: nat)
    ensures i <= |b| && (i < |b| ==> Fits(b[i], n)) && forall j :: 0 <= j < i ==> !Fits(b[j], n)
  {
    if b == [] || Fits(b[0], n) then 0 else 1 + FirstFit(b[1..], n)
  }

  /** A free block turned into a used one, with the rest split off if it is worth a block. */
  function Carved(b: Block, n: nat): (r: seq<Block>)
    requires b.size >= n
  {
    if b.size >= n + HEADER + SPLIT_MINIMUM then [Block(n, false), Block(b.size - n - HEADER, true)]
    else [Block(b.size, false)]
  }

  function Allocated(b: seq<Block>, n: nat): seq<Block>
  {
    var i := FirstFit(b, n);
    if i == |b| then b else b[..i] + Carved(b[i], n) + b[i + 1..]
  }

  /** Block `i` marked free and merged with the block behind it if that one is free. */
  function Merged(b: seq<Block>, i: nat): seq<Block>
    requires i < |b|
  {
    if i + 1 < |b| && b[i + 1].free then b[..i] + [Block(b[i].size + b[i + 1].size + HEADER, true)] + b[i + 2..]
    else b[..i] + [Block(b[i].size, true)] + b[i + 1..]
  }

  /** Exchanging a stretch of blocks for one of the same total leaves the total. */
  lemma AroundTotal(b: seq<Block>, i: nat, mid: seq<Block>, k: nat)
    requires i + k <= |b| && Total(mid) == Total(b[i..i + k])
    ensures Total(b[..i] + mid + b[i + k..]) == Total(b)
  {
    var pre, old_mid, post := b[..i], b[i..i + k], b[i + k..];
    assert b == pre + old_mid + post;
    TotalJoin(pre, mid);
    TotalJoin(pre + mid, post);
    TotalJoin(pre, old_mid);
    TotalJoin(pre + old_mid, post);
  }

  /** The live payloads in front of, within and behind a stretch of blocks. */
  lemma AroundLive(b: seq<Block>, i: nat, mid: seq<Block>, post: seq<Block>)
    requires i <= |b|
    ensures Live(b[..i] + mid + post, START)
            == Live(b[..i], START) + Live(mid, At(b, i)) + Live(post, At(b, i) + Total(mid))
  {
    TotalJoin(b[..i], mid);
    LiveJoin(b[..i], mid, START);
    LiveJoin(b[..i] + mid, post, START);
  }

  lemma AroundBlock(b: seq<Block>, i: nat, mid: seq<Block>, k: nat)
    requires i + k <= |b| && Total(mid) == Total(b[i..i + k])
    ensures Total(b[..i] + mid + b[i + k..]) == Total(b)
    ensures Live(b[..i] + mid + b[i + k..], START)
            == Live(b[..i], START) + Live(mid, At(b, i)) + Live(b[i + k..], At(b, i) + Total(mid))
    ensures Live(b, START)
            == Live(b[..i], START) + Live(b[i..i + k], At(b, i)) + Live(b[i + k..], At(b, i) + Total(mid))
  {
    hide Total, Live, At;
    AroundTotal(b, i, mid, k);
    AroundLive(b, i, mid, b[i + k..]);
    AroundLive(b, i, b[i..i + k], b[i + k..]);
    assert b == b[..i] + b[i..i + k] + b[i + k..];
  }

  lemma AddMiddle(pre: map<nat, nat>, post: map<nat, nat>, p: nat, size: nat)
    requires p !in pre && p !in post
    ensures p !in pre + map[] + post && pre + map[p := size] + post == (pre + map[] + post)[p := size]
  {
  }

  lemma DropMiddle(pre: map<nat, nat>, post: map<nat, nat>, p: nat, size: nat)
    requires p !in pre && p !in post
    ensures pre + map[] + post == (pre + map[p := size] + post) - {p}
  {
  }

  /** Neither side of block `i` has a payload at its payload address. */
  lemma SidesApart(b: seq<Block>, i: nat, k: nat, addr: nat)
    requires i + k <= |b| && addr > At(b, i)
    ensures At(b, i) + HEADER !in Live(b[..i], START) && At(b, i) + HEADER !in Live(b[i + k..], addr)
  {
    LiveBounds(b[..i], START);
    LiveBounds(b[i + k..], addr);
  }

  /** How many bytes the block handed out for `n` has. */
  ghost function SizeGiven(b: seq<Block>, n: nat): nat
    requires FirstFit(b, n) < |b|
  {
    Carved(b[FirstFit(b, n)], n)[0].size
  }

  /** Allocation keeps the tiling and every live block, and adds one of at least the rounded size. */
  lemma AllocateKeeps(b: seq<Block>, n: nat)
    requires Tiled(b)
    ensures Tiled(Allocated(b, n))
    ensures var i := FirstFit(b, n);
            if i == |b| then Allocated(b, n) == b else
              var p := At(b, i) + HEADER;
              && p !in Live(b, START) && Live(Allocated(b, n), START) == Live(b, START)[p := SizeGiven(b, n)]
              && n <= SizeGiven(b, n) < n + HEADER + SPLIT_MINIMUM
  {
    hide Total, Live, FirstFit, Carved, At;
    var i := FirstFit(b, n);
    if i < |b| {
      var mid := Carved(b[i], n);
      var p := At(b, i) + HEADER;
      OneBlock(b, i);
      CarvedTotal(b[i], n, At(b, i));
      AroundBlock(b, i, mid, 1);
      SidesApart(b, i, 1, At(b, i) + Total(mid));
      AddMiddle(Live(b[..i], START), Live(b[i + 1..], At(b, i) + Total(mid)), p, SizeGiven(b, n));
    }
  }

  lemma OneBlock(b: seq<Block>, i: nat)
    requires i < |b|
    ensures Total(b[i..i + 1]) == HEADER + b[i].size
    ensures Live(b[i..i + 1], At(b, i)) == if b[i].free then map[] else map[At(b, i) + HEADER := b[i].size]
  {
    assert b[i..i + 1] == [b[i]];
  }

  lemma CarvedTotal(b: Block, n: nat, addr: nat)
    requires b.size >= n
    ensures Total(Carved(b, n)) == HEADER + b.size
    ensures Live(Carved(b, n), addr) == map[addr + HEADER := Carved(b, n)[0].size]
    ensures n <= Carved(b, n)[0].size < n + HEADER + SPLIT_MINIMUM && !Carved(b, n)[0].free
  {
    var c := Carved(b, n);
    if |c| == 2 {
      assert c[1..] == [c[1]] && c[1..][1..] == [];
      assert Total(c[1..]) == HEADER + c[1].size;
      assert Live(c[1..], addr + HEADER + c[0].size) == map[];
    } else {
      assert c[1..] == [];
    }
  }

  /** Release keeps the tiling and every live block but the released one. */
  lemma ReleaseKeeps(b: seq<Block>, i: nat)
    requires Tiled(b) && i < |b| && !b[i].free
    ensures Tiled(Merged(b, i))
    ensures Live(Merged(b, i), START) == Live(b, START) - {At(b, i) + HEADER}
  {
    hide Total, Live, At;
    var k := if i + 1 < |b| && b[i + 1].free then 2 else 1;
    var size := if k == 2 then b[i].size + b[i + 1].size + HEADER else b[i].size;
    FreeBlock(size, At(b, i));
    if k == 2 {
      TwoBlocks(b, i);
    } else {
      OneBlock(b, i);
    }
    AroundBlock(b, i, [Block(size, true)], k);
    SidesApart(b, i, k, At(b, i) + HEADER + size);
    DropMiddle(Live(b[..i], START), Live(b[i + k..], At(b, i) + HEADER + size), At(b, i) + HEADER, b[i].size);
  }

  ghost predicate NoFreeNeighbours(b: seq<Block>)
  {
    forall j :: 0 <= j && j + 1 < |b| ==> !(b[j].free && b[j + 1].free)
  }

  /** Merging looks forward only: free neighbours stay apart exactly when the block in front of the
      released one was free. */
  lemma MergesForwardOnly(b: seq<Block>, i: nat)
    requires NoFreeNeighbours(b) && i < |b| && !b[i].free
    ensures NoFreeNeighbours(Merged(b, i)) <==> i == 0 || !b[i - 1].free
  {
    var m := Merged(b, i);
    var k := if i + 1 < |b| && b[i + 1].free then 2 else 1;
    assert forall j :: 0 <= j < i ==> m[j] == b[j];
    assert forall j :: i < j < |m| ==> m[j] == b[j - 1 + k];
    assert m[i].free;
    if i > 0 && b[i - 1].free {
      assert m[i - 1].free && m[i - 1 + 1].free;
    } else {
      forall j | 0 <= j && j + 1 < |m|
        ensures !(m[j].free && m[j + 1].free)
      {
        if j + 1 < i {
          assert !(b[j].free && b[j + 1].free);
        } else if j >= i {
          assert j - 1 + k + 1 < |b| && !(b[j - 1 + k].free && b[j - 1 + k + 1].free);
        }
      }
    }
  }

  /** For instance, releasing the middle one of three blocks behind a free one. */
  lemma FreeNeighboursRemain()
    ensures var b := [Block(16, true), Block(16, false), Block(SIZE - 68, false)];
            Tiled(b) && NoFreeNeighbours(b) && !NoFreeNeighbours(Merged(b, 1))
  {
    var b := [Block(16, true), Block(16, false), Block(SIZE - 68, false)];
    assert b[1..] == [Block(16, false), Block(SIZE - 68, false)];
    assert b[1..][1..] == [Block(SIZE - 68, false)];
    assert b[1..][1..][1..] == [];
    assert Total(b[1..][1..]) == SIZE - 56;
    MergesForwardOnly(b, 1);
  }

  lemma FreeBlock(size: nat, addr: nat)
    ensures Total([Block(size, true)]) == HEADER + size && Live([Block(size, true)], addr) == map[]
  {
  }

  lemma TwoBlocks(b: seq<Block>, i: nat)
    requires i + 1 < |b| && !b[i].free && b[i + 1].free
    ensures Total(b[i..i + 2]) == HEADER + b[i].size + HEADER + b[i + 1].size
    ensures Live(b[i..i + 2], At(b, i)) == map[At(b, i) + HEADER := b[i].size]
  {
    var mid := b[i..i + 2];
    assert mid[1..] == [b[i + 1]];
    FreeBlock(b[i + 1].size, At(b, i) + HEADER + b[i].size);
    assert b[i + 1] == Block(b[i + 1].size, true);
  }

  // ---------------------------------------------------------------- accounting

  function UsedBytes(b: seq<Block>): nat
  {
    if b == [] then 0 else (if b[0].free then 0 else b[0].size) + UsedBytes(b[1..])
  }

  function FreeBytes(b: seq<Block>): nat
  {
    if b == [] then 0 else (if b[0].free then b[0].size else 0) + FreeBytes(b[1..])
  }

  function UsedBlocks(b: seq<Block>): nat
  {
    if b == [] then 0 else (if b[0].free then 0 else 1) + UsedBlocks(b[1..])
  }

  /** Used bytes, free bytes and headers make up everything. */
  lemma {:induction false} BytesAddUp(b: seq<Block>)
    ensures UsedBytes(b) + FreeBytes(b) + HEADER * |b| == Total(b) && UsedBlocks(b) <= |b|
  {
    if b != [] {
      BytesAddUp(b[1..]);
    }
  }

  ghost predicate IsLargest(b: seq<Block>, n: nat)
  {
    && (forall i :: 0 <= i < |b| && b[i].free ==> b[i].size <= n)
    && (n == 0 || exists i :: 0 <= i < |b| && b[i].free && b[i].size == n)
  }

  /** One more block counted. */
  lemma {:induction false} CountNext(b: seq<Block>, i: nat)
    requires i < |b|
    ensures UsedBytes(b[..i + 1]) == UsedBytes(b[..i]) + (if b[i].free then 0 else b[i].size)
    ensures FreeBytes(b[..i + 1]) == FreeBytes(b[..i]) + (if b[i].free then b[i].size else 0)
    ensures UsedBlocks(b[..i + 1]) == UsedBlocks(b[..i]) + (if b[i].free then 0 else 1)
  {
    if i > 0 {
      CountNext(b[1..], i - 1);
      assert b[..i + 1][1..] == b[1..][..i] && b[..i][1..] == b[1..][..i - 1];
    } else {
      assert b[..1][1..] == [];
    }
  }

  // ---------------------------------------------------------------- runs

  datatype Request = Malloc(size: uint32) | Free(p: nat) | Realloc(p: nat, size: uint32)

  /** What a request does to the blocks. Only live pointers are freed; any other is a null pointer. */
  ghost function Served(b: seq<Block>, q: Request): seq<Block>
  {
    match q
    case Malloc(size) => if size == 0 then b else Allocated(b, Align16(size))
    case Free(p) => Released(b, p)
    case Realloc(p, size) =>
      if size == 0 then Released(b, p)
      else if p !in Live(b, START) then Allocated(b, Align16(size))
      else if Live(b, START)[p] >= size || FirstFit(b, Align16(size)) == |b| then b
      else Released(Allocated(b, Align16(size)), p)
  }

  ghost function Released(b: seq<Block>, p: nat): seq<Block>
  {
    if p in Live(b, START) then Merged(b, BlockOf(b, p)) else b
  }

  /** No request to resize copies more than its new block takes. The rounded size of the last 15 sizes
      is 0, so that the first free block is taken whatever its size. */
  ghost predicate CopyFits(b: seq<Block>, p: nat, size: uint32)
  {
    || size <= 0xFFFF_FFF0 || p !in Live(b, START)
    || FirstFit(b, Align16(size)) == |b| || Live(b, START)[p] <= SizeGiven(b, Align16(size))
  }

  ghost predicate Safe(b: seq<Block>, q: Request)
  {
    q.Realloc? ==> CopyFits(b, q.p, q.size)
  }

  /** From a heap with a free block of 16 bytes behind a live one of 64, a resize to one of the last 15
      sizes copies 64 bytes into 16. */
  lemma CopyOverruns(size: uint32)
    requires size > 0xFFFF_FFF0
    ensures var b := [Block(64, false), Block(16, true), Block(SIZE - 116, false)];
            && Tiled(b)
            && START + HEADER in Live(b, START) && Live(b, START)[START + HEADER] == 64
            && FirstFit(b, Align16(size)) == 1 && SizeGiven(b, Align16(size)) == 16
            && !CopyFits(b, START + HEADER, size)
  {
    AlignCovers(size);
    var b := [Block(64, false), Block(16, true), Block(SIZE - 116, false)];
    assert b[1..] == [Block(16, true), Block(SIZE - 116, false)];
    assert b[1..][1..] == [Block(SIZE - 116, false)];
    assert b[1..][1..][1..] == [];
    assert Fits(b[1], 0);
    assert FirstFit(b, 0) == 1 + FirstFit(b[1..], 0);
    assert Total(b[1..][1..]) == SIZE - 104;
    assert Total(b[1..]) == SIZE - 76;
    assert Tiled(b);
    LiveBounds(b[1..], START + HEADER + 64);
    assert Live(b, START)[START + HEADER] == 64;
    assert FirstFit(b[1..], 0) == 0;
    assert SizeGiven(b, 0) == 16;
  }

  /** The block whose payload starts at a live pointer. */
  ghost function BlockOf(b: seq<Block>, p: nat): (i: nat)
    requires p in Live(b, START)
    ensures i < |b| && !b[i].free && p == At(b, i) + HEADER && Live(b, START)[p] == b[i].size
  {
    SomeOwner(b, p);
    var i: nat :| Holds(b, i, p);
    i
  }

  ghost predicate Holds(b: seq<Block>, i: nat, p: nat)
  {
    i < |b| && !b[i].free && p == At(b, i) + HEADER && p in Live(b, START) && Live(b, START)[p] == b[i].size
  }

  lemma SomeOwner(b: seq<Block>, p: nat)
    requires p in Live(b, START)
    ensures exists i: nat :: Holds(b, i, p)
  {
    var i := LiveOwner(b, START, p);
    assert Holds(b, i, p);
  }

  ghost function ServedAll(b: seq<Block>, qs: seq<Request>): seq<Block>
  {
    if qs == [] then b else Served(ServedAll(b, qs[..|qs| - 1]), qs[|qs| - 1])
  }

  const FRESH := [Block(SIZE - HEADER, true)]

  ghost predicate NoFit(b: seq<Block>, n: nat)
  {
    forall i :: 0 <= i < |b| ==> !Fits(b[i], n)
  }

  /** One live allocation more, of at least `n` bytes; the others are the same. */
  ghost predicate Granted(was: map<nat, nat>, now: map<nat, nat>, p: nat, n: nat)
  {
    p !in was && p in now && now == was[p := now[p]] && now[p] >= n
  }

  /** What a request means for the live allocations, and when it is refused. */
  ghost predicate Means(b: seq<Block>, q: Request, b': seq<Block>)
  {
    var was, now := Live(b, START), Live(b', START);
    match q
    case Malloc(size) =>
      if size == 0 || NoFit(b, Align16(size)) then b' == b else exists p :: Granted(was, now, p, Align16(size))
    case Free(p) => now == was - {p}
    case Realloc(p, size) =>
      if size == 0 then now == was - {p}
      else if p in was && was[p] >= size then b' == b
      else if NoFit(b, Align16(size)) then b' == b
      else exists r :: Granted(was - {p}, now, r, Align16(size)) && r !in was && (p in was ==> now[r] >= was[p])
  }

  lemma FitsNowhere(b: seq<Block>, n: nat)
    ensures FirstFit(b, n) == |b| <==> NoFit(b, n)
  {
    hide Fits, FirstFit;
    assert FirstFit(b, n) < |b| ==> Fits(b[FirstFit(b, n)], n);
  }

  lemma ReleasedMeans(b: seq<Block>, p: nat)
    requires Tiled(b)
    ensures Tiled(Released(b, p)) && Live(Released(b, p), START) == Live(b, START) - {p}
  {
    hide Total, Live, Merged;
    if p in Live(b, START) {
      ReleaseKeeps(b, BlockOf(b, p));
    }
  }

  lemma AllocatedMeans(b: seq<Block>, n: nat) returns (p: nat)
    requires Tiled(b)
    ensures Tiled(Allocated(b, n))
    ensures if NoFit(b, n) then Allocated(b, n) == b
            else Granted(Live(b, START), Live(Allocated(b, n), START), p, n) && FirstFit(b, n) < |b|
                 && Live(Allocated(b, n), START)[p] == SizeGiven(b, n)
  {
    hide Total, Live, Allocated, FirstFit, Carved, SizeGiven;
    FitsNowhere(b, n);
    AllocateKeeps(b, n);
    p := if FirstFit(b, n) < |b| then At(b, FirstFit(b, n)) + HEADER else 0;
  }

  lemma ServedMeans(b: seq<Block>, q: Request)
    requires Tiled(b) && Safe(b, q)
    ensures Tiled(Served(b, q)) && Means(b, q, Served(b, q))
  {
    hide Tiled, Live, Allocated, Released, NoFit, FirstFit, SizeGiven, Align16;
    match q {
      case Malloc(size) =>
        var p := AllocatedMeans(b, Align16(size));
      case Free(p) =>
        ReleasedMeans(b, p);
      case Realloc(p, size) =>
        ReleasedMeans(b, p);
        if size != 0 {
          ResizedMeans(b, p, size);
        }
    }
  }

  lemma ResizedMeans(b: seq<Block>, p: nat, size: uint32)
    requires Tiled(b) && CopyFits(b, p, size) && size != 0
    ensures Tiled(Served(b, Realloc(p, size))) && Means(b, Realloc(p, size), Served(b, Realloc(p, size)))
  {
    hide Tiled, Live, Allocated, Released, NoFit, FirstFit, SizeGiven, Align16;
    var n, was := Align16(size), Live(b, START);
    AlignCovers(size);
    FitsNowhere(b, n);
    var r := AllocatedMeans(b, n);
    ReleasedMeans(Allocated(b, n), p);
    if !NoFit(b, n) && (p !in was || was[p] < size) {
      var now := Live(Served(b, Realloc(p, size)), START);
      assert p in was ==> now == (was - {p})[r := now[r]];
      assert p !in was ==> was - {p} == was;
      assert Granted(was - {p}, now, r, n);
    }
  }

  /** Over every run of requests from the initial heap, resizes to the last 15 sizes that overrun their
      block left out, the blocks tile the heap, nothing is lost, live payloads never overlap, and every
      request means what it should: it is refused exactly when no free block fits, and leaves all other
      allocations as they are. */
  lemma {:induction false} RunTiles(qs: seq<Request>)
    requires forall i :: 0 <= i < |qs| ==> Safe(ServedAll(FRESH, qs[..i]), qs[i])
    ensures var b := ServedAll(FRESH, qs);
            && Tiled(b)
            && UsedBytes(b) + FreeBytes(b) + HEADER * |b| == SIZE
            && forall p, q :: p in Live(b, START) && q in Live(b, START) && p != q ==>
                 p + Live(b, START)[p] <= q || q + Live(b, START)[q] <= p
    ensures qs != [] ==> Means(ServedAll(FRESH, qs[..|qs| - 1]), qs[|qs| - 1], ServedAll(FRESH, qs))
  {
    hide Total, Live, Served, Means, Safe;
    if qs == [] {
      FreeBlock(SIZE - HEADER, START);
    } else {
      var front := qs[..|qs| - 1];
      assert forall i :: 0 <= i < |front| ==> front[..i] == qs[..i];
      RunTiles(front);
      ServedMeans(ServedAll(FRESH, front), qs[|qs| - 1]);
    }
    var b := ServedAll(FRESH, qs);
    BytesAddUp(b);
    forall p, q | p in Live(b, START) && q in Live(b, START) && p != q
      ensures p + Live(b, START)[p] <= q || q + Live(b, START)[q] <= p
    {
      LiveDisjoint(b, p, q);
    }
  }

  // ---------------------------------------------------------------- the heap in memory

  datatype Header = Header(size: nat, next: nat, free: bool)

  /** The headers in memory are the linked list of the blocks. */
  ghost predicate Chained(headers: map<nat, Header>, b: seq<Block>)
  {
    forall i :: 0 <= i < |b| ==> HeaderIs(headers, b, i)
  }

  ghost predicate HeaderIs(headers: map<nat, Header>, b: seq<Block>, i: nat)
    requires i < |b|
  {
    At(b, i) in headers && headers[At(b, i)] == Header(b[i].size, NextOf(b, i), b[i].free)
  }

  /** The bytes of every live allocation are the same. */
  ghost predicate SameBytes(live: map<nat, nat>, was: seq<byte>, now: seq<byte>)
  {
    forall p :: p in live ==> SameRange(was, now, p - START, live[p])
  }

  ghost predicate SameRange(was: seq<byte>, now: seq<byte>, from: int, n: nat)
  {
    && 0 <= from && from + n <= |was| == |now|
    && now[from..from + n] == was[from..from + n]
  }

  /** Addresses in front of and behind a rearranged stretch stay. */
  lemma AddressesKept(b: seq<Block>, i: nat, mid: seq<Block>, k: nat)
    requires i + k <= |b| && Total(mid) == Total(b[i..i + k])
    ensures var b' := b[..i] + mid + b[i + k..];
            && (forall j :: 0 <= j <= i ==> At(b', j) == At(b, j))
            && (forall j :: i + k <= j <= |b| ==> At(b', j - k + |mid|) == At(b, j))
  {
    hide Total;
    var b' := b[..i] + mid + b[i + k..];
    forall j | 0 <= j <= i
      ensures At(b', j) == At(b, j)
    {
      assert b'[..j] == b[..j];
    }
    forall j | i + k <= j <= |b|
      ensures At(b', j - k + |mid|) == At(b, j)
    {
      var tail := b[i + k..j];
      assert b[..j] == b[..i] + b[i..i + k] + tail;
      assert b'[..j - k + |mid|] == b[..i] + mid + tail;
      SameTotals(b[..i], b[i..i + k], mid, tail);
    }
  }

  lemma SameTotals(pre: seq<Block>, a: seq<Block>, mid: seq<Block>, tail: seq<Block>)
    requires Total(mid) == Total(a)
    ensures Total(pre + a + tail) == Total(pre + mid + tail)
  {
    TotalJoin(pre, a);
    TotalJoin(pre + a, tail);
    TotalJoin(pre, mid);
    TotalJoin(pre + mid, tail);
  }

  /** Rewriting the headers of one stretch only keeps the list. */
  lemma ChainedAround(was: map<nat, Header>, now: map<nat, Header>, b: seq<Block>, i: nat, mid: seq<Block>, k: nat)
    requires Chained(was, b) && k > 0 && i + k <= |b| && Total(mid) == Total(b[i..i + k]) && mid != []
    requires forall a :: a in was && (a < At(b, i) || a >= At(b, i + k)) ==> a in now && now[a] == was[a]
    requires var b' := b[..i] + mid + b[i + k..]; forall j :: i <= j < i + |mid| ==> HeaderIs(now, b', j)
    ensures Chained(now, b[..i] + mid + b[i + k..])
  {
    hide Total, At;
    var b' := b[..i] + mid + b[i + k..];
    AddressesKept(b, i, mid, k);
    forall j | 0 <= j < |b'|
      ensures HeaderIs(now, b', j)
    {
      if j < i {
        AtMonotone(b, j, i);
        assert HeaderIs(was, b, j);
        assert At(b', j + 1) == At(b, j + 1);
      } else if j >= i + |mid| {
        var j' := j - |mid| + k;
        assert HeaderIs(was, b, j');
        assert At(b', j' - k + |mid|) == At(b, j') && At(b', j' + 1 - k + |mid|) == At(b, j' + 1);
        if j' > i + k {
          AtMonotone(b, i + k, j');
        }
      }
    }
  }

  /** Taking a block without splitting it. */
  lemma ChainedTake(headers: map<nat, Header>, b: seq<Block>, i: nat)
    requires Chained(headers, b) && i < |b|
    ensures var mid := [Block(b[i].size, false)];
            && At(b, i) in headers
            && Chained(headers[At(b, i) := headers[At(b, i)].(free := false)], b[..i] + mid + b[i + 1..])
  {
    hide Total, At;
    var mid := [Block(b[i].size, false)];
    assert HeaderIs(headers, b, i);
    SameTotal(b, i, mid);
    AddressesKept(b, i, mid, 1);
    AtMonotone(b, i, i + 1);
    ChainedAround(headers, headers[At(b, i) := headers[At(b, i)].(free := false)], b, i, mid, 1);
  }

  lemma SameTotal(b: seq<Block>, i: nat, mid: seq<Block>)
    requires i < |b| && |mid| == 1 && mid[0].size == b[i].size
    ensures Total(mid) == Total(b[i..i + 1])
  {
    assert b[i..i + 1] == [b[i]];
  }

  /** Splitting a block and taking its front. */
  lemma ChainedSplit(headers: map<nat, Header>, b: seq<Block>, i: nat, n: nat)
    requires Chained(headers, b) && i < |b| && b[i].size >= n + HEADER + SPLIT_MINIMUM
    ensures var a, cut := At(b, i), At(b, i) + HEADER + n;
            var mid := [Block(n, false), Block(b[i].size - n - HEADER, true)];
            && a in headers
            && var rest := Header(b[i].size - n - HEADER, headers[a].next, true);
               Chained(headers[cut := rest][a := Header(n, cut, false)], b[..i] + mid + b[i + 1..])
  {
    hide Total, At;
    var mid := [Block(n, false), Block(b[i].size - n - HEADER, true)];
    var b' := b[..i] + mid + b[i + 1..];
    assert HeaderIs(headers, b, i);
    CarvedTotal(b[i], n, START);
    OneBlock(b, i);
    AddressesKept(b, i, mid, 1);
    AtNext(b, i);
    AtNext(b', i);
    assert At(b', i + 1 - 1 + 2) == At(b, i + 1);
    var a, cut := At(b, i), At(b, i) + HEADER + n;
    var now := headers[cut := Header(b[i].size - n - HEADER, headers[a].next, true)][a := Header(n, cut, false)];
    assert HeaderIs(now, b', i + 0);
    assert HeaderIs(now, b', i + 1);
    ChainedAround(headers, now, b, i, mid, 1);
  }

  /** Releasing a block, alone or together with the free block behind it. */
  lemma ChainedMerge(headers: map<nat, Header>, b: seq<Block>, i: nat)
    requires Chained(headers, b) && i < |b|
    ensures var a := At(b, i);
            && a in headers
            && (i + 1 < |b| ==>
                 && headers[a].next in headers
                 && headers[headers[a].next] == Header(b[i + 1].size, NextOf(b, i + 1), b[i + 1].free))
            && (headers[a].next != 0 <==> i + 1 < |b|)
            && Chained(headers[a := if i + 1 < |b| && b[i + 1].free
                                    then Header(b[i].size + b[i + 1].size + HEADER, NextOf(b, i + 1), true)
                                    else headers[a].(free := true)],
                       Merged(b, i))
  {
    hide Total, At;
    var k := if i + 1 < |b| && b[i + 1].free then 2 else 1;
    var size := if k == 2 then b[i].size + b[i + 1].size + HEADER else b[i].size;
    var mid := [Block(size, true)];
    assert HeaderIs(headers, b, i);
    assert i + 1 < |b| ==> HeaderIs(headers, b, i + 1);
    FreeBlock(size, START);
    if k == 2 {
      StretchTotal(b, i);
    } else {
      OneBlock(b, i);
    }
    AddressesKept(b, i, mid, k);
    AtMonotone(b, i, i + k);
    var now := headers[At(b, i) := Header(size, NextOf(b, i + k - 1), true)];
    assert At(b[..i] + mid + b[i + k..], i + k - k + 1) == At(b, i + k);
    assert HeaderIs(now, b[..i] + mid + b[i + k..], i + 0);
    ChainedAround(headers, now, b, i, mid, k);
  }

  lemma StretchTotal(b: seq<Block>, i: nat)
    requires i + 1 < |b|
    ensures Total(b[i..i + 2]) == HEADER + b[i].size + HEADER + b[i + 1].size
  {
    assert b[i..i + 2] == [b[i]] + [b[i + 1]];
    TotalJoin([b[i]], [b[i + 1]]);
    assert b[i..i + 2][1..] == [b[i + 1]];
  }

  /** Writes inside block `i` leave every other payload alone. */
  lemma PayloadsKept(b: seq<Block>, i: nat, was: seq<byte>, now: seq<byte>)
    requires Tiled(b) && i < |b| && |was| == |now| == SIZE
    requires forall k :: 0 <= k < SIZE && !(At(b, i) - START <= k < At(b, i) - START + HEADER + b[i].size) ==>
               now[k] == was[k]
    ensures SameBytes(Live(b, START) - {At(b, i) + HEADER}, was, now)
  {
    hide Total, At, Live;
    var live := Live(b, START) - {At(b, i) + HEADER};
    forall p | p in live
      ensures SameRange(was, now, p - START, live[p])
    {
      var j := BlockOf(b, p);
      BlocksApart(b, i, j);
      AtBounds(b, j);
    }
  }

  /** `n` bytes went from one place to another. */
  ghost predicate Moved(was: seq<byte>, now: seq<byte>, from: int, to: int, n: nat)
  {
    && 0 <= from && from + n <= |was| && 0 <= to && to + n <= |now|
    && now[to..to + n] == was[from..from + n]
  }

  /** The three steps of a move, seen from the allocations that stay and from the one that moves. */
  lemma MovedAway(b: seq<Block>, live: map<nat, nat>, p: nat, r: nat, n: nat,
                  was: seq<byte>, afterMalloc: seq<byte>, afterCopy: seq<byte>, now: seq<byte>)
    requires Tiled(b) && p in live && live[p] == n && p != r
    requires r in Live(b, START) && n <= Live(b, START)[r] && Live(b, START) == live[r := Live(b, START)[r]]
    requires SameBytes(live, was, afterMalloc) && SameBytes(Live(b, START) - {p}, afterCopy, now)
    requires |was| == |afterMalloc| == |afterCopy| == |now| == SIZE && START <= r && r + n <= START + SIZE
    requires START <= p && p + n <= START + SIZE
    requires afterCopy[r - START..r - START + n] == afterMalloc[p - START..p - START + n]
    requires forall j :: 0 <= j < SIZE && !(r - START <= j < r - START + n) ==> afterCopy[j] == afterMalloc[j]
    ensures Moved(was, now, p - START, r - START, n)
    ensures r !in live ==> SameBytes(live - {p}, was, now)
  {
    hide Live, Tiled, SameRange;
    assert SameRange(was, afterMalloc, p - START, n);
    var left := Live(b, START) - {p};
    assert r in left && left[r] == Live(b, START)[r];
    assert SameRange(afterCopy, now, r - START, left[r]);
    MovedBytes(p, r, n, Live(b, START)[r], was, afterMalloc, afterCopy, now);
    if r !in live {
      forall q | q in live - {p}
        ensures SameRange(was, now, q - START, live[q])
      {
        assert q in left && left[q] == live[q];
        assert SameRange(was, afterMalloc, q - START, live[q]) && SameRange(afterCopy, now, q - START, left[q]);
        LiveDisjoint(b, q, r);
        StayedBytes(q, live[q], r, n, was, afterMalloc, afterCopy, now);
      }
    }
  }

  lemma MovedBytes(p: nat, r: nat, n: nat, m: nat, was: seq<byte>, afterMalloc: seq<byte>, afterCopy: seq<byte>,
                   now: seq<byte>)
    requires SameRange(was, afterMalloc, p - START, n) && SameRange(afterCopy, now, r - START, m) && n <= m
    requires afterCopy[r - START..r - START + n] == afterMalloc[p - START..p - START + n]
    ensures Moved(was, now, p - START, r - START, n)
  {
    var to := r - START;
    forall k | to <= k < to + n
      ensures now[k] == afterCopy[k]
    {
      assert now[to..to + m][k - to] == afterCopy[to..to + m][k - to];
    }
    assert now[to..to + n] == afterCopy[to..to + n];
  }

  lemma StayedBytes(q: nat, m: nat, r: nat, n: nat, was: seq<byte>, afterMalloc: seq<byte>, afterCopy: seq<byte>,
                    now: seq<byte>)
    requires SameRange(was, afterMalloc, q - START, m) && SameRange(afterCopy, now, q - START, m)
    requires |afterMalloc| == |afterCopy| == SIZE && (q + m <= r || r + n <= q)
    requires forall j :: 0 <= j < SIZE && !(r - START <= j < r - START + n) ==> afterCopy[j] == afterMalloc[j]
    ensures SameRange(was, now, q - START, m)
  {
    assert afterCopy[q - START..q - START + m] == afterMalloc[q - START..q - START + m];
  }

  lemma LargestNext(b: seq<Block>, x: Block, n: nat)
    requires IsLargest(b, n)
    ensures IsLargest(b + [x], if x.free && x.size > n then x.size else n)
  {
    if n != 0 {
      var i :| 0 <= i < |b| && b[i].free && b[i].size == n;
      assert (b + [x])[i] == b[i];
    }
    assert (b + [x])[|b|] == x;
  }

  class KernelHeap {
    var freeList: nat
    var headers: map<nat, Header>
    const mem: array<byte>
    ghost var blocks: seq<Block>

    ghost predicate Valid()
      reads this
    {
      && mem.Length == SIZE
      && (if freeList == 0 then blocks == [] else freeList == START && Tiled(blocks))
      && Chained(headers, blocks)
    }

    ghost function Allocations(): map<nat, nat>
      reads this
    {
      Live(blocks, START)
    }

    /** The memory before the heap is initialised. */
    constructor ()
      ensures Valid() && freeList == 0 && fresh(mem)
    {
      freeList, headers, mem, blocks := 0, map[], new byte[SIZE], [];
    }

    method Init()
      requires mem.Length == SIZE
      modifies this, mem
      ensures Valid() && freeList == START && blocks == FRESH && Allocations() == map[]
    {
      freeList, blocks := START, FRESH;
      WriteHeader(START, Header(SIZE - HEADER, 0, true));
      FreeBlock(SIZE - HEADER, START);
    }

    /** Storing a header overwrites the twelve bytes it occupies. */
    method WriteHeader(a: nat, h: Header)
      requires mem.Length == SIZE && START <= a && a + HEADER <= START + SIZE
      modifies this`headers, mem
      ensures headers == old(headers)[a := h]
      ensures forall k :: 0 <= k < SIZE && !(a - START <= k < a - START + HEADER) ==> mem[k] == old(mem[k])
    {
      headers := headers[a := h];
      var k := 0;
      while k < HEADER
        invariant 0 <= k <= HEADER && headers == old(headers)[a := h]
        invariant forall j :: 0 <= j < SIZE && !(a - START <= j < a - START + HEADER) ==> mem[j] == old(mem[j])
      {
        mem[a - START + k] := *;
        k := k + 1;
      }
    }

    /** The first free block that is big enough, split if the rest is worth a block. */
    method Kmalloc(size: uint32) returns (p: nat)
      requires Valid()
      modifies this, mem
      ensures Valid() && freeList == old(freeList)
      ensures p == 0 <==> size == 0 || old(freeList) == 0 || FirstFit(old(blocks), Align16(size)) == |old(blocks)|
      ensures p == 0 ==> blocks == old(blocks) && headers == old(headers) && mem[..] == old(mem[..])
      ensures p != 0 ==>
                && blocks == Allocated(old(blocks), Align16(size))
                && p !in old(Allocations()) && p in Allocations()
                && Allocations() == old(Allocations())[p := Allocations()[p]]
                && Align16(size) <= Allocations()[p] < Align16(size) + HEADER + SPLIT_MINIMUM
                && Allocations()[p] == SizeGiven(old(blocks), Align16(size))
      ensures blocks == Served(old(blocks), Malloc(size))
      ensures SameBytes(old(Allocations()), old(mem[..]), mem[..])
    {
      hide Chained, Live, Total, At, Carved, Align16;
      NothingMoved(old(mem[..]));
      if size == 0 {
        return 0;
      }
      var n := Align16(size);
      if freeList == 0 {
        return 0;
      }
      var current := freeList;
      ghost var i := 0;
      FirstAt(blocks);
      while current != 0
        invariant i <= |blocks| && current == (if i < |blocks| then At(blocks, i) else 0)
        invariant forall j :: 0 <= j < i ==> !Fits(blocks[j], n)
        modifies {}
        decreases |blocks| - i
      {
        HeaderAt(headers, blocks, i);
        if headers[current].free && headers[current].size >= n {
          break;
        }
        current, i := headers[current].next, i + 1;
      }
      FitsFirst(blocks, n, i);
      if current == 0 {
        return 0;
      }
      TakeBlock(i, current, n);
      p := current + HEADER;
    }

    /** The second half of an allocation, once block `i` at `current` is chosen. */
    method TakeBlock(ghost i: nat, current: nat, n: nat)
      requires Valid() && freeList != 0 && i < |blocks| && current == At(blocks, i) && FirstFit(blocks, n) == i
      modifies this`headers, this`blocks, mem
      ensures Valid() && blocks == Allocated(old(blocks), n)
      ensures Allocations() == old(Allocations())[current + HEADER := SizeGiven(old(blocks), n)]
      ensures current + HEADER !in old(Allocations()) && n <= SizeGiven(old(blocks), n) < n + HEADER + SPLIT_MINIMUM
      ensures SameBytes(old(Allocations()), old(mem[..]), mem[..])
    {
      hide Chained, Live, Total, At, FirstFit, SameBytes;
      HeaderAt(headers, blocks, i);
      AtBounds(blocks, i);
      AllocateKeeps(blocks, n);
      var h := headers[current];
      if h.size >= n + HEADER + SPLIT_MINIMUM {
        ChainedSplit(headers, blocks, i, n);
        var cut := current + HEADER + n;
        WriteHeader(cut, Header(h.size - n - HEADER, h.next, true));
        WriteHeader(current, Header(n, cut, h.free));
        SplitTaken(old(headers), headers, current, cut, Header(h.size - n - HEADER, h.next, true), n);
      } else {
        ChainedTake(headers, blocks, i);
      }
      WriteHeader(current, headers[current].(free := false));
      PayloadsKept(blocks, i, old(mem[..]), mem[..]);
      assert Allocations() - {current + HEADER} == Allocations();
      blocks := Allocated(blocks, n);
    }

    /** Release a live allocation, merging with the block behind it if that is free. */
    method Kfree(p: nat)
      requires Valid() && (p == 0 || p in Allocations())
      modifies this`headers, this`blocks, mem
      ensures Valid()
      ensures p == 0 ==> blocks == old(blocks) && headers == old(headers)
      ensures p != 0 ==> blocks == Served(old(blocks), Free(p))
      ensures Allocations() == old(Allocations()) - {p}
      ensures SameBytes(Allocations(), old(mem[..]), mem[..])
    {
      hide Chained, Live, Total, At, SameBytes;
      NothingMoved(mem[..]);
      if p == 0 {
        ZeroIsNoPayload();
        return;
      }
      ghost var i := BlockOf(blocks, p);
      var a := p - HEADER;
      HeaderAt(headers, blocks, i);
      AtBounds(blocks, i);
      ChainedMerge(headers, blocks, i);
      ReleaseKeeps(blocks, i);
      var h := headers[a].(free := true);
      WriteHeader(a, h);
      if h.next != 0 {
        AtMonotone(blocks, i, i + 1);
        if headers[h.next].free {
          WriteHeader(a, Header(h.size + headers[h.next].size + HEADER, headers[h.next].next, true));
          assert headers == old(headers)[a := headers[a]];
        }
      }
      PayloadsKept(blocks, i, old(mem[..]), mem[..]);
      blocks := Merged(blocks, i);
    }

    lemma ZeroIsNoPayload()
      ensures 0 !in Allocations() && Allocations() - {0} == Allocations()
    {
      LiveBounds(blocks, START);
    }

    /** Change the size of an allocation, moving it if its block is too small. `inside` tells whether the
        copy stays within the block it goes to; what an overrun destroys is not modelled. The block is
        as large as asked for exactly when the rounded size does not wrap. */
    method Krealloc(p: nat, size: uint32) returns (r: nat, ghost inside: bool)
      requires Valid() && (p == 0 || p in Allocations())
      modifies this, mem
      ensures inside <==> size == 0 || (p in old(Allocations()) && old(Allocations())[p] >= size)
                          || CopyFits(old(blocks), p, size)
      ensures inside ==> Valid() && freeList == old(freeList) && blocks == Served(old(blocks), Realloc(p, size))
      ensures inside && size == 0 ==> r == 0 && Allocations() == old(Allocations()) - {p}
      ensures inside && size != 0 && r == 0 ==> Allocations() == old(Allocations())
      ensures size != 0 && p != 0 && old(Allocations())[p] >= size ==> r == p && Allocations() == old(Allocations())
      ensures size != 0 && !(p != 0 && old(Allocations())[p] >= size) ==>
                (r == 0 <==> old(freeList) == 0 || FirstFit(old(blocks), Align16(size)) == |old(blocks)|)
      ensures inside && r != 0 ==> r in Allocations() && (Allocations()[r] >= size <==> size <= 0xFFFF_FFF0)
      ensures inside && r != 0 && r != p ==>
                && r !in old(Allocations())
                && Allocations() == (old(Allocations()) - {p})[r := Allocations()[r]]
      ensures inside && r != 0 && r != p && p != 0 ==>
                Moved(old(mem[..]), mem[..], p - START, r - START, old(Allocations())[p])
      ensures inside ==>
                SameBytes(if (r != 0 && r != p) || size == 0 then old(Allocations()) - {p} else old(Allocations()),
                          old(mem[..]), mem[..])
    {
      hide Chained, Live, Total, At, SameBytes, Align16, Allocated, Merged, FirstFit, Tiled;
      NothingMoved(mem[..]);
      AlignCovers(size);
      ZeroIsNoPayload();
      if size == 0 {
        Kfree(p);
        return 0, true;
      }
      if p == 0 {
        r := Kmalloc(size);
        if r != 0 {
          FitsInHeap(blocks, r);
        }
        return r, true;
      }
      FitsInHeap(blocks, p);
      ghost var i := BlockOf(blocks, p);
      HeaderAt(headers, blocks, i);
      if headers[p - HEADER].size >= size {
        return p, true;
      }
      r, inside := Grow(p, size);
    }

    lemma FitsInHeap(b: seq<Block>, p: nat)
      requires (b == [] || Tiled(b)) && p in Live(b, START)
      ensures Live(b, START)[p] < SIZE
    {
      LiveBounds(b, START);
    }

    /** Allocate, copy, release. */
    method Grow(p: nat, size: uint32) returns (r: nat, ghost inside: bool)
      requires Valid() && p != 0 && p in Allocations() && Allocations()[p] < size
      modifies this, mem
      ensures inside <==> CopyFits(old(blocks), p, size)
      ensures r == 0 <==> old(freeList) == 0 || FirstFit(old(blocks), Align16(size)) == |old(blocks)|
      ensures inside ==> Valid() && freeList == old(freeList) && blocks == Served(old(blocks), Realloc(p, size))
      ensures inside && r == 0 ==>
                Allocations() == old(Allocations()) && SameBytes(old(Allocations()), old(mem[..]), mem[..])
      ensures inside && r != 0 ==>
                && r !in old(Allocations()) && r in Allocations()
                && (Allocations()[r] >= size <==> size <= 0xFFFF_FFF0)
                && Allocations() == (old(Allocations()) - {p})[r := Allocations()[r]]
                && Moved(old(mem[..]), mem[..], p - START, r - START, old(Allocations())[p])
                && SameBytes(old(Allocations()) - {p}, old(mem[..]), mem[..])
    {
      hide Chained, Live, Total, At, Align16, Allocated, Merged, FirstFit, SameBytes, SizeGiven;
      ghost var was, live, b0 := mem[..], Allocations(), blocks;
      AlignCovers(size);
      r := Kmalloc(size);
      if r == 0 {
        return r, true;
      }
      ghost var b, afterMalloc := blocks, mem[..];
      FitsInHeap(b, r);
      LiveDisjoint(b, p, r);
      LiveDisjoint(b, r, p);
      HeaderAt(headers, b, BlockOf(b, p));
      HeaderAt(headers, b, BlockOf(b, r));
      CopyCondition(b0, p, size);
      var n := headers[p - HEADER].size;
      if n > headers[r - HEADER].size {
        return r, false;
      }
      CopyBytes(r, p, n);
      ghost var afterCopy := mem[..];
      Kfree(p);
      inside := true;
      MovedAway(b, live, p, r, n, was, afterMalloc, afterCopy, mem[..]);
    }

    /** For sizes whose rounding does not wrap the new block is always large enough for the copy. */
    lemma CopyCondition(b: seq<Block>, p: nat, size: uint32)
      requires p in Live(b, START) && Live(b, START)[p] < size && FirstFit(b, Align16(size)) < |b|
      ensures CopyFits(b, p, size) <==> Live(b, START)[p] <= SizeGiven(b, Align16(size))
    {
      hide Live;
      AlignCovers(size);
    }

    method CopyBytes(to: nat, from: nat, n: nat)
      requires mem.Length == SIZE && START <= from && from + n <= START + SIZE && START <= to && to + n <= START + SIZE
      requires from + n <= to || to + n <= from
      modifies mem
      ensures mem[to - START..to - START + n] == old(mem[from - START..from - START + n])
      ensures forall j :: 0 <= j < SIZE && !(to - START <= j < to - START + n) ==> mem[j] == old(mem[j])
    {
      var k := 0;
      while k < n
        invariant 0 <= k <= n
        invariant mem[to - START..to - START + k] == old(mem[from - START..from - START + k])
        invariant forall j :: 0 <= j < SIZE && !(to - START <= j < to - START + k) ==> mem[j] == old(mem[j])
      {
        mem[to - START + k] := mem[from - START + k];
        k := k + 1;
      }
    }

    /** Walk the list and add everything up. */
    method GetStats() returns (used: nat, free: nat, usedBlocks: nat, freeBlocks: nat, largest: nat, overhead: nat)
      requires Valid() && freeList != 0
      ensures used == UsedBytes(blocks) && free == FreeBytes(blocks)
      ensures usedBlocks == UsedBlocks(blocks) && usedBlocks + freeBlocks == |blocks| && overhead == HEADER * |blocks|
      ensures used + free + overhead == SIZE
      ensures IsLargest(blocks, largest)
    {
      hide Chained, Total, At, UsedBytes, FreeBytes, UsedBlocks;
      used, free, usedBlocks, freeBlocks, largest := 0, 0, 0, 0, 0;
      var current := freeList;
      ghost var i := 0;
      FirstAt(blocks);
      NothingCounted(blocks);
      while current != 0
        invariant i <= |blocks| && current == (if i < |blocks| then At(blocks, i) else 0)
        invariant used == UsedBytes(blocks[..i]) && free == FreeBytes(blocks[..i])
        invariant usedBlocks == UsedBlocks(blocks[..i]) && usedBlocks + freeBlocks == i
        invariant IsLargest(blocks[..i], largest)
        decreases |blocks| - i
      {
        HeaderAt(headers, blocks, i);
        CountNext(blocks, i);
        assert blocks[..i + 1] == blocks[..i] + [blocks[i]];
        LargestNext(blocks[..i], blocks[i], largest);
        var h := headers[current];
        if h.free {
          free, freeBlocks := free + h.size, freeBlocks + 1;
          if h.size > largest {
            largest := h.size;
          }
        } else {
          used, usedBlocks := used + h.size, usedBlocks + 1;
        }
        current, i := h.next, i + 1;
      }
      assert blocks[..i] == blocks;
      BytesAddUp(blocks);
      overhead := (usedBlocks + freeBlocks) * HEADER;
    }

    lemma NothingCounted(b: seq<Block>)
      ensures UsedBytes(b[..0]) == 0 && FreeBytes(b[..0]) == 0 && UsedBlocks(b[..0]) == 0 && IsLargest(b[..0], 0)
    {
    }

    lemma SplitTaken(was: map<nat, Header>, now: map<nat, Header>, a: nat, cut: nat, rest: Header, n: nat)
      requires a in now && now == was[cut := rest][a := now[a]] && now[a].size == n && now[a].next == cut
      ensures now[a := now[a].(free := false)] == was[cut := rest][a := Header(n, cut, false)]
    {
    }

    lemma NothingMoved(was: seq<byte>)
      requires Valid() && was == mem[..]
      ensures SameBytes(Allocations(), was, was)
    {
      hide Chained, Live, Total;
      forall p | p in Allocations()
        ensures SameRange(was, was, p - START, Allocations()[p])
      {
        var i := BlockOf(blocks, p);
        AtBounds(blocks, i);
      }
    }
  }

  lemma FirstAt(b: seq<Block>)
    ensures At(b, 0) == START
  {
    assert b[..0] == [];
  }

  lemma HeaderAt(headers: map<nat, Header>, b: seq<Block>, i: nat)
    requires Chained(headers, b) && i < |b|
    ensures At(b, i) in headers && headers[At(b, i)] == Header(b[i].size, NextOf(b, i), b[i].free)
  {
    hide At;
    assert HeaderIs(headers, b, i);
  }

  lemma {:induction false} FitsFirst(b: seq<Block>, n: nat, i: nat)
    requires i <= |b| && (i < |b| ==> Fits(b[i], n)) && forall j :: 0 <= j < i ==> !Fits(b[j], n)
    ensures FirstFit(b, n) == i
  {
  }
}
