/** The physical frame allocator: one bit per frame, and a count of the bits that are set. */
module Frames {
  import opened Machine
  import Counting

  const PAGE_SIZE := 4096
  const WORD_BITS := 32
  const NO_FRAME: uint32 := 0xFFFF_FFFF

  function Mask(bit: nat): (m: bv32)
    requires bit < WORD_BITS
  {
    (1 as bv32) << bit
  }

  function Meet(w: bv32, m: bv32): bv32 { w & m }

  function Join(w: bv32, m: bv32): bv32 { w | m }

  function Without(w: bv32, m: bv32): bv32 { w & !m }

  predicate Test(w: bv32, bit: nat)
    requires bit < WORD_BITS
  {
    Meet(w, Mask(bit)) != 0
  }

  lemma Masks(bit: nat, other: nat)
    requires bit < WORD_BITS && other < WORD_BITS
    ensures Mask(bit) != 0
    ensures bit != other ==> Meet(Mask(bit), Mask(other)) == 0
  {
  }

  lemma SameMask(w: bv32, m: bv32)
    requires m != 0
    ensures Meet(Join(w, m), m) != 0 && Meet(Without(w, m), m) == 0
  {
    assert (w | m) & m == m;
  }

  lemma ApartJoin(w: bv32, m: bv32, o: bv32)
    requires Meet(m, o) == 0
    ensures Meet(Join(w, m), o) == Meet(w, o)
  {
  }

  lemma ApartWithout(w: bv32, m: bv32, o: bv32)
    requires Meet(m, o) == 0
    ensures Meet(Without(w, m), o) == Meet(w, o)
  {
  }

  lemma SetBit(w: bv32, bit: nat, other: nat)
    requires bit < WORD_BITS && other < WORD_BITS
    ensures Test(Join(w, Mask(bit)), other) <==> other == bit || Test(w, other)
  {
    hide Mask, Meet, Join;
    Masks(bit, other);
    if bit == other {
      SameMask(w, Mask(bit));
    } else {
      ApartJoin(w, Mask(bit), Mask(other));
    }
  }

  lemma ClearBit(w: bv32, bit: nat, other: nat)
    requires bit < WORD_BITS && other < WORD_BITS
    ensures Test(Without(w, Mask(bit)), other) <==> other != bit && Test(w, other)
  {
    hide Mask, Meet, Without;
    Masks(bit, other);
    if bit == other {
      SameMask(w, Mask(bit));
    } else {
      ApartWithout(w, Mask(bit), Mask(other));
    }
  }

  lemma FullWord(bit: nat)
    requires bit < WORD_BITS
    ensures Test(0xFFFF_FFFF, bit) && !Test(0, bit)
  {
  }

  // ---------------------------------------------------------------- the bitmap as a set

  /** The bit of frame `f`. */
  predicate Marked(bitmap: seq<bv32>, f: nat)
    requires f / WORD_BITS < |bitmap|
  {
    Test(bitmap[f / WORD_BITS], f % WORD_BITS)
  }

  function Words(total: nat): nat
  {
    total / WORD_BITS + if total % WORD_BITS != 0 then 1 else 0
  }

  lemma WordOf(total: nat, f: nat)
    requires f < total
    ensures f / WORD_BITS < Words(total)
  {
  }

  ghost predicate InUse(bitmap: seq<bv32>, f: nat)
  {
    f / WORD_BITS < |bitmap| && Marked(bitmap, f)
  }

  /** The frames below `total` whose bit is set. */
  ghost function UsedSet(bitmap: seq<bv32>, total: nat): set<nat>
  {
    set f | 0 <= f < total && InUse(bitmap, f)
  }

  lemma MarkSet(bitmap: seq<bv32>, total: nat, f: nat)
    requires f / WORD_BITS < |bitmap|
    ensures var marked := bitmap[f / WORD_BITS := Join(bitmap[f / WORD_BITS], Mask(f % WORD_BITS))];
            && (forall g :: 0 <= g < total ==> (InUse(marked, g) <==> g == f || InUse(bitmap, g)))
            && (f < total ==> UsedSet(marked, total) == UsedSet(bitmap, total) + {f})
  {
    hide Test, Join, Mask;
    var marked := bitmap[f / WORD_BITS := Join(bitmap[f / WORD_BITS], Mask(f % WORD_BITS))];
    forall g | 0 <= g < total
      ensures InUse(marked, g) <==> g == f || InUse(bitmap, g)
    {
      SetBit(bitmap[f / WORD_BITS], f % WORD_BITS, g % WORD_BITS);
    }
  }

  lemma UnmarkSet(bitmap: seq<bv32>, total: nat, f: nat)
    requires f / WORD_BITS < |bitmap|
    ensures var cleared := bitmap[f / WORD_BITS := Without(bitmap[f / WORD_BITS], Mask(f % WORD_BITS))];
            UsedSet(cleared, total) == UsedSet(bitmap, total) - {f}
  {
    hide Test, Without, Mask;
    var cleared := bitmap[f / WORD_BITS := Without(bitmap[f / WORD_BITS], Mask(f % WORD_BITS))];
    forall g | 0 <= g < total
      ensures InUse(cleared, g) <==> g != f && InUse(bitmap, g)
    {
      ClearBit(bitmap[f / WORD_BITS], f % WORD_BITS, g % WORD_BITS);
    }
  }

  /** The smallest frame that is not used, or none below `total`. */
  ghost predicate LeastFree(used: set<nat>, total: nat, f: nat)
  {
    f < total && f !in used && forall g :: 0 <= g < f ==> g in used
  }

  class FrameAllocator {
    const bitmap: array<bv32>
    const total: nat
    var usedFrames: int

    /** Memory below 4 GiB has less than 2^20 frames. */
    ghost predicate Shaped()
    {
      total < 0x10_0000 && bitmap.Length == Words(total)
    }

    ghost function Used(): set<nat>
      reads bitmap
    {
      UsedSet(bitmap[..], total)
    }

    /** The count is right, and frame 0, whose address means "none", is never handed out. */
    ghost predicate Valid()
      reads this, bitmap
    {
      && Shaped()
      && usedFrames == |Used()|
      && (total > 0 ==> 0 in Used())
    }

    /** Everything below the end of the bitmap itself is in use from the start. */
    constructor (total: nat, kernelEnd: nat)
      requires 0 < kernelEnd && total < 0x10_0000
      requires AlignUp(kernelEnd) + 4 * Words(total) <= total * PAGE_SIZE
      ensures Valid() && this.total == total && fresh(bitmap)
      ensures forall f: nat :: f in Used() <==> f * PAGE_SIZE < AlignUp(kernelEnd) + 4 * Words(total)
    {
      this.total := total;
      this.bitmap := new bv32[Words(total)](_ => 0);
      this.usedFrames := 0;
      new;
      EmptyBitmap(bitmap[..], total);
      MarkBelow(AlignUp(kernelEnd) + 4 * Words(total));
    }

    /** Mark page after page up to `end`. */
    method MarkBelow(end: nat)
      requires Shaped() && 0 < end <= total * PAGE_SIZE && Used() == {} && usedFrames == 0
      modifies this`usedFrames, bitmap
      ensures Valid()
      ensures forall f: nat :: f in Used() <==> f * PAGE_SIZE < end
    {
      hide UsedSet;
      var addr := 0;
      ghost var n := 0;
      while addr < end
        invariant addr == n * PAGE_SIZE && n <= total && (n > 0 ==> (n - 1) * PAGE_SIZE < end)
        invariant Used() == Counting.Below(n) && usedFrames == n
      {
        WordOf(total, addr / PAGE_SIZE);
        SetFrame(addr / PAGE_SIZE);
        assert Counting.Below(n + 1) == Counting.Below(n) + {n};
        usedFrames := usedFrames + 1;
        addr, n := addr + PAGE_SIZE, n + 1;
      }
    }

    method SetFrame(f: nat)
      requires f / WORD_BITS < bitmap.Length
      modifies bitmap
      ensures f < total ==> Used() == old(Used()) + {f}
    {
      MarkSet(bitmap[..], total, f);
      bitmap[f / WORD_BITS] := Join(bitmap[f / WORD_BITS], Mask(f % WORD_BITS));
      assert bitmap[..] == old(bitmap[..])[f / WORD_BITS := bitmap[f / WORD_BITS]];
    }

    method ClearFrame(f: nat)
      requires f / WORD_BITS < bitmap.Length
      modifies bitmap
      ensures Used() == old(Used()) - {f}
    {
      UnmarkSet(bitmap[..], total, f);
      bitmap[f / WORD_BITS] := Without(bitmap[f / WORD_BITS], Mask(f % WORD_BITS));
      assert bitmap[..] == old(bitmap[..])[f / WORD_BITS := bitmap[f / WORD_BITS]];
    }
  
    /** The first clear bit below the total, found word by word; full words are skipped. */
    method FirstFree() returns (frame: uint32)
      requires Shaped()
      ensures frame != NO_FRAME ==> LeastFree(Used(), total, frame)
      ensures frame == NO_FRAME ==> forall g :: 0 <= g < total ==> g in Used()
    {
      var i := 0;
      while i < Words(total)
        invariant i <= Words(total)
        invariant forall g :: 0 <= g < total && g < i * WORD_BITS ==> g in Used()
      {
        var found, j := FirstClear(bitmap[i]);
        ScanWord(i, j);
        if found {
          if i * WORD_BITS + j < total {
            return i * WORD_BITS + j;
          }
        }
        i := i + 1;
      }
      frame := NO_FRAME;
    }

    /** What the bits of word `i` below `j` say about frames. */
    lemma ScanWord(i: nat, j: nat)
      requires Shaped() && i < bitmap.Length && j <= WORD_BITS
      requires forall k :: 0 <= k < j ==> Test(bitmap[i], k)
      ensures forall g :: i * WORD_BITS <= g < i * WORD_BITS + j && g < total ==> g in Used()
      ensures j < WORD_BITS && !Test(bitmap[i], j) ==> i * WORD_BITS + j !in Used()
    {
      hide Test;
      forall g | i * WORD_BITS <= g < i * WORD_BITS + j && g < total
        ensures g in Used()
      {
        assert g / WORD_BITS == i && g % WORD_BITS == g - i * WORD_BITS;
      }
      if j < WORD_BITS {
        assert (i * WORD_BITS + j) / WORD_BITS == i && (i * WORD_BITS + j) % WORD_BITS == j;
      }
    }

    /** Take the least unused frame; its address is 0 exactly when there is none. */
    method Allocate() returns (addr: nat)
      requires Valid()
      modifies this`usedFrames, bitmap
      ensures Valid() && addr % PAGE_SIZE == 0
      ensures addr == 0 <==> forall g :: 0 <= g < total ==> g in old(Used())
      ensures addr == 0 ==> Used() == old(Used())
      ensures addr != 0 ==>
                LeastFree(old(Used()), total, addr / PAGE_SIZE) && Used() == old(Used()) + {addr / PAGE_SIZE}
    {
      hide UsedSet;
      var frame := FirstFree();
      if frame == NO_FRAME {
        return 0;
      }
      WordOf(total, frame);
      SetFrame(frame);
      usedFrames := usedFrames + 1;
      addr := frame * PAGE_SIZE;
    }

    /** Clear the bit and count down. The count stays right exactly when the frame was in use. */
    method Free(addr: nat)
      requires Valid() && addr / PAGE_SIZE / WORD_BITS < bitmap.Length
      modifies this`usedFrames, bitmap
      ensures Used() == old(Used()) - {addr / PAGE_SIZE}
      ensures usedFrames == old(usedFrames) - 1 && (usedFrames == |Used()| <==> addr / PAGE_SIZE in old(Used()))
      ensures addr / PAGE_SIZE in old(Used()) && addr / PAGE_SIZE != 0 ==> Valid()
    {
      hide UsedSet;
      ClearFrame(addr / PAGE_SIZE);
      usedFrames := usedFrames - 1;
    }

    method FreeFrames() returns (n: int)
      requires Valid()
      ensures n == |Counting.Below(total) - Used()|
    {
      n := total - usedFrames;
      UsedIsBelow();
    }

    lemma UsedIsBelow()
      ensures Used() <= Counting.Below(total)
      ensures |Counting.Below(total) - Used()| == total - |Used()|
    {
    }
  }

  /** For instance, releasing a frame twice. */
  method FreeTwice(f: FrameAllocator)
    requires f.Valid() && exists g :: 0 <= g < f.total && g !in f.Used()
    modifies f`usedFrames, f.bitmap
    ensures f.Used() == old(f.Used()) && f.usedFrames == |f.Used()| - 1
  {
    hide UsedSet;
    ghost var used := f.Used();
    var addr := f.Allocate();
    WordOf(f.total, addr / PAGE_SIZE);
    assert used + {addr / PAGE_SIZE} - {addr / PAGE_SIZE} == used;
    f.Free(addr);
    f.Free(addr);
  }

  /** The inner loop of the search. */
  method FirstClear(w: bv32) returns (found: bool, j: nat)
    ensures j <= WORD_BITS && (found <==> j < WORD_BITS)
    ensures found ==> !Test(w, j)
    ensures forall k :: 0 <= k < j ==> Test(w, k)
  {
    hide Test;
    if w == 0xFFFF_FFFF {
      forall k | 0 <= k < WORD_BITS
        ensures Test(w, k)
      {
        FullWord(k);
      }
      return false, WORD_BITS;
    }
    j := 0;
    while j < WORD_BITS
      invariant j <= WORD_BITS
      invariant forall k :: 0 <= k < j ==> Test(w, k)
    {
      if !Test(w, j) {
        return true, j;
      }
      j := j + 1;
    }
    found := false;
  }

  function AlignUp(n: nat): nat
  {
    (n + PAGE_SIZE - 1) / PAGE_SIZE * PAGE_SIZE
  }

  lemma EmptyBitmap(bitmap: seq<bv32>, total: nat)
    requires forall i :: 0 <= i < |bitmap| ==> bitmap[i] == 0
    ensures UsedSet(bitmap, total) == {}
  {
    forall f | 0 <= f < total
      ensures !InUse(bitmap, f)
    {
      FullWord(f % WORD_BITS);
    }
  }
}
