/** The 32-byte directory slot: which bytes mean what. */
module FatSlot {
  import opened Machine

  const SLOT_SIZE := 32

  const ATTR_DIRECTORY: byte := 0x10
  const ATTR_ARCHIVE: byte := 0x20
  const ATTR_LONG_NAME: byte := 0x0F

  const MARK_END: byte := 0x00
  const MARK_DELETED: byte := 0xE5

  type Slot = s: seq<byte> | |s| == SLOT_SIZE witness seq(SLOT_SIZE, _ => 0)

  // ---------------------------------------------------------------- kinds of slot

  predicate IsFree(s: Slot) { s[0] == MARK_END || s[0] == MARK_DELETED }

  predicate IsLive(s: Slot) { !IsFree(s) }

  /** A live piece of a long name: all four low attribute bits set. */
  predicate IsLong(s: Slot) { IsLive(s) && s[11] % 16 == 15 }

  predicate IsVolume(s: Slot) { IsLive(s) && !IsLong(s) && s[11] / 8 % 2 == 1 }

  /** A live short entry: what the directory iterator reports. */
  predicate IsShort(s: Slot) { IsLive(s) && s[11] / 8 % 2 == 0 }

  predicate IsDirectory(attributes: byte) { attributes / 16 % 2 == 1 }

  // ---------------------------------------------------------------- fields of a short entry

  function ShortName(s: Slot): (n: seq<byte>)
    ensures |n| == 11
  {
    s[..11]
  }

  /** A 16-bit little-endian field. */
  function Le16(lo: int, hi: int): (w: int)
    requires 0 <= lo < 0x100 && 0 <= hi < 0x100
    ensures 0 <= w < 0x1_0000
  {
    lo + 0x100 * hi
  }

  /** A little-endian number. */
  function Le(b: seq<byte>): (w: nat)
    ensures |b| <= 1 ==> w < 0x100
    ensures |b| <= 2 ==> w < 0x1_0000
    ensures |b| <= 3 ==> w < 0x100_0000
    ensures |b| <= 4 ==> w < TWO_32
  {
    if b == [] then 0 else b[0] + 0x100 * Le(b[1..])
  }

  /** The low half of the first cluster stands behind its high half. */
  function FirstCluster(s: Slot): (c: uint32)
  {
    Le([s[26], s[27], s[20], s[21]])
  }

  function FileSize(s: Slot): (n: uint32)
  {
    Le(s[28..32])
  }

  lemma BytesOf32(w: uint32)
    ensures Le([w % 0x100, w / 0x100 % 0x100, w / 0x1_0000 % 0x100, w / 0x100_0000]) == w
  {
    HalvesOf32(w);
    FourBytes(w % 0x100, w / 0x100 % 0x100, w / 0x1_0000 % 0x100, w / 0x100_0000);
    var low, high := w % 0x1_0000, w / 0x1_0000;
    assert low == low % 0x100 + 0x100 * (low / 0x100);
    assert high == high % 0x100 + 0x100 * (high / 0x100);
  }

  lemma FourBytes(a: byte, b: byte, c: byte, d: byte)
    ensures Le([a, b, c, d]) == a + 0x100 * b + 0x1_0000 * c + 0x100_0000 * d
  {
    assert [a, b, c, d][1..] == [b, c, d] && [b, c, d][1..] == [c, d] && [c, d][1..] == [d] && [d][1..] == [];
    assert Le([d]) == d;
    assert Le([c, d]) == c + 0x100 * d;
    assert Le([b, c, d]) == b + 0x100 * c + 0x1_0000 * d;
  }

  lemma HalvesOf32(w: uint32)
    ensures w % 0x100 == w % 0x1_0000 % 0x100 && w / 0x100 % 0x100 == w % 0x1_0000 / 0x100
    ensures w / 0x100_0000 == w / 0x1_0000 / 0x100
    ensures w == w % 0x1_0000 + 0x1_0000 * (w / 0x1_0000)
  {
    var b0, q0 := w % 0x100, w / 0x100;
    var b1, q1 := q0 % 0x100, q0 / 0x100;
    assert w == b0 + 0x100 * b1 + 0x1_0000 * q1;
    assert w % 0x1_0000 == b0 + 0x100 * b1;
  }

  /** Store a start cluster and a size, leaving every other byte alone. */
  function WithExtent(s: Slot, cluster: uint32, size: uint32): (r: Slot)
    ensures FirstCluster(r) == cluster && FileSize(r) == size
    ensures forall i :: 0 <= i < 20 || 22 <= i < 26 ==> r[i] == s[i]
  {
    BytesOf32(cluster);
    BytesOf32(size);
    assert WithFields(s, cluster, size)[28..32]
           == [size % 0x100, size / 0x100 % 0x100, size / 0x1_0000 % 0x100, size / 0x100_0000];
    WithFields(s, cluster, size)
  }

  function WithFields(s: Slot, cluster: uint32, size: uint32): (r: Slot)
  {
    s[20 := cluster / 0x1_0000 % 0x100][21 := cluster / 0x100_0000]
     [26 := cluster % 0x100][27 := cluster / 0x100 % 0x100]
     [28 := size % 0x100][29 := size / 0x100 % 0x100][30 := size / 0x1_0000 % 0x100][31 := size / 0x100_0000]
  }

  /** A fresh short entry: name, attributes, extent, and zeros elsewhere. */
  function ShortEntry(name: seq<byte>, attributes: byte, cluster: uint32, size: uint32): (r: Slot)
    requires |name| == 11
    ensures ShortName(r) == name && r[11] == attributes
    ensures FirstCluster(r) == cluster && FileSize(r) == size
  {
    WithExtent(name + [attributes] + seq(20, _ => 0), cluster, size)
  }

  function Deleted(s: Slot): (r: Slot)
    ensures IsFree(r) && r[0] == MARK_DELETED && r[1..] == s[1..]
  {
    s[0 := MARK_DELETED]
  }

  // ---------------------------------------------------------------- slots of a cluster

  function SlotAt(block: seq<byte>, k: nat): (s: Slot)
    requires SLOT_SIZE * k + SLOT_SIZE <= |block|
  {
    block[SLOT_SIZE * k..SLOT_SIZE * k + SLOT_SIZE]
  }

  /** A run of bytes cut into slots. */
  function Slots(block: seq<byte>): (r: seq<Slot>)
    ensures |r| == |block| / SLOT_SIZE
    ensures forall k :: 0 <= k < |r| ==> r[k] == SlotAt(block, k)
  {
    seq(|block| / SLOT_SIZE, k requires 0 <= k < |block| / SLOT_SIZE => SlotAt(block, k))
  }

  lemma SlotsJoin(a: seq<byte>, b: seq<byte>)
    requires |a| % SLOT_SIZE == 0
    ensures Slots(a + b) == Slots(a) + Slots(b)
  {
    assert |Slots(a + b)| == |Slots(a)| + |Slots(b)|;
    forall k | 0 <= k < |Slots(a + b)|
      ensures Slots(a + b)[k] == (Slots(a) + Slots(b))[k]
    {
    }
  }

  /** The block with slot `k` replaced. */
  function WithSlot(block: seq<byte>, k: nat, s: Slot): (r: seq<byte>)
    requires SLOT_SIZE * k + SLOT_SIZE <= |block|
    ensures |r| == |block|
  {
    block[..SLOT_SIZE * k] + s + block[SLOT_SIZE * k + SLOT_SIZE..]
  }

  lemma WithSlotSlots(block: seq<byte>, k: nat, s: Slot)
    requires k < |block| / SLOT_SIZE
    ensures Slots(WithSlot(block, k, s)) == Slots(block)[k := s]
  {
    var r := WithSlot(block, k, s);
    forall j | 0 <= j < |block| / SLOT_SIZE
      ensures Slots(r)[j] == Slots(block)[k := s][j]
    {
      if j < k {
        assert SlotAt(r, j) == SlotAt(block, j);
      } else if j > k {
        assert SlotAt(r, j) == SlotAt(block, j);
      }
    }
  }
}
