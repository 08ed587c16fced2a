/** The open file refines the simplest file there is: a byte sequence and a position in it. */
module FatCursor {
  import opened Machine
  import opened FatData
  import opened FatVolume
  import opened FatFile

  datatype File = File(contents: seq<byte>, pos: nat)

  datatype Op =
    | DoSeek(target: uint32)
    | DoRead(count: uint32)
    | DoWrite(data: seq<byte>)

  predicate InFile(f: File) { f.pos <= |f.contents| }

  function Min(a: nat, b: nat): nat { if a < b then a else b }

  /** One operation on the byte sequence, with what it delivers. */
  function Apply(f: File, op: Op): (r: (File, seq<byte>))
    requires InFile(f)
    ensures InFile(r.0)
  {
    match op
    case DoSeek(target) => (f.(pos := Min(target, |f.contents|)), [])
    case DoRead(count) =>
      var end := Min(f.pos + count, |f.contents|);
      (f.(pos := end), f.contents[f.pos..end])
    case DoWrite(data) =>
      var end := f.pos + |data|;
      var rest := if end < |f.contents| then f.contents[end..] else [];
      (File(f.contents[..f.pos] + data + rest, end), [])
  }

  /** A whole script, with the concatenated deliveries. */
  function Run(f: File, ops: seq<Op>): (r: (File, seq<byte>))
    requires InFile(f)
    ensures InFile(r.0)
    decreases |ops|
  {
    if ops == [] then (f, []) else
      var (f1, out1) := Apply(f, ops[0]);
      var (f2, out2) := Run(f1, ops[1..]);
      (f2, out1 + out2)
  }

  /** No read of the script asks for so much that position plus count leaves 32 bits, except at the end. */
  predicate CountsFit(f: File, ops: seq<Op>)
    requires InFile(f)
    decreases |ops|
  {
    ops == [] || (
      && (ops[0].DoRead? ==> f.pos + ops[0].count < TWO_32 || f.pos >= |f.contents|)
      && CountsFit(Apply(f, ops[0]).0, ops[1..]))
  }

  ghost function View(v: Volume, f: OpenFile): File
    requires f.Valid(v)
    reads v, v.fat, f
  {
    File(f.Contents(v), f.position)
  }

  /** A write, seen as an edit of the visible contents. */
  lemma WriteIsEdit(now: seq<byte>, was: seq<byte>, size: nat, size': nat, pos: nat, data: seq<byte>)
    requires pos <= size <= |was| && Overlaid(now, was, pos, data)
    requires size' == if |data| > 0 && pos + |data| > size then pos + |data| else size
    ensures size' <= |now|
    ensures File(now[..size'], pos + |data|) == Apply(File(was[..size], pos), DoWrite(data)).0
  {
    OverlaidContents(now, was, size, pos, data);
    var contents := was[..size];
    assert contents[..pos] == was[..pos];
    var end := pos + |data|;
    assert end < size ==> contents[end..] == was[end..size];
  }

  lemma ReadIsNext(data: seq<byte>, size: nat, pos: nat, n: uint32)
    requires pos <= size <= |data| < TWO_32 && (pos + n < TWO_32 || pos >= size || size == |data|)
    ensures ReadResult(data, size, pos, n) == Apply(File(data[..size], pos), DoRead(n)).1
  {
    ReadIsExact(data, size, pos, n);
  }

  /** One operation on the real file, given by the byte-sequence file's description of it. */
  method Perform(v: Volume, f: OpenFile, op: Op) returns (ok: bool, out: seq<byte>)
    requires f.Valid(v) && v.intact && f.position <= f.size
    requires op.DoRead? ==>
               f.position + op.count < TWO_32 || f.position >= f.size || f.size == |f.Data(v)|
    modifies f, v, v.fat
    ensures ok ==> v.intact && f.Valid(v) && f.position <= f.size
    ensures ok ==> InFile(old(View(v, f))) && (View(v, f), out) == Apply(old(View(v, f)), op)
    ensures v.reliable && !ok ==> op.DoWrite? && v.Free() == {}
  {
    hide OpenFile.Valid, Volume.BytesOf, OthersKept, Bytes;
    f.CursorFacts(v);
    out := [];
    ghost var was, size, pos := f.Data(v), f.size, f.position;
    match op
    case DoSeek(target) =>
      f.Seek(v, target);
      ok := true;
    case DoRead(count) =>
      ReadIsNext(was, size, pos, count);
      var r := f.Read(v, count);
      ok := r.Some?;
      if ok {
        out := r.value;
      }
    case DoWrite(data) =>
      ok := PerformWrite(v, f, data);
  }

  method PerformWrite(v: Volume, f: OpenFile, data: seq<byte>) returns (ok: bool)
    requires f.Valid(v) && v.intact && f.position <= f.size
    modifies f, v, v.fat
    ensures ok ==> v.intact && f.Valid(v) && f.position <= f.size
    ensures ok ==> InFile(old(View(v, f))) && View(v, f) == Apply(old(View(v, f)), DoWrite(data)).0
    ensures v.reliable && !ok ==> v.Free() == {}
  {
    hide OpenFile.Valid, OthersKept, Bytes, Overlaid, Apply;
    f.CursorFacts(v);
    ghost var was, size, pos := f.Data(v), f.size, f.position;
    var r, done := f.Write(v, data);
    ok := r == |data|;
    if ok {
      assert data[..done] == data;
      WriteIsEdit(f.Data(v), was, size, f.size, pos, data);
    }
  }

  /** Any script of seeks, reads and writes on one descriptor delivers what it delivers on the byte
      sequence, and leaves the same byte sequence and position, as long as every call succeeds. On a
      reliable volume they all do, unless the clusters run out. */
  method Script(v: Volume, f: OpenFile, ops: seq<Op>) returns (ok: bool, out: seq<byte>)
    requires f.Valid(v) && v.intact && f.position <= f.size
    requires InFile(View(v, f)) && CountsFit(View(v, f), ops)
    modifies f, v, v.fat
    ensures ok ==> v.intact && f.Valid(v)
    ensures ok ==> InFile(old(View(v, f))) && (View(v, f), out) == Run(old(View(v, f)), ops)
    ensures v.reliable && !ok ==> v.Free() == {}
    decreases |ops|
  {
    hide OpenFile.Valid, Apply;
    if ops == [] {
      return true, [];
    }
    f.CursorFacts(v);
    assert |View(v, f).contents| == f.size;
    ok, out := Perform(v, f, ops[0]);
    if !ok {
      return;
    }
    var more;
    ok, more := Script(v, f, ops[1..]);
    out := out + more;
  }
}
