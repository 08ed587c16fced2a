/** What the line editor's keys mean: edits of one flat text at one offset; and what its file format
    means. */
module EditorText {
  const MAX_LINES := 128
  const LINE_LENGTH := 128
  const MAX_LINE := LINE_LENGTH - 1

  /** Lines with a cursor. */
  datatype Text = Text(lines: seq<string>, line: nat, col: nat)

  predicate TextOk(t: Text)
  {
    && 1 <= |t.lines| <= MAX_LINES && t.line < |t.lines| && t.col <= |t.lines[t.line]|
    && forall i :: 0 <= i < |t.lines| ==> |t.lines[i]| <= MAX_LINE
  }

  // ---------------------------------------------------------------- the flat text

  /** Every line with a newline behind it. */
  function Lead(lines: seq<string>): string
  {
    if lines == [] then "" else lines[0] + "\n" + Lead(lines[1..])
  }

  /** Every line with a newline in front of it. */
  function Trail(lines: seq<string>): string
  {
    if lines == [] then "" else "\n" + lines[0] + Trail(lines[1..])
  }

  /** The lines joined by newlines. */
  function Flat(lines: seq<string>): string
    requires lines != []
  {
    lines[0] + Trail(lines[1..])
  }

  function Offset(t: Text): nat
    requires TextOk(t)
  {
    |Lead(t.lines[..t.line])| + t.col
  }

  /** The text around one line. */
  lemma {:induction false} FlatAround(lines: seq<string>, l: nat)
    requires l < |lines|
    ensures Flat(lines) == Lead(lines[..l]) + lines[l] + Trail(lines[l + 1..])
  {
    if l > 0 {
      FlatAround(lines[1..], l - 1);
      assert lines[1..][..l - 1] == lines[..l][1..];
      assert Flat(lines) == lines[0] + "\n" + Flat(lines[1..]);
    }
  }

  lemma {:induction false} LeadJoin(a: seq<string>, b: seq<string>)
    ensures Lead(a + b) == Lead(a) + Lead(b)
  {
    if a == [] {
      assert a + b == b;
    } else {
      LeadJoin(a[1..], b);
      assert (a + b)[1..] == a[1..] + b;
    }
  }

  lemma LeadNext(lines: seq<string>, l: nat)
    requires l < |lines|
    ensures Lead(lines[..l + 1]) == Lead(lines[..l]) + lines[l] + "\n"
  {
    assert lines[..l + 1] == lines[..l] + [lines[l]];
    LeadJoin(lines[..l], [lines[l]]);
    assert Lead([lines[l]]) == lines[l] + "\n" + Lead([]);
  }

  lemma TrailFirst(x: string, rest: seq<string>)
    ensures Trail([x] + rest) == "\n" + x + Trail(rest)
  {
    assert ([x] + rest)[1..] == rest;
  }

  // ---------------------------------------------------------------- the keys

  function Typed(t: Text, c: char): (r: Text)
    requires TextOk(t)
    ensures TextOk(r)
  {
    var s := t.lines[t.line];
    if |s| >= MAX_LINE then t
    else Text(t.lines[t.line := s[..t.col] + [c] + s[t.col..]], t.line, t.col + 1)
  }

  function Entered(t: Text): (r: Text)
    requires TextOk(t)
    ensures TextOk(r)
  {
    var s := t.lines[t.line];
    if |t.lines| >= MAX_LINES then t
    else Text(t.lines[..t.line] + [s[..t.col], s[t.col..]] + t.lines[t.line + 1..], t.line + 1, 0)
  }

  /** As much of a line as fits behind another. */
  function Fitting(prev: string, s: string): string
    requires |prev| <= MAX_LINE
  {
    if |s| <= MAX_LINE - |prev| then s else s[..MAX_LINE - |prev|]
  }

  function Erased(t: Text): (r: Text)
    requires TextOk(t)
    ensures TextOk(r)
  {
    var s := t.lines[t.line];
    if t.col > 0 then Text(t.lines[t.line := s[..t.col - 1] + s[t.col..]], t.line, t.col - 1)
    else if t.line > 0 then
      var prev := t.lines[t.line - 1];
      Text(t.lines[..t.line - 1] + [prev + Fitting(prev, s)] + t.lines[t.line + 1..], t.line - 1, |prev|)
    else t
  }

  function Clamped(t: Text, l: nat): Text
    requires l < |t.lines|
  {
    Text(t.lines, l, if t.col > |t.lines[l]| then |t.lines[l]| else t.col)
  }

  datatype Arrow = Up | Down | Left | Right

  function Moved(t: Text, a: Arrow): (r: Text)
    requires TextOk(t)
    ensures TextOk(r)
  {
    match a
    case Up => if t.line > 0 then Clamped(t, t.line - 1) else t
    case Down =>
      if t.line + 1 < |t.lines| then Clamped(t, t.line + 1)
      else if |t.lines| < MAX_LINES then Text(t.lines + [""], t.line + 1, 0)
      else t
    case Left =>
      if t.col > 0 then t.(col := t.col - 1)
      else if t.line > 0 then Text(t.lines, t.line - 1, |t.lines[t.line - 1]|)
      else t
    case Right =>
      if t.col < |t.lines[t.line]| then t.(col := t.col + 1)
      else if t.line + 1 < |t.lines| then Text(t.lines, t.line + 1, 0)
      else t
  }

  datatype Key = CharKey(c: char) | EnterKey | BackspaceKey | ArrowKey(a: Arrow)

  predicate IsCommand(s: string) { s == ".save" || s == ".exit" }

  /** A key pressed while no command line is being entered. */
  function Pressed(t: Text, k: Key): (r: Text)
    requires TextOk(t)
    ensures TextOk(r)
  {
    match k
    case CharKey(c) => Typed(t, c)
    case EnterKey => Entered(t)
    case BackspaceKey => Erased(t)
    case ArrowKey(a) => Moved(t, a)
  }

  function PressedAll(t: Text, keys: seq<Key>): (r: Text)
    requires TextOk(t)
    ensures TextOk(r)
  {
    if keys == [] then t else Pressed(PressedAll(t, keys[..|keys| - 1]), keys[|keys| - 1])
  }

  // ---------------------------------------------------------------- what they mean on the flat text

  predicate FlatInsert(was: string, now: string, at: nat, c: char)
  {
    at <= |was| && now == was[..at] + [c] + was[at..]
  }

  /** A character key inserts that character at the cursor's offset, unless the line is full. */
  lemma TypedIsInsert(t: Text, c: char)
    requires TextOk(t)
    ensures Typed(t, c) == t <==> |t.lines[t.line]| >= MAX_LINE
    ensures |t.lines[t.line]| < MAX_LINE ==>
              FlatInsert(Flat(t.lines), Flat(Typed(t, c).lines), Offset(t), c) && Offset(Typed(t, c)) == Offset(t) + 1
  {
    var u, l := Typed(t, c), t.line;
    if |t.lines[l]| < MAX_LINE {
      FlatAround(t.lines, l);
      FlatAround(u.lines, l);
      assert u.lines[..l] == t.lines[..l] && u.lines[l + 1..] == t.lines[l + 1..];
      var s := t.lines[l];
      assert s == s[..t.col] + s[t.col..];
      InsertMiddle(Lead(t.lines[..l]), s, Trail(t.lines[l + 1..]), t.col, [c]);
    }
  }

  /** Inserting inside the middle part inserts into the whole. */
  lemma InsertMiddle(pre: string, s: string, post: string, k: nat, c: string)
    requires k <= |s|
    ensures var all := pre + s + post;
            && |pre| + k <= |all|
            && pre + (s[..k] + c + s[k..]) + post == all[..|pre| + k] + c + all[|pre| + k..]
  {
    var all := pre + s + post;
    assert all[..|pre| + k] == pre + s[..k];
    assert all[|pre| + k..] == s[k..] + post;
  }

  /** Enter inserts a newline there, unless the buffer is full. */
  lemma EnteredIsInsert(t: Text)
    requires TextOk(t)
    ensures Entered(t) == t <==> |t.lines| >= MAX_LINES
    ensures |t.lines| < MAX_LINES ==>
              FlatInsert(Flat(t.lines), Flat(Entered(t).lines), Offset(t), '\n') && Offset(Entered(t)) == Offset(t) + 1
  {
    if |t.lines| < MAX_LINES {
      EnterSplits(t);
    }
  }

  lemma EnterSplits(t: Text)
    requires TextOk(t) && |t.lines| < MAX_LINES
    ensures FlatInsert(Flat(t.lines), Flat(Entered(t).lines), Offset(t), '\n') && Offset(Entered(t)) == Offset(t) + 1
  {
    hide Lead, Trail, Flat;
    var u, l := Entered(t), t.line;
    var s := t.lines[l];
    var pre, post := Lead(t.lines[..l]), Trail(t.lines[l + 1..]);
    FlatAround(t.lines, l);
    FlatAround(u.lines, l);
    LeadNext(u.lines, l);
    assert u.lines[..l] == t.lines[..l] && u.lines[l] == s[..t.col];
    assert u.lines[l + 1..] == [s[t.col..]] + t.lines[l + 1..];
    TrailFirst(s[t.col..], t.lines[l + 1..]);
    Regroup(pre, s[..t.col], "\n", s[t.col..], post);
    InsertMiddle(pre, s, post, t.col, "\n");
  }

  lemma Regroup(a: string, b: string, c: string, d: string, e: string)
    ensures a + b + (c + d + e) == a + (b + c + d) + e
  {
  }

  predicate FlatDelete(was: string, now: string, at: nat)
  {
    at < |was| && now == was[..at] + was[at + 1..]
  }

  /** Backspace deletes the character in front of the cursor; at the start of a line that is the
      newline, and it is exactly that if the joined line fits. */
  lemma ErasedIsDelete(t: Text)
    requires TextOk(t)
    ensures Erased(t) == t <==> Offset(t) == 0
    ensures Offset(t) > 0 ==>
              && Offset(Erased(t)) == Offset(t) - 1
              && (FlatDelete(Flat(t.lines), Flat(Erased(t).lines), Offset(t) - 1)
                  <==> t.col > 0 || |t.lines[t.line - 1]| + |t.lines[t.line]| <= MAX_LINE)
  {
    if t.col > 0 {
      EraseInLine(t);
    } else if t.line > 0 {
      EraseNewline(t);
    }
  }

  /** For instance, a full line joined with another loses that one's text. */
  lemma JoinLoses()
    ensures var prev := seq(MAX_LINE, _ => 'a');
            var t := Text([prev, "b"], 1, 0);
            && TextOk(t) && Erased(t).lines == [prev]
            && !FlatDelete(Flat(t.lines), Flat(Erased(t).lines), Offset(t) - 1)
  {
    var prev := seq(MAX_LINE, _ => 'a');
    var t := Text([prev, "b"], 1, 0);
    assert prev + Fitting(prev, "b") == prev;
    ErasedIsDelete(t);
  }

  lemma EraseInLine(t: Text)
    requires TextOk(t) && t.col > 0
    ensures Offset(Erased(t)) == Offset(t) - 1 && Erased(t) != t
    ensures FlatDelete(Flat(t.lines), Flat(Erased(t).lines), Offset(t) - 1)
  {
    var u, l := Erased(t), t.line;
    var s := t.lines[l];
    FlatAround(t.lines, l);
    FlatAround(u.lines, l);
    assert u.lines[..l] == t.lines[..l] && u.lines[l + 1..] == t.lines[l + 1..];
    DeleteMiddle(Lead(t.lines[..l]), s, Trail(t.lines[l + 1..]), t.col - 1);
  }

  lemma DeleteMiddle(pre: string, s: string, post: string, k: nat)
    requires k < |s|
    ensures var all := pre + s + post;
            && |pre| + k < |all|
            && pre + (s[..k] + s[k + 1..]) + post == all[..|pre| + k] + all[|pre| + k + 1..]
  {
    var all := pre + s + post;
    assert all[..|pre| + k] == pre + s[..k];
    assert all[|pre| + k + 1..] == s[k + 1..] + post;
  }

  lemma EraseNewline(t: Text)
    requires TextOk(t) && t.col == 0 && t.line > 0
    ensures Offset(t) > 0 && Offset(Erased(t)) == Offset(t) - 1 && Erased(t) != t
    ensures FlatDelete(Flat(t.lines), Flat(Erased(t).lines), Offset(t) - 1)
       <==> |t.lines[t.line - 1]| + |t.lines[t.line]| <= MAX_LINE
  {
    hide Lead, Trail, Flat;
    var u, l := Erased(t), t.line;
    var prev, s := t.lines[l - 1], t.lines[l];
    var pre, post := Lead(t.lines[..l - 1]), Trail(t.lines[l + 1..]);
    FlatAround(t.lines, l - 1);
    LeadNext(t.lines, l - 1);
    assert t.lines[l - 1 + 1..] == [s] + t.lines[l + 1..];
    TrailFirst(s, t.lines[l + 1..]);
    FlatAround(u.lines, l - 1);
    assert u.lines[..l - 1] == t.lines[..l - 1] && u.lines[l - 1 + 1..] == t.lines[l + 1..];
    JoinedFlat(pre, prev, s, post, Flat(t.lines), Flat(u.lines));
  }

  lemma JoinedFlat(pre: string, prev: string, s: string, post: string, was: string, now: string)
    requires |prev| <= MAX_LINE
    requires was == pre + prev + ("\n" + s + post) && now == pre + (prev + Fitting(prev, s)) + post
    ensures FlatDelete(was, now, |pre| + |prev|) <==> |prev| + |s| <= MAX_LINE
  {
    assert was == (pre + prev) + "\n" + (s + post);
    CutOut(pre + prev, "\n", s + post);
    if |prev| + |s| > MAX_LINE {
      assert |now| < |was| - 1;
    } else {
      assert now == (pre + prev) + (s + post);
    }
  }

  lemma CutOut(a: string, m: string, b: string)
    ensures (a + m + b)[..|a|] == a && (a + m + b)[|a| + |m|..] == b
  {
  }

  /** Backspace takes back what was typed, and takes back Enter. */
  lemma TypedThenErased(t: Text, c: char)
    requires TextOk(t) && |t.lines[t.line]| < MAX_LINE
    ensures Erased(Typed(t, c)) == t
  {
    var s, u := t.lines[t.line], Typed(t, c);
    assert u.lines[t.line][..t.col] + u.lines[t.line][t.col + 1..] == s;
    assert u.lines[t.line := s] == t.lines;
  }

  lemma EnteredThenErased(t: Text)
    requires TextOk(t) && |t.lines| < MAX_LINES
    ensures Erased(Entered(t)) == t
  {
    var s, u := t.lines[t.line], Entered(t);
    assert u.lines[t.line] == s[..t.col] && u.lines[t.line + 1] == s[t.col..];
    assert s[..t.col] + s[t.col..] == s;
    assert u.lines[..t.line] + [s] + u.lines[t.line + 2..] == t.lines;
  }

  /** The arrows move the cursor and leave the text alone, except that Down on the last line opens an
      empty one; Left and Right step by one offset unless they are at an end. */
  lemma MovedMeans(t: Text, a: Arrow)
    requires TextOk(t)
    ensures var r := Moved(t, a);
            && Flat(r.lines)
               == Flat(t.lines) + (if a == Down && t.line + 1 == |t.lines| && |t.lines| < MAX_LINES then "\n" else "")
            && (a == Left ==> Offset(r) == if Offset(t) > 0 then Offset(t) - 1 else 0)
            && (a == Right ==> Offset(r) == if Offset(t) < |Flat(t.lines)| then Offset(t) + 1 else Offset(t))
  {
    hide Lead, Trail, Flat;
    var r, l := Moved(t, a), t.line;
    FlatAround(t.lines, l);
    if a == Left && t.col == 0 && l > 0 {
      LeadNext(t.lines, l - 1);
    } else if a == Right {
      TrailEmpty(t.lines[l + 1..]);
      if t.col == |t.lines[l]| && l + 1 < |t.lines| {
        LeadNext(t.lines, l);
      }
    } else if a == Down && l + 1 == |t.lines| && |t.lines| < MAX_LINES {
      OpenedLine(t.lines);
    }
    if a == Left {
      LeadEmpty(t.lines[..l]);
    }
  }

  lemma TrailEmpty(lines: seq<string>)
    ensures Trail(lines) == "" <==> lines == []
  {
  }

  lemma LeadEmpty(lines: seq<string>)
    ensures Lead(lines) == "" <==> lines == []
  {
  }

  lemma OpenedLine(lines: seq<string>)
    requires lines != []
    ensures Flat(lines + [""]) == Flat(lines) + "\n"
  {
    hide Trail, Lead;
    var n := |lines| - 1;
    FlatAround(lines, n);
    FlatAround(lines + [""], n);
    assert (lines + [""])[..n] == lines[..n] && (lines + [""])[n + 1..] == [""] + [] && lines[n + 1..] == [];
    TrailFirst("", []);
    TrailEmpty([]);
  }

  lemma {:induction false} LeadMonotone(lines: seq<string>, i: nat, j: nat)
    requires i <= j <= |lines|
    ensures |Lead(lines[..i])| <= |Lead(lines[..j])|
    decreases j
  {
    if i < j {
      LeadNext(lines, j - 1);
      LeadMonotone(lines, i, j - 1);
    }
  }

  /** The offset says where the cursor is: it determines line and column. */
  lemma OffsetIsInjective(t: Text, u: Text)
    requires TextOk(t) && TextOk(u) && t.lines == u.lines && Offset(t) == Offset(u)
    ensures t == u
  {
    hide Lead;
    if t.line < u.line {
      LeadNext(t.lines, t.line);
      LeadMonotone(t.lines, t.line + 1, u.line);
    } else if u.line < t.line {
      LeadNext(u.lines, u.line);
      LeadMonotone(u.lines, u.line + 1, t.line);
    }
  }

  // ---------------------------------------------------------------- the file format

  /** The characters in front of the first NUL. */
  function CString(s: string): (r: string)
    ensures |r| <= |s| && r == s[..|r|] && (|r| < |s| ==> s[|r|] == '\0')
    ensures forall i :: 0 <= i < |r| ==> r[i] != '\0'
  {
    if s == "" || s[0] == '\0' then "" else [s[0]] + CString(s[1..])
  }

  /** The loader's state: finished lines, the line being collected, and whether lines were left out. */
  datatype Loading = Loading(lines: seq<string>, partial: string, truncated: bool)

  const NOTHING := Loading([], "", false)

  /** Finish the line being collected. */
  function Stored(s: Loading): Loading
  {
    if |s.lines| < MAX_LINES then Loading(s.lines + [CString(s.partial)], "", s.truncated)
    else Loading(s.lines, "", true)
  }

  function Took(s: Loading, c: char): Loading
  {
    if c == '\r' then s
    else if c == '\n' then Stored(s)
    else if |s.partial| < MAX_LINE then s.(partial := s.partial + [c])
    else s
  }

  function TookAll(s: Loading, data: string): Loading
    decreases |data|
  {
    if data == "" then s else TookAll(Took(s, data[0]), data[1..])
  }

  /** The loader's state when the file has ended; a last line without a newline counts. */
  function AtEnd(data: string): Loading
  {
    var s := TookAll(NOTHING, data);
    if s.partial != "" || s.lines == [] then Stored(s) else s
  }

  function Loaded(data: string): seq<string>
  {
    AtEnd(data).lines
  }

  lemma {:induction false} TookAllJoin(s: Loading, a: string, b: string)
    ensures TookAll(s, a + b) == TookAll(TookAll(s, a), b)
    decreases |a|
  {
    if a == "" {
      assert a + b == b;
    } else {
      assert (a + b)[1..] == a[1..] + b;
      TookAllJoin(Took(s, a[0]), a[1..], b);
    }
  }

  /** The reads up to the first that delivers nothing. */
  function Delivered(chunks: seq<string>): seq<string>
  {
    if chunks == [] || chunks[0] == "" then [] else [chunks[0]] + Delivered(chunks[1..])
  }

  lemma {:induction false} DeliveredIs(chunks: seq<string>, n: nat)
    requires n <= |chunks| && (forall i :: 0 <= i < n ==> chunks[i] != "") && (n < |chunks| ==> chunks[n] == "")
    ensures Delivered(chunks) == chunks[..n]
  {
    if n > 0 {
      DeliveredIs(chunks[1..], n - 1);
      assert chunks[..n] == [chunks[0]] + chunks[1..][..n - 1];
    }
  }

  /** How the file is cut into reads makes no difference. */
  function Concatenated(chunks: seq<string>): string
  {
    if chunks == [] then "" else Concatenated(chunks[..|chunks| - 1]) + chunks[|chunks| - 1]
  }

  /** A line that the file format can carry. */
  predicate IsPlain(s: string)
  {
    |s| <= MAX_LINE && forall i :: 0 <= i < |s| ==> s[i] != '\n' && s[i] != '\r' && s[i] != '\0'
  }

  predicate ArePlain(lines: seq<string>)
  {
    forall i :: 0 <= i < |lines| ==> IsPlain(lines[i])
  }

  /** Empty lines at the end are not saved. */
  function Trimmed(lines: seq<string>): (r: seq<string>)
    ensures r <= lines && (lines != [] ==> r != [])
    ensures |r| > 1 ==> r[|r| - 1] != ""
    ensures forall i :: |r| <= i < |lines| ==> lines[i] == ""
  {
    if |lines| > 1 && lines[|lines| - 1] == "" then Trimmed(lines[..|lines| - 1]) else lines
  }

  /** What is written to the file. */
  function Saved(lines: seq<string>): string
  {
    Lead(Trimmed(lines))
  }

  lemma {:induction false} PlainIsTaken(s: Loading, line: string)
    requires IsPlain(s.partial + line)
    ensures TookAll(s, line) == s.(partial := s.partial + line)
    decreases |line|
  {
    if line == "" {
      assert s.partial + line == s.partial;
    } else {
      assert (s.partial + line)[|s.partial|] == line[0];
      assert s.partial + line == s.partial + [line[0]] + line[1..];
      PlainIsTaken(Took(s, line[0]), line[1..]);
    }
  }

  lemma {:induction false} NoNulIsWhole(s: string)
    requires forall i :: 0 <= i < |s| ==> s[i] != '\0'
    ensures CString(s) == s
  {
    if s != "" {
      NoNulIsWhole(s[1..]);
    }
  }

  lemma {:induction false} LinesAreTaken(pre: seq<string>, lines: seq<string>)
    requires ArePlain(lines) && |pre| + |lines| <= MAX_LINES
    ensures TookAll(Loading(pre, "", false), Lead(lines)) == Loading(pre + lines, "", false)
    decreases |lines|
  {
    hide TookAll, Took;
    if lines == [] {
      assert pre + lines == pre;
      NothingTaken(Loading(pre, "", false));
    } else {
      LineIsTaken(pre, lines[0]);
      TookAllJoin(Loading(pre, "", false), lines[0] + "\n", Lead(lines[1..]));
      LinesAreTaken(pre + [lines[0]], lines[1..]);
      assert pre + lines == pre + [lines[0]] + lines[1..];
    }
  }

  lemma NothingTaken(s: Loading)
    ensures TookAll(s, "") == s
  {
  }

  lemma LineIsTaken(pre: seq<string>, line: string)
    requires IsPlain(line) && |pre| < MAX_LINES
    ensures TookAll(Loading(pre, "", false), line + "\n") == Loading(pre + [line], "", false)
  {
    var s := Loading(pre, "", false);
    assert "" + line == line;
    TookAllJoin(s, line, "\n");
    PlainIsTaken(s, line);
    NoNulIsWhole(line);
    NewlineTaken(s.(partial := line));
  }

  lemma NewlineTaken(s: Loading)
    ensures TookAll(s, "\n") == Stored(s)
  {
    assert "\n"[1..] == "";
    NothingTaken(Stored(s));
  }

  lemma {:induction false} FurtherLinesAreCut(s: Loading, lines: seq<string>)
    requires |s.lines| == MAX_LINES && s.partial == "" && ArePlain(lines)
    ensures TookAll(s, Lead(lines)) == s.(truncated := s.truncated || lines != [])
    decreases |lines|
  {
    hide TookAll, Took, Stored, IsPlain;
    if lines == [] {
      NothingTaken(s);
    } else {
      var line := lines[0];
      TookAllJoin(s, line + "\n", Lead(lines[1..]));
      LineIsDropped(s, line);
      FurtherLinesAreCut(s.(truncated := true), lines[1..]);
    }
  }

  lemma LineIsDropped(s: Loading, line: string)
    requires |s.lines| == MAX_LINES && s.partial == "" && IsPlain(line)
    ensures TookAll(s, line + "\n") == s.(truncated := true)
  {
    hide TookAll;
    assert "" + line == line;
    TookAllJoin(s, line, "\n");
    PlainIsTaken(s, line);
    NewlineTaken(s.(partial := line));
  }

  /** Of a file of plain lines the first 128 are loaded, and the loader knows whether there were more. */
  lemma LongFilesAreCut(lines: seq<string>)
    requires lines != [] && ArePlain(lines)
    ensures Loaded(Lead(lines)) == if |lines| <= MAX_LINES then lines else lines[..MAX_LINES]
    ensures AtEnd(Lead(lines)).truncated <==> |lines| > MAX_LINES
  {
    hide TookAll, Lead, IsPlain;
    var n := if |lines| <= MAX_LINES then |lines| else MAX_LINES;
    var front, rest := lines[..n], lines[n..];
    assert lines == front + rest;
    LeadJoin(front, rest);
    LinesAreTaken([], front);
    assert [] + front == front;
    TookAllJoin(NOTHING, Lead(front), Lead(rest));
    if rest != [] {
      FurtherLinesAreCut(Loading(front, "", false), rest);
    } else {
      NoLead();
      NothingTaken(Loading(front, "", false));
    }
  }

  lemma NoLead()
    ensures Lead([]) == ""
  {
  }

  /** Whatever is in the file, what is loaded can be saved. */
  lemma {:induction false} TookAllPlain(s: Loading, data: string)
    requires ArePlain(s.lines) && NoBreaks(s.partial) && |s.partial| <= MAX_LINE
    ensures var r := TookAll(s, data); ArePlain(r.lines) && NoBreaks(r.partial) && |r.partial| <= MAX_LINE
    decreases |data|
  {
    if data != "" {
      TookAllPlain(Took(s, data[0]), data[1..]);
    }
  }

  predicate NoBreaks(s: string)
  {
    forall i :: 0 <= i < |s| ==> s[i] != '\n' && s[i] != '\r'
  }

  lemma LoadedIsPlain(data: string)
    ensures ArePlain(Loaded(data))
  {
    hide TookAll;
    TookAllPlain(NOTHING, data);
  }

  predicate PlainKey(k: Key)
  {
    k.CharKey? ==> k.c != '\n' && k.c != '\r' && k.c != '\0'
  }

  lemma PressedPlain(t: Text, k: Key)
    requires TextOk(t) && ArePlain(t.lines) && PlainKey(k)
    ensures ArePlain(Pressed(t, k).lines)
  {
    hide Typed, Entered, Erased, Moved, IsPlain;
    match k {
      case CharKey(c) => TypedPlain(t, c);
      case EnterKey => EnteredPlain(t);
      case BackspaceKey => ErasedPlain(t);
      case ArrowKey(a) => MovedPlain(t, a);
    }
  }

  lemma PlainParts(s: string, i: nat)
    requires IsPlain(s) && i <= |s|
    ensures IsPlain(s[..i]) && IsPlain(s[i..])
  {
  }

  lemma PlainJoin(a: string, b: string)
    requires IsPlain(a) && IsPlain(b) && |a| + |b| <= MAX_LINE
    ensures IsPlain(a + b)
  {
  }

  lemma TypedPlain(t: Text, c: char)
    requires TextOk(t) && ArePlain(t.lines) && PlainKey(CharKey(c))
    ensures ArePlain(Typed(t, c).lines)
  {
    var s := t.lines[t.line];
    assert IsPlain(s);
    if |s| < MAX_LINE {
      PlainParts(s, t.col);
      assert IsPlain([c]);
      PlainJoin(s[..t.col], [c]);
      PlainJoin(s[..t.col] + [c], s[t.col..]);
    }
    hide IsPlain;
  }

  lemma EnteredPlain(t: Text)
    requires TextOk(t) && ArePlain(t.lines)
    ensures ArePlain(Entered(t).lines)
  {
    hide IsPlain;
    PlainParts(t.lines[t.line], t.col);
  }

  lemma ErasedPlain(t: Text)
    requires TextOk(t) && ArePlain(t.lines)
    ensures ArePlain(Erased(t).lines)
  {
    hide IsPlain;
    var s := t.lines[t.line];
    assert IsPlain(s);
    if t.col > 0 {
      PlainParts(s, t.col - 1);
      PlainParts(s, t.col);
      PlainJoin(s[..t.col - 1], s[t.col..]);
    } else if t.line > 0 {
      var prev := t.lines[t.line - 1];
      PlainParts(s, |Fitting(prev, s)|);
      PlainJoin(prev, Fitting(prev, s));
    }
  }

  lemma MovedPlain(t: Text, a: Arrow)
    requires TextOk(t) && ArePlain(t.lines)
    ensures ArePlain(Moved(t, a).lines)
  {
    assert IsPlain("");
    hide IsPlain;
  }

  lemma {:induction false} PressedAllPlain(t: Text, keys: seq<Key>)
    requires TextOk(t) && ArePlain(t.lines) && forall i :: 0 <= i < |keys| ==> PlainKey(keys[i])
    ensures ArePlain(PressedAll(t, keys).lines)
  {
    hide Pressed, ArePlain;
    if keys != [] {
      PressedAllPlain(t, keys[..|keys| - 1]);
      PressedPlain(PressedAll(t, keys[..|keys| - 1]), keys[|keys| - 1]);
    }
  }

  /** A whole session: whatever file is loaded and whatever plain keys are pressed, saving and loading
      again gives the text as it stood, up to empty lines at the end. */
  lemma SessionIsKept(data: string, keys: seq<Key>)
    requires forall i :: 0 <= i < |keys| ==> PlainKey(keys[i])
    ensures TextOk(Text(Loaded(data), 0, 0))
    ensures var t := PressedAll(Text(Loaded(data), 0, 0), keys); Loaded(Saved(t.lines)) == Trimmed(t.lines)
  {
    hide Loaded, Saved, Trimmed, ArePlain;
    LoadedOk(data);
    LoadedIsPlain(data);
    PressedAllPlain(Text(Loaded(data), 0, 0), keys);
    SavedIsLoaded(PressedAll(Text(Loaded(data), 0, 0), keys).lines);
  }

  /** Saving and loading gives back the lines, except for empty ones at the end. */
  lemma SavedIsLoaded(lines: seq<string>)
    requires 1 <= |lines| <= MAX_LINES && ArePlain(lines)
    ensures Loaded(Saved(lines)) == Trimmed(lines)
    ensures Loaded(Saved(lines)) == lines <==> |lines| == 1 || lines[|lines| - 1] != ""
  {
    hide TookAll, Lead, Trimmed, IsPlain;
    var kept := Trimmed(lines);
    LinesAreTaken([], kept);
    assert [] + kept == kept;
    TrimmedSame(lines);
  }

  lemma TrimmedSame(lines: seq<string>)
    requires lines != []
    ensures Trimmed(lines) == lines <==> |lines| == 1 || lines[|lines| - 1] != ""
  {
  }

  lemma {:induction false} TrimmedAt(lines: seq<string>, n: nat)
    requires 1 <= n <= |lines| && (n == 1 || lines[n - 1] != "") && forall i :: n <= i < |lines| ==> lines[i] == ""
    ensures Trimmed(lines) == lines[..n]
  {
    if n < |lines| {
      assert lines[..|lines| - 1][..n] == lines[..n];
      TrimmedAt(lines[..|lines| - 1], n);
    } else {
      assert lines[..n] == lines;
    }
  }

  lemma ConcatenatedNext(chunks: seq<string>, i: nat)
    requires i < |chunks|
    ensures Concatenated(chunks[..i + 1]) == Concatenated(chunks[..i]) + chunks[i]
  {
    assert chunks[..i + 1][..i] == chunks[..i];
  }

  /** Whatever is in the file, the loader's lines fit the buffer. */
  predicate LoadingOk(s: Loading)
  {
    |s.lines| <= MAX_LINES && |s.partial| <= MAX_LINE && forall i :: 0 <= i < |s.lines| ==> |s.lines[i]| <= MAX_LINE
  }

  lemma {:induction false} TookAllOk(s: Loading, data: string)
    requires LoadingOk(s)
    ensures LoadingOk(TookAll(s, data))
    decreases |data|
  {
    if data != "" {
      TookAllOk(Took(s, data[0]), data[1..]);
    }
  }

  lemma LoadedOk(data: string)
    ensures TextOk(Text(Loaded(data), 0, 0))
  {
    TookAllOk(NOTHING, data);
  }
}
