/** The line editor's buffer: rows of NUL-terminated characters, edited in place. */
module Editor {
  import opened Machine
  import opened EditorText

  const NUL := '\0'

  datatype Action = Edited | SaveAndQuit | Quit

  class LineBuffer {
    const buffer: array2<char>
    var lineCount: nat
    var line: nat
    var col: nat

    ghost predicate Shape()
    {
      buffer.Length0 == MAX_LINES && buffer.Length1 == LINE_LENGTH
    }

    /** The characters of one row. */
    ghost function Row(i: nat): (r: string)
      requires Shape() && i < MAX_LINES
      reads buffer
      ensures |r| == LINE_LENGTH && forall j :: 0 <= j < LINE_LENGTH ==> r[j] == buffer[i, j]
    {
      seq(LINE_LENGTH, j requires 0 <= j < LINE_LENGTH reads buffer => buffer[i, j])
    }

    ghost function LineAt(i: nat): string
      requires Shape() && i < MAX_LINES
      reads buffer
    {
      CString(Row(i))
    }

    ghost predicate Terminated(i: nat)
      requires Shape() && i < MAX_LINES
      reads buffer
    {
      |LineAt(i)| <= MAX_LINE
    }

    ghost function Lines(): (r: seq<string>)
      requires Shape() && lineCount <= MAX_LINES
      reads this, buffer
      ensures |r| == lineCount && forall i :: 0 <= i < lineCount ==> r[i] == LineAt(i)
    {
      seq(lineCount, i requires 0 <= i < lineCount && Shape() && lineCount <= MAX_LINES reads this, buffer => LineAt(i))
    }

    ghost function Now(): Text
      requires Shape() && lineCount <= MAX_LINES
      reads this, buffer
    {
      Text(Lines(), line, col)
    }

    /** Every line is terminated, and the cursor is inside the text. */
    ghost predicate Valid()
      reads this, buffer
    {
      Shape() && lineCount <= MAX_LINES && TextOk(Now())
    }

    constructor ()
      ensures Valid() && Now() == Text([""], 0, 0) && fresh(buffer)
    {
      buffer := new char[MAX_LINES, LINE_LENGTH]((i, j) => NUL);
      lineCount, line, col := 1, 0, 0;
      new;
      assert LineAt(0) == "";
    }

    lemma LineIs(i: nat, n: nat)
      requires Shape() && i < MAX_LINES && n < LINE_LENGTH && buffer[i, n] == NUL
      requires forall j :: 0 <= j < n ==> buffer[i, j] != NUL
      ensures LineAt(i) == Row(i)[..n] && Terminated(i)
    {
      CStringIs(Row(i), n);
    }

    /** The length of a row's text. */
    method Strlen(i: nat) returns (n: nat)
      requires Shape() && i < MAX_LINES && Terminated(i)
      ensures n == |LineAt(i)| <= MAX_LINE && buffer[i, n] == NUL
    {
      n := 0;
      ghost var s := LineAt(i);
      while buffer[i, n] != NUL
        invariant n <= |s|
        decreases |s| - n
      {
        n := n + 1;
      }
    }

    /** Copy a text into a row: characters, then NULs up to the end of the row. */
    method CopyLine(dst: nat, s: string)
      requires Shape() && dst < MAX_LINES && |s| <= LINE_LENGTH
      modifies buffer
      ensures Terminated(dst)
      ensures |CString(s)| <= MAX_LINE ==> LineAt(dst) == CString(s)
      ensures forall i :: 0 <= i < MAX_LINES && i != dst ==> LineAt(i) == old(LineAt(i))
    {
      ghost var text := CString(s);
      var j := 0;
      while j < LINE_LENGTH && j < |s| && s[j] != NUL
        invariant 0 <= j <= LINE_LENGTH && j <= |text|
        invariant forall k :: 0 <= k < j ==> buffer[dst, k] == text[k]
        invariant forall i, k :: 0 <= i < MAX_LINES && i != dst && 0 <= k < LINE_LENGTH ==>
                    buffer[i, k] == old(buffer[i, k])
      {
        buffer[dst, j] := s[j];
        j := j + 1;
      }
      while j < LINE_LENGTH
        invariant |text| <= j <= LINE_LENGTH
        invariant forall k :: 0 <= k < j ==> buffer[dst, k] == if k < |text| then text[k] else NUL
        invariant forall i, k :: 0 <= i < MAX_LINES && i != dst && 0 <= k < LINE_LENGTH ==>
                    buffer[i, k] == old(buffer[i, k])
      {
        buffer[dst, j] := NUL;
        j := j + 1;
      }
      buffer[dst, LINE_LENGTH - 1] := NUL;
      forall i | 0 <= i < MAX_LINES && i != dst
        ensures LineAt(i) == old(LineAt(i))
      {
        assert Row(i) == old(Row(i));
      }
      hide LineBuffer.LineAt;
      if |text| <= MAX_LINE {
        LineIs(dst, |text|);
        assert Row(dst)[..|text|] == text;
      } else {
        LineIs(dst, MAX_LINE);
      }
    }

    method GetLine(i: nat) returns (s: string)
      requires Shape() && i < MAX_LINES && Terminated(i)
      ensures s == LineAt(i)
    {
      s := "";
      var j := 0;
      ghost var text := LineAt(i);
      while buffer[i, j] != NUL
        invariant j <= |text| && s == text[..j]
        decreases |text| - j
      {
        s := s + [buffer[i, j]];
        j := j + 1;
      }
      assert text[..j] == text;
    }

    method CopyRow(dst: nat, src: nat)
      requires Shape() && dst < MAX_LINES && src < MAX_LINES && Terminated(src)
      modifies buffer
      ensures LineAt(dst) == old(LineAt(src))
      ensures forall i :: 0 <= i < MAX_LINES && i != dst ==> LineAt(i) == old(LineAt(i))
    {
      hide LineBuffer.LineAt, LineBuffer.Row;
      var s := GetLine(src);
      LineOfLine(src);
      CopyLine(dst, s);
    }

    lemma LineOfLine(i: nat)
      requires Shape() && i < MAX_LINES
      ensures CString(LineAt(i)) == LineAt(i)
    {
      NoNulIsWhole(LineAt(i));
    }

    /** Make room: every line from `first` on moves down by one. */
    method MoveDown(first: nat, count: nat)
      requires Shape() && first <= count < MAX_LINES && forall i :: 0 <= i < count ==> Terminated(i)
      modifies buffer
      ensures forall i :: first < i <= count ==> LineAt(i) == old(LineAt(i - 1))
      ensures forall i :: 0 <= i <= first || count < i < MAX_LINES ==> LineAt(i) == old(LineAt(i))
    {
      hide LineBuffer.LineAt, LineBuffer.Row;
      var i := count;
      while i > first
        invariant first <= i <= count
        invariant forall k :: i < k <= count ==> LineAt(k) == old(LineAt(k - 1))
        invariant forall k :: 0 <= k <= i || count < k < MAX_LINES ==> LineAt(k) == old(LineAt(k))
      {
        assert old(Terminated(i - 1)) && LineAt(i - 1) == old(LineAt(i - 1));
        CopyRow(i, i - 1);
        i := i - 1;
      }
    }

    /** Close the gap: every line behind `first` moves up by one. */
    method MoveUp(first: nat, count: nat)
      requires Shape() && first < count <= MAX_LINES && forall i :: 0 <= i < count ==> Terminated(i)
      modifies buffer
      ensures forall i :: first <= i < count - 1 ==> LineAt(i) == old(LineAt(i + 1))
      ensures forall i :: 0 <= i < first || count - 1 <= i < MAX_LINES ==> LineAt(i) == old(LineAt(i))
    {
      hide LineBuffer.LineAt, LineBuffer.Row;
      var i := first;
      while i < count - 1
        invariant first <= i <= count - 1
        invariant forall k :: first <= k < i ==> LineAt(k) == old(LineAt(k + 1))
        invariant forall k :: 0 <= k < first || i <= k < MAX_LINES ==> LineAt(k) == old(LineAt(k))
      {
        assert old(Terminated(i + 1)) && LineAt(i + 1) == old(LineAt(i + 1));
        CopyRow(i, i + 1);
        i := i + 1;
      }
    }

    // ---------------------------------------------------------------- keys

    lemma Facts()
      requires Valid()
      ensures Shape() && 1 <= lineCount <= MAX_LINES && line < lineCount && col <= |LineAt(line)|
      ensures forall i :: 0 <= i < lineCount ==> Terminated(i) && Lines()[i] == LineAt(i)
      ensures |Lines()| == lineCount && Now() == Text(Lines(), line, col)
    {
      hide LineBuffer.LineAt, LineBuffer.Row;
    }

    /** Insert a character, shifting the rest of the row to the right. */
    method HandleChar(c: char)
      requires Valid() && c != NUL
      modifies this`col, buffer
      ensures Valid() && Now() == Typed(old(Now()), c)
    {
      hide LineBuffer.LineAt, LineBuffer.Row, Valid;
      Facts();
      var n := Strlen(line);
      if n >= LINE_LENGTH - 1 {
        return;
      }
      InsertAt(line, col, c, n);
      col := col + 1;
      BecameText(Typed(old(Now()), c));
    }

    method InsertAt(i: nat, at: nat, c: char, n: nat)
      requires Shape() && i < MAX_LINES && Terminated(i) && at <= n == |LineAt(i)| < MAX_LINE && c != NUL
      modifies buffer
      ensures LineAt(i) == old(LineAt(i)[..at] + [c] + LineAt(i)[at..])
      ensures forall k :: 0 <= k < MAX_LINES && k != i ==> LineAt(k) == old(LineAt(k))
    {
      ghost var s := LineAt(i);
      var j := n;
      while j > at
        invariant at <= j <= n
        invariant forall k :: 0 <= k <= j ==> k < n ==> buffer[i, k] == s[k]
        invariant forall k :: j < k <= n ==> buffer[i, k] == s[k - 1]
        invariant forall r, k :: 0 <= r < MAX_LINES && r != i && 0 <= k < LINE_LENGTH ==>
                    buffer[r, k] == old(buffer[r, k])
      {
        buffer[i, j] := buffer[i, j - 1];
        j := j - 1;
      }
      buffer[i, at] := c;
      buffer[i, n + 1] := NUL;
      forall k | 0 <= k < MAX_LINES && k != i
        ensures LineAt(k) == old(LineAt(k))
      {
        assert Row(k) == old(Row(k));
      }
      hide LineBuffer.LineAt;
      LineIs(i, n + 1);
      assert Row(i)[..n + 1] == s[..at] + [c] + s[at..];
    }

    /** Enter: a command line is obeyed, any other line is split at the cursor. On the only line `.save`
        would leave no line at all. */
    method HandleEnter() returns (action: Action)
      requires Valid() && !(lineCount == 1 && Now().lines[0] == ".save")
      modifies this`lineCount, this`line, this`col, buffer
      ensures Valid()
      ensures var t := old(Now()); var s := t.lines[t.line];
              && (action == Edited <==> s != ".save" && s != ".exit")
              && (action == Edited ==> Now() == Entered(t))
              && (action == Quit <==> s == ".exit") && (action == Quit ==> Now() == t)
              && (action == SaveAndQuit ==> Lines() == t.lines[..t.line] + t.lines[t.line + 1..])
    {
      hide LineBuffer.LineAt, LineBuffer.Row, Valid;
      Facts();
      var s := GetLine(line);
      if s == ".save" {
        DropLine();
        return SaveAndQuit;
      }
      if s == ".exit" {
        return Quit;
      }
      action := Edited;
      if lineCount >= MAX_LINES {
        return;
      }
      ghost var t := Now();
      SplitLine(s);
      lineCount, line, col := lineCount + 1, line + 1, 0;
      BecameText(Entered(t));
    }

    /** Cut the current line at the cursor and put its right half into a new line below. */
    method SplitLine(s: string)
      requires Valid() && lineCount < MAX_LINES && s == LineAt(line)
      modifies buffer
      ensures LineAt(line) == s[..col] && LineAt(line + 1) == s[col..]
      ensures forall i :: 0 <= i < line ==> LineAt(i) == old(LineAt(i))
      ensures forall i :: line + 1 < i <= lineCount ==> LineAt(i) == old(LineAt(i - 1))
    {
      hide LineBuffer.LineAt, LineBuffer.Row, Valid;
      Facts();
      LineOfLine(line);
      SuffixIsString(s, col);
      CutRow(line, col);
      assert forall i :: 0 <= i < lineCount ==> Terminated(i) by {
        assert forall i :: 0 <= i < lineCount ==> old(Terminated(i));
      }
      MoveDown(line + 1, lineCount);
      CopyLine(line + 1, s[col..]);
    }

    /** A NUL at the cursor ends the row there. */
    method CutRow(i: nat, at: nat)
      requires Shape() && i < MAX_LINES && Terminated(i) && at <= |LineAt(i)|
      modifies buffer
      ensures LineAt(i) == old(LineAt(i))[..at]
      ensures forall k :: 0 <= k < MAX_LINES && k != i ==> LineAt(k) == old(LineAt(k))
    {
      ghost var s := LineAt(i);
      buffer[i, at] := NUL;
      LineIs(i, at);
      assert Row(i)[..at] == s[..at];
      forall k | 0 <= k < MAX_LINES && k != i
        ensures LineAt(k) == old(LineAt(k))
      {
        assert Row(k) == old(Row(k));
      }
    }

    lemma SuffixIsString(s: string, k: nat)
      requires k <= |s| && CString(s) == s
      ensures CString(s[k..]) == s[k..]
    {
      assert forall i :: 0 <= i < |s| ==> s[i] != NUL;
      NoNulIsWhole(s[k..]);
    }

    /** Remove the current line and go to the last one that is left. */
    method DropLine()
      requires Valid() && lineCount > 1
      modifies this`lineCount, this`line, this`col, buffer
      ensures Valid() && Lines() == old(Now().lines[..line] + Now().lines[line + 1..])
    {
      hide LineBuffer.LineAt, LineBuffer.Row, Valid;
      Facts();
      ghost var t := Now();
      MoveUp(line, lineCount);
      lineCount := lineCount - 1;
      line := lineCount - 1;
      ghost var left := t.lines[..t.line] + t.lines[t.line + 1..];
      assert LineAt(line) == left[line];
      col := Strlen(line);
      BecameText(Text(left, line, col));
    }

    /** Backspace: shift the rest of the row left, or join the line to the one above. */
    method HandleBackspace()
      requires Valid()
      modifies this`lineCount, this`line, this`col, buffer
      ensures Valid() && Now() == Erased(old(Now()))
    {
      hide LineBuffer.LineAt, LineBuffer.Row, Valid;
      Facts();
      ghost var t := Now();
      var n := Strlen(line);
      if col > 0 {
        RemoveAt(line, col - 1, n);
        col := col - 1;
        BecameText(Erased(t));
      } else if line > 0 {
        var prevLen := Strlen(line - 1);
        AppendLine(line - 1, line, prevLen, n);
        assert forall i :: 0 <= i < lineCount ==> Terminated(i) by {
          assert forall i :: 0 <= i < lineCount ==> old(Terminated(i));
        }
        MoveUp(line, lineCount);
        lineCount, line, col := lineCount - 1, line - 1, prevLen;
        BecameText(Erased(t));
      }
    }

    method RemoveAt(i: nat, at: nat, n: nat)
      requires Shape() && i < MAX_LINES && Terminated(i) && at < n == |LineAt(i)|
      modifies buffer
      ensures LineAt(i) == old(LineAt(i)[..at] + LineAt(i)[at + 1..])
      ensures forall k :: 0 <= k < MAX_LINES && k != i ==> LineAt(k) == old(LineAt(k))
    {
      ghost var s, row := LineAt(i), Row(i);
      assert row[n] == NUL;
      var j := at;
      while j < n
        invariant at <= j <= n
        invariant forall k :: at <= k < j ==> buffer[i, k] == row[k + 1]
        invariant forall k :: 0 <= k < at || j <= k < LINE_LENGTH ==> buffer[i, k] == row[k]
        invariant forall r, k :: 0 <= r < MAX_LINES && r != i && 0 <= k < LINE_LENGTH ==>
                    buffer[r, k] == old(buffer[r, k])
      {
        buffer[i, j] := buffer[i, j + 1];
        j := j + 1;
      }
      LineIs(i, n - 1);
      assert Row(i)[..n - 1] == s[..at] + s[at + 1..];
      forall k | 0 <= k < MAX_LINES && k != i
        ensures LineAt(k) == old(LineAt(k))
      {
        assert Row(k) == old(Row(k));
      }
    }

    /** As much of row `src` as fits goes behind the text of row `dst`. */
    method AppendLine(dst: nat, src: nat, prevLen: nat, n: nat)
      requires Shape() && dst < MAX_LINES && src < MAX_LINES && dst != src && Terminated(dst) && Terminated(src)
      requires prevLen == |LineAt(dst)| && n == |LineAt(src)|
      modifies buffer
      ensures Terminated(dst) && LineAt(dst) == old(LineAt(dst) + Fitting(LineAt(dst), LineAt(src)))
      ensures forall k :: 0 <= k < MAX_LINES && k != dst ==> LineAt(k) == old(LineAt(k))
    {
      var space := LINE_LENGTH - 1 - prevLen;
      var cp := if n < space then n else space;
      ghost var prev, s := LineAt(dst), LineAt(src);
      if cp > 0 {
        var k := 0;
        while k < cp
          invariant 0 <= k <= cp
          invariant forall j :: 0 <= j < prevLen + k ==> buffer[dst, j] == (prev + s)[j]
          invariant forall r, j :: 0 <= r < MAX_LINES && r != dst && 0 <= j < LINE_LENGTH ==>
                      buffer[r, j] == old(buffer[r, j])
        {
          buffer[dst, prevLen + k] := buffer[src, k];
          k := k + 1;
        }
        buffer[dst, prevLen + cp] := NUL;
        LineIs(dst, prevLen + cp);
        assert Row(dst)[..prevLen + cp] == prev + Fitting(prev, s);
      }
      forall k | 0 <= k < MAX_LINES && k != dst
        ensures LineAt(k) == old(LineAt(k))
      {
        assert Row(k) == old(Row(k));
      }
    }

    method HandleArrow(a: Arrow)
      requires Valid()
      modifies this`lineCount, this`line, this`col, buffer
      ensures Valid() && Now() == Moved(old(Now()), a)
    {
      hide LineBuffer.LineAt, LineBuffer.Row, Valid;
      Facts();
      ghost var t := Now();
      match a {
        case Up =>
          if line > 0 {
            line := line - 1;
            var n := Strlen(line);
            if col > n {
              col := n;
            }
          }
        case Down =>
          if line + 1 < lineCount {
            line := line + 1;
            var n := Strlen(line);
            if col > n {
              col := n;
            }
          } else if lineCount < MAX_LINES {
            ClearRow(lineCount);
            lineCount, line, col := lineCount + 1, line + 1, 0;
          }
        case Left =>
          if col > 0 {
            col := col - 1;
          } else if line > 0 {
            line := line - 1;
            col := Strlen(line);
          }
        case Right =>
          var n := Strlen(line);
          if col < n {
            col := col + 1;
          } else if line + 1 < lineCount {
            line, col := line + 1, 0;
          }
      }
      BecameText(Moved(t, a));
    }

    method ClearRow(i: nat)
      requires Shape() && i < MAX_LINES
      modifies buffer
      ensures LineAt(i) == ""
      ensures forall k :: 0 <= k < MAX_LINES && k != i ==> LineAt(k) == old(LineAt(k))
    {
      buffer[i, 0] := NUL;
      forall k | 0 <= k < MAX_LINES && k != i
        ensures LineAt(k) == old(LineAt(k))
      {
        assert Row(k) == old(Row(k));
      }
    }

    /** Keys one after another, until a command line is entered: each is the edit it stands for. */
    method HandleKeys(keys: seq<Key>) returns (handled: nat, action: Action)
      requires Valid() && forall i :: 0 <= i < |keys| ==> (keys[i].CharKey? ==> keys[i].c != NUL)
      modifies this`lineCount, this`line, this`col, buffer
      ensures Valid() && handled <= |keys|
      ensures action == Edited && Now() == PressedAll(old(Now()), keys[..handled])
      ensures handled < |keys| ==> keys[handled] == EnterKey && IsCommand(Now().lines[Now().line])
      ensures old(ArePlain(Lines())) && (forall i :: 0 <= i < |keys| ==> PlainKey(keys[i])) ==> ArePlain(Lines())
    {
      hide LineBuffer.LineAt, LineBuffer.Row, Valid, Typed, Entered, Erased, Moved;
      handled, action := 0, Edited;
      Facts();
      ghost var t := Now();
      while handled < |keys|
        invariant handled <= |keys| && Valid() && TextOk(t) && Shape() && lineCount <= MAX_LINES && action == Edited
        invariant Now() == PressedAll(t, keys[..handled])
      {
        Facts();
        assert keys[..handled + 1][..handled] == keys[..handled];
        var s := GetLine(line);
        if keys[handled].EnterKey? && IsCommand(s) {
          KeysStayPlain(t, keys, handled);
          return;
        }
        action := HandleKey(keys[handled]);
        handled := handled + 1;
      }
      KeysStayPlain(t, keys, handled);
    }

    lemma KeysStayPlain(t: Text, keys: seq<Key>, n: nat)
      requires TextOk(t) && n <= |keys|
      ensures ArePlain(t.lines) && (forall i :: 0 <= i < |keys| ==> PlainKey(keys[i])) ==>
                ArePlain(PressedAll(t, keys[..n]).lines)
    {
      hide ArePlain, PressedAll, PlainKey;
      if ArePlain(t.lines) && forall i :: 0 <= i < |keys| ==> PlainKey(keys[i]) {
        PressedAllPlain(t, keys[..n]);
      }
    }

    /** One key that is not Enter on a command line. */
    method HandleKey(k: Key) returns (action: Action)
      requires Valid() && (k.CharKey? ==> k.c != NUL) && (k.EnterKey? ==> !IsCommand(LineAt(line)))
      modifies this`lineCount, this`line, this`col, buffer
      ensures Valid() && Now() == Pressed(old(Now()), k) && action == Edited
    {
      hide LineBuffer.LineAt, LineBuffer.Row, Valid, Typed, Entered, Erased, Moved;
      Facts();
      action := Edited;
      match k {
        case CharKey(c) => HandleChar(c);
        case EnterKey => action := HandleEnter();
        case BackspaceKey => HandleBackspace();
        case ArrowKey(a) => HandleArrow(a);
      }
    }

    // ---------------------------------------------------------------- saving and loading

    /** Drop empty lines at the end, then put the lines together. */
    method Serialise() returns (data: string)
      requires Shape() && 1 <= lineCount <= MAX_LINES && forall i :: 0 <= i < lineCount ==> Terminated(i)
      modifies this`lineCount
      ensures data == Saved(old(Lines()))
      ensures 1 <= lineCount <= old(lineCount) && Lines() == Trimmed(old(Lines()))
    {
      hide LineBuffer.LineAt, LineBuffer.Row;
      ghost var lines := Lines();
      var n := lineCount;
      var m := Strlen(n - 1);
      while n > 1 && m == 0
        invariant 1 <= n <= lineCount && m == |LineAt(n - 1)|
        invariant forall i :: n <= i < lineCount ==> lines[i] == ""
        modifies {}
        decreases n
      {
        n := n - 1;
        m := Strlen(n - 1);
      }
      TrimmedAt(lines, n);
      lineCount := n;
      assert Lines() == lines[..n];
      data := "";
      var i := 0;
      NoLead(lines);
      while i < n
        invariant i <= n && data == Lead(lines[..i])
        modifies {}
      {
        LeadNext(lines, i);
        var s := GetLine(i);
        data := data + s + "\n";
        i := i + 1;
      }
    }

    lemma NoLead(lines: seq<string>)
      ensures Lead(lines[..0]) == ""
    {
    }

    /** Load a file, read chunk by chunk until a read delivers nothing, or start with one empty line if it
        cannot be opened. */
    method Load(file: Option<seq<string>>) returns (truncated: bool)
      requires Shape()
      modifies this`lineCount, this`line, this`col, buffer
      ensures Valid() && Now() == Text(if file.None? then [""] else Loaded(DataOf(file.value)), 0, 0)
      ensures truncated <==> file.Some? && AtEnd(DataOf(file.value)).truncated
    {
      hide LineBuffer.LineAt, LineBuffer.Row, Valid, Loaded, DataOf, AtEnd;
      lineCount, truncated := 0, false;
      if file.Some? {
        LoadedOk(DataOf(file.value));
        truncated := ReadLines(file.value);
      }
      if lineCount == 0 {
        ClearRow(0);
        lineCount := 1;
      }
      line, col := 0, 0;
      BecameText(Text(if file.None? then [""] else Loaded(DataOf(file.value)), 0, 0));
    }

    /** What the reads deliver. */
    function DataOf(chunks: seq<string>): string
    {
      Concatenated(Delivered(chunks))
    }

    method ReadLines(chunks: seq<string>) returns (truncated: bool)
      requires Shape() && lineCount == 0
      modifies this`lineCount, buffer
      ensures lineCount <= MAX_LINES && Lines() == Loaded(DataOf(chunks))
      ensures truncated == AtEnd(DataOf(chunks)).truncated
    {
      hide LineBuffer.LineAt, LineBuffer.Row, TookAll, Concatenated;
      truncated := false;
      var partial := "";
      var n := 0;
      NothingRead(chunks);
      while n < |chunks| && |chunks[n]| > 0
        invariant n <= |chunks| && forall i :: 0 <= i < n ==> chunks[i] != ""
        invariant lineCount <= MAX_LINES && |partial| <= MAX_LINE
        invariant Loading(Lines(), partial, truncated) == TookAll(NOTHING, Concatenated(chunks[..n]))
      {
        ConcatenatedNext(chunks, n);
        TookAllJoin(NOTHING, Concatenated(chunks[..n]), chunks[n]);
        partial, truncated := TakeChunk(chunks[n], partial, truncated);
        n := n + 1;
      }
      DeliveredIs(chunks, n);
      if |partial| > 0 || lineCount == 0 {
        truncated := StoreLine(partial, truncated);
      }
    }

    lemma NothingRead(chunks: seq<string>)
      ensures TookAll(NOTHING, Concatenated(chunks[..0])) == NOTHING
    {
    }

    /** The inner loop: the characters of one read. */
    method TakeChunk(chunk: string, partial: string, truncated: bool) returns (partial': string, truncated': bool)
      requires Shape() && lineCount <= MAX_LINES && |partial| <= MAX_LINE
      modifies this`lineCount, buffer
      ensures lineCount <= MAX_LINES && |partial'| <= MAX_LINE
      ensures Loading(Lines(), partial', truncated') == TookAll(Loading(old(Lines()), partial, truncated), chunk)
    {
      hide LineBuffer.LineAt, LineBuffer.Row, TookAll, Stored;
      partial', truncated' := partial, truncated;
      ghost var start := Loading(Lines(), partial, truncated);
      var i := 0;
      NothingTaken(start);
      assert chunk[..0] == "";
      while i < |chunk|
        invariant i <= |chunk| && lineCount <= MAX_LINES && |partial'| <= MAX_LINE
        invariant Loading(Lines(), partial', truncated') == TookAll(start, chunk[..i])
      {
        TookNext(start, chunk, i);
        var c := chunk[i];
        if c == '\n' {
          truncated' := StoreLine(partial', truncated');
          partial' := "";
        } else if c != '\r' {
          if |partial'| < LINE_LENGTH - 1 {
            partial' := partial' + [c];
          }
        }
        i := i + 1;
      }
      assert chunk[..i] == chunk;
    }

    lemma TookNext(s: Loading, data: string, i: nat)
      requires i < |data|
      ensures TookAll(s, data[..i + 1]) == Took(TookAll(s, data[..i]), data[i])
    {
      hide Took;
      assert data[..i + 1] == data[..i] + [data[i]];
      TookAllJoin(s, data[..i], [data[i]]);
      assert [data[i]][1..] == "";
    }

    /** Copy a finished line into the next row, if there is one. */
    method StoreLine(partial: string, truncated: bool) returns (truncated': bool)
      requires Shape() && lineCount <= MAX_LINES && |partial| <= MAX_LINE
      modifies this`lineCount, buffer
      ensures lineCount <= MAX_LINES
      ensures Loading(Lines(), "", truncated') == Stored(Loading(old(Lines()), partial, truncated))
    {
      hide LineBuffer.LineAt, LineBuffer.Row, CString;
      if lineCount >= MAX_LINES {
        return true;
      }
      truncated' := truncated;
      ghost var lines := Lines();
      CopyLine(lineCount, partial);
      lineCount := lineCount + 1;
      assert Lines() == lines + [CString(partial)];
    }

    /** The buffer holds `r`, line by line. */
    lemma BecameText(r: Text)
      requires Shape() && TextOk(r) && lineCount == |r.lines| && line == r.line && col == r.col
      requires forall i :: 0 <= i < lineCount ==> LineAt(i) == r.lines[i]
      ensures Valid() && Now() == r
    {
      hide LineBuffer.LineAt, LineBuffer.Row;
      assert Lines() == r.lines;
    }
  }

  lemma {:induction false} CStringIs(s: string, n: nat)
    requires n < |s| && s[n] == NUL && forall i :: 0 <= i < n ==> s[i] != NUL
    ensures CString(s) == s[..n]
  {
    if n > 0 {
      CStringIs(s[1..], n - 1);
    }
  }
}
