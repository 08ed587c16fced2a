/** The virtual file system's names: path normalisation against the working directory, the mount
    table, and changing directory. */
module Vfs {
  import opened Machine
  import opened VfsPath

  const MAX_MOUNTS := 8

  // ---------------------------------------------------------------- normalisation

  /** A path as it is handed to the tokenizer. */
  function Working(cwd: string, path: string): string
  {
    if path != "" && path[0] == '/' then path
    else cwd + (if cwd != "/" then "/" else "") + path
  }

  /** What the driver's fixed buffers ask of a path. */
  predicate Fits(cwd: string, path: string)
  {
    && |Working(cwd, path)| < MAX_PATH
    && forall t :: t in Tokens(Working(cwd, path)) ==> |t| < MAX_NAME
  }

  function LastSlash(s: string): (i: nat)
    ensures i <= |s| && (i < |s| ==> s[i] == '/') && forall j :: i < j < |s| ==> s[j] != '/'
    ensures i == |s| ==> '/' !in s
  {
    if s == "" then 0
    else if s[|s| - 1] == '/' then |s| - 1
    else
      var i := LastSlash(s[..|s| - 1]);
      if i == |s| - 1 then |s| else i
  }

  function ParentOf(cwd: string): string
  {
    var i := LastSlash(cwd);
    if cwd != "/" && 0 < i < |cwd| then cwd[..i] else "/"
  }

  function RenderedOutcome(r: Outcome<seq<string>>): Outcome<string>
  {
    match r
    case Finished(cs) => Finished(Rendered(cs))
    case Hangs => Hangs
  }

  /** What normalisation computes, shortcuts first. */
  function Normalized(cwd: string, path: string): Outcome<string>
  {
    if path == DOT then Finished(cwd)
    else if path == DOTDOT then Finished(ParentOf(cwd))
    else RenderedOutcome(Resolved([], Tokens(Working(cwd, path))))
  }

  /** The meaning of a path seen from a working directory. */
  function Meaning(cwd: string, path: string): seq<string>
  {
    Evaluated(if path != "" && path[0] == '/' then [] else Tokens(cwd), Tokens(path))
  }

  lemma TokensOfWorking(cwd: string, path: string)
    requires Canonical(cwd)
    ensures Tokens(Working(cwd, path)) == (if path != "" && path[0] == '/' then [] else Tokens(cwd)) + Tokens(path)
  {
    hide Tokens, Canonical;
    SlashFirst(path);
    WorkingIs(cwd, path);
    if path == "" || path[0] != '/' {
      if cwd == "/" {
        RootHasNoTokens();
      } else {
        TokensJoin(cwd, "/" + path);
      }
    }
  }

  lemma WorkingIs(cwd: string, path: string)
    ensures Working(cwd, path)
            == if path != "" && path[0] == '/' then path else if cwd == "/" then "/" + path else cwd + ("/" + path)
  {
    assert cwd + "/" + path == cwd + ("/" + path);
    assert cwd + "" + path == cwd + path;
  }

  lemma RootHasNoTokens()
    ensures Tokens("/") == []
  {
    assert "/"[1..] == "";
  }

  lemma SlashFirst(p: string)
    ensures Tokens("/" + p) == Tokens(p) && Tokens("") == []
  {
    assert ("/" + p)[1..] == p;
  }

  lemma ComponentsOf(p: string) returns (cs: seq<string>)
    requires Canonical(p)
    ensures AllComponents(cs) && |cs| <= MAX_COMPONENTS && p == Rendered(cs) && Tokens(p) == cs
  {
    cs :| AllComponents(cs) && |cs| <= MAX_COMPONENTS && p == Rendered(cs);
    TokensOfRendered(cs);
  }

  /** The path of the parent is the path of the popped stack. */
  lemma ParentIsPopped(cs: seq<string>)
    requires AllComponents(cs)
    ensures ParentOf(Rendered(cs)) == Rendered(Popped(cs))
  {
    hide LastSlash;
    if cs != [] {
      var n := |cs| - 1;
      var s, front := Joined(cs), Joined(cs[..n]);
      LastSlashOfJoined(cs);
      assert s[..|front|] == front;
    }
  }

  lemma LastSlashOfJoined(cs: seq<string>)
    requires AllComponents(cs) && cs != []
    ensures LastSlash(Joined(cs)) == |Joined(cs[..|cs| - 1])| < |Joined(cs)|
  {
    hide LastSlash;
    var n := |cs| - 1;
    var s, front, c := Joined(cs), Joined(cs[..n]), cs[n];
    assert forall i :: 0 <= i < |c| ==> c[i] in c;
    assert forall j :: |front| < j < |s| ==> s[j] == c[j - |front| - 1];
    assert s[|front|] == '/';
  }

  /** The components that the loop walks through: those of the working directory, then the path's. */
  function Walked(cwd: string, path: string): seq<string>
  {
    (if path != "" && path[0] == '/' then [] else Tokens(cwd)) + Tokens(path)
  }

  /** Normalisation is evaluation of the working directory followed by the path, as far as the loop gets
      before 32 components are reached; it hangs exactly at a `.` that the loop reaches, unless the path
      is that `.`. If it gets to the end the result is what the path means, and so it is for both
      shortcuts. */
  lemma NormalizedIsMeaning(cwd: string, path: string)
    requires Canonical(cwd)
    ensures var tokens := Walked(cwd, path);
            var reached := tokens[..Reached([], tokens)];
            && (Normalized(cwd, path).Hangs? <==>
                  path != DOT && path != DOTDOT
                  && exists k :: 0 <= k < |tokens| && tokens[k] == DOT && StaysSmall([], tokens[..k + 1]))
            && (Normalized(cwd, path).Finished? && path != DOT && path != DOTDOT ==>
                  Normalized(cwd, path) == Finished(Rendered(Evaluated([], reached))))
            && (Normalized(cwd, path).Finished? && (path == DOT || path == DOTDOT || StaysSmall([], tokens)) ==>
                  Normalized(cwd, path) == Finished(Rendered(Meaning(cwd, path))))
  {
    hide Resolved, Evaluated, Reached, Tokens, Rendered, ParentOf, Canonical;
    var cs := ComponentsOf(cwd);
    var tokens := Walked(cwd, path);
    TokensOfWorking(cwd, path);
    WalkedMeans(cwd, path, cs);
    if path == DOT || path == DOTDOT {
      ParentIsPopped(cs);
      ShortcutMeans(cwd, path, cs);
    } else {
      HangsAtReachedDot([], tokens);
      ResolvedIsEvaluated([], tokens);
      assert StaysSmall([], tokens) ==> tokens[..Reached([], tokens)] == tokens;
    }
  }

  lemma WalkedMeans(cwd: string, path: string, cs: seq<string>)
    requires AllComponents(cs) && Tokens(cwd) == cs
    ensures Meaning(cwd, path) == Evaluated([], Walked(cwd, path))
  {
    hide Tokens;
    var front := if path != "" && path[0] == '/' then [] else cs;
    PlainEvaluated([], front);
    assert [] + front == front;
    EvaluatedJoin([], front, Tokens(path));
  }

  lemma ShortcutMeans(cwd: string, path: string, cs: seq<string>)
    requires (path == DOT || path == DOTDOT) && Tokens(cwd) == cs
    ensures Meaning(cwd, path) == if path == DOT then cs else Popped(cs)
  {
    NoSlashIsOneToken(path);
    assert [path][1..] == [] && path[0] != '/';
    assert Evaluated(cs, [path]) == Evaluated(Stepped(cs, path), []);
  }

  /** A path with few components, counted with those of the working directory, is normalised to what it
      means, unless it contains a `.` besides others. */
  lemma FewComponentsAreMeant(cwd: string, path: string)
    requires Canonical(cwd) && |Walked(cwd, path)| <= MAX_COMPONENTS
    ensures Normalized(cwd, path)
            == if path != DOT && DOT in Tokens(path) then Hangs else Finished(Rendered(Meaning(cwd, path)))
  {
    hide Resolved, Evaluated, Reached, Normalized, Meaning, Rendered, Canonical;
    var cs := ComponentsOf(cwd);
    var tokens := Walked(cwd, path);
    NormalizedIsMeaning(cwd, path);
    FewStaySmall([], tokens);
    assert DOT !in cs;
    if DOT in Tokens(path) && path != DOT {
      NotBoth(path);
      var i :| 0 <= i < |Tokens(path)| && Tokens(path)[i] == DOT;
      var k := |tokens| - |Tokens(path)| + i;
      assert tokens[k] == DOT;
      FewStaySmall([], tokens[..k + 1]);
    }
  }

  lemma NotBoth(path: string)
    requires DOT in Tokens(path)
    ensures path != DOTDOT
  {
    NoSlashIsOneToken(DOTDOT);
  }

  /** Whatever the path, a result is canonical and fits the buffer. */
  lemma NormalizedIsCanonical(cwd: string, path: string)
    requires Canonical(cwd) && |cwd| < MAX_PATH && (path == DOT || path == DOTDOT || |Working(cwd, path)| < MAX_PATH)
    ensures var r := Normalized(cwd, path); r.Finished? ==> Canonical(r.value) && |r.value| < MAX_PATH
  {
    var cs := ComponentsOf(cwd);
    if path == DOTDOT {
      ParentIsPopped(cs);
      assert AllComponents(Popped(cs)) && |Popped(cs)| <= MAX_COMPONENTS;
    } else if path != DOT {
      var w := Working(cwd, path);
      StartsWithSlash(cs);
      TokensFit(w);
      ResolvedKeeps([], Tokens(w));
    }
  }

  lemma StartsWithSlash(cs: seq<string>)
    ensures Rendered(cs)[0] == '/'
  {
  }

  /** A canonical path is its own normal form, from any working directory. */
  lemma NormalizedIsIdempotent(cwd: string, p: string)
    requires Canonical(p)
    ensures Normalized(cwd, p) == Finished(p)
  {
    var cs := ComponentsOf(p);
    assert p[0] == '/' && Working(cwd, p) == p;
    PlainPathsAreCut(cs);
  }

  /** A `.` alone, once the shortcut is not taken: it never gets through unless 32 components come first. */
  lemma LoneDotHangs(cwd: string)
    requires Canonical(cwd)
    ensures Resolved([], Tokens(Working(cwd, DOT))).Hangs? <==> |Tokens(cwd)| < MAX_COMPONENTS
  {
    var cs := ComponentsOf(cwd);
    TokensOfWorking(cwd, DOT);
    NoSlashIsOneToken(DOT);
    PlainThen([], cs, [DOT]);
    assert [] + cs == cs;
  }

  /** For instance, changing from the root to `.`. */
  lemma DotAtRootHangs()
    ensures Canonical("/") && Resolved([], Tokens(Working("/", DOT))).Hangs?
  {
    assert Rendered([]) == "/" && AllComponents([]);
    RootHasNoTokens();
    LoneDotHangs("/");
  }

  lemma {:induction false} PlainThen(stack: seq<string>, names: seq<string>, rest: seq<string>)
    requires AllComponents(names) && |stack| + |names| <= MAX_COMPONENTS
    ensures Resolved(stack, names + rest) == Resolved(stack + names, rest)
    decreases |names|
  {
    if names == [] {
      assert names + rest == rest && stack + names == stack;
    } else {
      assert (names + rest)[1..] == names[1..] + rest;
      PlainThen(stack + [names[0]], names[1..], rest);
      assert stack + names == stack + [names[0]] + names[1..];
    }
  }

  /** The second normalisation of a directory change, which knows no shortcuts, repeats the first for
      every path but the shortcuts themselves: `..` is taken back only below 32 components, and `.` gets
      through only at 32. */
  lemma TwiceIsOnce(cwd: string, path: string)
    requires Canonical(cwd)
    ensures RenderedOutcome(Resolved([], Tokens(Working(cwd, path)))) == Normalized(cwd, path)
            <==> && (path == DOTDOT ==> |Tokens(cwd)| < MAX_COMPONENTS)
                 && (path == DOT ==> |Tokens(cwd)| == MAX_COMPONENTS)
  {
    if path == DOT || path == DOTDOT {
      hide Tokens, Canonical, Rendered, ParentOf;
      var cs := ComponentsOf(cwd);
      SecondTime(cwd, path, cs);
      ParentIsPopped(cs);
      if path == DOTDOT && |cs| == MAX_COMPONENTS {
        RenderedDiffer(cs, Popped(cs));
      }
    }
  }

  /** What the loop makes of a shortcut behind the working directory. */
  lemma SecondTime(cwd: string, path: string, cs: seq<string>)
    requires Canonical(cwd) && AllComponents(cs) && |cs| <= MAX_COMPONENTS && Tokens(cwd) == cs
    requires path == DOT || path == DOTDOT
    ensures Resolved([], Tokens(Working(cwd, path)))
            == if |cs| == MAX_COMPONENTS then Finished(cs) else if path == DOT then Hangs else Finished(Popped(cs))
  {
    TokensOfWorking(cwd, path);
    NoSlashIsOneToken(path);
    PlainThen([], cs, [path]);
    assert [] + cs == cs && [path][1..] == [];
  }

  lemma RenderedDiffer(a: seq<string>, b: seq<string>)
    requires AllComponents(a) && AllComponents(b) && a != b
    ensures Rendered(a) != Rendered(b)
  {
    TokensOfRendered(a);
    TokensOfRendered(b);
  }

  /** For instance, changing to `..` from 32 directories deep: the first normalisation names the parent,
      the second the directory itself. */
  lemma DeepParentStays()
    ensures var cwd := Rendered(seq(MAX_COMPONENTS, _ => "a"));
            && Canonical(cwd) && |cwd| < MAX_PATH && |Working(cwd, DOTDOT)| < MAX_PATH
            && RenderedOutcome(Resolved([], Tokens(Working(cwd, DOTDOT)))) == Finished(cwd)
            && Normalized(cwd, DOTDOT) == Finished(Rendered(seq(MAX_COMPONENTS - 1, _ => "a"))) != Finished(cwd)
  {
    hide Tokens, Rendered, ParentOf;
    var cs := seq(MAX_COMPONENTS, _ => "a");
    var cwd := Rendered(cs);
    assert Popped(cs) == seq(MAX_COMPONENTS - 1, _ => "a");
    TokensOfRendered(cs);
    SecondTime(cwd, DOTDOT, cs);
    ParentIsPopped(cs);
    RenderedDiffer(cs, Popped(cs));
    OneLetterEach(cs);
  }

  lemma {:induction false} OneLetterEach(cs: seq<string>)
    requires forall i :: 0 <= i < |cs| ==> |cs[i]| == 1
    ensures |Joined(cs)| == 2 * |cs| && |Rendered(cs)| <= 2 * |cs| + 1
  {
    if cs != [] {
      OneLetterEach(cs[..|cs| - 1]);
    }
  }

  // ---------------------------------------------------------------- mounts

  datatype Mount = Mount(mounted: bool, mountpoint: string, fsType: nat, device: nat)

  /** The driver's test whether a mount covers a path. */
  predicate Covers(mountpoint: string, path: string)
  {
    && mountpoint <= path
    && (|mountpoint| == |path| || path[|mountpoint|] == '/' || mountpoint == "/")
  }

  /** On canonical paths it is the whole-component prefix test. */
  lemma CoversIsComponentPrefix(mountpoint: string, path: string)
    requires Canonical(mountpoint) && Canonical(path)
    ensures Covers(mountpoint, path) <==> Tokens(mountpoint) <= Tokens(path)
  {
    var ms := ComponentsOf(mountpoint);
    var ps := ComponentsOf(path);
    if Covers(mountpoint, path) && mountpoint != "/" {
      var rest := path[|mountpoint|..];
      assert path == mountpoint + rest;
      TokensJoin(mountpoint, rest);
    }
    if ms <= ps {
      PrefixCovers(ms, ps);
    }
  }

  lemma JoinedPrefix(ms: seq<string>, ps: seq<string>)
    requires ms <= ps
    ensures Joined(ms) <= Joined(ps)
    ensures |ms| < |ps| ==> |Joined(ms)| < |Joined(ps)| && Joined(ps)[|Joined(ms)|] == '/'
  {
    assert ps == ms + ps[|ms|..];
    JoinedJoin(ms, ps[|ms|..]);
  }

  lemma PrefixCovers(ms: seq<string>, ps: seq<string>)
    requires AllComponents(ms) && AllComponents(ps) && ms <= ps
    ensures Covers(Rendered(ms), Rendered(ps))
  {
    JoinedPrefix(ms, ps);
    if ms == [] {
      assert Rendered(ps)[..1] == "/";
    } else if |ms| == |ps| {
      assert ms == ps;
    }
  }

  /** Two mountpoints of equal length that cover the same path are the same. */
  lemma CoverIsUnique(a: string, b: string, path: string)
    requires Covers(a, path) && Covers(b, path) && |a| == |b|
    ensures a == b
  {
    assert a == path[..|a|] && b == path[..|b|];
  }

  /** The path as the mounted file system sees it. */
  function Relative(mountpoint: string, path: string): string
    requires Covers(mountpoint, path)
  {
    if mountpoint == "/" then path
    else if |mountpoint| < |path| then path[|mountpoint|..]
    else "/"
  }

  /** Mountpoint and relative path together give back the absolute path. */
  lemma RelativeRebuilds(mountpoint: string, path: string)
    requires Canonical(mountpoint) && Canonical(path) && Covers(mountpoint, path)
    ensures Canonical(Relative(mountpoint, path))
    ensures Tokens(mountpoint) + Tokens(Relative(mountpoint, path)) == Tokens(path)
    ensures path == (if mountpoint == "/" then "" else mountpoint)
                    + (if Relative(mountpoint, path) == "/" && mountpoint != "/" then ""
                       else Relative(mountpoint, path))
  {
    hide Tokens, Joined, IsComponent;
    var ms := ComponentsOf(mountpoint);
    var ps := ComponentsOf(path);
    CoversIsComponentPrefix(mountpoint, path);
    var rest := ps[|ms|..];
    assert ps == ms + rest;
    if mountpoint == "/" {
      RootHasNoTokens();
    } else {
      assert ms != [] by {
        assert Rendered([]) == "/";
      }
      JoinedJoin(ms, rest);
      assert path[|mountpoint|..] == Joined(rest);
      assert Relative(mountpoint, path) == Rendered(rest) by {
        if rest == [] {
          assert ps == ms;
        }
      }
      TokensOfRendered(rest);
      if rest != [] {
        NotJustSlash(rest);
      }
    }
  }

  lemma NotJustSlash(cs: seq<string>)
    requires AllComponents(cs) && cs != []
    ensures Joined(cs) != "/"
  {
    JoinedIsClean(cs);
  }

  lemma {:induction false} JoinedJoin(a: seq<string>, b: seq<string>)
    ensures Joined(a + b) == Joined(a) + Joined(b)
    decreases |b|
  {
    hide Joined;
    if b == [] {
      assert a + b == a;
      JoinedNothing();
    } else {
      var n := |b| - 1;
      JoinedJoin(a, b[..n]);
      assert a + b == a + b[..n] + [b[n]] && b == b[..n] + [b[n]];
      JoinedOneMore(a + b[..n], b[n]);
      JoinedOneMore(b[..n], b[n]);
    }
  }

  lemma JoinedNothing()
    ensures Joined([]) == ""
  {
  }

  lemma JoinedOneMore(cs: seq<string>, c: string)
    ensures Joined(cs + [c]) == Joined(cs) + ("/" + c)
  {
    assert (cs + [c])[..|cs|] == cs;
  }

  // ---------------------------------------------------------------- the driver

  const SUCCESS := 0
  const ERROR := -1
  const NOT_FOUND := -2
  const NO_SPACE := -3
  const NOT_MOUNTED := -5
  const ALREADY_MOUNTED := -6

  const FS_RAMFS := 1
  const FS_FAT32 := 2

  class FileSystems {
    const mounts: array<Mount>
    var cwd: string

    /** The working directory is canonical, and no two mounts share a mountpoint. */
    ghost predicate Valid()
      reads this, mounts
    {
      && mounts.Length == MAX_MOUNTS
      && Canonical(cwd) && |cwd| < MAX_PATH
      && Distinct(mounts[..])
    }

    constructor ()
      ensures Valid() && cwd == "/" && forall i :: 0 <= i < MAX_MOUNTS ==> !mounts[i].mounted
    {
      mounts := new Mount[MAX_MOUNTS](_ => Mount(false, "", 0, 0));
      cwd := "/";
      new;
      RootIsCanonical();
    }

    lemma RootIsCanonical()
      ensures Canonical("/")
    {
      assert AllComponents([]) && Rendered([]) == "/";
    }

    /** The tokenizer loop over a stack of components, then the path rebuilt from it. */
    method ResolveDots(path: string) returns (r: Outcome<string>)
      requires |Working(cwd, path)| < MAX_PATH
      ensures r == RenderedOutcome(Resolved([], Tokens(Working(cwd, path))))
    {
      var working := if path != "" && path[0] == '/' then path else cwd + (if cwd != "/" then "/" else "") + path;
      assert working == Working(cwd, path);
      hide Resolved, Tokens, Working;
      var components := new string[MAX_COMPONENTS](_ => "");
      var hangs, count := Collect(working, components);
      if hangs {
        return Hangs;
      }
      var rebuilt := Rebuild(components[..count]);
      r := Finished(rebuilt);
    }

    /** The tokenizer loop; it stays at a `.` for ever. */
    method Collect(working: string, components: array<string>) returns (hangs: bool, count: nat)
      requires components.Length == MAX_COMPONENTS
      modifies components
      ensures count <= MAX_COMPONENTS
      ensures Resolved([], Tokens(working)) == if hangs then Hangs else Finished(components[..count])
    {
      hide Resolved, Tokens;
      hangs, count := false, 0;
      var token, position := NextToken(working, 0);
      assert working[0..] == working && components[..0] == [];
      while token.Some? && count < MAX_COMPONENTS
        invariant count <= MAX_COMPONENTS && position <= |working|
        invariant Resolved([], Tokens(working)) == Resolved(components[..count], Pending(token, working[position..]))
        decreases |working| - position, if token.Some? then 1 else 0
      {
        ResolvedStep(components[..count], token.value, Tokens(working[position..]));
        if token.value == DOT {
          hangs := true;
          return;
        }
        count := ApplyToken(components, count, token.value);
        token, position := NextToken(working, position);
      }
      ResolvedEnds(components[..count], Pending(token, working[position..]));
    }

    /** Go up, or down into a component. */
    method ApplyToken(components: array<string>, count: nat, t: string) returns (next: nat)
      requires components.Length == MAX_COMPONENTS && count < MAX_COMPONENTS
      modifies components
      ensures next <= MAX_COMPONENTS
      ensures components[..next] == old(if t == DOTDOT then Popped(components[..count]) else components[..count] + [t])
    {
      if t == DOTDOT {
        return if count > 0 then count - 1 else 0;
      }
      components[count] := t;
      next := count + 1;
    }

    /** The token at hand and those still to be read. */
    ghost function Pending(token: Option<string>, rest: string): seq<string>
    {
      if token.None? then [] else [token.value] + Tokens(rest)
    }

    lemma ResolvedStep(stack: seq<string>, t: string, rest: seq<string>)
      requires |stack| < MAX_COMPONENTS
      ensures Resolved(stack, [t] + rest)
              == if t == DOT then Hangs else Resolved(if t == DOTDOT then Popped(stack) else stack + [t], rest)
    {
      assert ([t] + rest)[1..] == rest;
    }

    lemma ResolvedEnds(stack: seq<string>, tokens: seq<string>)
      requires tokens == [] || |stack| >= MAX_COMPONENTS
      ensures Resolved(stack, tokens) == Finished(stack)
    {
    }

    method Normalize(path: string) returns (r: Outcome<string>)
      requires Valid() && (path == DOT || path == DOTDOT || Fits(cwd, path))
      ensures r == Normalized(cwd, path)
    {
      if path == DOT {
        return Finished(cwd);
      }
      if path == DOTDOT {
        if cwd == "/" {
          return Finished("/");
        }
        var last := LastSlash(cwd);
        return Finished(if 0 < last < |cwd| then cwd[..last] else "/");
      }
      NormalizedIsCanonical(cwd, path);
      var resolved := ResolveDots(path);
      if resolved.Hangs? {
        return Hangs;
      }
      CanonicalIsClean(resolved.value);
      var cleaned := CleanUp(resolved.value);
      r := Finished(cleaned);
    }

    lemma CanonicalIsClean(p: string)
      requires Canonical(p)
      ensures IsClean(p)
    {
      var cs := ComponentsOf(p);
      if cs != [] {
        JoinedIsClean(cs);
      }
    }

    /** No mount covers the path. An empty mountpoint is never found. */
    ghost predicate Uncovered(path: string)
      requires Valid()
      reads this, mounts
    {
      forall i :: 0 <= i < MAX_MOUNTS && mounts[i].mounted && mounts[i].mountpoint != "" ==>
        !Covers(mounts[i].mountpoint, path)
    }

    /** Mount `i` covers the path, and every other that does is shorter. */
    ghost predicate CoversBest(i: nat, path: string)
      requires Valid()
      reads this, mounts
    {
      && i < MAX_MOUNTS && mounts[i].mounted && mounts[i].mountpoint != "" && Covers(mounts[i].mountpoint, path)
      && forall j :: 0 <= j < MAX_MOUNTS && j != i && mounts[j].mounted && Covers(mounts[j].mountpoint, path) ==>
           |mounts[j].mountpoint| < |mounts[i].mountpoint|
    }

    /** The mount with the longest mountpoint that covers the path. */
    method FindMount(path: string) returns (best: Option<nat>)
      requires Valid()
      ensures best.None? <==> Uncovered(path)
      ensures best.Some? ==> CoversBest(best.value, path)
    {
      best := None;
      var length := 0;
      var i := 0;
      while i < MAX_MOUNTS
        invariant i <= MAX_MOUNTS
        invariant if best.None? then length == 0 else
                    && best.value < i && mounts[best.value].mounted && Covers(mounts[best.value].mountpoint, path)
                    && length == |mounts[best.value].mountpoint| > 0
        invariant forall j :: 0 <= j < i && mounts[j].mounted && Covers(mounts[j].mountpoint, path) ==>
                    |mounts[j].mountpoint| <= length
      {
        var m := mounts[i];
        if m.mounted && Covers(m.mountpoint, path) && |m.mountpoint| > length {
          best, length := Some(i), |m.mountpoint|;
        }
        i := i + 1;
      }
      if best.Some? {
        forall j | 0 <= j < MAX_MOUNTS && j != best.value && mounts[j].mounted && Covers(mounts[j].mountpoint, path)
          ensures |mounts[j].mountpoint| < length
        {
          DifferentCovers(mounts[..], best.value, j, path);
        }
      }
    }

    /** Which file system a path belongs to, and its name there. */
    method ResolvePath(path: string) returns (r: Outcome<int>, mount: nat, relative: string)
      requires Valid() && (path == DOT || path == DOTDOT || Fits(cwd, path))
      ensures r.Hangs? <==> Normalized(cwd, path).Hangs?
      ensures r == Finished(SUCCESS) ==>
                && CoversBest(mount, Normalized(cwd, path).value)
                && relative == Relative(mounts[mount].mountpoint, Normalized(cwd, path).value)
      ensures r.Finished? ==>
                r.value == if Uncovered(Normalized(cwd, path).value) then NOT_MOUNTED else SUCCESS
    {
      mount, relative := 0, "";
      var absolute := Normalize(path);
      if absolute.Hangs? {
        return Hangs, mount, relative;
      }
      var best := FindMount(absolute.value);
      if best.None? {
        return Finished(NOT_MOUNTED), mount, relative;
      }
      mount := best.value;
      var point := mounts[mount].mountpoint;
      if point == "/" {
        relative := absolute.value;
      } else {
        if |point| < |absolute.value| {
          relative := absolute.value[|point|..];
        } else {
          relative := "/";
        }
      }
      r := Finished(SUCCESS);
    }

    /** Change directory. The path is normalised twice, the second time without the shortcut for a lone
        `.`, so that one hangs whenever its mount is found. */
    method Chdir(path: string) returns (r: Outcome<int>)
      requires Valid() && Fits(cwd, path)
      modifies this`cwd
      ensures Valid()
      ensures var n := Normalized(old(cwd), path);
              var again := RenderedOutcome(Resolved([], Tokens(Working(old(cwd), path))));
              && (n.Hangs? ==> r.Hangs?)
              && (n.Finished? && old(Uncovered(n.value)) ==> r == Finished(NOT_FOUND))
              && (n.Finished? && !old(Uncovered(n.value)) ==>
                    if again.Hangs? then r.Hangs? else r == Finished(SUCCESS) && cwd == again.value)
      ensures r != Finished(SUCCESS) ==> cwd == old(cwd)
    {
      var resolved, mount, relative := ResolvePath(path);
      if resolved.Hangs? {
        return Hangs;
      }
      if resolved.value != SUCCESS {
        return Finished(NOT_FOUND);
      }
      var absolute := if path != "" && path[0] == '/' then path else cwd + (if cwd != "/" then "/" else "") + path;
      AbsoluteIsNoShortcut(path);
      NormalizedIsCanonical(cwd, absolute);
      var normalized := Normalize(absolute);
      if normalized.Hangs? {
        return Hangs;
      }
      cwd := normalized.value;
      r := Finished(SUCCESS);
    }

    lemma AbsoluteIsNoShortcut(path: string)
      requires Valid()
      ensures var absolute := Working(cwd, path);
              absolute != "" && absolute[0] == '/' && absolute != DOT && absolute != DOTDOT
                && Working(cwd, absolute) == absolute
    {
      var cs := ComponentsOf(cwd);
      StartsWithSlash(cs);
    }

    // ---------------------------------------------------------------- mounting

    method MountAt(mountpoint: string, fsType: nat, device: nat) returns (code: int)
      requires Valid() && |mountpoint| < MAX_PATH
      modifies mounts
      ensures Valid()
      ensures code == ERROR <==> fsType != FS_RAMFS && fsType != FS_FAT32
      ensures code != SUCCESS ==> mounts[..] == old(mounts[..])
      ensures code == ALREADY_MOUNTED <==>
                && (fsType == FS_RAMFS || fsType == FS_FAT32)
                && exists i :: 0 <= i < MAX_MOUNTS && old(mounts[i]).mounted && old(mounts[i]).mountpoint == mountpoint
      ensures code == NO_SPACE ==> forall i :: 0 <= i < MAX_MOUNTS ==> mounts[i].mounted
      ensures code == SUCCESS ==>
                exists i :: 0 <= i < MAX_MOUNTS && !old(mounts[i]).mounted
                  && mounts[..] == old(mounts[..])[i := Mount(true, mountpoint, fsType, device)]
      ensures code in {SUCCESS, ERROR, NO_SPACE, ALREADY_MOUNTED}
    {
      if fsType != FS_RAMFS && fsType != FS_FAT32 {
        return ERROR;
      }
      var i := 0;
      while i < MAX_MOUNTS
        invariant i <= MAX_MOUNTS && forall j :: 0 <= j < i ==>
                    !(mounts[j].mounted && mounts[j].mountpoint == mountpoint)
      {
        if mounts[i].mounted && mounts[i].mountpoint == mountpoint {
          return ALREADY_MOUNTED;
        }
        i := i + 1;
      }
      i := 0;
      while i < MAX_MOUNTS
        invariant i <= MAX_MOUNTS && mounts[..] == old(mounts[..]) && forall j :: 0 <= j < i ==> mounts[j].mounted
      {
        if !mounts[i].mounted {
          mounts[i] := Mount(true, mountpoint, fsType, device);
          assert mounts[..] == old(mounts[..])[i := Mount(true, mountpoint, fsType, device)];
          return SUCCESS;
        }
        i := i + 1;
      }
      code := NO_SPACE;
    }

    method Unmount(mountpoint: string) returns (code: int)
      requires Valid()
      modifies mounts
      ensures Valid()
      ensures code == NOT_FOUND <==> forall i :: 0 <= i < MAX_MOUNTS ==>
                !(old(mounts[i]).mounted && old(mounts[i]).mountpoint == mountpoint)
      ensures code == NOT_FOUND ==> mounts[..] == old(mounts[..])
      ensures code != NOT_FOUND ==>
                && code == SUCCESS
                && (forall i :: 0 <= i < MAX_MOUNTS ==> !(mounts[i].mounted && mounts[i].mountpoint == mountpoint))
                && (forall i :: 0 <= i < MAX_MOUNTS && old(mounts[i]).mountpoint != mountpoint ==>
                     mounts[i] == old(mounts[i]))
    {
      var i := 0;
      while i < MAX_MOUNTS
        invariant i <= MAX_MOUNTS && mounts[..] == old(mounts[..])
        invariant forall j :: 0 <= j < i ==> !(mounts[j].mounted && mounts[j].mountpoint == mountpoint)
      {
        if mounts[i].mounted && mounts[i].mountpoint == mountpoint {
          mounts[i] := mounts[i].(mounted := false);
          return SUCCESS;
        }
        i := i + 1;
      }
      code := NOT_FOUND;
    }
  }

  ghost predicate Distinct(ms: seq<Mount>)
  {
    forall i, j :: 0 <= i < j < |ms| && ms[i].mounted && ms[j].mounted ==> ms[i].mountpoint != ms[j].mountpoint
  }

  lemma DifferentCovers(ms: seq<Mount>, i: nat, j: nat, path: string)
    requires Distinct(ms) && i < |ms| && j < |ms| && i != j && ms[i].mounted && ms[j].mounted
    requires Covers(ms[i].mountpoint, path) && Covers(ms[j].mountpoint, path)
    ensures |ms[i].mountpoint| != |ms[j].mountpoint|
  {
    if |ms[i].mountpoint| == |ms[j].mountpoint| {
      CoverIsUnique(ms[i].mountpoint, ms[j].mountpoint, path);
    }
  }

  /** The loop that puts the path together again. */
  method Rebuild(cs: seq<string>) returns (s: string)
    ensures s == Rendered(cs)
  {
    if cs == [] {
      return "/";
    }
    s := "";
    var i := 0;
    while i < |cs|
      invariant i <= |cs| && s == Joined(cs[..i])
    {
      assert cs[..i + 1][..i] == cs[..i];
      s := s + "/" + cs[i];
      i := i + 1;
    }
    assert cs[..i] == cs;
  }
}
