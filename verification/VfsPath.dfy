/** Paths: splitting into components, resolving dots on a stack of components, and cleaning up. */
module VfsPath {
  import opened Machine

  const MAX_PATH := 256
  const MAX_NAME := 64
  const MAX_COMPONENTS := 32

  // ---------------------------------------------------------------- splitting

  function TokenEnd(s: string): (i: nat)
    ensures i <= |s| && (i < |s| ==> s[i] == '/') && forall j :: 0 <= j < i ==> s[j] != '/'
  {
    if s == "" || s[0] == '/' then 0 else 1 + TokenEnd(s[1..])
  }

  /** The stretches between slashes, empty ones left out. */
  function Tokens(s: string): (r: seq<string>)
    ensures forall t :: t in r ==> t != "" && '/' !in t
    decreases |s|
  {
    if s == "" then []
    else if s[0] == '/' then Tokens(s[1..])
    else [s[..TokenEnd(s)]] + Tokens(s[TokenEnd(s)..])
  }

  lemma {:induction false} TokenEndSame(s: string, rest: string)
    requires rest == "" || rest[0] == '/'
    ensures TokenEnd(s + rest) == TokenEnd(s)
  {
    if s == "" {
      assert s + rest == rest;
    } else if s[0] != '/' {
      assert (s + rest)[1..] == s[1..] + rest;
      TokenEndSame(s[1..], rest);
    }
  }

  /** Splitting at a slash splits the tokens. */
  lemma {:induction false} TokensJoin(a: string, b: string)
    requires b == "" || b[0] == '/'
    ensures Tokens(a + b) == Tokens(a) + Tokens(b)
    decreases |a|
  {
    if a == "" {
      assert a + b == b;
    } else if a[0] == '/' {
      assert (a + b)[1..] == a[1..] + b;
      TokensJoin(a[1..], b);
    } else {
      var n := TokenEnd(a);
      TokenEndSame(a, b);
      assert (a + b)[..n] == a[..n] && (a + b)[n..] == a[n..] + b;
      TokensJoin(a[n..], b);
    }
  }

  lemma {:induction false} NoSlashIsOneToken(t: string)
    requires t != "" && '/' !in t
    ensures TokenEnd(t) == |t| && Tokens(t) == [t]
  {
    WholeToken(t);
    assert t[..|t|] == t && t[|t|..] == "";
  }

  lemma {:induction false} WholeToken(t: string)
    requires '/' !in t
    ensures TokenEnd(t) == |t|
  {
    if t != "" {
      assert forall c :: c in t[1..] ==> c in t;
      WholeToken(t[1..]);
    }
  }

  lemma SkipSlash(s: string, i: nat)
    requires i < |s| && s[i] == '/'
    ensures Tokens(s[i..]) == Tokens(s[i + 1..])
  {
    assert s[i..][1..] == s[i + 1..];
  }

  /** The stretch from `start` to the next slash is the first token, and a slash behind it is eaten too. */
  lemma TokenAt(s: string, start: nat, end: nat)
    requires start < end <= |s| && (forall k :: start <= k < end ==> s[k] != '/') && (end < |s| ==> s[end] == '/')
    ensures Tokens(s[start..]) == [s[start..end]] + Tokens(s[if end < |s| then end + 1 else end..])
  {
    var rest, n := s[start..], TokenEnd(s[start..]);
    assert n < |rest| ==> rest[n] == s[start + n];
    assert end < |s| ==> rest[end - start] == s[end];
    assert n == end - start;
    assert rest[..n] == s[start..end] && rest[n..] == s[end..];
    if end < |s| {
      SkipSlash(s, end);
    }
  }

  /** One call of the tokenizer, from position `pos` of the string it holds. */
  method NextToken(s: string, pos: nat) returns (token: Option<string>, next: nat)
    requires pos <= |s|
    ensures pos <= next <= |s|
    ensures token.None? ==> next == |s| && Tokens(s[pos..]) == []
    ensures token.Some? ==> pos < next && Tokens(s[pos..]) == [token.value] + Tokens(s[next..])
  {
    hide Tokens;
    next := pos;
    while next < |s| && s[next] == '/'
      invariant pos <= next <= |s| && Tokens(s[next..]) == Tokens(s[pos..])
    {
      SkipSlash(s, next);
      next := next + 1;
    }
    if next == |s| {
      assert s[next..] == "";
      NoTokens();
      return None, next;
    }
    var start := next;
    while next < |s| && s[next] != '/'
      invariant start <= next <= |s| && forall k :: start <= k < next ==> s[k] != '/'
    {
      next := next + 1;
    }
    TokenAt(s, start, next);
    token := Some(s[start..next]);
    if next < |s| {
      next := next + 1;
    }
  }

  lemma NoTokens()
    ensures Tokens("") == []
  {
  }

  // ---------------------------------------------------------------- component stacks

  const DOT := "."
  const DOTDOT := ".."

  /** A component a canonical path may have. */
  predicate IsComponent(c: string)
  {
    c != "" && '/' !in c && c != DOT && c != DOTDOT
  }

  predicate AllComponents(cs: seq<string>)
  {
    forall i :: 0 <= i < |cs| ==> IsComponent(cs[i])
  }

  function Popped(stack: seq<string>): (r: seq<string>)
  {
    if stack == [] then [] else stack[..|stack| - 1]
  }

  /** What a path means: `.` stays, `..` goes up, anything else goes down. */
  function Evaluated(stack: seq<string>, tokens: seq<string>): seq<string>
    decreases |tokens|
  {
    if tokens == [] then stack
    else if tokens[0] == DOT then Evaluated(stack, tokens[1..])
    else if tokens[0] == DOTDOT then Evaluated(Popped(stack), tokens[1..])
    else Evaluated(stack + [tokens[0]], tokens[1..])
  }

  /** The driver's loop either ends or, at a `.`, never does. */
  datatype Outcome<T> = Finished(value: T) | Hangs

  /** What the driver's loop computes: it stops at 32 components, and does not get past a `.`. */
  function Resolved(stack: seq<string>, tokens: seq<string>): Outcome<seq<string>>
    decreases |tokens|
  {
    if tokens == [] || |stack| >= MAX_COMPONENTS then Finished(stack)
    else if tokens[0] == DOT then Hangs
    else if tokens[0] == DOTDOT then Resolved(Popped(stack), tokens[1..])
    else Resolved(stack + [tokens[0]], tokens[1..])
  }

  /** What the path means for the stack after one token. */
  function Stepped(stack: seq<string>, token: string): seq<string>
  {
    if token == DOT then stack else if token == DOTDOT then Popped(stack) else stack + [token]
  }

  /** How many tokens come before the end or before the stack is full. */
  function Reached(stack: seq<string>, tokens: seq<string>): (n: nat)
    ensures n <= |tokens|
    decreases |tokens|
  {
    if tokens == [] || |stack| >= MAX_COMPONENTS then 0 else 1 + Reached(Stepped(stack, tokens[0]), tokens[1..])
  }

  /** Never 32 components with tokens still to come. */
  predicate StaysSmall(stack: seq<string>, tokens: seq<string>)
  {
    Reached(stack, tokens) == |tokens|
  }

  /** The loop evaluates the tokens it reaches, and hangs exactly if there is a `.` among them. */
  lemma {:induction false} ResolvedIsEvaluated(stack: seq<string>, tokens: seq<string>)
    ensures var reached := tokens[..Reached(stack, tokens)];
            Resolved(stack, tokens) == if DOT in reached then Hangs else Finished(Evaluated(stack, reached))
    decreases |tokens|
  {
    if tokens != [] && |stack| < MAX_COMPONENTS {
      var next := Stepped(stack, tokens[0]);
      var rest := tokens[1..][..Reached(next, tokens[1..])];
      var reached := tokens[..Reached(stack, tokens)];
      assert reached == [tokens[0]] + rest && reached[1..] == rest;
      ResolvedIsEvaluated(next, tokens[1..]);
    }
  }

  /** It hangs exactly if some `.` comes before the stack has ever been full. */
  lemma HangsAtReachedDot(stack: seq<string>, tokens: seq<string>)
    ensures Resolved(stack, tokens).Hangs?
            <==> exists k :: 0 <= k < |tokens| && tokens[k] == DOT && StaysSmall(stack, tokens[..k + 1])
  {
    ResolvedIsEvaluated(stack, tokens);
    var n := Reached(stack, tokens);
    if DOT in tokens[..n] {
      var k :| 0 <= k < n && tokens[k] == DOT;
      ReachedPrefix(stack, tokens, k + 1);
      assert StaysSmall(stack, tokens[..k + 1]);
    }
    if exists k :: 0 <= k < |tokens| && tokens[k] == DOT && StaysSmall(stack, tokens[..k + 1]) {
      var k :| 0 <= k < |tokens| && tokens[k] == DOT && StaysSmall(stack, tokens[..k + 1]);
      ReachedPrefix(stack, tokens, k + 1);
      assert tokens[..n][k] == DOT;
    }
  }

  lemma {:induction false} ReachedPrefix(stack: seq<string>, tokens: seq<string>, k: nat)
    requires k <= |tokens|
    ensures Reached(stack, tokens[..k]) == if k <= Reached(stack, tokens) then k else Reached(stack, tokens)
    decreases k
  {
    if k > 0 && |stack| < MAX_COMPONENTS {
      assert tokens[..k][1..] == tokens[1..][..k - 1];
      ReachedPrefix(Stepped(stack, tokens[0]), tokens[1..], k - 1);
    }
  }

  lemma {:induction false} FewStaySmall(stack: seq<string>, tokens: seq<string>)
    requires |stack| + |tokens| <= MAX_COMPONENTS
    ensures StaysSmall(stack, tokens)
    decreases |tokens|
  {
    if tokens != [] {
      FewStaySmall(Stepped(stack, tokens[0]), tokens[1..]);
    }
  }

  /** For instance, of 33 components the last is dropped. */
  lemma ThirtyThreeAreCut()
    ensures var names := seq(MAX_COMPONENTS + 1, _ => "a");
            AllComponents(names) && Resolved([], names) == Finished(seq(MAX_COMPONENTS, _ => "a")) != Finished(names)
  {
    var names := seq(MAX_COMPONENTS + 1, _ => "a");
    PlainPathsAreCut(names);
    assert names[..MAX_COMPONENTS] == seq(MAX_COMPONENTS, _ => "a");
    assert |names| != |names[..MAX_COMPONENTS]|;
  }

  /** A path of plain components is resolved faithfully exactly if there are at most 32; of more, only
      the first 32 are kept. */
  lemma PlainPathsAreCut(names: seq<string>)
    requires AllComponents(names)
    ensures Resolved([], names) == Finished(if |names| <= MAX_COMPONENTS then names else names[..MAX_COMPONENTS])
    ensures Evaluated([], names) == names
    ensures Resolved([], names) == Finished(Evaluated([], names)) <==> |names| <= MAX_COMPONENTS
  {
    PlainResolved([], names);
    PlainEvaluated([], names);
    assert [] + names == names;
  }

  lemma {:induction false} PlainEvaluated(stack: seq<string>, names: seq<string>)
    requires AllComponents(names)
    ensures Evaluated(stack, names) == stack + names
    decreases |names|
  {
    if names != [] {
      PlainEvaluated(stack + [names[0]], names[1..]);
      assert stack + names == stack + [names[0]] + names[1..];
    }
  }

  lemma {:induction false} PlainResolved(stack: seq<string>, names: seq<string>)
    requires AllComponents(names) && |stack| <= MAX_COMPONENTS
    ensures Resolved(stack, names)
            == Finished(if |stack + names| <= MAX_COMPONENTS then stack + names else (stack + names)[..MAX_COMPONENTS])
    decreases |names|
  {
    if names == [] {
      assert stack + names == stack;
    } else if |stack| < MAX_COMPONENTS {
      PlainResolved(stack + [names[0]], names[1..]);
      assert stack + names == stack + [names[0]] + names[1..];
    } else {
      assert (stack + names)[..MAX_COMPONENTS] == stack;
    }
  }

  lemma {:induction false} EvaluatedJoin(stack: seq<string>, a: seq<string>, b: seq<string>)
    ensures Evaluated(stack, a + b) == Evaluated(Evaluated(stack, a), b)
    decreases |a|
  {
    if a == [] {
      assert a + b == b;
    } else {
      assert (a + b)[1..] == a[1..] + b;
      EvaluatedJoin(Stepped(stack, a[0]), a[1..], b);
    }
  }

  // ---------------------------------------------------------------- rendering

  /** Every component behind a slash. */
  function Joined(cs: seq<string>): (s: string)
    ensures s != "" ==> s[0] == '/'
    ensures cs == [] <==> s == ""
  {
    if cs == [] then "" else Joined(cs[..|cs| - 1]) + "/" + cs[|cs| - 1]
  }

  /** The canonical path of a component stack. */
  function Rendered(cs: seq<string>): (s: string)
    ensures s != "" && s[0] == '/'
  {
    if cs == [] then "/" else Joined(cs)
  }

  ghost predicate Canonical(p: string)
  {
    exists cs :: AllComponents(cs) && |cs| <= MAX_COMPONENTS && p == Rendered(cs)
  }

  lemma {:induction false} TokensOfJoined(cs: seq<string>)
    requires AllComponents(cs)
    ensures Tokens(Joined(cs)) == cs
  {
    if cs != [] {
      var n := |cs| - 1;
      TokensOfJoined(cs[..n]);
      assert Joined(cs) == Joined(cs[..n]) + ("/" + cs[n]);
      TokensJoin(Joined(cs[..n]), "/" + cs[n]);
      assert ("/" + cs[n])[1..] == cs[n];
      NoSlashIsOneToken(cs[n]);
    }
  }

  /** Splitting a canonical path gives back its components. */
  lemma TokensOfRendered(cs: seq<string>)
    requires AllComponents(cs)
    ensures Tokens(Rendered(cs)) == cs
  {
    if cs == [] {
      assert "/"[1..] == "";
    } else {
      TokensOfJoined(cs);
    }
  }

  lemma {:induction false} ResolvedKeeps(stack: seq<string>, tokens: seq<string>)
    requires AllComponents(stack) && |stack| <= MAX_COMPONENTS && forall t :: t in tokens ==> t != "" && '/' !in t
    ensures var r := Resolved(stack, tokens);
            r.Finished? ==>
              && AllComponents(r.value) && |r.value| <= MAX_COMPONENTS
              && |Joined(r.value)| <= |Joined(stack)| + |Joined(tokens)|
    decreases |tokens|
  {
    if tokens != [] && |stack| < MAX_COMPONENTS && tokens[0] != DOT {
      assert tokens[0] in tokens && forall t :: t in tokens[1..] ==> t in tokens;
      JoinedFront(tokens);
      if tokens[0] == DOTDOT {
        ResolvedKeeps(Popped(stack), tokens[1..]);
      } else {
        assert (stack + [tokens[0]])[..|stack|] == stack;
        ResolvedKeeps(stack + [tokens[0]], tokens[1..]);
      }
    }
  }

  lemma {:induction false} JoinedFront(cs: seq<string>)
    requires cs != []
    ensures Joined(cs) == "/" + cs[0] + Joined(cs[1..])
  {
    var n := |cs| - 1;
    if n == 0 {
      assert cs[..0] == [] && Joined(cs[..0]) == "";
    } else {
      JoinedFront(cs[..n]);
      assert cs[..n][1..] == cs[1..][..n - 1];
      assert Joined(cs[1..]) == Joined(cs[1..][..n - 1]) + "/" + cs[n];
    }
  }

  /** The components take up no more room than the path they come from. */
  lemma {:induction false} TokensFit(s: string)
    ensures |Joined(Tokens(s))| <= |s| + if s != "" && s[0] != '/' then 1 else 0
    decreases |s|
  {
    if s != "" {
      if s[0] == '/' {
        TokensFit(s[1..]);
      } else {
        TokensFit(s[TokenEnd(s)..]);
        JoinedFront(Tokens(s));
        assert Tokens(s)[1..] == Tokens(s[TokenEnd(s)..]);
      }
    }
  }

  // ---------------------------------------------------------------- cleaning up

  /** No two slashes in a row, and none at the end unless it is the whole path. */
  predicate IsClean(s: string)
  {
    && s != ""
    && NoDoubleSlash(s)
    && (|s| > 1 ==> s[|s| - 1] != '/')
  }

  lemma {:induction false} JoinedIsClean(cs: seq<string>)
    requires AllComponents(cs) && cs != []
    ensures IsClean(Joined(cs)) && |Joined(cs)| > 1
  {
    var n := |cs| - 1;
    var s, c := Joined(cs), cs[n];
    assert forall i :: 0 <= i < |c| ==> c[i] in c && c[i] != '/';
    if n > 0 {
      JoinedIsClean(cs[..n]);
    }
    var front := Joined(cs[..n]);
    assert forall i :: |front| < i < |s| ==> s[i] == c[i - |front| - 1];
  }

  lemma SlashThenSlash(a: string, b: string)
    ensures Tokens(a + "/" + "/" + b) == Tokens(a + "/" + b)
  {
    assert a + "/" + "/" + b == a + ("/" + ("/" + b)) && a + "/" + b == a + ("/" + b);
    TokensJoin(a, "/" + ("/" + b));
    TokensJoin(a, "/" + b);
    assert ("/" + ("/" + b))[1..] == "/" + b;
  }

  lemma SlashAtEnd(a: string)
    ensures Tokens(a + "/") == Tokens(a)
  {
    TokensJoin(a, "/");
    assert "/"[1..] == "";
  }

  predicate NoDoubleSlash(s: string)
  {
    forall i :: 0 < i < |s| ==> !(s[i - 1] == '/' && s[i] == '/')
  }

  predicate EndsInSlash(s: string) { s != "" && s[|s| - 1] == '/' }

  /** `r` is what squeezing leaves of the first `n` characters. */
  predicate Squeezed(s: string, n: nat, r: string)
  {
    && |r| <= n <= |s| && NoDoubleSlash(r)
    && Tokens(r + s[n..]) == Tokens(s)
    && (IsClean(s) ==> r == s[..n])
  }

  lemma SqueezeBegins(s: string)
    ensures Squeezed(s, 0, "")
  {
    assert "" + s[0..] == s;
  }

  lemma SqueezeDrops(s: string, n: nat, r: string)
    requires Squeezed(s, n, r) && n < |s| && s[n] == '/' && EndsInSlash(r)
    ensures Squeezed(s, n + 1, r)
  {
    hide Tokens;
    var front, rest := r[..|r| - 1], s[n + 1..];
    assert r == front + "/" && s[n..] == "/" + rest;
    assert r + s[n..] == front + "/" + "/" + rest;
    SlashThenSlash(front, rest);
    if r == s[..n] {
      assert s[n - 1] == '/';
    }
  }

  lemma SqueezeTakes(s: string, n: nat, r: string)
    requires Squeezed(s, n, r) && n < |s| && !(s[n] == '/' && EndsInSlash(r))
    ensures Squeezed(s, n + 1, r + [s[n]])
  {
    hide Tokens;
    assert s[n..] == [s[n]] + s[n + 1..];
    assert r + s[n..] == r + [s[n]] + s[n + 1..];
    assert s[..n + 1] == s[..n] + [s[n]];
  }

  /** Squeezing repeated slashes and dropping a trailing one: the result is clean and, unless it is cut,
      has the same components; a clean path goes through unchanged. */
  method CleanUp(s: string) returns (r: string)
    ensures IsClean(r) && |r| < MAX_PATH
    ensures |s| < MAX_PATH ==> Tokens(r) == Tokens(s)
    ensures IsClean(s) && |s| < MAX_PATH ==> r == s
  {
    hide Tokens, Squeezed;
    var src, lastWasSlash := 0, false;
    r := "";
    SqueezeBegins(s);
    while src < |s| && |r| < MAX_PATH - 1
      invariant src <= |s| && |r| <= src && |r| < MAX_PATH
      invariant Squeezed(s, src, r) && (lastWasSlash <==> EndsInSlash(r))
    {
      if s[src] == '/' {
        if !lastWasSlash {
          SqueezeTakes(s, src, r);
          r, lastWasSlash := r + "/", true;
        } else {
          SqueezeDrops(s, src, r);
        }
      } else {
        SqueezeTakes(s, src, r);
        r, lastWasSlash := r + [s[src]], false;
      }
      src := src + 1;
    }
    SqueezeEnds(s, src, r);
    if |r| > 1 && r[|r| - 1] == '/' {
      SlashAtEnd(r[..|r| - 1]);
      assert r == r[..|r| - 1] + "/";
      r := r[..|r| - 1];
    }
    if r == "" {
      SlashAtEnd("");
      assert "" + "/" == "/";
      r := "/";
    }
  }

  lemma SqueezeEnds(s: string, n: nat, r: string)
    requires Squeezed(s, n, r)
    ensures NoDoubleSlash(r)
    ensures n == |s| ==> Tokens(r) == Tokens(s) && (IsClean(s) ==> r == s)
  {
    assert n == |s| ==> r + s[n..] == r;
  }
}
