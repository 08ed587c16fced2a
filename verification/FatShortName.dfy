/** 8.3 names: the plain form of a name that fits, its spelling for display, and the numbered aliases
    tried for names that do not fit or are taken. */
module FatShortName {
  import opened Machine
  import Counting

  const SPACE: byte := 0x20
  const DOT: byte := 0x2E
  const TILDE: byte := 0x7E
  const UNDERSCORE: byte := 0x5F
  const SHORT_SIZE := 11

  function ToUpper(ch: byte): (r: byte)
  {
    if 0x61 <= ch <= 0x7A then ch - 0x20 else ch
  }

  function ToLower(ch: byte): (r: byte)
  {
    if 0x41 <= ch <= 0x5A then ch + 0x20 else ch
  }

  predicate IsAlnum(ch: byte) { 0x41 <= ch <= 0x5A || 0x30 <= ch <= 0x39 }

  /** The punctuation an alias may keep: ! # $ % & ' ( ) - @ ^ _ ` { } ~ */
  predicate IsShortPunctuation(ch: byte)
  {
    ch == 0x21 || 0x23 <= ch <= 0x29 || ch == 0x2D || ch == 0x40 || 0x5E <= ch <= 0x60 || ch == 0x7B
      || 0x7D <= ch <= 0x7E
  }

  function Sanitized(ch: byte): (r: byte)
    ensures r != DOT && SPACE < r < 0x80
  {
    var upper := ToUpper(ch);
    if IsAlnum(upper) || IsShortPunctuation(upper) then upper else UNDERSCORE
  }

  function Pad(s: seq<byte>, n: nat): (r: seq<byte>)
    requires |s| <= n
    ensures |r| == n && r[..|s|] == s && forall i :: |s| <= i < n ==> r[i] == SPACE
  {
    s + seq(n - |s|, _ => SPACE)
  }

  // ---------------------------------------------------------------- splitting at a dot

  /** Where the first dot is, or the length. */
  function FirstDot(name: seq<byte>): (i: nat)
    ensures i <= |name| && (i < |name| ==> name[i] == DOT) && forall j :: 0 <= j < i ==> name[j] != DOT
  {
    if name == [] || name[0] == DOT then 0 else 1 + FirstDot(name[1..])
  }

  /** Where the last dot is, or the length. */
  function LastDot(name: seq<byte>): (i: nat)
    ensures i <= |name| && (i < |name| ==> name[i] == DOT) && forall j :: i < j < |name| ==> name[j] != DOT
    ensures i == |name| ==> forall j :: 0 <= j < |name| ==> name[j] != DOT
  {
    if name == [] then 0
    else if name[|name| - 1] == DOT then |name| - 1
    else
      var i := LastDot(name[..|name| - 1]);
      if i == |name| - 1 then |name| else i
  }

  // ---------------------------------------------------------------- the plain short form

  predicate FitsShort(part: seq<byte>)
  {
    forall i :: 0 <= i < |part| ==> part[i] != SPACE && part[i] != DOT && part[i] != 0x2F && part[i] != 0x5C
  }

  function Upper(part: seq<byte>): (r: seq<byte>)
    ensures |r| == |part|
  {
    seq<byte>(|part|, i requires 0 <= i < |part| => ToUpper(part[i]))
  }

  /** The name itself as an 8.3 name, upper-cased and padded, when it has that form. */
  function PlainShort(name: seq<byte>): (r: Option<seq<byte>>)
    ensures r.Some? ==> |r.value| == SHORT_SIZE && name != [] && r.value[0] == ToUpper(name[0]) && r.value[0] != DOT
  {
    var dot := FirstDot(name);
    var base, ext := name[..dot], if dot < |name| then name[dot + 1..] else [];
    if base == [] || |base| > 8 || |ext| > 3 || !FitsShort(base) || !FitsShort(ext) then None
    else Some(Pad(Upper(base), 8) + Pad(Upper(ext), 3))
  }

  /** The bytes before the first space. */
  function Unpadded(s: seq<byte>): (r: seq<byte>)
    ensures |r| <= |s| && r == s[..|r|] && (|r| < |s| ==> s[|r|] == SPACE)
    ensures forall i :: 0 <= i < |r| ==> r[i] != SPACE
  {
    if s == [] || s[0] == SPACE then [] else [s[0]] + Unpadded(s[1..])
  }

  lemma {:induction false} UnpaddedPad(s: seq<byte>, n: nat)
    requires |s| <= n && forall i :: 0 <= i < |s| ==> s[i] != SPACE
    ensures Unpadded(Pad(s, n)) == s
  {
    if s != [] {
      UnpaddedPad(s[1..], n - 1);
      assert Pad(s, n)[1..] == Pad(s[1..], n - 1);
    }
  }

  /** How a short name is spelled for display. */
  function Spelled(short: seq<byte>): (r: seq<byte>)
    requires |short| == SHORT_SIZE
  {
    var first: byte := if short[0] == 0x05 then 0xE5 else short[0];
    var base := Unpadded([first] + short[1..8]);
    var ext := Unpadded(short[8..]);
    if ext == [] then base else base + [DOT] + ext
  }

  /** The name as the device means it, where the byte 0x05 in front stands for 0xE5. */
  function Meant(name: seq<byte>): (r: seq<byte>)
    requires name != []
    ensures |r| == |name| && r[0] != 0x05 && forall i :: 0 < i < |r| ==> r[i] == name[i]
  {
    if name[0] == 0x05 then name[0 := 0xE5] else name
  }

  /** The plain short form is displayed as the name in upper case, without a dot at its end. */
  lemma PlainShortSpells(name: seq<byte>)
    requires PlainShort(name).Some?
    ensures var n := Meant(name);
            Spelled(PlainShort(name).value) == Upper(if n[|n| - 1] == DOT then n[..|n| - 1] else n)
  {
    hide Upper, Spelled;
    MeantIsPlain(name);
    PlainUpperSpells(Meant(name));
  }

  lemma MeantIsPlain(name: seq<byte>)
    requires PlainShort(name).Some?
    ensures PlainShort(Meant(name)).Some? && Spelled(PlainShort(Meant(name)).value) == Spelled(PlainShort(name).value)
  {
    hide Spelled, Upper;
    if name[0] == 0x05 {
      var n := Meant(name);
      assert name[1..] == n[1..];
      assert FirstDot(n) == FirstDot(name);
      MeantUpper(name[..FirstDot(name)], n[..FirstDot(name)]);
      SpelledAlike(PlainShort(name).value, PlainShort(n).value);
    }
  }

  lemma MeantUpper(base: seq<byte>, meant: seq<byte>)
    requires base != [] && base[0] == 0x05 && meant == base[0 := 0xE5]
    ensures Upper(base)[0] == 0x05 && Upper(meant) == Upper(base)[0 := 0xE5]
  {
  }

  lemma SpelledAlike(short: seq<byte>, meant: seq<byte>)
    requires |short| == SHORT_SIZE && short[0] == 0x05 && meant == short[0 := 0xE5]
    ensures Spelled(meant) == Spelled(short)
  {
    assert short[1..8] == meant[1..8] && short[8..] == meant[8..];
  }

  lemma PlainUpperSpells(name: seq<byte>)
    requires PlainShort(name).Some? && name[0] != 0x05
    ensures Spelled(PlainShort(name).value)
            == Upper(if name[|name| - 1] == DOT then name[..|name| - 1] else name)
  {
    hide Upper, PlainShort, Unpadded, FitsShort;
    var short := PlainShort(name).value;
    var base, ext := PlainParts(name);
    assert [short[0]] + short[1..8] == short[..8];
    if ext != [] {
      assert name[|name| - 1] == ext[|ext| - 1] && ext[|ext| - 1] in ext;
      UpperJoin(base + [DOT], ext);
      UpperJoin(base, [DOT]);
      UpperKeeps([]);
    } else if name == base {
      assert name[|name| - 1] in base;
    } else {
      assert name == base + [DOT] && name[..|name| - 1] == base;
    }
  }

  lemma PlainParts(name: seq<byte>) returns (base: seq<byte>, ext: seq<byte>)
    requires PlainShort(name).Some? && name[0] != 0x05
    ensures DOT !in ext && (name == base + [DOT] + ext || (name == base && ext == [])) && DOT !in base
    ensures var short := PlainShort(name).value;
            Unpadded(short[..8]) == Upper(base) && Unpadded(short[8..]) == Upper(ext) && short[0] != 0x05
    ensures Upper(ext) == [] <==> ext == []
  {
    hide Unpadded, ToUpper;
    var dot, short := FirstDot(name), PlainShort(name).value;
    base, ext := name[..dot], if dot < |name| then name[dot + 1..] else [];
    UpperKeeps(base);
    UpperKeeps(ext);
    PlainHalves(name, base, ext);
    hide PlainShort, Pad, Upper;
    UnpaddedPad(Upper(base), 8);
    UnpaddedPad(Upper(ext), 3);
    assert dot < |name| ==> name == base + [DOT] + ext;
  }

  lemma PlainHalves(name: seq<byte>, base: seq<byte>, ext: seq<byte>)
    requires PlainShort(name).Some? && base == name[..FirstDot(name)]
    requires ext == if FirstDot(name) < |name| then name[FirstDot(name) + 1..] else []
    ensures |base| <= 8 && |ext| <= 3 && base != []
    ensures var short := PlainShort(name).value;
            short[..8] == Pad(Upper(base), 8) && short[8..] == Pad(Upper(ext), 3) && short[0] == Upper(base)[0]
  {
    hide ToUpper, FirstDot;
  }

  lemma UpperJoin(a: seq<byte>, b: seq<byte>)
    ensures Upper(a + b) == Upper(a) + Upper(b)
  {
    hide ToUpper;
  }

  /** Upper case neither makes nor removes spaces and dots, nor makes the byte 0x05. */
  lemma UpperKeeps(part: seq<byte>)
    ensures FitsShort(part) ==> forall i :: 0 <= i < |part| ==> Upper(part)[i] != SPACE
    ensures forall i :: 0 <= i < |part| && part[i] != 0x05 ==> Upper(part)[i] != 0x05
    ensures Upper([DOT]) == [DOT]
  {
  }

  // ---------------------------------------------------------------- decimal suffixes

  function Digit(d: nat): (b: byte)
    requires d < 10
  {
    0x30 + d
  }

  function Decimal(n: nat): (r: seq<byte>)
    ensures r != [] && forall i :: 0 <= i < |r| ==> 0x30 <= r[i] <= 0x39
  {
    if n < 10 then [Digit(n)] else Decimal(n / 10) + [Digit(n % 10)]
  }

  lemma {:induction false} DecimalInjective(m: nat, n: nat)
    requires Decimal(m) == Decimal(n)
    ensures m == n
  {
    var s := Decimal(m);
    assert s[|s| - 1] == Digit(m % 10) == Digit(n % 10);
    if m >= 10 && n >= 10 {
      assert Decimal(m / 10) == s[..|s| - 1] == Decimal(n / 10);
      DecimalInjective(m / 10, n / 10);
    } else {
      assert m >= 10 ==> |Decimal(m)| >= 2;
      assert n >= 10 ==> |Decimal(n)| >= 2;
    }
  }

  function PowerOf10(k: nat): nat { if k == 0 then 1 else 10 * PowerOf10(k - 1) }

  lemma {:induction false} DecimalLength(n: nat, k: nat)
    requires 1 <= k && n < PowerOf10(k)
    ensures |Decimal(n)| <= k
  {
    assert PowerOf10(1) == 10;
    if n >= 10 {
      DecimalLength(n / 10, k - 1);
    }
  }

  method CountDigits(value: nat) returns (digits: nat)
    ensures digits == |Decimal(value)|
  {
    digits := 1;
    var rest := value;
    while rest >= 10
      invariant digits + |Decimal(rest)| == |Decimal(value)| + 1
    {
      rest := rest / 10;
      digits := digits + 1;
    }
  }

  /** The digits are produced backwards, then reversed. */
  method DecimalToString(value: nat) returns (text: seq<byte>)
    ensures text == Decimal(value)
  {
    if value == 0 {
      assert Decimal(0) == [Digit(0)] && Digit(0) == 0x30;
      return [0x30];
    }
    var rest: nat := value;
    text := [];
    while rest > 0
      invariant rest == 0 ==> text == Decimal(value)
      invariant rest > 0 ==> Decimal(rest) + text == Decimal(value)
    {
      if rest >= 10 {
        assert Decimal(rest) + text == Decimal(rest / 10) + ([Digit(rest % 10)] + text);
      }
      text := [Digit(rest % 10)] + text;
      rest := rest / 10;
    }
  }

  // ---------------------------------------------------------------- numbered aliases

  const SUFFIXES := 1_000_000

  predicate Spaceless(s: seq<byte>)
  {
    forall i :: 0 <= i < |s| ==> s[i] != SPACE
  }

  /** ASCII, and no control characters. */
  predicate Printable(s: seq<byte>)
  {
    forall i :: 0 <= i < |s| ==> SPACE <= s[i] < 0x80
  }

  /** Spaces dropped, other characters sanitised, at most `max` of them. */
  function Component(input: seq<byte>, max: nat): (r: seq<byte>)
    ensures |r| <= max && Spaceless(r) && Printable(r) && forall i :: 0 <= i < |r| ==> r[i] != DOT
  {
    if input == [] || max == 0 then []
    else if input[0] == SPACE then Component(input[1..], max)
    else [Sanitized(input[0])] + Component(input[1..], max - 1)
  }

  method SanitizeComponent(input: seq<byte>, max: nat) returns (output: seq<byte>)
    ensures output == Component(input, max)
  {
    hide Component, Sanitized;
    output := [];
    var i := 0;
    while i < |input| && |output| < max
      invariant i <= |input| && |output| <= max
      invariant output + Component(input[i..], max - |output|) == Component(input, max)
    {
      ComponentStep(input, i, output, max);
      if input[i] != SPACE {
        output := output + [Sanitized(input[i])];
      }
      i := i + 1;
    }
    ComponentDone(input[i..], max - |output|);
  }

  lemma ComponentDone(rest: seq<byte>, max: nat)
    requires rest == [] || max == 0
    ensures Component(rest, max) == []
  {
  }

  lemma ComponentStep(input: seq<byte>, i: nat, output: seq<byte>, max: nat)
    requires i < |input| && |output| < max
    ensures output + Component(input[i..], max - |output|)
            == if input[i] == SPACE then output + Component(input[i + 1..], max - |output|)
               else output + [Sanitized(input[i])] + Component(input[i + 1..], max - |output| - 1)
  {
    hide Sanitized;
    assert input[i..][1..] == input[i + 1..];
    assert Component(input[i..], max - |output|)
        == if input[i] == SPACE then Component(input[i + 1..], max - |output|)
           else [Sanitized(input[i])] + Component(input[i + 1..], max - |output| - 1);
  }

  /** What an alias is built from: a sanitised base, never empty, and an extension. */
  datatype Stem = Stem(base: seq<byte>, ext: seq<byte>)

  predicate StemOk(s: Stem)
  {
    && s.base != [] && s.base[0] != DOT && Spaceless(s.base) && Printable(s.base)
    && |s.ext| <= 3 && Spaceless(s.ext) && Printable(s.ext)
  }

  function StemOf(name: seq<byte>): (s: Stem)
    ensures StemOk(s)
  {
    var dot := LastDot(name);
    var whole := dot == |name| || dot == 0;
    var base := Component(if whole then name else name[..dot], 255);
    var ext := Component(if whole then [] else name[dot + 1..], 3);
    Stem(if base == [] then [0x46, 0x49, 0x4C, 0x45] else base, ext)
  }

  /** How much of the base is kept in front of the tilde. */
  function Kept(base: seq<byte>, suffix: nat): (n: nat)
    requires 1 <= suffix < SUFFIXES
    ensures n <= |base| && n + 1 + |Decimal(suffix)| <= 8
    ensures base != [] ==> n > 0
  {
    SuffixLength(suffix);
    var allow := 8 - (|Decimal(suffix)| + 1);
    if |base| > allow then allow else |base|
  }

  lemma SuffixLength(suffix: nat)
    requires suffix < SUFFIXES
    ensures |Decimal(suffix)| <= 6
  {
    assert PowerOf10(6) == SUFFIXES;
    DecimalLength(suffix, 6);
  }

  /** The alias BASE~N.EXT, unpadded up to the dot. */
  function AliasBase(base: seq<byte>, suffix: nat): (r: seq<byte>)
    requires 1 <= suffix < SUFFIXES
    ensures |r| <= 8
  {
    base[..Kept(base, suffix)] + [TILDE] + Decimal(suffix)
  }

  function Candidate(stem: Stem, suffix: nat): (r: seq<byte>)
    requires StemOk(stem) && 1 <= suffix < SUFFIXES
    ensures |r| == SHORT_SIZE && r[0] == stem.base[0] && r[..8] == Pad(AliasBase(stem.base, suffix), 8)
  {
    Pad(AliasBase(stem.base, suffix), 8) + Pad(stem.ext, 3)
  }

  lemma AliasSpaceless(base: seq<byte>, suffix: nat)
    requires Spaceless(base) && 1 <= suffix < SUFFIXES
    ensures Spaceless(AliasBase(base, suffix))
  {
  }

  lemma CandidateIsPrintable(stem: Stem, suffix: nat)
    requires StemOk(stem) && 1 <= suffix < SUFFIXES
    ensures Printable(Candidate(stem, suffix))
  {
    hide Decimal;
    assert Printable(AliasBase(stem.base, suffix));
  }

  /** What a printable short name spells is ASCII. */
  lemma PrintableSpells(short: seq<byte>)
    requires |short| == SHORT_SIZE && Printable(short)
    ensures forall i :: 0 <= i < |Spelled(short)| ==> Spelled(short)[i] < 0x80
  {
    var base, ext := Unpadded([short[0]] + short[1..8]), Unpadded(short[8..]);
    assert short[0] != 0x05;
    assert forall i :: 0 <= i < |base| ==> base[i] == ([short[0]] + short[1..8])[i] < 0x80;
    assert forall i :: 0 <= i < |ext| ==> ext[i] == short[8..][i] < 0x80;
  }

  /** The text after the last tilde of an alias is its number. */
  lemma TildeSplits(p: seq<byte>, d: seq<byte>, p': seq<byte>, d': seq<byte>)
    requires p + [TILDE] + d == p' + [TILDE] + d'
    requires forall i :: 0 <= i < |d| ==> d[i] != TILDE
    requires forall i :: 0 <= i < |d'| ==> d'[i] != TILDE
    ensures d == d'
  {
    var s, s' := p + [TILDE] + d, p' + [TILDE] + d';
    assert s[|p|] == TILDE && s'[|p'|] == TILDE;
    assert forall j :: |p| < j < |s| ==> s[j] == d[j - |p| - 1];
    assert forall j :: |p'| < j < |s'| ==> s'[j] == d'[j - |p'| - 1];
    assert d == s[|p| + 1..] && d' == s'[|p'| + 1..];
  }

  /** Different numbers give different aliases. */
  lemma CandidatesDiffer(stem: Stem, i: nat, j: nat)
    requires StemOk(stem) && 1 <= i < SUFFIXES && 1 <= j < SUFFIXES
    requires Candidate(stem, i) == Candidate(stem, j)
    ensures i == j
  {
    var a, b := AliasBase(stem.base, i), AliasBase(stem.base, j);
    AliasSpaceless(stem.base, i);
    AliasSpaceless(stem.base, j);
    UnpaddedPad(a, 8);
    UnpaddedPad(b, 8);
    assert Pad(a, 8) == Candidate(stem, i)[..8] == Candidate(stem, j)[..8] == Pad(b, 8);
    assert a == b;
    TildeSplits(stem.base[..Kept(stem.base, i)], Decimal(i), stem.base[..Kept(stem.base, j)], Decimal(j));
    DecimalInjective(i, j);
  }

  /** The first `n` aliases. */
  function Candidates(stem: Stem, n: nat): (r: seq<seq<byte>>)
    requires StemOk(stem) && n < SUFFIXES
    ensures |r| == n && forall i :: 0 <= i < n ==> r[i] == Candidate(stem, i + 1)
  {
    seq<seq<byte>>(n, i requires 0 <= i < n => Candidate(stem, i + 1))
  }

  lemma CandidatesInjective(stem: Stem, n: nat)
    requires StemOk(stem) && n < SUFFIXES
    ensures Counting.Injective(Candidates(stem, n))
  {
    forall i, j | 0 <= i < j < n
      ensures Candidates(stem, n)[i] != Candidates(stem, n)[j]
    {
      if Candidates(stem, n)[i] == Candidates(stem, n)[j] {
        CandidatesDiffer(stem, i + 1, j + 1);
      }
    }
  }

  /** In a directory of m short names one of the first m + 1 aliases is unused. */
  lemma AliasWithinReach(stem: Stem, taken: set<seq<byte>>)
    requires StemOk(stem) && |taken| + 1 < SUFFIXES
    ensures exists s :: 1 <= s <= |taken| + 1 && Candidate(stem, s) !in taken
  {
    if forall s :: 1 <= s <= |taken| + 1 ==> Candidate(stem, s) in taken {
      CandidatesInjective(stem, |taken| + 1);
      Counting.Pigeonhole(Candidates(stem, |taken| + 1), taken);
    }
  }
}
