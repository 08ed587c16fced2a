/** The file allocation table as a value: cluster chains, what linking and freeing do to them, and
    what every step conserves. The mutable table is `FatVolume.Volume`. */
module FatTable {
  import opened Machine

  const END_CLUSTER: uint32 := 0x0FFF_FFFF
  const FREE_CLUSTER: uint32 := 0

  /** The largest table the driver can load: 255 sectors of 128 entries. */
  const MAX_ENTRIES := 255 * 128

  type Table = seq<uint32>

  /** Only the low 28 bits of an entry are a cluster number. */
  function Low28(w: uint32): (c: nat)
    ensures c <= END_CLUSTER
  {
    w % 0x1000_0000
  }

  /** `(w & 0xF0000000) | c`: link to `c`, keeping the reserved top bits. */
  function Relink(w: uint32, c: nat): (r: uint32)
    requires c <= END_CLUSTER
    ensures Low28(r) == c && r / 0x1000_0000 == w / 0x1000_0000
  {
    w - w % 0x1000_0000 + c
  }

  predicate IsEnd(c: nat)
  {
    c < 2 || END_CLUSTER <= c
  }

  ghost predicate InRange(total: nat, chain: seq<nat>)
  {
    forall i :: 0 <= i < |chain| ==> 2 <= chain[i] < total
  }

  ghost predicate Linked(fat: Table, chain: seq<nat>)
    requires InRange(|fat|, chain)
  {
    forall i :: 0 < i < |chain| ==> Low28(fat[chain[i - 1]]) == chain[i]
  }

  /** `chain` is a complete chain: in range, linked entry by entry, and ended by END_CLUSTER. */
  ghost predicate IsChain(fat: Table, total: nat, chain: seq<nat>)
    requires total <= |fat|
  {
    && |chain| > 0
    && InRange(total, chain)
    && Linked(fat, chain)
    && Low28(fat[chain[|chain| - 1]]) == END_CLUSTER
  }

  /** What the driver follows: a chain may also end at a link of 0 or 1, or at any value from the end
      marker on. */
  ghost predicate IsWalk(fat: Table, total: nat, chain: seq<nat>)
    requires total <= |fat|
  {
    && |chain| > 0
    && InRange(total, chain)
    && Linked(fat, chain)
    && IsEnd(Low28(fat[chain[|chain| - 1]]))
  }

  ghost predicate Distinct(s: seq<nat>)
  {
    forall i, j :: 0 <= i < j < |s| ==> s[i] != s[j]
  }

  ghost predicate Disjoint(s: seq<nat>, t: seq<nat>)
  {
    forall i, j :: 0 <= i < |s| && 0 <= j < |t| ==> s[i] != t[j]
  }

  ghost function Elements(s: seq<nat>): set<nat>
  {
    set i | 0 <= i < |s| :: s[i]
  }

  /** Two positions of a chain that hold the same cluster continue in step, so the later one would
      reach the end marker first. */
  lemma {:induction false} SamePositionsContinue(fat: Table, total: nat, chain: seq<nat>, i: nat, j: nat)
    requires total <= |fat| && total <= END_CLUSTER && IsWalk(fat, total, chain)
    requires i < j < |chain| && chain[i] == chain[j]
    ensures false
    decreases |chain| - j
  {
    assert Low28(fat[chain[i + 1 - 1]]) == chain[i + 1];
    if j + 1 < |chain| {
      assert Low28(fat[chain[j + 1 - 1]]) == chain[j + 1];
      SamePositionsContinue(fat, total, chain, i + 1, j + 1);
    }
  }

  /** A chain that ends is acyclic. */
  lemma ChainIsAcyclic(fat: Table, total: nat, chain: seq<nat>)
    requires total <= |fat| && total <= END_CLUSTER && IsWalk(fat, total, chain)
    ensures Distinct(chain)
  {
    forall i, j | 0 <= i < j < |chain|
      ensures chain[i] != chain[j]
    {
      if chain[i] == chain[j] {
        SamePositionsContinue(fat, total, chain, i, j);
      }
    }
  }

  /** The table determines the chain: its head fixes every later cluster and its length. */
  lemma {:induction false} ChainIsUnique(fat: Table, total: nat, c1: seq<nat>, c2: seq<nat>)
    requires total <= |fat| && total <= END_CLUSTER
    requires IsWalk(fat, total, c1) && IsWalk(fat, total, c2) && c1[0] == c2[0]
    ensures c1 == c2
  {
    HeadLink(fat, total, c1);
    HeadLink(fat, total, c2);
    if |c1| > 1 {
      TailIsWalk(fat, total, c1);
      TailIsWalk(fat, total, c2);
      ChainIsUnique(fat, total, c1[1..], c2[1..]);
      assert c1 == [c1[0]] + c1[1..] && c2 == [c2[0]] + c2[1..];
    }
  }

  /** The first link tells whether there is a second cluster. */
  lemma HeadLink(fat: Table, total: nat, c: seq<nat>)
    requires total <= |fat| && total <= END_CLUSTER && IsWalk(fat, total, c)
    ensures |c| > 1 <==> !IsEnd(Low28(fat[c[0]]))
    ensures |c| > 1 ==> Low28(fat[c[0]]) == c[1]
  {
    if |c| > 1 {
      assert Low28(fat[c[1 - 1]]) == c[1];
    }
  }

  lemma TailIsWalk(fat: Table, total: nat, c: seq<nat>)
    requires total <= |fat| && IsWalk(fat, total, c) && |c| > 1
    ensures IsWalk(fat, total, c[1..])
  {
    var t := c[1..];
    forall i | 0 < i < |t|
      ensures Low28(fat[t[i - 1]]) == t[i]
    {
      assert Low28(fat[c[i + 1 - 1]]) == c[i + 1];
    }
  }

  /** Entries off the chain do not matter to it. */
  lemma ChainFrame(fat: Table, fat': Table, total: nat, chain: seq<nat>)
    requires total <= |fat| == |fat'| && IsChain(fat, total, chain)
    requires forall i :: 0 <= i < |chain| ==> Low28(fat'[chain[i]]) == Low28(fat[chain[i]])
    ensures IsChain(fat', total, chain)
  {
    forall i | 0 < i < |chain|
      ensures Low28(fat'[chain[i - 1]]) == chain[i]
    {
      assert Low28(fat[chain[i - 1]]) == chain[i];
    }
  }

  // ---------------------------------------------------------------- the three table updates

  /** A free cluster becomes a chain of its own. */
  function Claimed(fat: Table, c: nat): (r: Table)
    requires c < |fat|
    ensures |r| == |fat|
  {
    fat[c := END_CLUSTER]
  }

  /** A free cluster is claimed and hung behind `prev`. */
  function Extended(fat: Table, prev: nat, c: nat): (r: Table)
    requires c < |fat| && prev < |fat| && c <= END_CLUSTER
    ensures |r| == |fat|
  {
    var f := Claimed(fat, c);
    f[prev := Relink(f[prev], c)]
  }

  /** Every cluster of `s` is released. */
  function Cleared(fat: Table, s: seq<nat>): (r: Table)
    requires forall i :: 0 <= i < |s| ==> s[i] < |fat|
    ensures |r| == |fat|
    ensures forall c :: 0 <= c < |fat| ==> r[c] == if c in s then FREE_CLUSTER else fat[c]
    decreases |s|
  {
    if s == [] then fat else Cleared(fat[s[0] := FREE_CLUSTER], s[1..])
  }

  lemma ExtendGrowsChain(fat: Table, total: nat, chain: seq<nat>, c: nat)
    requires total <= |fat| && total <= END_CLUSTER && IsChain(fat, total, chain)
    requires 2 <= c < total && c !in chain
    ensures IsChain(Extended(fat, chain[|chain| - 1], c), total, chain + [c])
  {
    ChainIsAcyclic(fat, total, chain);
    var prev := chain[|chain| - 1];
    var fat' := Extended(fat, prev, c);
    var chain' := chain + [c];
    forall i | 0 < i < |chain'|
      ensures Low28(fat'[chain'[i - 1]]) == chain'[i]
    {
      if i < |chain| {
        assert Low28(fat[chain[i - 1]]) == chain[i];
        assert chain[i - 1] != prev;
      }
    }
  }

  // ---------------------------------------------------------------- all chains of a volume

  /** The chains of a volume, keyed by their first cluster. */
  type Chains = map<nat, seq<nat>>

  ghost predicate KeyedChains(fat: Table, total: nat, chains: Chains)
    requires total <= |fat|
  {
    forall h :: h in chains ==> IsChain(fat, total, chains[h]) && chains[h][0] == h
  }

  ghost predicate PairwiseDisjoint(chains: Chains)
  {
    forall h, k :: h in chains && k in chains && h != k ==> Disjoint(chains[h], chains[k])
  }

  /** The allocation table and the set of chains agree. */
  ghost predicate WellFormed(fat: Table, total: nat, chains: Chains)
  {
    && total <= |fat|
    && total <= END_CLUSTER
    && KeyedChains(fat, total, chains)
    && PairwiseDisjoint(chains)
  }

  ghost function FreeSet(fat: Table, total: nat): set<nat>
  {
    set c | 2 <= c < total && c < |fat| && Low28(fat[c]) == FREE_CLUSTER
  }

  ghost predicate OnSomeChain(chains: Chains, c: nat)
  {
    exists h :: h in chains && c in chains[h]
  }

  ghost function ChainedSet(total: nat, chains: Chains): set<nat>
  {
    set c | 2 <= c < total && OnSomeChain(chains, c)
  }

  /** The conserved quantity: clusters that are free or on some chain. */
  ghost function Accounted(fat: Table, total: nat, chains: Chains): nat
  {
    |FreeSet(fat, total)| + |ChainedSet(total, chains)|
  }

  lemma ChainedIsUsed(fat: Table, total: nat, chains: Chains, h: nat, i: nat)
    requires WellFormed(fat, total, chains) && h in chains && i < |chains[h]|
    ensures Low28(fat[chains[h][i]]) != FREE_CLUSTER
  {
    var chain := chains[h];
    assert IsChain(fat, total, chain);
    if i + 1 < |chain| {
      assert Low28(fat[chain[i + 1 - 1]]) == chain[i + 1];
    }
  }

  lemma FreeIsUnchained(fat: Table, total: nat, chains: Chains, c: nat)
    requires WellFormed(fat, total, chains)
    requires 2 <= c < total && Low28(fat[c]) == FREE_CLUSTER
    ensures forall h :: h in chains ==> c !in chains[h]
  {
    forall h | h in chains
      ensures c !in chains[h]
    {
      if c in chains[h] {
        var i :| 0 <= i < |chains[h]| && chains[h][i] == c;
        ChainedIsUsed(fat, total, chains, h, i);
      }
    }
  }

  // ---- claiming a free cluster as a new chain

  lemma ClaimKeepsWellFormed(fat: Table, total: nat, chains: Chains, c: nat)
    requires WellFormed(fat, total, chains)
    requires 2 <= c < total && Low28(fat[c]) == FREE_CLUSTER
    ensures WellFormed(Claimed(fat, c), total, chains[c := [c]])
  {
    FreeIsUnchained(fat, total, chains, c);
    var fat' := Claimed(fat, c);
    var chains' := chains[c := [c]];
    forall h | h in chains'
      ensures IsChain(fat', total, chains'[h]) && chains'[h][0] == h
    {
      if h != c {
        ChainFrame(fat, fat', total, chains[h]);
      }
    }
  }

  // ---- hanging a free cluster behind the last cluster of a chain

  lemma ExtendKeepsWellFormed(fat: Table, total: nat, chains: Chains, h: nat, c: nat)
    requires WellFormed(fat, total, chains) && h in chains
    requires 2 <= c < total && Low28(fat[c]) == FREE_CLUSTER
    ensures var last := chains[h][|chains[h]| - 1];
            WellFormed(Extended(fat, last, c), total, chains[h := chains[h] + [c]])
  {
    FreeIsUnchained(fat, total, chains, c);
    var last := chains[h][|chains[h]| - 1];
    var fat' := Extended(fat, last, c);
    var chains' := chains[h := chains[h] + [c]];
    ExtendGrowsChain(fat, total, chains[h], c);
    forall k | k in chains'
      ensures IsChain(fat', total, chains'[k]) && chains'[k][0] == k
    {
      if k != h {
        assert Disjoint(chains[h], chains[k]);
        ChainFrame(fat, fat', total, chains[k]);
      }
    }
    forall k, l | k in chains' && l in chains' && k != l
      ensures Disjoint(chains'[k], chains'[l])
    {
      assert Disjoint(chains[k], chains[l]);
    }
  }

  /** When clearing the new cluster on the device fails, the allocator takes the cluster back but
      not the link to it: the predecessor's chain now runs into a free cluster. */
  lemma FailedExtendBreaksChain(fat: Table, total: nat, chains: Chains, h: nat, c: nat)
    requires WellFormed(fat, total, chains) && h in chains
    requires 2 <= c < total && Low28(fat[c]) == FREE_CLUSTER
    ensures var last := chains[h][|chains[h]| - 1];
            var left := Extended(fat, last, c)[c := FREE_CLUSTER];
            && !WellFormed(left, total, chains)
            && !WellFormed(left, total, chains[h := chains[h] + [c]])
  {
    var last := chains[h][|chains[h]| - 1];
    FreeIsUnchained(fat, total, chains, c);
    var left := Extended(fat, last, c)[c := FREE_CLUSTER];
    assert Low28(left[last]) == c && Low28(left[c]) == FREE_CLUSTER;
    var grown := chains[h := chains[h] + [c]];
    assert !IsChain(left, total, chains[h]);
    assert !IsChain(left, total, grown[h]);
  }

  /** Without a predecessor the same failure is harmless. */
  lemma FailedClaimIsHarmless(fat: Table, total: nat, chains: Chains, c: nat)
    requires WellFormed(fat, total, chains)
    requires 2 <= c < total && Low28(fat[c]) == FREE_CLUSTER
    ensures WellFormed(Claimed(fat, c)[c := FREE_CLUSTER], total, chains)
    ensures Accounted(Claimed(fat, c)[c := FREE_CLUSTER], total, chains) == Accounted(fat, total, chains)
  {
    var left := Claimed(fat, c)[c := FREE_CLUSTER];
    forall h | h in chains
      ensures IsChain(left, total, chains[h]) && chains[h][0] == h
    {
      FreeIsUnchained(fat, total, chains, c);
      ChainFrame(fat, left, total, chains[h]);
    }
    assert FreeSet(left, total) == FreeSet(fat, total);
  }

  // ---- releasing one whole chain

  lemma ClearKeepsWellFormed(fat: Table, total: nat, chains: Chains, h: nat)
    requires WellFormed(fat, total, chains) && h in chains
    ensures WellFormed(Cleared(fat, chains[h]), total, chains - {h})
  {
    var fat' := Cleared(fat, chains[h]);
    var chains' := chains - {h};
    forall k | k in chains'
      ensures IsChain(fat', total, chains'[k]) && chains'[k][0] == k
    {
      assert Disjoint(chains[h], chains[k]);
      ChainFrame(fat, fat', total, chains[k]);
    }
  }

  // ---------------------------------------------------------------- conservation

  /** One more chained cluster, whether as a chain of its own or behind the chain of `h`. */
  lemma GrownChained(total: nat, chains: Chains, h: nat, c: nat)
    requires 2 <= c < total
    ensures var chain := if h in chains then chains[h] + [c] else [c];
            ChainedSet(total, chains[h := chain]) == ChainedSet(total, chains) + {c}
  {
    var chain := if h in chains then chains[h] + [c] else [c];
    var chains' := chains[h := chain];
    assert c in chains'[h];
    forall x | 2 <= x < total
      ensures OnSomeChain(chains', x) <==> OnSomeChain(chains, x) || x == c
    {
      if OnSomeChain(chains, x) {
        var k :| k in chains && x in chains[k];
        assert k in chains' && x in chains'[k];
      }
    }
  }

  lemma ClaimMovesOne(fat: Table, total: nat, chains: Chains, c: nat)
    requires WellFormed(fat, total, chains)
    requires 2 <= c < total && Low28(fat[c]) == FREE_CLUSTER
    ensures FreeSet(Claimed(fat, c), total) == FreeSet(fat, total) - {c}
    ensures ChainedSet(total, chains[c := [c]]) == ChainedSet(total, chains) + {c}
    ensures Accounted(Claimed(fat, c), total, chains[c := [c]]) == Accounted(fat, total, chains)
  {
    FreeIsUnchained(fat, total, chains, c);
    assert c !in chains;
    GrownChained(total, chains, c, c);
    assert FreeSet(Claimed(fat, c), total) == FreeSet(fat, total) - {c};
    assert c in FreeSet(fat, total) && c !in ChainedSet(total, chains);
  }

  lemma ExtendMovesOne(fat: Table, total: nat, chains: Chains, h: nat, c: nat)
    requires WellFormed(fat, total, chains) && h in chains
    requires 2 <= c < total && Low28(fat[c]) == FREE_CLUSTER
    ensures var last := chains[h][|chains[h]| - 1];
            var chains' := chains[h := chains[h] + [c]];
            && FreeSet(Extended(fat, last, c), total) == FreeSet(fat, total) - {c}
            && ChainedSet(total, chains') == ChainedSet(total, chains) + {c}
            && Accounted(Extended(fat, last, c), total, chains') == Accounted(fat, total, chains)
  {
    FreeIsUnchained(fat, total, chains, c);
    GrownChained(total, chains, h, c);
    var last := chains[h][|chains[h]| - 1];
    assert FreeSet(Extended(fat, last, c), total) == FreeSet(fat, total) - {c};
    assert c in FreeSet(fat, total) && c !in ChainedSet(total, chains);
  }

  lemma ClearMovesChain(fat: Table, total: nat, chains: Chains, h: nat)
    requires WellFormed(fat, total, chains) && h in chains
    ensures FreeSet(Cleared(fat, chains[h]), total) == FreeSet(fat, total) + Elements(chains[h])
    ensures ChainedSet(total, chains - {h}) == ChainedSet(total, chains) - Elements(chains[h])
    ensures Accounted(Cleared(fat, chains[h]), total, chains - {h}) == Accounted(fat, total, chains)
  {
    var gone := Elements(chains[h]);
    GoneIsChained(fat, total, chains, h);
    ClearedFree(fat, total, chains[h]);
    RestStaysChained(total, chains, h);
    hide *;
    assert |FreeSet(fat, total) + gone| == |FreeSet(fat, total)| + |gone|;
  }

  lemma GoneIsChained(fat: Table, total: nat, chains: Chains, h: nat)
    requires WellFormed(fat, total, chains) && h in chains
    ensures InRange(total, chains[h])
    ensures Elements(chains[h]) <= ChainedSet(total, chains)
    ensures Elements(chains[h]) !! FreeSet(fat, total)
  {
    assert IsChain(fat, total, chains[h]);
    forall c | c in Elements(chains[h])
      ensures c in ChainedSet(total, chains) && c !in FreeSet(fat, total)
    {
      assert c in chains[h];
      var i :| 0 <= i < |chains[h]| && chains[h][i] == c;
      ChainedIsUsed(fat, total, chains, h, i);
    }
  }

  lemma ClearedFree(fat: Table, total: nat, chain: seq<nat>)
    requires total <= |fat| && InRange(total, chain)
    ensures FreeSet(Cleared(fat, chain), total) == FreeSet(fat, total) + Elements(chain)
  {
    forall c | 2 <= c < total
      ensures c in FreeSet(Cleared(fat, chain), total) <==> c in FreeSet(fat, total) + Elements(chain)
    {
      assert c in chain <==> c in Elements(chain);
    }
  }

  lemma RestStaysChained(total: nat, chains: Chains, h: nat)
    requires PairwiseDisjoint(chains) && h in chains
    ensures ChainedSet(total, chains - {h}) == ChainedSet(total, chains) - Elements(chains[h])
  {
    forall c | 2 <= c < total
      ensures OnSomeChain(chains - {h}, c) <==> OnSomeChain(chains, c) && c !in chains[h]
    {
      if OnSomeChain(chains - {h}, c) {
        var k :| k in chains - {h} && c in (chains - {h})[k];
        assert Disjoint(chains[h], chains[k]);
      }
      if OnSomeChain(chains, c) && c !in chains[h] {
        var k :| k in chains && c in chains[k];
        assert k in chains - {h} && c in (chains - {h})[k];
      }
    }
    assert forall c :: c in chains[h] <==> c in Elements(chains[h]);
  }

  // ---------------------------------------------------------------- whole runs

  datatype Step =
    | Claim(c: nat)
    | Extend(head: nat, c: nat)
    | Release(head: nat)

  datatype State = State(fat: Table, chains: Chains)

  ghost predicate Enabled(s: State, total: nat, step: Step)
    requires WellFormed(s.fat, total, s.chains)
  {
    match step
    case Claim(c) => 2 <= c < total && Low28(s.fat[c]) == FREE_CLUSTER
    case Extend(h, c) => h in s.chains && 2 <= c < total && Low28(s.fat[c]) == FREE_CLUSTER
    case Release(h) => h in s.chains
  }

  ghost function After(s: State, total: nat, step: Step): State
    requires WellFormed(s.fat, total, s.chains) && Enabled(s, total, step)
  {
    match step
    case Claim(c) => State(Claimed(s.fat, c), s.chains[c := [c]])
    case Extend(h, c) =>
      var chain := s.chains[h];
      State(Extended(s.fat, chain[|chain| - 1], c), s.chains[h := chain + [c]])
    case Release(h) => State(Cleared(s.fat, s.chains[h]), s.chains - {h})
  }

  lemma StepKeeps(s: State, total: nat, step: Step)
    requires WellFormed(s.fat, total, s.chains) && Enabled(s, total, step)
    ensures var s' := After(s, total, step);
            && WellFormed(s'.fat, total, s'.chains)
            && Accounted(s'.fat, total, s'.chains) == Accounted(s.fat, total, s.chains)
  {
    match step
    case Claim(c) =>
      ClaimKeepsWellFormed(s.fat, total, s.chains, c);
      ClaimMovesOne(s.fat, total, s.chains, c);
    case Extend(h, c) =>
      ExtendKeepsWellFormed(s.fat, total, s.chains, h, c);
      ExtendMovesOne(s.fat, total, s.chains, h, c);
    case Release(h) =>
      ClearKeepsWellFormed(s.fat, total, s.chains, h);
      ClearMovesChain(s.fat, total, s.chains, h);
  }

  /** `states` is a run of enabled steps from states[0]. */
  ghost predicate IsRun(states: seq<State>, total: nat, steps: seq<Step>)
  {
    && |states| == |steps| + 1
    && forall i :: 0 <= i < |steps| ==>
         && WellFormed(states[i].fat, total, states[i].chains)
         && Enabled(states[i], total, steps[i])
         && states[i + 1] == After(states[i], total, steps[i])
  }

  /** Over every run the chains stay well formed and acyclic, and no cluster is gained or lost. */
  lemma {:induction false} RunConserves(states: seq<State>, total: nat, steps: seq<Step>, n: nat)
    requires IsRun(states, total, steps) && n <= |steps|
    requires WellFormed(states[0].fat, total, states[0].chains)
    ensures WellFormed(states[n].fat, total, states[n].chains)
    ensures Accounted(states[n].fat, total, states[n].chains) == Accounted(states[0].fat, total, states[0].chains)
    ensures forall h :: h in states[n].chains ==> Distinct(states[n].chains[h])
  {
    if n > 0 {
      RunConserves(states, total, steps, n - 1);
      StepKeeps(states[n - 1], total, steps[n - 1]);
    }
    forall h | h in states[n].chains
      ensures Distinct(states[n].chains[h])
    {
      ChainIsAcyclic(states[n].fat, total, states[n].chains[h]);
    }
  }

  // ---------------------------------------------------------------- freeing any table

  /** The cluster `n` links after `c`, or the value at which the walk stopped. */
  ghost function Walk(fat: Table, c: nat, n: nat): nat
    decreases n
  {
    if n == 0 || IsEnd(c) || c >= |fat| then c else Walk(fat, Low28(fat[c]), n - 1)
  }

  /** Following links from `c` never leaves the table; it may run in circles. */
  ghost predicate Contained(fat: Table, c: nat)
  {
    forall n: nat :: IsEnd(Walk(fat, c, n)) || Walk(fat, c, n) < |fat|
  }

  lemma LoneClusterContained(fat: Table, c: nat)
    requires c < |fat| && Low28(fat[c]) == END_CLUSTER
    ensures Contained(fat, c)
  {
    forall n: nat
      ensures IsEnd(Walk(fat, c, n)) || Walk(fat, c, n) < |fat|
    {
      assert n > 1 ==> Walk(fat, END_CLUSTER, n - 1) == END_CLUSTER;
    }
  }

  ghost predicate Reaches(fat: Table, c: nat, x: nat)
  {
    !IsEnd(x) && exists n: nat :: Walk(fat, c, n) == x
  }

  ghost function UsedEntries(fat: Table): set<nat>
  {
    set c | 0 <= c < |fat| && fat[c] != FREE_CLUSTER
  }

  /** Zeroing each visited entry before following its old link. */
  ghost function Freed(fat: Table, c: nat): (r: Table)
    requires Contained(fat, c)
    ensures |r| == |fat|
    decreases |UsedEntries(fat)|, if IsEnd(c) then 0 else 1
  {
    if IsEnd(c) then fat else
      assert Walk(fat, c, 0) == c;
      ZeroingShrinks(fat, c);
      ZeroingContains(fat, c);
      Freed(fat[c := FREE_CLUSTER], Low28(fat[c]))
  }

  /** What makes the loop stop even on a cyclic table. */
  lemma ZeroingShrinks(fat: Table, c: nat)
    requires c < |fat|
    ensures UsedEntries(fat[c := FREE_CLUSTER]) == UsedEntries(fat) - {c}
    ensures fat[c] != FREE_CLUSTER ==> |UsedEntries(fat[c := FREE_CLUSTER])| < |UsedEntries(fat)|
    ensures fat[c] == FREE_CLUSTER ==> fat[c := FREE_CLUSTER] == fat && Low28(fat[c]) == 0
  {
    var fat' := fat[c := FREE_CLUSTER];
    assert UsedEntries(fat') == UsedEntries(fat) - {c};
    if fat[c] != FREE_CLUSTER {
      assert c in UsedEntries(fat);
    }
  }

  /** A walk over the zeroed table either stops or is the walk over the original. */
  lemma {:induction false} WalkZeroed(fat: Table, c: nat, y: nat, n: nat)
    requires c < |fat| && !IsEnd(c)
    ensures var w := Walk(fat[c := FREE_CLUSTER], y, n); IsEnd(w) || w == Walk(fat, y, n)
    decreases n
  {
    if n > 0 && !IsEnd(y) && y < |fat| {
      if y == c {
        assert Walk(fat[c := FREE_CLUSTER], y, n) == Walk(fat[c := FREE_CLUSTER], 0, n - 1);
      } else {
        WalkZeroed(fat, c, Low28(fat[y]), n - 1);
      }
    }
  }

  lemma ZeroingContains(fat: Table, c: nat)
    requires Contained(fat, c) && !IsEnd(c) && c < |fat|
    ensures Contained(fat[c := FREE_CLUSTER], Low28(fat[c]))
  {
    var fat', next := fat[c := FREE_CLUSTER], Low28(fat[c]);
    forall n: nat
      ensures IsEnd(Walk(fat', next, n)) || Walk(fat', next, n) < |fat'|
    {
      WalkZeroed(fat, c, next, n);
      assert Walk(fat, c, n + 1) == Walk(fat, next, n);
    }
  }

  /** A walk that survives in the original either survives zeroing, or came through `c` and is the
      end of a walk from `c` that is no longer. */
  lemma {:induction false} WalkThrough(fat: Table, c: nat, y: nat, n: nat) returns (k: nat)
    requires c < |fat| && !IsEnd(c) && !IsEnd(Walk(fat, y, n))
    ensures k <= n
    ensures Walk(fat[c := FREE_CLUSTER], y, n) == Walk(fat, y, n) || Walk(fat, c, k) == Walk(fat, y, n)
    decreases n
  {
    k := n;
    if y != c && n > 0 && !IsEnd(y) && y < |fat| {
      k := WalkThrough(fat, c, Low28(fat[y]), n - 1);
    }
  }

  lemma {:induction false} ReachedAfterZeroing(fat: Table, c: nat, n: nat)
    requires c < |fat| && !IsEnd(c) && !IsEnd(Walk(fat, c, n)) && Walk(fat, c, n) != c
    ensures Reaches(fat[c := FREE_CLUSTER], Low28(fat[c]), Walk(fat, c, n))
    decreases n
  {
    var next := Low28(fat[c]);
    assert Walk(fat, c, n) == Walk(fat, next, n - 1);
    var k := WalkThrough(fat, c, next, n - 1);
    if Walk(fat[c := FREE_CLUSTER], next, n - 1) != Walk(fat, c, n) {
      ReachedAfterZeroing(fat, c, k);
    }
  }

  lemma ReachSplits(fat: Table, c: nat, x: nat)
    requires c < |fat| && !IsEnd(c)
    ensures Reaches(fat, c, x) <==> x == c || Reaches(fat[c := FREE_CLUSTER], Low28(fat[c]), x)
  {
    var fat', next := fat[c := FREE_CLUSTER], Low28(fat[c]);
    if Reaches(fat, c, x) && x != c {
      var n: nat :| Walk(fat, c, n) == x;
      ReachedAfterZeroing(fat, c, n);
    }
    if x == c {
      assert Walk(fat, c, 0) == x;
    } else if Reaches(fat', next, x) {
      var n: nat :| Walk(fat', next, n) == x;
      WalkZeroed(fat, c, next, n);
      assert Walk(fat, c, n + 1) == x;
    }
  }

  /** Freeing releases exactly the clusters reachable from the start, on any contained table. */
  lemma {:induction false} FreedExactly(fat: Table, c: nat)
    requires Contained(fat, c)
    ensures forall x :: 0 <= x < |fat| ==>
              Freed(fat, c)[x] == if Reaches(fat, c, x) then FREE_CLUSTER else fat[x]
    decreases |UsedEntries(fat)|, if IsEnd(c) then 0 else 1
  {
    assert Walk(fat, c, 0) == c;
    if IsEnd(c) {
      forall n: nat
        ensures Walk(fat, c, n) == c
      {
      }
    } else {
      ZeroingShrinks(fat, c);
      ZeroingContains(fat, c);
      FreedExactly(fat[c := FREE_CLUSTER], Low28(fat[c]));
      forall x | 0 <= x < |fat|
        ensures Freed(fat, c)[x] == if Reaches(fat, c, x) then FREE_CLUSTER else fat[x]
      {
        ReachSplits(fat, c, x);
      }
    }
  }

  lemma {:induction false} WalkOnChain(fat: Table, total: nat, chain: seq<nat>, i: nat, n: nat)
    requires total <= |fat| && total <= END_CLUSTER && IsChain(fat, total, chain) && i < |chain|
    ensures Walk(fat, chain[i], n) == if i + n < |chain| then chain[i + n] else END_CLUSTER
    decreases n
  {
    if n > 0 {
      if i + 1 < |chain| {
        assert Low28(fat[chain[i + 1 - 1]]) == chain[i + 1];
        WalkOnChain(fat, total, chain, i + 1, n - 1);
      } else {
        assert Walk(fat, chain[i], n) == Walk(fat, END_CLUSTER, n - 1);
      }
    }
  }

  /** On a proper chain, freeing from its head clears that chain and nothing else. */
  lemma FreedChain(fat: Table, total: nat, chain: seq<nat>)
    requires total <= |fat| && total <= END_CLUSTER && IsChain(fat, total, chain)
    ensures Contained(fat, chain[0])
    ensures Freed(fat, chain[0]) == Cleared(fat, chain)
  {
    forall n: nat
      ensures Walk(fat, chain[0], n) == if n < |chain| then chain[n] else END_CLUSTER
    {
      WalkOnChain(fat, total, chain, 0, n);
    }
    FreedExactly(fat, chain[0]);
    forall x | 0 <= x < |fat|
      ensures Reaches(fat, chain[0], x) <==> x in chain
    {
      if x in chain {
        var n :| 0 <= n < |chain| && chain[n] == x;
        assert Walk(fat, chain[0], n) == x;
      }
    }
  }

  /** Everything the volume needs to know about releasing one of its chains. */
  lemma ReleaseSummary(fat: Table, total: nat, chains: Chains, h: nat)
    requires WellFormed(fat, total, chains) && h in chains
    ensures !IsEnd(h) && Contained(fat, h) && InRange(|fat|, chains[h])
    ensures Freed(fat, h) == Cleared(fat, chains[h])
    ensures WellFormed(Cleared(fat, chains[h]), total, chains - {h})
    ensures FreeSet(Cleared(fat, chains[h]), total) == FreeSet(fat, total) + Elements(chains[h])
    ensures Accounted(Cleared(fat, chains[h]), total, chains - {h}) == Accounted(fat, total, chains)
  {
    assert IsChain(fat, total, chains[h]) && chains[h][0] == h;
    FreedChain(fat, total, chains[h]);
    ClearKeepsWellFormed(fat, total, chains, h);
    ClearMovesChain(fat, total, chains, h);
  }

  lemma ExtendSummary(fat: Table, total: nat, chains: Chains, h: nat, c: nat)
    requires WellFormed(fat, total, chains) && h in chains
    requires 2 <= c < total && Low28(fat[c]) == FREE_CLUSTER
    ensures |chains[h]| > 0 && chains[h][|chains[h]| - 1] < total
    ensures var fat' := Extended(fat, chains[h][|chains[h]| - 1], c);
            var chains' := chains[h := chains[h] + [c]];
            && WellFormed(fat', total, chains')
            && FreeSet(fat', total) == FreeSet(fat, total) - {c}
            && Accounted(fat', total, chains') == Accounted(fat, total, chains)
  {
    assert IsChain(fat, total, chains[h]);
    ExtendKeepsWellFormed(fat, total, chains, h, c);
    ExtendMovesOne(fat, total, chains, h, c);
  }

  lemma ClaimSummary(fat: Table, total: nat, chains: Chains, c: nat)
    requires WellFormed(fat, total, chains)
    requires 2 <= c < total && Low28(fat[c]) == FREE_CLUSTER
    ensures WellFormed(Claimed(fat, c), total, chains[c := [c]])
    ensures FreeSet(Claimed(fat, c), total) == FreeSet(fat, total) - {c}
    ensures Accounted(Claimed(fat, c), total, chains[c := [c]]) == Accounted(fat, total, chains)
  {
    ClaimKeepsWellFormed(fat, total, chains, c);
    ClaimMovesOne(fat, total, chains, c);
  }
}
