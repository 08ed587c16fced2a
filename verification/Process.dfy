/** A process's event ring, which repairs itself before every use, and its list of wake-up hooks. */
module Process {
  import opened Machine

  const QUEUE := 128
  const HOOKS := 8
  const GUARD := 0xE17E_17E1

  datatype Event =
    | Blank
    | KeyEvent(key: int)
    | MouseEvent(packet: int)
    | FocusEvent(code: int, value: int)
    | PciEvent(device: int)

  // ---------------------------------------------------------------- the integrity pass

  /** The index fields of a ring, as they may be found in memory. */
  datatype Ring = Ring(head: int, tail: int, count: int)

  function Normalized(value: int): (i: int)
    ensures 0 <= i < QUEUE && (value - i) % QUEUE == 0
    ensures 0 <= value < QUEUE ==> i == value
  {
    if value < 0 then
      NegativeIndex(value);
      (QUEUE - -value % QUEUE) % QUEUE
    else value % QUEUE
  }

  lemma NegativeIndex(value: int)
    requires value < 0
    ensures (value - (QUEUE - -value % QUEUE) % QUEUE) % QUEUE == 0
  {
    var m := -value % QUEUE;
    assert -value == QUEUE * (-value / QUEUE) + m;
  }

  function Distance(head: int, tail: int): int
  {
    if head - tail < 0 then head - tail + QUEUE else head - tail
  }

  /** Indices in range, and a count that agrees with them: equal indices mean empty or full. */
  predicate WellFormed(r: Ring)
  {
    && 0 <= r.head < QUEUE && 0 <= r.tail < QUEUE
    && (r.count == Distance(r.head, r.tail) || (r.count == QUEUE && r.head == r.tail))
  }

  function Repaired(r: Ring): (s: Ring)
  {
    var head := if r.head < 0 || r.head >= QUEUE then Normalized(r.head) else r.head;
    var tail := if r.tail < 0 || r.tail >= QUEUE then Normalized(r.tail) else r.tail;
    var count := if r.count < 0 || r.count > QUEUE then 0 else r.count;
    var distance := Distance(head, tail);
    var count' := if count != distance && count != QUEUE then distance else count;
    Ring(head, tail, if count' == QUEUE && distance != 0 then distance else count')
  }

  /** Any values become a well-formed ring; a well-formed ring is left alone; once is enough. */
  lemma RepairIsIdempotent(r: Ring)
    ensures WellFormed(Repaired(r))
    ensures Repaired(r) == r <==> WellFormed(r)
    ensures Repaired(Repaired(r)) == Repaired(r)
  {
  }

  // ---------------------------------------------------------------- the ring as a queue

  /** The `count` events from `tail` on, around the end. */
  function Window(q: seq<Event>, tail: nat, count: nat): (w: seq<Event>)
    requires |q| == QUEUE
    ensures |w| == count
    ensures forall i :: 0 <= i < count ==> w[i] == q[(tail + i) % QUEUE]
  {
    seq(count, i requires 0 <= i < count => q[(tail + i) % QUEUE])
  }

  /** The most recent events that fit. */
  function Recent(s: seq<Event>): (r: seq<Event>)
    ensures |r| <= QUEUE
  {
    if |s| <= QUEUE then s else s[|s| - QUEUE..]
  }

  /** Pushing one event after another keeps the most recent of all of them. */
  function PushedAll(s: seq<Event>, es: seq<Event>): seq<Event>
  {
    if es == [] then s else Recent(PushedAll(s, es[..|es| - 1]) + [es[|es| - 1]])
  }

  lemma {:induction false} PushedAllIsRecent(s: seq<Event>, es: seq<Event>)
    requires |s| <= QUEUE
    ensures PushedAll(s, es) == Recent(s + es)
  {
    hide Recent;
    if es == [] {
      assert s + es == s;
      RecentAll(s);
    } else {
      var n := |es| - 1;
      PushedAllIsRecent(s, es[..n]);
      assert s + es == s + es[..n] + [es[n]];
      RecentAgain(s + es[..n], es[n]);
    }
  }

  lemma RecentAll(s: seq<Event>)
    requires |s| <= QUEUE
    ensures Recent(s) == s
  {
  }

  lemma RecentAgain(s: seq<Event>, e: Event)
    ensures Recent(Recent(s) + [e]) == Recent(s + [e])
  {
  }

  /** What the ring holds, corrupted or not: nothing if a guard word was hit, else what the repaired
      indices delimit. */
  function Held(guarded: bool, q: seq<Event>, r: Ring): (s: seq<Event>)
    ensures |s| <= QUEUE
  {
    if guarded && |q| == QUEUE then Window(q, Repaired(r).tail, Repaired(r).count) else []
  }

  lemma HeldIs(q: seq<Event>, r: Ring)
    requires |q| == QUEUE && WellFormed(r)
    ensures Held(true, q, r) == Window(q, r.tail, r.count)
  {
    RepairIsIdempotent(r);
  }

  /** The ring after an event is stored behind the last one, room having been made if it was full. */
  function Advanced(r: Ring): Ring
  {
    var full := r.count == QUEUE;
    Ring((r.head + 1) % QUEUE, if full then (r.tail + 1) % QUEUE else r.tail, if full then QUEUE else r.count + 1)
  }

  lemma PushHeld(q: seq<Event>, r: Ring, e: Event)
    requires |q| == QUEUE && WellFormed(r)
    ensures WellFormed(Advanced(r)) && Held(true, q[r.head := e], Advanced(r)) == Recent(Held(true, q, r) + [e])
  {
    hide Held, Recent, Window;
    AdvancedIsWellFormed(r);
    HeldIs(q, r);
    HeldIs(q[r.head := e], Advanced(r));
    if r.count == QUEUE {
      PushFull(q, r.tail, e);
    } else {
      PushPart(q, r.head, r.tail, r.count, e);
    }
  }

  lemma AdvancedIsWellFormed(r: Ring)
    requires WellFormed(r)
    ensures WellFormed(Advanced(r))
    ensures r.count == QUEUE ==> Advanced(r).tail == Advanced(r).head
    ensures r.count < QUEUE ==> r.head == (r.tail + r.count) % QUEUE
  {
  }

  lemma PushPart(q: seq<Event>, head: nat, tail: nat, count: nat, e: Event)
    requires |q| == QUEUE && tail < QUEUE && count < QUEUE && head == (tail + count) % QUEUE
    ensures Window(q[head := e], tail, count + 1) == Recent(Window(q, tail, count) + [e])
  {
    var now := Window(q[head := e], tail, count + 1);
    var was := Window(q, tail, count);
    assert now[count] == e;
    forall i | 0 <= i < count
      ensures now[i] == was[i]
    {
      assert (tail + i) % QUEUE != head;
    }
    assert now == was + [e];
  }

  lemma PushFull(q: seq<Event>, tail: nat, e: Event)
    requires |q| == QUEUE && tail < QUEUE
    ensures Window(q[tail := e], (tail + 1) % QUEUE, QUEUE) == Recent(Window(q, tail, QUEUE) + [e])
  {
    var now := Window(q[tail := e], (tail + 1) % QUEUE, QUEUE);
    var was := Window(q, tail, QUEUE);
    forall i | 0 <= i < QUEUE
      ensures now[i] == (was + [e])[i + 1]
    {
      NextIndex(tail, i);
    }
    assert now == (was + [e])[1..];
  }

  lemma NextIndex(tail: nat, i: nat)
    requires tail < QUEUE && i < QUEUE
    ensures ((tail + 1) % QUEUE + i) % QUEUE == (tail + (i + 1)) % QUEUE
    ensures (tail + (i + 1)) % QUEUE == tail <==> i == QUEUE - 1
  {
  }

  /** The ring after its first event is taken. */
  function Retired(r: Ring): Ring
  {
    Ring(r.head, (r.tail + 1) % QUEUE, r.count - 1)
  }

  lemma RetiredIsWellFormed(r: Ring)
    requires WellFormed(r) && r.count > 0
    ensures WellFormed(Retired(r))
  {
  }

  lemma PopHeld(q: seq<Event>, r: Ring)
    requires |q| == QUEUE && WellFormed(r) && r.count > 0
    ensures WellFormed(Retired(r)) && Held(true, q, r) == [q[r.tail]] + Held(true, q, Retired(r))
  {
    hide Held, Window;
    RetiredIsWellFormed(r);
    HeldIs(q, r);
    HeldIs(q, Retired(r));
    WindowFirst(q, r.tail, r.count);
  }

  lemma WindowFirst(q: seq<Event>, tail: nat, count: nat)
    requires |q| == QUEUE && tail < QUEUE && 0 < count <= QUEUE
    ensures Window(q, tail, count) == [q[tail]] + Window(q, (tail + 1) % QUEUE, count - 1)
  {
    var was, now := Window(q, tail, count), Window(q, (tail + 1) % QUEUE, count - 1);
    forall i | 0 <= i < |now|
      ensures now[i] == was[i + 1]
    {
      NextIndex(tail, i);
    }
  }

  // ---------------------------------------------------------------- hooks

  datatype HookType = TimeReached | Signal | Custom

  datatype Hook = Hook(kind: HookType, trigger: nat)

  /** Registering a hook, once, while there is room. */
  function Hooked(hs: seq<Hook>, h: Hook): seq<Hook>
  {
    if h in hs || |hs| >= HOOKS then hs else hs + [h]
  }

  /** Removing the first occurrence. */
  function Unhooked(hs: seq<Hook>, h: Hook): (r: seq<Hook>)
    ensures h !in hs ==> r == hs
    ensures h in hs ==> |r| == |hs| - 1
    ensures forall x :: x in r ==> x in hs
    ensures forall x :: x in hs && x != h ==> x in r
  {
    if hs == [] then [] else if hs[0] == h then hs[1..] else [hs[0]] + Unhooked(hs[1..], h)
  }

  /** Removing every occurrence. */
  function Without(hs: seq<Hook>, h: Hook): (r: seq<Hook>)
    ensures h !in r
    ensures forall x :: x in r <==> x in hs && x != h
    ensures |r| <= |hs|
  {
    if hs == [] then [] else if hs[0] == h then Without(hs[1..], h) else [hs[0]] + Without(hs[1..], h)
  }

  lemma {:induction false} UnhookedAt(hs: seq<Hook>, h: Hook, i: nat)
    requires i < |hs| && hs[i] == h && forall j :: 0 <= j < i ==> hs[j] != h
    ensures Unhooked(hs, h) == hs[..i] + hs[i + 1..]
  {
    if i > 0 {
      UnhookedAt(hs[1..], h, i - 1);
      assert Unhooked(hs, h) == [hs[0]] + Unhooked(hs[1..], h);
      hide Unhooked;
      assert hs[..i] == [hs[0]] + hs[1..][..i - 1];
      assert hs[i + 1..] == hs[1..][i..];
    }
  }

  lemma {:induction false} WithoutUnhooked(hs: seq<Hook>, h: Hook)
    ensures Without(Unhooked(hs, h), h) == Without(hs, h)
    ensures h !in hs ==> Without(hs, h) == hs
  {
    if hs != [] {
      WithoutUnhooked(hs[1..], h);
    }
  }

  // ---------------------------------------------------------------- the process control block

  class ProcessBlock {
    const pid: nat
    var alive: bool
    var tickets: int
    var guardFront: int
    var guardBack: int
    var head: int
    var tail: int
    var count: int
    const queue: array<Event>
    const hooks: array<Hook>
    var hookCount: nat

    ghost predicate Valid()
      reads this`hookCount
    {
      queue.Length == QUEUE && hooks.Length == HOOKS && hookCount <= HOOKS
    }

    function RingNow(): Ring
      reads this`head, this`tail, this`count
    {
      Ring(head, tail, count)
    }

    predicate Guarded()
      reads this`guardFront, this`guardBack
    {
      guardFront == GUARD && guardBack == GUARD
    }

    /** The pending events, oldest first. */
    ghost function Pending(): (s: seq<Event>)
      reads this`guardFront, this`guardBack, this`head, this`tail, this`count, queue
    {
      Held(Guarded(), queue[..], RingNow())
    }

    ghost function HookList(): (s: seq<Hook>)
      requires Valid()
      reads this`hookCount, hooks
    {
      hooks[..hookCount]
    }

    constructor (pid: nat)
      ensures Valid() && this.pid == pid && alive && tickets == 1 && Pending() == [] && HookList() == []
      ensures fresh(queue) && fresh(hooks)
    {
      this.pid, alive, tickets := pid, true, 1;
      guardFront, guardBack, head, tail, count := GUARD, GUARD, 0, 0, 0;
      queue := new Event[QUEUE](_ => Blank);
      hooks := new Hook[HOOKS](_ => Hook(TimeReached, 0));
      hookCount := 0;
    }

    method ResetQueue()
      requires Valid()
      modifies this`head, this`tail, this`count, this`guardFront, this`guardBack, queue
      ensures Guarded() && WellFormed(RingNow()) && Pending() == []
    {
      var i := 0;
      while i < QUEUE
        invariant i <= QUEUE
        modifies queue
      {
        queue[i] := Blank;
        i := i + 1;
      }
      head, tail, count, guardFront, guardBack := 0, 0, 0, GUARD, GUARD;
    }

    /** The integrity pass: afterwards the ring is sound and holds what it held before. */
    method EnsureIntegrity()
      requires Valid()
      modifies this`head, this`tail, this`count, this`guardFront, this`guardBack, queue
      ensures Guarded() && WellFormed(RingNow()) && Pending() == old(Pending())
      ensures old(Guarded()) ==> RingNow() == Repaired(old(RingNow())) && queue[..] == old(queue[..])
      ensures old(Guarded() && WellFormed(RingNow())) ==> RingNow() == old(RingNow())
    {
      if guardFront != GUARD || guardBack != GUARD {
        ResetQueue();
        return;
      }
      RepairIsIdempotent(RingNow());
      var rawHead, rawTail, rawCount, adjusted := head, tail, count, false;
      if rawHead < 0 || rawHead >= QUEUE {
        rawHead, adjusted := Normalized(rawHead), true;
      }
      if rawTail < 0 || rawTail >= QUEUE {
        rawTail, adjusted := Normalized(rawTail), true;
      }
      if rawCount < 0 || rawCount > QUEUE {
        rawCount, adjusted := 0, true;
      }
      var distance := rawHead - rawTail;
      if distance < 0 {
        distance := distance + QUEUE;
      }
      if rawCount != distance && rawCount != QUEUE {
        rawCount, adjusted := distance, true;
      }
      if rawCount == QUEUE && distance != 0 {
        rawCount, adjusted := distance, true;
      }
      hide Held, Normalized;
      assert Ring(rawHead, rawTail, rawCount) == Repaired(old(RingNow()));
      if adjusted {
        head, tail, count := rawHead, rawTail, rawCount;
      }
      HeldRepaired(queue[..], old(RingNow()));
      guardFront, guardBack := GUARD, GUARD;
    }

    /** Add an event behind the pending ones; when the ring is full the oldest is dropped. */
    method Push(e: Event)
      requires Valid()
      modifies this`head, this`tail, this`count, this`guardFront, this`guardBack, queue
      ensures Guarded() && WellFormed(RingNow())
      ensures Pending() == Recent(old(Pending()) + [e])
    {
      hide Held, Recent, Repaired;
      EnsureIntegrity();
      PushHeld(queue[..], RingNow(), e);
      ghost var q, r := queue[..], RingNow();
      if count == QUEUE {
        tail := (tail + 1) % QUEUE;
        if count > 0 {
          count := count - 1;
        }
      }
      queue[head] := e;
      assert queue[..] == q[r.head := e];
      head := (head + 1) % QUEUE;
      if count < QUEUE {
        count := count + 1;
      }
    }

    /** Take the oldest pending event. */
    method Pop() returns (r: Option<Event>)
      requires Valid()
      modifies this`head, this`tail, this`count, this`guardFront, this`guardBack, queue
      ensures Guarded() && WellFormed(RingNow())
      ensures r.None? <==> old(Pending()) == []
      ensures r.None? ==> Pending() == []
      ensures r.Some? ==> old(Pending()) == [r.value] + Pending()
    {
      hide Held, Repaired;
      EnsureIntegrity();
      HeldIs(queue[..], RingNow());
      if count == 0 {
        return None;
      }
      PopHeld(queue[..], RingNow());
      r := Some(queue[tail]);
      tail := (tail + 1) % QUEUE;
      if count > 0 {
        count := count - 1;
      }
    }

    // ---------------------------------------------------------------- hooks

    method HasMatchingHook(h: Hook) returns (found: bool)
      requires Valid()
      ensures found <==> h in HookList()
    {
      var i := 0;
      while i < hookCount
        invariant i <= hookCount && h !in hooks[..i]
      {
        if hooks[i] == h {
          return true;
        }
        i := i + 1;
      }
      found := false;
    }

    method RegisterHook(h: Hook) returns (ok: bool)
      requires Valid()
      modifies this`hookCount, hooks
      ensures Valid() && (ok <==> |old(HookList())| < HOOKS)
      ensures HookList() == if ok then old(HookList()) + [h] else old(HookList())
    {
      if hookCount >= HOOKS {
        return false;
      }
      hooks[hookCount] := h;
      hookCount := hookCount + 1;
      ok := true;
    }

    /** Remove the first matching hook and close the gap. */
    method RemoveHook(h: Hook) returns (ok: bool)
      requires Valid()
      modifies this`hookCount, hooks
      ensures Valid() && (ok <==> h in old(HookList()))
      ensures HookList() == Unhooked(old(HookList()), h)
    {
      ghost var was := HookList();
      var i := 0;
      while i < hookCount
        invariant i <= hookCount == |was| && Valid() && HookList() == was && h !in was[..i]
      {
        if hooks[i] == h {
          UnhookedAt(was, h, i);
          ShiftDown(i);
          hookCount := hookCount - 1;
          return true;
        }
        i := i + 1;
      }
      ok := false;
    }

    method ShiftDown(i: nat)
      requires Valid() && i < hookCount
      modifies hooks
      ensures hooks[..hookCount - 1] == old(hooks[..i] + hooks[i + 1..hookCount])
    {
      var j := i;
      while j < hookCount - 1
        invariant i <= j <= hookCount - 1
        invariant hooks[..j] == old(hooks[..i] + hooks[i + 1..j + 1])
        invariant forall k :: j <= k < hookCount ==> hooks[k] == old(hooks[k])
      {
        hooks[j] := hooks[j + 1];
        j := j + 1;
      }
    }
  }

  lemma HeldRepaired(q: seq<Event>, r: Ring)
    requires |q| == QUEUE
    ensures Held(true, q, Repaired(r)) == Held(true, q, r)
  {
    RepairIsIdempotent(r);
    hide Repaired;
  }
}
