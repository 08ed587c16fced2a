/** The scheduler: the process table, the wake-up protocol between event sources and waiting
    processes, the foreground stack, and selection by lottery. */
module Scheduler {
  import opened Machine
  import opened Process
  import opened Lottery

  const MAX_PROCESSES := 32
  const QUANTUM_TICKS := 10

  /** Tickets per process such that the total of a full table fits the driver's signed 32-bit counter. */
  const MAX_SHARE := 0x7FFF_FFFF / MAX_PROCESSES

  /** A process as the scheduler and the event sources see it. */
  datatype View = View(alive: bool, tickets: int, pending: seq<Event>, hooks: seq<Hook>)

  type Views = map<ProcessBlock, View>

  function OwnSignal(p: ProcessBlock): Hook { Hook(Signal, p.pid) }

  /** No wake-up has been lost: whoever has events pending is not waiting for its own signal. */
  ghost predicate Awake(p: ProcessBlock, v: View)
  {
    v.pending != [] ==> OwnSignal(p) !in v.hooks
  }

  ghost predicate AllAwake(m: Views)
  {
    forall p :: p in m ==> Awake(p, m[p])
  }

  // ---------------------------------------------------------------- steps on the views

  function WithEvent(v: View, e: Event): View { v.(pending := Recent(v.pending + [e])) }

  function WithHook(v: View, h: Hook): View { v.(hooks := Hooked(v.hooks, h)) }

  /** Waking everyone who waits for `h`. */
  ghost function Resumed(m: Views, h: Hook): Views
  {
    map p | p in m :: m[p].(hooks := Without(m[p].hooks, h))
  }

  ghost function Delivered(m: Views, p: ProcessBlock, e: Event): Views
    requires p in m
  {
    Resumed(m[p := WithEvent(m[p], e)], OwnSignal(p))
  }

  lemma DeliveredAwake(m: Views, p: ProcessBlock, e: Event)
    requires AllAwake(m) && p in m
    ensures AllAwake(Delivered(m, p, e)) && Delivered(m, p, e).Keys == m.Keys
    ensures OwnSignal(p) !in Delivered(m, p, e)[p].hooks && Delivered(m, p, e)[p].pending != []
  {
  }

  lemma ResumedAwake(m: Views, h: Hook)
    requires AllAwake(m)
    ensures AllAwake(Resumed(m, h)) && Resumed(m, h).Keys == m.Keys
  {
  }

  /** Yielding for a hook of one's own choosing loses a wake-up exactly when it is one's own signal,
      events are pending, and there is room for the hook. */
  lemma YieldKeepsAwake(p: ProcessBlock, v: View, h: Hook)
    requires Awake(p, v)
    ensures Awake(p, WithHook(v, h)) <==> v.pending == [] || h != OwnSignal(p) || |v.hooks| >= HOOKS
  {
  }

  /** An event pushed without resuming its process is missed exactly by a process that waits. */
  lemma PushAloneKeepsAwake(p: ProcessBlock, v: View, e: Event)
    requires Awake(p, v)
    ensures Awake(p, WithEvent(v, e)) <==> OwnSignal(p) !in v.hooks
  {
  }

  /** For instance, a process with one event that asks for its own signal; and one that waits for it when
      an event comes without a resume. */
  lemma WakeUpsAreLost(p: ProcessBlock)
    ensures var v := View(true, 1, [Blank], []); Awake(p, v) && !Awake(p, WithHook(v, OwnSignal(p)))
    ensures var v := View(true, 1, [], [OwnSignal(p)]); Awake(p, v) && !Awake(p, WithEvent(v, Blank))
  {
    YieldKeepsAwake(p, View(true, 1, [Blank], []), OwnSignal(p));
    PushAloneKeepsAwake(p, View(true, 1, [], [OwnSignal(p)]), Blank);
  }

  const FOCUS_GAINED := 1
  const FOCUS_LOST := 2

  /** Focus events reach living processes only. */
  ghost function Focused(m: Views, p: ProcessBlock?, e: Event): Views
    requires p != null ==> p in m
  {
    if p == null || !m[p].alive then m else Delivered(m, p, e)
  }

  /** A process brought back to the foreground waits for nothing any more. */
  ghost function Cleared(m: Views, p: ProcessBlock?): Views
    requires p != null ==> p in m
  {
    if p != null && m[p].alive then m[p := m[p].(hooks := [])] else m
  }

  /** The old foreground process hears that it lost the focus, the new one that it gained it. */
  ghost function Switched(m: Views, prev: ProcessBlock?, next: ProcessBlock?): Views
    requires (prev != null ==> prev in m) && (next != null ==> next in m)
  {
    if prev == next then m else
      Focused(Focused(m, prev, FocusEvent(FOCUS_LOST, if next != null then next.pid else -1)),
              next, FocusEvent(FOCUS_GAINED, if next != null then next.pid else 0))
  }

  /** The oldest event of `p` is taken, if there is one. */
  ghost function Taken(m: Views, p: ProcessBlock): Views
    requires p in m
  {
    m[p := m[p].(pending := if m[p].pending == [] then [] else m[p].pending[1..])]
  }

  /** An event is taken, or the process registers for its own signal. */
  ghost function Waited(m: Views, p: ProcessBlock): Views
    requires p in m
  {
    if m[p].pending != [] then Taken(m, p) else m[p := WithHook(m[p], OwnSignal(p))]
  }

  /** The foreground goes from `fg` to `next`, which waits for nothing any more. */
  ghost function Restored(m: Views, fg: ProcessBlock?, next: ProcessBlock?): Views
    requires (fg != null ==> fg in m) && (next != null ==> next in m)
  {
    Switched(Cleared(m, next), fg, next)
  }

  /** `p` dies; if it had the foreground, `next` gets it. */
  ghost function Ended(m: Views, p: ProcessBlock, fg: ProcessBlock?, next: ProcessBlock?): Views
    requires p in m && (next != null ==> next in m)
  {
    var dead := m[p := m[p].(alive := false)];
    if p == fg then Restored(dead, fg, next) else dead
  }

  /** What a step does to the processes, when `p` runs, `fg` has the foreground, `under` is remembered
      below it, and `shell` is the process that input falls back to. */
  ghost function Next(m: Views, step: Step, p: ProcessBlock?, fg: ProcessBlock?, under: ProcessBlock?,
                      shell: ProcessBlock?): Views
    requires (p != null ==> p in m) && (fg != null ==> fg in m) && (under != null ==> under in m)
    requires (shell != null ==> shell in m) && (step.DoFocus? && step.p != null ==> step.p in m)
  {
    match step
    case DoPoll => if p == null then m else Taken(m, p)
    case DoWait => if p == null then m else Waited(m, p)
    case DoYield => m
    case DoYieldFor(h) => if p == null then m else m[p := WithHook(m[p], h)]
    case DoDevice(e) =>
      var target := if fg != null then fg else if shell != null then shell else p;
      if target == null then m else Delivered(m, target, e)
    case DoTick(n) => Resumed(m, Hook(TimeReached, n))
    case DoFocus(q) => Switched(m, fg, q)
    case DoRestore(owner) => if owner != null && owner != fg then m else Restored(m, fg, under)
    case DoExit => if p == null then m else Ended(m, p, fg, under)
  }

  /** The processes at one moment: how they stand, who runs, who has the foreground and who is remembered
      below it. */
  datatype Moment = Moment(views: Views, current: ProcessBlock?, fg: ProcessBlock?, under: ProcessBlock?)

  /** All processes that a step may touch have views. */
  ghost predicate Known(step: Step, shell: ProcessBlock?, m: Views, p: ProcessBlock?, fg: ProcessBlock?,
                        under: ProcessBlock?)
  {
    && (p != null ==> p in m) && (fg != null ==> fg in m) && (under != null ==> under in m)
    && (shell != null ==> shell in m) && (step.DoFocus? && step.p != null ==> step.p in m)
  }

  /** A step takes the processes from one moment to the next. */
  ghost predicate Follows(was: Moment, step: Step, shell: ProcessBlock?, now: Moment)
  {
    && Known(step, shell, was.views, was.current, was.fg, was.under)
    && now.views == Next(was.views, step, was.current, was.fg, was.under, shell)
  }

  /** A run of steps in which nobody is ever forgotten. */
  ghost predicate IsRun(steps: seq<Step>, shell: ProcessBlock?, moments: seq<Moment>)
  {
    && 1 <= |moments| <= |steps| + 1
    && (forall i :: 0 <= i < |moments| - 1 ==> Follows(moments[i], steps[i], shell, moments[i + 1]))
    && (forall i :: 0 <= i < |moments| ==> AllAwake(moments[i].views))
  }

  // ---------------------------------------------------------------- the scheduler

  datatype Choice = Runnable | Triggered(h: Hook) | AnyAlive

  datatype Step =
    | DoPoll | DoWait | DoYield | DoYieldFor(h: Hook) | DoDevice(e: Event) | DoTick(n: nat)
    | DoFocus(p: ProcessBlock?) | DoRestore(owner: ProcessBlock?) | DoExit

  /** No two processes share a buffer. */
  ghost predicate Separate(all: set<ProcessBlock>)
  {
    forall p, q :: p in all && q in all && p != q ==> p.queue != q.queue && p.hooks != q.hooks
  }

  class Kernel {
    const table: array<ProcessBlock?>
    const stack: array<ProcessBlock?>
    var processCount: int
    var current: int
    var random: bv32
    var quantum: int
    var foreground: ProcessBlock?
    var top: int
    ghost var all: set<ProcessBlock>

    constructor ()
      ensures Valid() && all == {} && CurrentProcess() == null && foreground == null && fresh(table) && fresh(stack)
    {
      table := new ProcessBlock?[MAX_PROCESSES](_ => null);
      stack := new ProcessBlock?[MAX_PROCESSES](_ => null);
      processCount, current, random, quantum, foreground, top, all := 0, -1, SEED, 0, null, -1, {};
    }

    ghost predicate Shaped()
      reads this, table, stack
    {
      && table.Length == MAX_PROCESSES == stack.Length && table != stack
      && -1 <= current < MAX_PROCESSES && -1 <= top < MAX_PROCESSES && random != 0
      && (forall i :: 0 <= i < MAX_PROCESSES && table[i] != null ==> table[i] in all)
      && (forall i :: 0 <= i <= top ==> stack[i] != null && stack[i] in all)
      && (foreground != null ==> foreground in all)
      && Separate(all)
    }

    ghost predicate AllValid()
      reads this`all, all`hookCount
    {
      forall p :: p in all ==> p.Valid()
    }

    ghost function Views(): Views
      requires AllValid()
      reads this`all, all, set p | p in all :: p.queue, set p | p in all :: p.hooks
    {
      map p | p in all :: View(p.alive, p.tickets, p.Pending(), p.HookList())
    }

    ghost predicate InTable(p: ProcessBlock)
      reads table
    {
      exists i :: 0 <= i < table.Length && table[i] == p
    }

    /** Everybody is awake or waiting in the table, where resuming finds them. */
    ghost predicate Valid()
      reads this, table, stack, all, set p | p in all :: p.queue, set p | p in all :: p.hooks
    {
      && Shaped() && AllValid()
      && AllAwake(Views()) && Listed(Views())
    }

    /** Whoever waits is in the table, where resuming finds it, and everybody there has a fair share of
        tickets. */
    ghost predicate Listed(m: Views)
      reads table
    {
      forall p :: p in m ==> (m[p].hooks != [] ==> InTable(p)) && (InTable(p) ==> 1 <= m[p].tickets <= MAX_SHARE)
    }

    /** Take a hook off a process, however often it is registered. */
    method RemoveAll(p: ProcessBlock, h: Hook)
      requires p.Valid()
      modifies p`hookCount, p.hooks
      ensures p.Valid() && p.HookList() == Without(old(p.HookList()), h)
    {
      hide Without, Unhooked;
      WithoutUnhooked(p.HookList(), h);
      var ok := p.RemoveHook(h);
      while ok
        invariant p.Valid() && Without(p.HookList(), h) == Without(old(p.HookList()), h)
        invariant !ok ==> h !in p.HookList()
        decreases p.hookCount, if ok then 1 else 0
      {
        WithoutUnhooked(p.HookList(), h);
        ghost var was := p.HookList();
        ok := p.RemoveHook(h);
        RemovedOne(was, h);
      }
      WithoutUnhooked(p.HookList(), h);
    }

    lemma RemovedOne(hs: seq<Hook>, h: Hook)
      ensures |Unhooked(hs, h)| == if h in hs then |hs| - 1 else |hs|
    {
    }

    ghost predicate ListedBefore(p: ProcessBlock, n: int)
      reads table
    {
      exists i :: 0 <= i < n && i < table.Length && table[i] == p
    }

    /** What resuming has done once the first `n` slots of the table are visited. */
    ghost predicate ResumedBefore(was: Views, h: Hook, n: int)
      requires AllValid()
      reads this, table, all, set p | p in all :: p.hooks
    {
      forall p :: p in all && p in was ==> p.HookList() == if ListedBefore(p, n) then Without(was[p].hooks, h)
        else was[p].hooks
    }

    /** Wake every process that waits for `h`. */
    method Resume(h: Hook)
      requires Shaped() && AllValid() && forall p :: p in all ==> (p.HookList() != [] ==> InTable(p))
      modifies all`hookCount, set p | p in all :: p.hooks
      ensures AllValid() && Views() == Resumed(old(Views()), h)
    {
      hide Without, Shaped, ProcessBlock.Valid, Kernel.Views, ProcessBlock.HookList, ProcessBlock.Pending, Resumed;
      ghost var was := Views();
      ViewsMean();
      ResumeLoop(h);
      ViewsAre(was, h);
    }

    /** `Views` entry by entry. */
    lemma ViewsMean()
      requires AllValid()
      ensures Views().Keys == all
      ensures forall p :: p in all ==> Views()[p] == View(p.alive, p.tickets, p.Pending(), p.HookList())
    {
      hide ProcessBlock.Valid, ProcessBlock.HookList, ProcessBlock.Pending;
    }

    lemma ViewsAre(was: Views, h: Hook)
      requires AllValid() && was.Keys == all
      requires forall p :: p in all ==>
                 View(p.alive, p.tickets, p.Pending(), p.HookList()) == was[p].(hooks := Without(was[p].hooks, h))
      ensures Views() == Resumed(was, h)
    {
      hide ProcessBlock.Valid, ProcessBlock.HookList, ProcessBlock.Pending, Without;
    }

    method ResumeLoop(h: Hook)
      requires Shaped() && AllValid() && forall p :: p in all ==> (p.HookList() != [] ==> InTable(p))
      modifies all`hookCount, set p | p in all :: p.hooks
      ensures AllValid() && forall p :: p in all ==> p.HookList() == Without(old(p.HookList()), h)
    {
      hide Without, Unhooked, Held, Shaped, ProcessBlock.Valid, ResumedBefore, Kernel.Views, ProcessBlock.Pending;
      TableShape();
      ghost var was := Views();
      ViewsMean();
      ResumeStarts(h);
      var i := 0;
      while i < MAX_PROCESSES
        invariant 0 <= i <= MAX_PROCESSES && AllValid() && ResumedBefore(was, h, i)
      {
        ResumeAt(i, h, was);
        i := i + 1;
      }
      ResumeEnds(was, h);
    }

    lemma TableShape()
      requires Shaped()
      ensures table.Length == MAX_PROCESSES
    {
    }

    lemma ResumeStarts(h: Hook)
      requires AllValid()
      ensures ResumedBefore(Views(), h, 0)
    {
    }

    lemma ResumeEnds(was: Views, h: Hook)
      requires Shaped() && AllValid() && ResumedBefore(was, h, MAX_PROCESSES) && was.Keys == all
      requires forall p :: p in all ==> (was[p].hooks != [] ==> InTable(p))
      ensures forall p :: p in all ==> p.HookList() == Without(was[p].hooks, h)
    {
      hide Without;
      forall p | p in all
        ensures p.HookList() == Without(was[p].hooks, h)
      {
        assert ListedBefore(p, MAX_PROCESSES) <==> InTable(p);
        NothingWithout(h);
      }
    }

    /** One slot of the table. */
    method ResumeAt(i: nat, h: Hook, ghost was: Views)
      requires Shaped() && AllValid() && i < MAX_PROCESSES && ResumedBefore(was, h, i) && was.Keys == all
      modifies all`hookCount, set p | p in all :: p.hooks
      ensures AllValid() && ResumedBefore(was, h, i + 1)
    {
      hide Without, Unhooked;
      var p := table[i];
      ListedNext(i);
      if p != null {
        ghost var before := p.HookList();
        WithoutUnhooked(before, h);
        WithoutTwice(was[p].hooks, h);
        var found := p.HasMatchingHook(h);
        if found {
          RemoveAll(p, h);
        }
      }
    }

    lemma ListedNext(i: nat)
      requires i < table.Length
      ensures forall p :: ListedBefore(p, i + 1) <==> ListedBefore(p, i) || table[i] == p
    {
    }

    lemma WithoutTwice(hs: seq<Hook>, h: Hook)
      ensures Without(Without(hs, h), h) == Without(hs, h)
    {
      WithoutUnhooked(Without(hs, h), h);
    }

    lemma NothingWithout(h: Hook)
      ensures Without([], h) == []
    {
    }

    /** The invariant, on the views. */
    lemma ValidParts()
      requires Valid()
      ensures Shaped() && AllValid() && AllAwake(Views()) && Listed(Views()) && Views().Keys == all
      ensures forall p :: p in all ==> Views()[p] == View(p.alive, p.tickets, p.Pending(), p.HookList())
      ensures forall p :: p in all ==> (p.HookList() != [] ==> InTable(p))
    {
      ViewsMean();
      hide Shaped, AllAwake, Kernel.Views, ProcessBlock.Pending, ProcessBlock.HookList, ProcessBlock.Valid;
    }

    lemma ValidAgain(m: Views)
      requires Shaped() && AllValid() && Views() == m && AllAwake(m) && Listed(m)
      ensures Valid()
    {
      ViewsMean();
      hide Shaped, AllAwake, Kernel.Views, ProcessBlock.Pending, ProcessBlock.HookList, ProcessBlock.Valid;
    }

    /** Queue an event for a process and wake it. */
    method Deliver(p: ProcessBlock, e: Event)
      requires Valid() && p in all
      modifies all, set p | p in all :: p.hooks, set p | p in all :: p.queue
      ensures Valid() && Views() == Delivered(old(Views()), p, e)
    {
      hide Without, ProcessBlock.HookList, ProcessBlock.Pending, ProcessBlock.Valid, Kernel.Views, AllAwake,
        Recent, Shaped, Valid;
      ValidParts();
      ghost var was := Views();
      DeliveredAwake(was, p, e);
      PushTo(p, e);
      ViewsMean();
      Resume(OwnSignal(p));
      DeliveredListed(was, p, e);
      ValidAgain(Delivered(was, p, e));
    }

    lemma DeliveredListed(m: Views, p: ProcessBlock, e: Event)
      requires Listed(m) && p in m
      ensures Listed(Delivered(m, p, e))
    {
      hide Without, Recent;
    }

    // ---------------------------------------------------------------- polling and waiting

    /** Take the oldest event of a process, if there is one. */
    method Poll(p: ProcessBlock) returns (r: Option<Event>)
      requires Valid() && p in all
      modifies all, set q | q in all :: q.queue
      ensures Valid() && Views() == Taken(old(Views()), p)
      ensures r.None? ==> old(p.Pending()) == [] == p.Pending()
      ensures r.Some? ==> old(p.Pending()) == [r.value] + p.Pending()
    {
      hide ProcessBlock.HookList, ProcessBlock.Pending, ProcessBlock.Valid, Kernel.Views, AllAwake, Shaped,
        Valid, Held, Listed;
      ValidParts();
      ghost var was := Views();
      r := PopFrom(p);
      PoppedAwake(was, p, p.Pending());
      ViewsMean();
      ValidAgain(Views());
    }

    method PopFrom(p: ProcessBlock) returns (r: Option<Event>)
      requires Shaped() && AllValid() && p in all
      modifies all, set q | q in all :: q.queue
      ensures AllValid()
      ensures r.None? <==> old(p.Pending()) == []
      ensures r.None? ==> p.Pending() == [] && Views() == old(Views())
      ensures r.Some? ==> old(p.Pending()) == [r.value] + p.Pending()
      ensures Views() == old(Views())[p := old(Views())[p].(pending := p.Pending())]
      ensures forall q :: q in all ==> q.HookList() == old(q.HookList())
    {
      hide Held, ProcessBlock.HookList, Kernel.Views, ProcessBlock.Pending;
      ghost var was := Views();
      ViewsMean();
      r := p.Pop();
      ViewsAreWith(was, p, was[p].(pending := p.Pending()));
    }

    lemma PoppedAwake(m: Views, p: ProcessBlock, rest: seq<Event>)
      requires AllAwake(m) && Listed(m) && p in m && (m[p].pending == [] ==> rest == [])
      ensures AllAwake(m[p := m[p].(pending := rest)]) && Listed(m[p := m[p].(pending := rest)])
    {
    }

    /** Take an event, or register for the own signal: the queue is empty exactly then, so nothing can
        be missed. */
    method WaitForEvent(p: ProcessBlock) returns (r: Option<Event>)
      requires Valid() && p in all && InTable(p)
      modifies all, set q | q in all :: q.queue, set q | q in all :: q.hooks
      ensures Valid() && Views() == Waited(old(Views()), p)
      ensures r.Some? ==> old(p.Pending()) == [r.value] + p.Pending()
      ensures r.None? ==> old(p.Pending()) == []
    {
      hide ProcessBlock.HookList, ProcessBlock.Pending, ProcessBlock.Valid, Kernel.Views, AllAwake, Shaped,
        Valid, Held, Listed, Hooked;
      ValidParts();
      ghost var was := Views();
      r := Poll(p);
      if r.None? {
        assert Taken(was, p) == was;
        YieldForEvent(p, OwnSignal(p));
      }
    }

    /** Register a hook once. This loses a wake-up exactly when a process with events pending asks for
        its own signal and there is room for the hook. */
    method YieldForEvent(p: ProcessBlock, h: Hook)
      requires Valid() && p in all && InTable(p)
      modifies all`hookCount, set q | q in all :: q.hooks
      ensures Shaped() && AllValid() && Views() == old(Views())[p := WithHook(old(Views())[p], h)]
      ensures Valid() <==> old(p.Pending()) == [] || h != OwnSignal(p) || |old(p.HookList())| >= HOOKS
    {
      hide ProcessBlock.HookList, ProcessBlock.Pending, ProcessBlock.Valid, Kernel.Views, AllAwake, Shaped,
        Valid, Held, Listed, Hooked;
      ValidParts();
      ghost var was := Views();
      HookProcess(p, h);
      ViewsMean();
      HookedListed(was, p, h);
      HookedAwake(was, p, h);
      if old(p.Pending()) == [] || h != OwnSignal(p) || |old(p.HookList())| >= HOOKS {
        ValidAgain(Views());
      } else {
        NotValid();
      }
    }

    lemma NotValid()
      requires AllValid() && !AllAwake(Views())
      ensures !Valid()
    {
      hide AllAwake, Kernel.Views, Shaped, Listed;
    }

    lemma HookedListed(m: Views, p: ProcessBlock, h: Hook)
      requires Listed(m) && p in m && InTable(p)
      ensures Listed(m[p := WithHook(m[p], h)])
    {
    }

    lemma HookedAwake(m: Views, p: ProcessBlock, h: Hook)
      requires AllAwake(m) && p in m
      ensures AllAwake(m[p := WithHook(m[p], h)]) <==> m[p].pending == [] || h != OwnSignal(p) || |m[p].hooks| >= HOOKS
    {
      var now := m[p := WithHook(m[p], h)];
      YieldKeepsAwake(p, m[p], h);
      assert Awake(p, now[p]) <==> Awake(p, WithHook(m[p], h));
    }

    method HookProcess(p: ProcessBlock, h: Hook)
      requires Shaped() && AllValid() && p in all
      modifies all`hookCount, set q | q in all :: q.hooks
      ensures AllValid() && Views() == old(Views())[p := WithHook(old(Views())[p], h)]
    {
      hide ProcessBlock.Pending, Kernel.Views;
      ghost var was := Views();
      ViewsMean();
      var found := p.HasMatchingHook(h);
      if !found {
        var ok := p.RegisterHook(h);
      }
      ViewsAreWith(was, p, WithHook(was[p], h));
    }

    /** An event pushed without resuming anybody, as the PCI layer does. */
    method PushAlone(p: ProcessBlock, e: Event)
      requires Valid() && p in all
      modifies all, set q | q in all :: q.queue
      ensures Shaped() && AllValid() && Views() == old(Views())[p := WithEvent(old(Views())[p], e)]
      ensures Valid() <==> OwnSignal(p) !in old(p.HookList())
    {
      hide ProcessBlock.HookList, ProcessBlock.Pending, ProcessBlock.Valid, Kernel.Views, AllAwake, Shaped,
        Valid, Held, Listed, Recent;
      ValidParts();
      ghost var was := Views();
      PushTo(p, e);
      ViewsMean();
      PushedAwake(was, p, e);
      if OwnSignal(p) !in old(p.HookList()) {
        ValidAgain(Views());
      } else {
        NotValid();
      }
    }

    lemma PushedAwake(m: Views, p: ProcessBlock, e: Event)
      requires AllAwake(m) && Listed(m) && p in m
      ensures AllAwake(m[p := WithEvent(m[p], e)]) <==> OwnSignal(p) !in m[p].hooks
      ensures Listed(m[p := WithEvent(m[p], e)])
    {
      var now := m[p := WithEvent(m[p], e)];
      PushAloneKeepsAwake(p, m[p], e);
      assert Awake(p, now[p]) <==> Awake(p, WithEvent(m[p], e));
    }

    // ---------------------------------------------------------------- the foreground

    method DispatchFocus(p: ProcessBlock?, e: Event)
      requires Valid() && (p != null ==> p in all)
      modifies all, set q | q in all :: q.hooks, set q | q in all :: q.queue
      ensures Valid() && Views() == Focused(old(Views()), p, e)
    {
      hide ProcessBlock.HookList, ProcessBlock.Pending, ProcessBlock.Valid, Kernel.Views, AllAwake, Shaped,
        Valid, Delivered;
      ValidParts();
      if p == null || !p.alive {
        return;
      }
      Deliver(p, e);
    }

    lemma ForegroundKnown()
      requires Valid()
      ensures (foreground != null ==> foreground in all) && Views().Keys == all
    {
      hide AllAwake;
    }

    method SwitchForeground(prev: ProcessBlock?, next: ProcessBlock?)
      requires Valid() && prev == foreground && (next != null ==> next in all)
      modifies this`foreground, all, set q | q in all :: q.hooks, set q | q in all :: q.queue
      ensures Valid() && foreground == next && Views() == Switched(old(Views()), prev, next)
    {
      hide ProcessBlock.HookList, ProcessBlock.Pending, ProcessBlock.Valid, Kernel.Views, AllAwake, Delivered,
        Valid, Shaped, Listed;
      ForegroundKnown();
      if prev == next {
        return;
      }
      SetForegroundField(next);
      if prev != null {
        DispatchFocus(prev, FocusEvent(FOCUS_LOST, if next != null then next.pid else -1));
      }
      if next != null {
        DispatchFocus(next, FocusEvent(FOCUS_GAINED, next.pid));
      }
    }

    method SetForegroundField(p: ProcessBlock?)
      requires Valid() && (p != null ==> p in all)
      modifies this`foreground
      ensures Valid() && foreground == p && Views() == old(Views())
    {
      hide ProcessBlock.HookList, ProcessBlock.Pending, ProcessBlock.Valid, Kernel.Views, AllAwake, Listed;
      foreground := p;
    }

    /** Bring a process to the foreground, remembering the one before it. */
    method SetForeground(p: ProcessBlock?)
      requires Valid() && (p != null ==> p in all)
      modifies this`foreground, this`top, stack, all, set q | q in all :: q.hooks, set q | q in all :: q.queue
      ensures Valid() && foreground == p && Views() == Switched(old(Views()), old(foreground), p)
      ensures old(foreground) != p && old(foreground) != null && old(top) + 1 < MAX_PROCESSES ==>
                top == old(top) + 1 && stack[top] == old(foreground)
      ensures old(foreground) == p || old(foreground) == null || old(top) + 1 >= MAX_PROCESSES ==>
                top == old(top) && stack[..] == old(stack[..])
    {
      hide ProcessBlock.HookList, ProcessBlock.Pending, ProcessBlock.Valid, Kernel.Views, AllAwake, Focused,
        Valid, Listed, Shaped;
      ForegroundKnown();
      if foreground == p {
        return;
      }
      var previous := foreground;
      if previous != null {
        if top + 1 < MAX_PROCESSES {
          PushForeground(previous);
        }
      }
      SwitchForeground(previous, p);
    }

    method PushForeground(p: ProcessBlock)
      requires Valid() && p in all && top + 1 < MAX_PROCESSES
      modifies this`top, stack
      ensures Valid() && Views() == old(Views()) && top == old(top) + 1 >= 0 && top < stack.Length && stack[top] == p
    {
      hide ProcessBlock.HookList, ProcessBlock.Pending, ProcessBlock.Valid, Kernel.Views, AllAwake, Listed;
      top := top + 1;
      stack[top] := p;
    }

    /** Hand the foreground back to the process remembered last, which becomes runnable at once. */
    method RestoreForeground(owner: ProcessBlock?) returns (ghost target: ProcessBlock?)
      requires Valid() && (owner != null ==> owner in all)
      modifies this`foreground, this`top, all, set q | q in all :: q.hooks, set q | q in all :: q.queue
      ensures Valid()
      ensures owner != null && owner != old(foreground) ==>
                Views() == old(Views()) && foreground == old(foreground) && top == old(top)
      ensures owner == null || owner == old(foreground) ==>
                && target == old(Under())
                && top == (if old(top) >= 0 then old(top) - 1 else old(top))
                && foreground == target
                && Views() == Restored(old(Views()), old(foreground), target)
    {
      hide ProcessBlock.HookList, ProcessBlock.Pending, ProcessBlock.Valid, Kernel.Views, AllAwake, Focused,
        Valid, Listed, Shaped;
      ForegroundKnown();
      if owner != null && owner != foreground {
        return null;
      }
      var previous := foreground;
      var next: ProcessBlock? := null;
      if top >= 0 {
        next := PopForeground();
      }
      ForegroundKnown();
      ClearHooks(next);
      SwitchForeground(previous, next);
      target := next;
    }

    /** The process remembered last. */
    ghost function Under(): ProcessBlock?
      reads this`top, stack
    {
      if 0 <= top < stack.Length then stack[top] else null
    }

    method PopForeground() returns (p: ProcessBlock)
      requires Valid() && top >= 0
      modifies this`top
      ensures Valid() && Views() == old(Views()) && top == old(top) - 1
      ensures p in all && old(top) < stack.Length && p == stack[old(top)]
    {
      hide ProcessBlock.HookList, ProcessBlock.Pending, ProcessBlock.Valid, Kernel.Views, AllAwake, Listed;
      p := stack[top];
      top := top - 1;
    }

    method ClearHooks(p: ProcessBlock?)
      requires Valid() && (p != null ==> p in all)
      modifies all`hookCount
      ensures Valid() && Views() == Cleared(old(Views()), p)
    {
      hide ProcessBlock.Pending, Kernel.Views, Shaped, AllAwake, Listed, Valid;
      ValidParts();
      ghost var was := Views();
      if p != null && p.alive {
        p.hookCount := 0;
        ViewsAreWith(was, p, was[p].(hooks := []));
        ClearedAwake(was, p);
        ValidAgain(was[p := was[p].(hooks := [])]);
      }
    }

    lemma ClearedAwake(m: Views, p: ProcessBlock)
      requires AllAwake(m) && Listed(m) && p in m
      ensures AllAwake(m[p := m[p].(hooks := [])]) && Listed(m[p := m[p].(hooks := [])])
    {
    }

    // ---------------------------------------------------------------- selection

    /** Who takes part in a draw. */
    predicate Eligible(c: Choice, p: ProcessBlock)
      requires p.Valid()
      reads p, p.hooks
    {
      p.alive && match c
                 case Runnable => p.hookCount == 0
                 case Triggered(h) => p.hookCount == 0 || h in p.hooks[..p.hookCount]
                 case AnyAlive => true
    }

    /** The tickets in slot `i` of the table. */
    ghost function TicketsAt(c: Choice, i: nat): nat
      requires AllValid() && i < table.Length && (table[i] != null ==> table[i] in all && table[i].tickets >= 1)
      reads this`all, table, all, set p | p in all :: p.hooks
    {
      if table[i] != null && Eligible(c, table[i]) then table[i].tickets else 0
    }

    /** `w` lists the tickets of every slot. */
    ghost predicate Weights(c: Choice, w: seq<nat>)
      requires AllValid()
      reads this`all, table, all, set p | p in all :: p.hooks
    {
      && |w| == table.Length
      && forall i :: 0 <= i < |w| ==>
           && (table[i] != null ==> table[i] in all && 1 <= table[i].tickets <= MAX_SHARE)
           && w[i] == TicketsAt(c, i)
    }

    /** Compared with an earlier current process and generator state: nobody was drawn because nobody
        takes part, or the holder of the number that the generator gave. */
    ghost predicate Drawn(c: Choice, wasCurrent: int, wasRandom: bv32, w: seq<nat>)
      requires AllValid()
      reads this`all, this`current, this`random, table, all, set p | p in all :: p.hooks
    {
      && Weights(c, w)
      && if Sum(w) == 0 then current == wasCurrent && random == wasRandom
         else random == NextState(wasRandom) && current == Winner(w, Value(random) % Sum(w))
    }

    /** Draw a process by lottery: nobody exactly if nobody takes part, and otherwise the holder of the
        winning number. The total fits a signed 32-bit integer. */
    method Draw(c: Choice) returns (next: ProcessBlock?, ghost w: seq<nat>)
      requires Valid()
      modifies this`current, this`random
      ensures Valid() && Views() == old(Views()) && all == old(all)
      ensures Drawn(c, old(current), old(random), w) && Sum(w) <= 0x7FFF_FFFF
      ensures Sum(w) == 0 ==> next == null
      ensures Sum(w) > 0 ==>
                && 0 <= current < table.Length && next != null && next == table[current]
                && next in all && next.Valid() && Eligible(c, next)
    {
      hide Kernel.Views, AllAwake, ProcessBlock.Pending, ProcessBlock.HookList, Eligible, Listed, Weights,
        Valid, Shaped, NextState;
      TableSize();
      ValidParts();
      var total;
      total, w := CountTickets(c);
      TotalFits(c, w);
      if total == 0 {
        return null, w;
      }
      next := Pick(c, total, w);
    }

    /** The winning number and its holder. */
    method Pick(c: Choice, total: nat, ghost w: seq<nat>) returns (next: ProcessBlock?)
      requires Valid() && Weights(c, w) && total == Sum(w) > 0
      modifies this`current, this`random
      ensures Valid() && Views() == old(Views()) && all == old(all) && Weights(c, w)
      ensures random == NextState(old(random)) && current == Winner(w, Value(random) % total)
      ensures 0 <= current < table.Length && next != null && next == table[current]
      ensures next in all && next.Valid() && Eligible(c, next)
    {
      hide Kernel.Views, AllAwake, ProcessBlock.Pending, ProcessBlock.HookList, Eligible, Listed, Weights,
        Valid, Shaped, NextState;
      AdvanceRandom();
      SlotHolder(c, w, Value(random) % total);
      var slot := FindWinner(c, Value(random) % total, w);
      MakeCurrent(slot);
      next := table[slot];
    }

    lemma TotalFits(c: Choice, w: seq<nat>)
      requires AllValid() && Weights(c, w) && table.Length == MAX_PROCESSES
      ensures Sum(w) <= MAX_PROCESSES * MAX_SHARE <= 0x7FFF_FFFF
    {
      hide Eligible;
      SumBounded(w, MAX_SHARE);
    }

    method AdvanceRandom()
      requires Valid()
      modifies this`random
      ensures Valid() && Views() == old(Views()) && random == NextState(old(random))
    {
      hide Kernel.Views, AllAwake, Listed, NextState;
      GeneratorIsInjective(random, random);
      random := NextState(random);
    }

    method MakeCurrent(slot: nat)
      requires Valid() && slot < MAX_PROCESSES
      modifies this`current
      ensures Valid() && Views() == old(Views()) && current == slot < table.Length
    {
      hide Kernel.Views, AllAwake, Listed;
      current := slot;
    }

    /** The first pass: all tickets of those who take part. */
    method CountTickets(c: Choice) returns (total: nat, ghost w: seq<nat>)
      requires Valid()
      ensures Weights(c, w) && total == Sum(w)
    {
      hide Kernel.Views, AllAwake, ProcessBlock.Pending, ProcessBlock.HookList, Eligible, Listed;
      total := 0;
      w := [];
      TableTickets();
      var i := 0;
      while i < MAX_PROCESSES
        invariant 0 <= i <= MAX_PROCESSES && |w| == i && total == Sum(w)
        invariant forall j :: 0 <= j < i ==> w[j] == TicketsAt(c, j)
      {
        var p := table[i];
        ghost var t := TicketsAt(c, i);
        assert (w + [t])[..i] == w;
        if p != null && Eligible(c, p) {
          total := total + p.tickets;
        }
        w := w + [t];
        i := i + 1;
      }
    }

    /** The holder of a winning number takes part. */
    lemma SlotHolder(c: Choice, w: seq<nat>, n: nat)
      requires Valid() && Weights(c, w) && n < Sum(w)
      ensures var i := Winner(w, n);
              i < table.Length && table[i] != null && table[i] in all && table[i].Valid() && Eligible(c, table[i])
    {
      TableTickets();
      hide Kernel.Views, AllAwake, ProcessBlock.Pending, ProcessBlock.HookList, Eligible, Listed;
    }

    lemma TableTickets()
      requires Valid()
      ensures forall i :: 0 <= i < table.Length && table[i] != null ==>
                table[i] in all && 1 <= table[i].tickets <= MAX_SHARE && table[i].Valid()
    {
      ViewsMean();
      hide Kernel.Views, AllAwake, ProcessBlock.Pending, ProcessBlock.HookList;
    }

    /** The second pass: the first slot whose running total exceeds the winning number. */
    method FindWinner(c: Choice, winner: nat, ghost w: seq<nat>) returns (slot: nat)
      requires Valid() && Weights(c, w) && winner < Sum(w)
      ensures slot == Winner(w, winner) && slot < MAX_PROCESSES
    {
      hide Kernel.Views, AllAwake, ProcessBlock.Pending, ProcessBlock.HookList, Eligible, Listed;
      TableTickets();
      var count := 0;
      assert w[..0] == [] && w[..MAX_PROCESSES] == w;
      slot := 0;
      while slot < MAX_PROCESSES
        invariant slot <= MAX_PROCESSES && count == Sum(w[..slot]) <= winner
      {
        var p := table[slot];
        assert w[..slot + 1][..slot] == w[..slot];
        if p != null && Eligible(c, p) {
          count := count + p.tickets;
          if winner < count {
            WinnerIs(w, winner, slot);
            return;
          }
        }
        slot := slot + 1;
      }
    }

    // ---------------------------------------------------------------- ticks, switches and exits

    /** Wake everybody who waits for `h`. */
    method ResumeFor(h: Hook)
      requires Valid()
      modifies all`hookCount, set p | p in all :: p.hooks
      ensures Valid() && Views() == Resumed(old(Views()), h)
    {
      hide Without, ProcessBlock.HookList, ProcessBlock.Pending, ProcessBlock.Valid, Kernel.Views, AllAwake,
        Shaped, Valid, Listed;
      ValidParts();
      ghost var was := Views();
      ResumedAwake(was, h);
      ResumedListed(was, h);
      Resume(h);
      ValidAgain(Resumed(was, h));
    }

    lemma ResumedListed(m: Views, h: Hook)
      requires Listed(m)
      ensures Listed(Resumed(m, h))
    {
      hide Without;
    }

    function CurrentProcess(): ProcessBlock?
      reads this`current, table
    {
      if 0 <= current < table.Length then table[current] else null
    }

    lemma CurrentListed()
      requires Valid()
      ensures CurrentProcess() != null ==> CurrentProcess() in all && InTable(CurrentProcess())
      ensures foreground != null ==> foreground in all
    {
      hide AllAwake, Kernel.Views, ProcessBlock.Pending, ProcessBlock.HookList;
    }

    /** Choose who runs next among those who wait for nothing. If there is nobody the current process goes
        on, and the kernel panics if that one is dead. */
    method ContextSwitch() returns (panicked: bool, ghost w: seq<nat>)
      requires Valid()
      modifies this`current, this`random
      ensures Valid() && Views() == old(Views())
      ensures old(CurrentProcess()) == null ==> !panicked && current == old(current) && random == old(random)
      ensures old(CurrentProcess()) != null ==>
                && Drawn(Runnable, old(current), old(random), w)
                && (panicked <==> Sum(w) == 0 && !old(CurrentProcess().alive))
                && (Sum(w) > 0 ==>
                      && CurrentProcess() != null && CurrentProcess() in all && CurrentProcess().Valid()
                      && Eligible(Runnable, CurrentProcess()))
    {
      hide Kernel.Views, AllAwake, ProcessBlock.Pending, ProcessBlock.HookList, Eligible, Listed, Weights,
        Valid, Shaped, Drawn;
      var running := CurrentProcess();
      if running == null {
        return false, [];
      }
      var next;
      next, w := Draw(Runnable);
      panicked := next == null && !running.alive;
    }

    /** A timer tick: whoever waits for this time is woken, and every tenth tick may switch. */
    method Tick(ticks: nat) returns (panicked: bool, ghost w: seq<nat>)
      requires Valid()
      modifies this`current, this`random, this`quantum, all`hookCount, set p | p in all :: p.hooks
      ensures Valid() && Views() == Resumed(old(Views()), Hook(TimeReached, ticks))
      ensures quantum == if old(quantum) + 1 >= QUANTUM_TICKS then 0 else old(quantum) + 1
      ensures old(quantum) + 1 < QUANTUM_TICKS || old(CurrentProcess()) == null ==>
                !panicked && current == old(current) && random == old(random)
      ensures old(quantum) + 1 >= QUANTUM_TICKS && old(CurrentProcess()) != null ==>
                Drawn(Runnable, old(current), old(random), w)
    {
      hide Kernel.Views, AllAwake, ProcessBlock.Pending, ProcessBlock.HookList, Listed, Valid, Shaped, Resumed,
        Drawn, Eligible;
      ResumeFor(Hook(TimeReached, ticks));
      CountTick();
      panicked, w := false, [];
      if quantum >= QUANTUM_TICKS {
        ResetQuantum();
        panicked, w := ContextSwitch();
      }
    }

    method CountTick()
      requires Valid()
      modifies this`quantum
      ensures Valid() && Views() == old(Views()) && quantum == old(quantum) + 1
    {
      hide Kernel.Views, AllAwake, Listed;
      quantum := quantum + 1;
    }

    method ResetQuantum()
      requires Valid()
      modifies this`quantum
      ensures Valid() && Views() == old(Views()) && quantum == 0
    {
      hide Kernel.Views, AllAwake, Listed;
      quantum := 0;
    }

    /** A process ends: dead first, so that no focus event reaches it, then out of the foreground. */
    method Kill(p: ProcessBlock)
      requires Valid() && p in all
      modifies this`foreground, this`top, all, set q | q in all :: q.hooks, set q | q in all :: q.queue
      ensures Valid() && p in all && !p.alive
      ensures p.Pending() == old(p.Pending())
      ensures (old(Under()) != null ==> old(Under()) in old(Views()))
              && Views() == Ended(old(Views()), p, old(foreground), old(Under()))
      ensures foreground == if p == old(foreground) then old(Under()) else old(foreground)
    {
      hide Kernel.Views, AllAwake, ProcessBlock.Pending, ProcessBlock.HookList, Listed, Valid, Shaped, Restored;
      ValidParts();
      UnderKnown();
      MarkDead(p);
      ValidParts();
      ForegroundKnown();
      ghost var m, prev := Views(), foreground;
      ghost var target := RestoreForeground(p);
      ForegroundKnown();
      DeadStays(m, p, prev, foreground);
      ValidParts();
    }

    lemma UnderKnown()
      requires Valid()
      ensures (Under() != null ==> Under() in all) && Views().Keys == all
    {
      hide AllAwake, Listed;
      ViewsMean();
    }

    /** No focus event reaches the dead. */
    lemma DeadStays(m: Views, p: ProcessBlock, prev: ProcessBlock?, next: ProcessBlock?)
      requires p in m && !m[p].alive && (prev != null ==> prev in m) && (next != null ==> next in m)
      ensures var u := Restored(m, prev, next); p in u && u[p].pending == m[p].pending && !u[p].alive
    {
      hide Without, Recent;
    }

    method MarkDead(p: ProcessBlock)
      requires Valid() && p in all
      modifies all`alive
      ensures Valid() && Views() == old(Views())[p := old(Views())[p].(alive := false)]
    {
      hide Kernel.Views, AllAwake, ProcessBlock.Pending, ProcessBlock.HookList, Listed, Valid, Shaped,
        ProcessBlock.Valid;
      ValidParts();
      ghost var was := Views();
      p.alive := false;
      ViewsAreWith(was, p, was[p].(alive := false));
      DeadAwake(was, p);
      ValidAgain(was[p := was[p].(alive := false)]);
    }

    lemma DeadAwake(m: Views, p: ProcessBlock)
      requires AllAwake(m) && Listed(m) && p in m
      ensures AllAwake(m[p := m[p].(alive := false)]) && Listed(m[p := m[p].(alive := false)])
    {
    }

    /** The current process exits, and anybody alive may follow, waiting or not. The kernel panics exactly
        when nobody is left. */
    method Exit() returns (panicked: bool, ghost w: seq<nat>)
      requires Valid()
      modifies this`foreground, this`top, this`current, this`random, all, set q | q in all :: q.hooks,
                 set q | q in all :: q.queue
      ensures Valid() && all == old(all)
      ensures old(CurrentProcess()) == null ==> Views() == old(Views())
      ensures old(CurrentProcess()) != null ==>
                && !old(CurrentProcess()).alive
                && old(CurrentProcess()) in old(Views()) && (old(Under()) != null ==> old(Under()) in old(Views()))
                && Views() == Ended(old(Views()), old(CurrentProcess()), old(foreground), old(Under()))
      ensures Drawn(AnyAlive, old(current), old(random), w) && (panicked <==> Sum(w) == 0)
      ensures !panicked ==>
                CurrentProcess() != null && CurrentProcess() in all && CurrentProcess().Valid()
                  && CurrentProcess().alive
    {
      hide Kernel.Views, AllAwake, ProcessBlock.Pending, ProcessBlock.HookList, Listed, Valid, Shaped, Weights,
        Ended, Drawn;
      CurrentListed();
      UnderKnown();
      var p := CurrentProcess();
      if p != null {
        Kill(p);
      }
      var next;
      next, w := Draw(AnyAlive);
      panicked := next == null;
    }

    /** A key or the mouse: the event goes to the foreground process, else to the shell, else to the
        current process. */
    method DeviceEvent(e: Event, shell: ProcessBlock?) returns (ghost target: ProcessBlock?)
      requires Valid() && (shell != null ==> shell in all)
      modifies all, set q | q in all :: q.hooks, set q | q in all :: q.queue
      ensures Valid()
      ensures target == if foreground != null then foreground else if shell != null then shell else CurrentProcess()
      ensures if target == null then Views() == old(Views())
              else target in all && Views() == Delivered(old(Views()), target, e)
    {
      hide Kernel.Views, AllAwake, ProcessBlock.Pending, ProcessBlock.HookList, Listed, Valid, Shaped, Delivered;
      CurrentListed();
      target := if foreground != null then foreground else if shell != null then shell else CurrentProcess();
      if foreground != null {
        Deliver(foreground, e);
        return;
      }
      if shell != null {
        Deliver(shell, e);
        return;
      }
      var p := CurrentProcess();
      if p != null {
        Deliver(p, e);
      }
    }

    /** Change a process's share. The total of a full table keeps fitting its counter exactly when no
        share in the table exceeds its part. */
    method SetTickets(p: ProcessBlock, n: int)
      requires Valid() && p in all
      modifies all`tickets
      ensures Shaped() && AllValid()
      ensures Views() == old(Views())[p := old(Views())[p].(tickets := if n > 0 then n else old(p.tickets))]
      ensures Valid() <==> n <= MAX_SHARE || !InTable(p)
    {
      hide Kernel.Views, AllAwake, ProcessBlock.Pending, ProcessBlock.HookList, Listed, Valid, Shaped,
        ProcessBlock.Valid;
      ValidParts();
      ghost var was := Views();
      if n > 0 {
        p.tickets := n;
      }
      ghost var share := if n > 0 then n else was[p].tickets;
      ViewsAreWith(was, p, was[p].(tickets := share));
      TicketsAwake(was, p, share);
      if n <= MAX_SHARE || !InTable(p) {
        ValidAgain(Views());
      } else {
        NotListed();
      }
    }

    lemma NotListed()
      requires AllValid() && !Listed(Views())
      ensures !Valid()
    {
      hide Kernel.Views, AllAwake, Listed;
    }

    lemma TicketsAwake(m: Views, p: ProcessBlock, n: int)
      requires AllAwake(m) && Listed(m) && p in m && (n >= 1 || n == m[p].tickets)
      ensures AllAwake(m[p := m[p].(tickets := n)])
      ensures Listed(m[p := m[p].(tickets := n)]) <==> !InTable(p) || n <= MAX_SHARE
    {
      var now := m[p := m[p].(tickets := n)];
      assert Listed(now) ==> (InTable(p) ==> now[p].tickets <= MAX_SHARE);
    }

    /** A new process takes the first empty slot; when the table is full it never runs. */
    method AddProcess(p: ProcessBlock) returns (ok: bool, ghost slot: nat)
      requires Valid() && p !in all && p.Valid() && p.Pending() == [] && p.HookList() == [] && Separate(all + {p})
      requires p.tickets <= MAX_SHARE
      modifies this`all, this`processCount, this`current, table, p`tickets
      ensures Valid() && all == old(all) + {p} && p.Pending() == []
      ensures ok <==> old(processCount) < MAX_PROCESSES && exists i :: 0 <= i < table.Length && old(table[i]) == null
      ensures ok ==>
                && slot < |old(table[..])| && old(table[slot]) == null && table[..] == old(table[..])[slot := p]
                && (forall i :: 0 <= i < slot ==> old(table[i]) != null)
                && processCount == old(processCount) + 1
                && current == (if old(current) == -1 then slot else old(current))
                && p.tickets == (if old(p.tickets) <= 0 then 1 else old(p.tickets))
      ensures !ok ==> table[..] == old(table[..]) && processCount == old(processCount) && current == old(current)
    {
      hide Kernel.Views, AllAwake, ProcessBlock.Pending, ProcessBlock.HookList, Listed, Valid,
        ProcessBlock.Valid, Shaped;
      ok := false;
      slot := 0;
      TableSize();
      Enrol(p);
      if processCount < MAX_PROCESSES {
        var i := EmptySlot();
        if i < MAX_PROCESSES {
          Place(p, i);
          ok := true;
          slot := i;
        }
      }
    }

    lemma TableSize()
      requires Valid()
      ensures table.Length == MAX_PROCESSES
    {
      hide AllAwake, Kernel.Views, Listed;
    }

    ghost method Enrol(p: ProcessBlock)
      requires Valid() && p !in all && p.Valid() && p.Pending() == [] && p.HookList() == [] && Separate(all + {p})
      modifies this`all
      ensures Valid() && all == old(all) + {p}
    {
      hide Kernel.Views, AllAwake, ProcessBlock.Pending, ProcessBlock.HookList, Listed, Valid, ProcessBlock.Valid;
      ValidParts();
      var was := Views();
      all := all + {p};
      ViewsMean();
      var v := View(p.alive, p.tickets, [], []);
      assert Views() == was[p := v];
      NewcomerAwake(was, p, v);
      ValidAgain(was[p := v]);
    }

    lemma NewcomerAwake(m: Views, p: ProcessBlock, v: View)
      requires AllAwake(m) && Listed(m) && v.pending == [] && v.hooks == [] && !InTable(p)
      ensures AllAwake(m[p := v]) && Listed(m[p := v])
    {
    }

    method Place(p: ProcessBlock, slot: nat)
      requires Valid() && p in all && slot < MAX_PROCESSES && table.Length == MAX_PROCESSES && table[slot] == null
      requires p.tickets <= MAX_SHARE
      modifies this`processCount, this`current, table, p`tickets
      ensures Valid() && table[..] == old(table[..])[slot := p] && processCount == old(processCount) + 1
      ensures current == (if old(current) == -1 then slot else old(current))
      ensures p.tickets == (if old(p.tickets) <= 0 then 1 else old(p.tickets))
    {
      hide Kernel.Views, AllAwake, ProcessBlock.Pending, ProcessBlock.HookList, Listed, Valid, ProcessBlock.Valid;
      ValidParts();
      ghost var was, before := Views(), table[..];
      ListedIn(was);
      table[slot] := p;
      processCount := processCount + 1;
      if current == -1 {
        current := slot;
      }
      if p.tickets <= 0 {
        p.tickets := 1;
      }
      ViewsAreWith(was, p, was[p].(tickets := p.tickets));
      assert table[slot] == p;
      PlacedListed(before, was, p, slot);
      TicketsOnly(was, p, p.tickets);
      ValidAgain(was[p := was[p].(tickets := p.tickets)]);
    }

    lemma TicketsOnly(m: Views, p: ProcessBlock, n: int)
      requires AllAwake(m) && p in m
      ensures AllAwake(m[p := m[p].(tickets := n)])
    {
    }

    lemma ListedIn(m: Views)
      requires Listed(m)
      ensures forall q :: q in m ==>
                (m[q].hooks != [] ==> q in table[..]) && (q in table[..] ==> 1 <= m[q].tickets <= MAX_SHARE)
    {
      forall q | q in m
        ensures InTable(q) <==> q in table[..]
      {
      }
    }

    lemma PlacedListed(before: seq<ProcessBlock?>, m: Views, p: ProcessBlock, slot: nat)
      requires forall q :: q in m ==>
                 (m[q].hooks != [] ==> q in before) && (q in before ==> 1 <= m[q].tickets <= MAX_SHARE)
      requires p in m && 1 <= p.tickets <= MAX_SHARE && slot < |before| && before[slot] == null
                 && table[..] == before[slot := p]
      ensures Listed(m[p := m[p].(tickets := p.tickets)])
    {
      forall q | q in m
        ensures InTable(q) <==> q in before || q == p
      {
        if q in before {
          var j :| 0 <= j < |before| && before[j] == q;
          assert table[j] == q;
        }
        assert table[slot] == p;
      }
    }

    method EmptySlot() returns (i: nat)
      requires table.Length == MAX_PROCESSES
      ensures i <= MAX_PROCESSES && (i < MAX_PROCESSES ==> table[i] == null)
      ensures forall j :: 0 <= j < i ==> table[j] != null
    {
      i := 0;
      while i < MAX_PROCESSES
        invariant i <= MAX_PROCESSES && forall j :: 0 <= j < i ==> table[j] != null
      {
        if table[i] == null {
          return;
        }
        i := i + 1;
      }
    }

    // ---------------------------------------------------------------- runs

    ghost function Now(): Moment
      requires AllValid()
      reads this, table, stack, all, set p | p in all :: p.queue, set p | p in all :: p.hooks
    {
      Moment(Views(), CurrentProcess(), foreground, Under())
    }

    lemma NowIsAwake()
      requires Valid()
      ensures AllValid() && AllAwake(Now().views)
    {
    }

    /** One step of the protocol, as long as it does not lose a wake-up by itself. */
    method Perform(step: Step, shell: ProcessBlock?) returns (panicked: bool)
      requires Valid() && (shell != null ==> shell in all) && StepOk(step)
      modifies this`foreground, this`top, this`current, this`random, this`quantum, stack, all,
        set p | p in all :: p.hooks, set p | p in all :: p.queue
      ensures Valid() && all == old(all)
      ensures Known(step, shell, old(Views()), old(CurrentProcess()), old(foreground), old(Under()))
      ensures Views() == Next(old(Views()), step, old(CurrentProcess()), old(foreground), old(Under()), shell)
    {
      hide Kernel.Views, AllAwake, ProcessBlock.Pending, ProcessBlock.HookList, Listed, Valid, Shaped,
        Delivered, Focused, Resumed, Eligible, Taken, Waited, Switched, Restored, Ended, Drawn;
      panicked := false;
      CurrentListed();
      UnderKnown();
      ghost var ignored, w;
      var event;
      match step
      case DoPoll =>
        if CurrentProcess() != null {
          event := Poll(CurrentProcess());
        }
      case DoWait =>
        if CurrentProcess() != null {
          event := WaitForEvent(CurrentProcess());
          if event.None? {
            panicked, w := ContextSwitch();
          }
        }
      case DoYieldFor(h) =>
        if CurrentProcess() != null {
          YieldForEvent(CurrentProcess(), h);
          panicked, w := ContextSwitch();
        }
      case DoYield => panicked, w := ContextSwitch();
      case DoDevice(e) => ignored := DeviceEvent(e, shell);
      case DoTick(n) => panicked, w := Tick(n);
      case DoFocus(p) => SetForeground(p);
      case DoRestore(owner) => ignored := RestoreForeground(owner);
      case DoExit => panicked, w := Exit();
    }

    /** The processes of a step exist, and it does not lose a wake-up: only a running process that asks for
        its own signal while events are pending and there is room for the hook does. */
    ghost predicate StepOk(step: Step)
      requires Valid()
      reads this, table, stack, all, set p | p in all :: p.hooks, set p | p in all :: p.queue
    {
      StepKnown(step) && (CurrentProcess() != null ==> CurrentProcess() in all && Keeps(step, CurrentProcess()))
    }

    ghost predicate StepKnown(step: Step)
      reads this`all
    {
      match step
      case DoFocus(p) => p != null ==> p in all
      case DoRestore(owner) => owner != null ==> owner in all
      case _ => true
    }

    ghost predicate Keeps(step: Step, p: ProcessBlock)
      requires p.Valid()
      reads p, p.hooks, p.queue
    {
      step.DoYieldFor? ==> p.Pending() == [] || step.h != OwnSignal(p) || |p.HookList()| >= HOOKS
    }

    /** Whether the next step would lose a wake-up. */
    method WouldLose(step: Step) returns (lose: bool)
      requires Valid() && StepKnown(step)
      ensures lose <==> !StepOk(step)
    {
      hide Kernel.Views, AllAwake, Listed, Valid, Shaped, Held, Repaired;
      CurrentListed();
      ValidParts();
      var p := CurrentProcess();
      lose := false;
      if step.DoYieldFor? && p != null {
        PendingCount(p);
        lose := step.h == OwnSignal(p) && p.Guarded() && Repaired(p.RingNow()).count > 0 && p.hookCount < HOOKS;
      }
    }

    lemma PendingCount(p: ProcessBlock)
      requires p.Valid()
      ensures p.Pending() != [] <==> p.Guarded() && Repaired(p.RingNow()).count > 0
    {
      RepairIsIdempotent(p.RingNow());
      hide Repaired;
    }

    /** One step, seen from moment to moment. */
    method StepOn(step: Step, shell: ProcessBlock?) returns (panicked: bool)
      requires Valid() && (shell != null ==> shell in all) && StepOk(step)
      modifies this`foreground, this`top, this`current, this`random, this`quantum, stack, all,
        set p | p in all :: p.hooks, set p | p in all :: p.queue
      ensures Valid() && all == old(all) && AllValid()
      ensures Follows(old(Now()), step, shell, Now()) && AllAwake(Now().views)
    {
      hide Kernel.Views, AllAwake, ProcessBlock.Pending, ProcessBlock.HookList, Listed, Valid, Shaped, StepOk, Next,
        Known, AllValid;
      NowIsAwake();
      panicked := Perform(step, shell);
      NowIsAwake();
    }

    /** Over every interleaving of steps each does what it means and no wake-up is lost, up to the first step
        that itself loses one: a process with events pending never waits for its own signal, so if it waits
        for nothing else it takes part in the next draw. `moments` is the history of the run. */
    method Run(steps: seq<Step>, shell: ProcessBlock?)
      returns (done: nat, panicked: bool, ghost moments: seq<Moment>)
      requires Valid() && (shell != null ==> shell in all) && forall i :: 0 <= i < |steps| ==> StepKnown(steps[i])
      modifies this`foreground, this`top, this`current, this`random, this`quantum, stack, all,
        set p | p in all :: p.hooks, set p | p in all :: p.queue
      ensures Valid() && all == old(all) && done <= |steps|
      ensures done < |steps| && !panicked ==> !StepOk(steps[done])
      ensures |moments| == done + 1 && moments[0] == old(Now()) && moments[done] == Now()
      ensures IsRun(steps, shell, moments)
      ensures forall p :: p in all ==> p.Valid() && (p.Pending() != [] ==> OwnSignal(p) !in p.HookList())
      ensures forall p ::
                (p in all && p.alive && p.Pending() != [] && (forall h :: h in p.HookList() ==> h == OwnSignal(p)))
                ==> Eligible(Runnable, p)
    {
      hide Kernel.Views, AllAwake, ProcessBlock.Pending, ProcessBlock.HookList, Listed, Valid, Shaped, StepOk,
        StepKnown, Eligible, Next, Known, Follows, AllValid, Now;
      NowIsAwake();
      panicked, done, moments := false, 0, [Now()];
      var lose := false;
      while done < |steps| && !panicked && !lose
        invariant done <= |steps| && Valid() && all == old(all)
        invariant forall j :: 0 <= j < |steps| ==> StepKnown(steps[j])
        invariant lose ==> done < |steps| && !panicked && !StepOk(steps[done])
        invariant AllValid() && |moments| == done + 1 && moments[0] == old(Now()) && moments[done] == Now()
        invariant IsRun(steps, shell, moments)
        decreases |steps| - done, if lose then 0 else 1
      {
        lose := WouldLose(steps[done]);
        if !lose {
          panicked := StepOn(steps[done], shell);
          done, moments := done + 1, moments + [Now()];
        }
      }
      NobodyForgotten();
    }

    lemma NobodyForgotten()
      requires Valid()
      ensures forall p :: p in all ==> p.Valid() && (p.Pending() != [] ==> OwnSignal(p) !in p.HookList())
      ensures forall p ::
                (p in all && p.alive && p.Pending() != [] && (forall h :: h in p.HookList() ==> h == OwnSignal(p)))
                ==> Eligible(Runnable, p)
    {
      ValidParts();
      hide Kernel.Views, ProcessBlock.Pending, Listed, Valid, Shaped;
      forall p | p in all
        ensures p.Pending() != [] ==> OwnSignal(p) !in p.HookList()
        ensures p.Pending() != [] && (forall h :: h in p.HookList() ==> h == OwnSignal(p)) ==> p.hookCount == 0
      {
        assert Awake(p, Views()[p]);
        if p.Pending() != [] && p.hookCount > 0 {
          assert p.HookList()[0] in p.HookList();
        }
      }
    }

    method PushTo(p: ProcessBlock, e: Event)
      requires Shaped() && AllValid() && p in all
      modifies all, set p | p in all :: p.queue
      ensures AllValid() && Views() == old(Views())[p := WithEvent(old(Views())[p], e)]
      ensures forall q :: q in all ==> q.HookList() == old(q.HookList())
    {
      hide Recent, Held, ProcessBlock.HookList, Kernel.Views, ProcessBlock.Pending;
      ghost var was := Views();
      ViewsMean();
      p.Push(e);
      ViewsAreWith(was, p, WithEvent(was[p], e));
    }

    lemma ViewsAreWith(was: Views, p: ProcessBlock, v: View)
      requires AllValid() && was.Keys == all && p in all
      requires forall q :: q in all ==>
                 View(q.alive, q.tickets, q.Pending(), q.HookList()) == if q == p then v else was[q]
      ensures Views() == was[p := v]
    {
      hide ProcessBlock.Valid, ProcessBlock.HookList, ProcessBlock.Pending;
    }
  }
}
