/** The waiting-time theory of kernel/sched/sched.c: a ready ring whose head is running, rotated by
    switches, with new threads inserted right behind the head. */
module ReadyRing {
  const TIME_SLICE_TICKS: nat := 10

  /** The ring after a switch; the running thread comes first, then its successors in order. */
  function Rotated<T>(ring: seq<T>): seq<T>
    requires |ring| > 0
  {
    ring[1..] + [ring[0]]
  }

  function Inserted<T>(ring: seq<T>, t: T): seq<T>
    requires |ring| > 0
  {
    [ring[0], t] + ring[1..]
  }

  datatype Event<T> = Tick | Yield | Add(thread: T)

  datatype State<T> = State(ring: seq<T>, ticks: nat)
  {
    /** The ring holds each thread once, and the slice has not run out. */
    ghost predicate Valid() {
      && |ring| > 0 && ticks < TIME_SLICE_TICKS
      && forall i, j :: 0 <= i < j < |ring| ==> ring[i] != ring[j]
    }

    predicate Switches(e: Event<T>) {
      e.Yield? || (e.Tick? && ticks + 1 >= TIME_SLICE_TICKS)
    }

    /** What sched_tick, sched_yield or sched_add_thread does. */
    function Step(e: Event<T>): (s: State<T>)
      requires |ring| > 0
      ensures |s.ring| > 0
    {
      if Switches(e) then State(Rotated(ring), 0)
      else if e.Tick? then State(ring, ticks + 1)
      else State(Inserted(ring, e.thread), ticks)
    }
  }

  function Run<T>(s: State<T>, events: seq<Event<T>>): (r: State<T>)
    requires |s.ring| > 0
    ensures |r.ring| > 0
    decreases |events|
  {
    if events == [] then s else Run(s.Step(events[0]), events[1..])
  }

  /** Only threads that are not in the ring yet are added to it. */
  ghost predicate AddsFresh<T>(s: State<T>, events: seq<Event<T>>)
    requires |s.ring| > 0
    decreases |events|
  {
    events != [] ==>
      && (events[0].Add? ==> events[0].thread !in s.ring)
      && AddsFresh(s.Step(events[0]), events[1..])
  }

  /** Thread t is running in some state before the last. */
  predicate RunsEarlier<T(==)>(s: State<T>, events: seq<Event<T>>, t: T)
    requires |s.ring| > 0
    decreases |events|
  {
    events != [] && (s.ring[0] == t || RunsEarlier(s.Step(events[0]), events[1..], t))
  }

  function SwitchCount<T>(s: State<T>, events: seq<Event<T>>): nat
    requires |s.ring| > 0
    decreases |events|
  {
    if events == [] then 0
    else (if s.Switches(events[0]) then 1 else 0) + SwitchCount(s.Step(events[0]), events[1..])
  }

  function AddCount<T>(events: seq<Event<T>>): nat {
    if events == [] then 0 else (if events[0].Add? then 1 else 0) + AddCount(events[1..])
  }

  function TickCount<T>(events: seq<Event<T>>): nat {
    if events == [] then 0 else (if events[0].Tick? then 1 else 0) + TickCount(events[1..])
  }

  /** The ring stays a ring of distinct threads and never loses one. */
  lemma {:induction false} RunKeepsRing<T>(s: State<T>, events: seq<Event<T>>)
    requires s.Valid() && AddsFresh(s, events)
    ensures Run(s, events).Valid()
    ensures forall t :: t in Run(s, events).ring <==> t in s.ring || Add(t) in events
    decreases |events|
  {
    if events != [] {
      var e := events[0];
      assert events == [e] + events[1..];
      StepKeepsRing(s, e);
      RunKeepsRing(s.Step(e), events[1..]);
    }
  }

  lemma StepKeepsRing<T>(s: State<T>, e: Event<T>)
    requires s.Valid() && (e.Add? ==> e.thread !in s.ring)
    ensures s.Step(e).Valid()
    ensures forall t :: t in s.Step(e).ring <==> t in s.ring || Add(t) == e
  {
    assert s.ring == [s.ring[0]] + s.ring[1..];
    assert s.ring[0] !in s.ring[1..];
  }

  /** One event moves a waiting thread forward by a switch and back by an insertion. */
  lemma StepMovesThread<T>(s: State<T>, e: Event<T>, d: nat)
    requires 0 < d < |s.ring|
    ensures var d' := d + (if e.Add? then 1 else 0) - (if s.Switches(e) then 1 else 0);
            d' < |s.Step(e).ring| && s.Step(e).ring[d'] == s.ring[d]
  {
  }

  /** Waiting is exact: until it runs, the distance of a thread from the head is its initial
      distance plus the insertions minus the switches so far.  So it gets to run at the switch
      that makes their number d plus the number of insertions, and not before. */
  lemma {:induction false} WaitingIsExact<T>(s: State<T>, events: seq<Event<T>>, t: T, d: nat)
    requires d < |s.ring| && s.ring[d] == t && !RunsEarlier(s, events, t)
    ensures SwitchCount(s, events) <= d + AddCount(events)
    ensures d + AddCount(events) - SwitchCount(s, events) < |Run(s, events).ring|
    ensures Run(s, events).ring[d + AddCount(events) - SwitchCount(s, events)] == t
    decreases |events|
  {
    if events != [] {
      var e := events[0];
      StepMovesThread(s, e, d);
      WaitingIsExact(s.Step(e), events[1..], t,
                     d + (if e.Add? then 1 else 0) - (if s.Switches(e) then 1 else 0));
    }
  }

  /** A thread that has not run yet has waited at most 10 ticks for every thread ahead of it, less
      those already spent; exactly so if nobody yields. */
  lemma {:induction false} WaitingTicks<T>(s: State<T>, events: seq<Event<T>>, t: T, d: nat)
    requires s.ticks < TIME_SLICE_TICKS
    requires d < |s.ring| && s.ring[d] == t && !RunsEarlier(s, events, t)
    ensures SwitchCount(s, events) <= d + AddCount(events)
    ensures var left := d + AddCount(events) - SwitchCount(s, events);
            && TickCount(events) + s.ticks + 10 * left
               <= 10 * (d + AddCount(events)) + Run(s, events).ticks
            && Run(s, events).ticks < 10
            && (Yield !in events ==>
                  TickCount(events) + s.ticks + 10 * left
                  == 10 * (d + AddCount(events)) + Run(s, events).ticks)
            && (left == 0 && d > 0 ==> Run(s, events).ticks == 0)
    decreases |events|
  {
    if events != [] {
      var e := events[0];
      var d' := d + (if e.Add? then 1 else 0) - (if s.Switches(e) then 1 else 0);
      StepMovesThread(s, e, d);
      assert events == [e] + events[1..];
      WaitingTicks(s.Step(e), events[1..], t, d');
      if d' == 0 {
        StopsWhenRunning(s.Step(e), events[1..], t);
      }
    }
  }

  lemma StopsWhenRunning<T>(s: State<T>, events: seq<Event<T>>, t: T)
    requires |s.ring| > 0 && s.ring[0] == t && !RunsEarlier(s, events, t)
    ensures events == []
  {
  }

  /** The bound in timer ticks: 10 (d + insertions) - ticks since the last switch. */
  lemma WaitingBound<T>(s: State<T>, events: seq<Event<T>>, t: T, d: nat)
    requires s.ticks < TIME_SLICE_TICKS
    requires 0 < d < |s.ring| && s.ring[d] == t && !RunsEarlier(s, events, t)
    ensures TickCount(events) <= 10 * (d + AddCount(events)) - s.ticks
    ensures Run(s, events).ring[0] != t ==>
              TickCount(events) < 10 * (d + AddCount(events)) - s.ticks
  {
    WaitingTicks(s, events, t, d);
    WaitingIsExact(s, events, t, d);
  }
}

/** What the atomic switch of the machine model leaves out: switch_to_next sets current and lets
    interrupts in again before context_switch has saved anything (kernel/sched/sched.c:38-43). */
module YieldWindow {
  import opened ReadyRing

  /** Threads are numbered around the ring.  Code runs on the stack of one of them, current names
      one, and saved says on whose stack the stored stack pointer of each points. */
  datatype Cpu = Cpu(stack: nat, current: nat, ticks: nat, saved: seq<nat>)
  {
    predicate Valid() { stack < |saved| && current < |saved| && ticks < TIME_SLICE_TICKS }

    /** No thread would go on on the stack of another. */
    ghost predicate OwnStacks() {
      forall i :: 0 <= i < |saved| ==> saved[i] == i
    }

    function Successor(): nat
      requires Valid()
    {
      if current + 1 < |saved| then current + 1 else 0
    }

    /** switch_to_next up to the release of the lock, called by sched_yield. */
    function BeginYield(): Cpu
      requires Valid()
    {
      this.(current := Successor())
    }

    /** A timer tick: sched_tick, with a whole switch_to_next when the slice is over. */
    function TakeTick(): (c: Cpu)
      requires Valid()
      ensures |c.saved| == |saved|
    {
      if ticks + 1 < TIME_SLICE_TICKS then this.(ticks := ticks + 1)
      else if Successor() == current then this.(ticks := 0)
      else Cpu(saved[Successor()], Successor(), 0, saved[current := stack])
    }
  }

  function TicksLater(c: Cpu, k: nat): (r: Cpu)
    requires c.Valid() && forall i :: 0 <= i < |c.saved| ==> c.saved[i] < |c.saved|
    ensures r.Valid() && |r.saved| == |c.saved| && forall i :: 0 <= i < |r.saved| ==> r.saved[i] < |r.saved|
  {
    if k == 0 then c else TicksLater(c, k - 1).TakeTick()
  }

  lemma {:induction false} WithinTheSlice(c: Cpu, k: nat)
    requires c.Valid() && c.OwnStacks() && c.ticks + k < TIME_SLICE_TICKS
    ensures TicksLater(c, k) == c.(ticks := c.ticks + k)
  {
    if k > 0 {
      WithinTheSlice(c, k - 1);
    }
  }

  lemma {:induction false} AloneKeepsOwnStack(c: Cpu, k: nat)
    requires c.Valid() && c.OwnStacks() && |c.saved| == 1
    ensures TicksLater(c, k).OwnStacks()
  {
    if k > 0 {
      AloneKeepsOwnStack(c, k - 1);
    }
  }

  /** Ticks between the release of the lock and the reset of the counter do no harm exactly when the
      slice does not run out during them, or the thread is alone; otherwise the successor is
      recorded as suspended on the stack of the thread that yields. */
  lemma HarmlessWindow(c: Cpu, k: nat)
    requires c.Valid() && c.stack == c.current && c.OwnStacks()
    ensures (forall j :: 0 <= j <= k ==> TicksLater(c.BeginYield(), j).OwnStacks())
            <==> |c.saved| == 1 || c.ticks + k < 10
  {
    var b := c.BeginYield();
    if |c.saved| == 1 {
      forall j | 0 <= j <= k ensures TicksLater(b, j).OwnStacks() {
        AloneKeepsOwnStack(b, j);
      }
    } else if c.ticks + k < TIME_SLICE_TICKS {
      forall j | 0 <= j <= k ensures TicksLater(b, j).OwnStacks() {
        WithinTheSlice(b, j);
      }
    } else {
      var j := TIME_SLICE_TICKS - c.ticks;
      WithinTheSlice(b, j - 1);
      assert TicksLater(b, j) == TicksLater(b, j - 1).TakeTick();
      assert TicksLater(b, j).saved[b.current] == c.stack;
    }
  }
}

/** Why isr_dispatch acknowledges a timer interrupt before it calls the handler
    (kernel/arch/x86_64/cpu/isr.c:24-44): the handler may switch away and return much later, and the
    LAPIC delivers no tick in between if the last one has not been acknowledged. */
module Acknowledgement {
  import opened ReadyRing

  datatype Order = AckFirst | AckLast

  datatype Happening<T> = TimerTick | HandlerReturns | Yields | Creates(thread: T) | SetsFlag(on: bool)

  /** The scheduler, whether a tick is in service at the LAPIC, the interrupt flag, and the threads inside the
      handler of a tick. */
  datatype Cpu<T> = Cpu(sched: State<T>, inService: bool, interruptsOn: bool, handling: set<T>)
  {
    function Running(): T
      requires |sched.ring| > 0
    {
      sched.ring[0]
    }
  }

  predicate Can<T(==)>(c: Cpu<T>, h: Happening<T>)
    requires |c.sched.ring| > 0
  {
    match h
    case TimerTick => !c.inService && c.interruptsOn && c.Running() !in c.handling
    case HandlerReturns => c.Running() in c.handling
    case Yields => c.Running() !in c.handling
    case Creates(t) => c.Running() !in c.handling && t !in c.sched.ring && t !in c.handling
    case SetsFlag(_) => c.Running() !in c.handling
  }

  /** The flag is saved and cleared when a tick is taken, and back on when its handler returns; a switch
      leaves it as it is. */
  function Step<T(==)>(c: Cpu<T>, h: Happening<T>, order: Order): (d: Cpu<T>)
    requires |c.sched.ring| > 0 && Can(c, h)
    ensures |d.sched.ring| > 0
  {
    match h
    case TimerTick => Cpu(c.sched.Step(Tick), order == AckLast, false, c.handling + {c.Running()})
    case HandlerReturns => Cpu(c.sched, c.inService && order == AckFirst, true, c.handling - {c.Running()})
    case Yields => c.(sched := c.sched.Step(Yield))
    case Creates(t) => c.(sched := c.sched.Step(Add(t)))
    case SetsFlag(on) => c.(interruptsOn := on)
  }

  predicate CanRun<T(==)>(c: Cpu<T>, run: seq<Happening<T>>, order: Order)
    requires |c.sched.ring| > 0
    decreases |run|
  {
    run == [] || (Can(c, run[0]) && CanRun(Step(c, run[0], order), run[1..], order))
  }

  function Run<T(==)>(c: Cpu<T>, run: seq<Happening<T>>, order: Order): (d: Cpu<T>)
    requires |c.sched.ring| > 0 && CanRun(c, run, order)
    ensures |d.sched.ring| > 0
    decreases |run|
  {
    if run == [] then c else Run(Step(c, run[0], order), run[1..], order)
  }

  /** Acknowledging last, a tick is in service exactly while some thread is inside its handler. */
  ghost predicate Owed<T(!new)>(c: Cpu<T>) {
    && (c.inService <==> c.handling != {})
    && forall t, u :: t in c.handling && u in c.handling ==> t == u
  }

  lemma {:induction false} OwedWhileHandling<T(!new)>(c: Cpu<T>, run: seq<Happening<T>>)
    requires |c.sched.ring| > 0 && Owed(c) && CanRun(c, run, AckLast)
    ensures Owed(Run(c, run, AckLast))
    decreases |run|
  {
    if run != [] {
      OwedWhileHandling(Step(c, run[0], AckLast), run[1..]);
    }
  }

  /** The tick is in service, but the code that runs is not its handler. */
  predicate Starved<T(==)>(c: Cpu<T>)
    requires |c.sched.ring| > 0
  {
    c.inService && c.Running() !in c.handling
  }

  /** A tick starves the processor exactly if it is acknowledged last and switches threads. */
  lemma SwitchingTickStarves<T(!new)>(c: Cpu<T>, order: Order)
    requires c.sched.Valid() && Can(c, TimerTick) && (order == AckLast ==> Owed(c))
    ensures Starved(Step(c, TimerTick, order))
       <==> order == AckLast && c.sched.Switches(Tick) && |c.sched.ring| > 1
  {
    if c.sched.Switches(Tick) && |c.sched.ring| > 1 {
      assert Rotated(c.sched.ring)[0] == c.sched.ring[1];
    }
  }

  /** From then on, in every run in which the running thread does not yield of its own accord, there is no
      further tick and no other thread ever runs, whether or not it turns interrupts on. */
  lemma {:induction false} StarvedForEver<T>(c: Cpu<T>, run: seq<Happening<T>>)
    requires |c.sched.ring| > 0 && Starved(c) && CanRun(c, run, AckLast) && Yields !in run
    ensures TimerTick !in run && Starved(Run(c, run, AckLast)) && Run(c, run, AckLast).Running() == c.Running()
    decreases |run|
  {
    if run != [] {
      assert run == [run[0]] + run[1..];
      StarvedForEver(Step(c, run[0], AckLast), run[1..]);
    }
  }
}
