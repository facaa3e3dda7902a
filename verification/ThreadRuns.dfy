/** Runs of the machine: any sequence of what code, timer and interrupts can do, one step after the
    other, and what threads, interrupted code and the scheduler can rely on over all of them. */
module ThreadRuns {
  import opened Words
  import opened ReadyRing
  import opened Threads

  ghost predicate Trace(moments: seq<Moment>, ops: seq<Operation>) {
    && |moments| == |ops| + 1
    && (forall i :: 0 <= i < |moments| ==> moments[i].Intact() && moments[i].ticks < TIME_SLICE_TICKS)
    && forall i :: 0 <= i < |ops| ==> Stepped(moments[i], ops[i], moments[i + 1])
  }

  lemma TraceGrows(moments: seq<Moment>, ops: seq<Operation>, op: Operation, n: Moment)
    requires Trace(moments, ops) && Stepped(moments[|ops|], op, n) && n.Intact() && n.ticks < TIME_SLICE_TICKS
    ensures Trace(moments + [n], ops + [op])
  {
    hide Stepped, Moment.Intact;
    var moments', ops' := moments + [n], ops + [op];
    forall i | 0 <= i < |ops'| ensures Stepped(moments'[i], ops'[i], moments'[i + 1]) {
      if i < |ops| {
        assert Stepped(moments[i], ops[i], moments[i + 1]);
      }
    }
  }

  /** Does one operation after the other, up to the first that is not possible.  What happens is a
      trace, so what follows holds of it. */
  method Execute(machine: Machine, ops: seq<Operation>) returns (done: nat, ghost moments: seq<Moment>)
    requires machine.Valid()
    modifies machine, machine.ram, machine.view.contexts.Keys`stackPointer, machine.view.contexts.Keys`next
    ensures machine.Valid() && done <= |ops| && |moments| == done + 1 && Trace(moments, ops[..done])
    ensures moments[0] == old(machine.Now()) && moments[done] == machine.Now()
    ensures done < |ops| ==> !Allowed(machine.Now(), ops[done])
  {
    hide Stepped, Trace, Linked, PointersSaved, StacksIntact, Allowed;
    done, moments := 0, [machine.Now()];
    NoStep(machine.Now());
    while done < |ops| && Allowed(machine.Now(), ops[done])
      invariant machine.Valid() && done <= |ops| && |moments| == done + 1 && Trace(moments, ops[..done])
      invariant moments[0] == old(machine.Now()) && moments[done] == machine.Now()
      invariant forall t :: t in machine.view.contexts ==> t in old(machine.view).contexts || fresh(t)
    {
      machine.Do(ops[done]);
      TraceGrows(moments, ops[..done], ops[done], machine.Now());
      assert ops[..done + 1] == ops[..done] + [ops[done]];
      done, moments := done + 1, moments + [machine.Now()];
    }
  }

  lemma NoStep(m: Moment)
    requires m.Intact() && m.ticks < TIME_SLICE_TICKS
    ensures Trace([m], [])
  {
  }

  // ----- Suspended threads

  /** A step changes nothing for the threads that are not running. */
  lemma OthersUnchanged(m: Moment, op: Operation, n: Moment, t: Thread)
    requires m.Intact() && Stepped(m, op, n) && t in m.view.contexts && t != m.view.ring[0]
    ensures t in n.view.contexts && n.view.contexts[t] == m.view.contexts[t]
  {
  }

  lemma {:induction false} SuspendedUntilItRuns(moments: seq<Moment>, ops: seq<Operation>, i: nat, j: nat, t: Thread)
    requires Trace(moments, ops) && i <= j < |moments| && t in moments[i].view.contexts
    requires forall k :: i <= k < j ==> moments[k].view.ring[0] != t
    ensures t in moments[j].view.contexts && moments[j].view.contexts[t] == moments[i].view.contexts[t]
    decreases j - i
  {
    hide Stepped, StacksIntact, Distinct, Limit;
    if i < j {
      assert Stepped(moments[i], ops[i], moments[i + 1]);
      OthersUnchanged(moments[i], ops[i], moments[i + 1], t);
      SuspendedUntilItRuns(moments, ops, i + 1, j, t);
    }
  }

  /** A thread that stops running is suspended as it is. */
  lemma StopsRunning(m: Moment, op: Operation, n: Moment)
    requires m.Intact() && n.Intact() && Stepped(m, op, n) && n.view.ring[0] != m.view.ring[0]
    ensures op.SwitchOnYield? || op.SwitchOnTick?
    ensures var t := m.view.ring[0];
            && t in n.view.contexts && n.view.contexts[t] == Context(m.view.Pending(), m.Suspension(op.returnAddress))
  {
  }

  /** A thread that starts running goes on as it was suspended. */
  lemma StartsRunning(m: Moment, op: Operation, n: Moment)
    requires m.Intact() && n.Intact() && Stepped(m, op, n) && n.view.ring[0] != m.view.ring[0]
    ensures var t := n.view.ring[0];
            && t in m.view.contexts && GoesOn(n, m.cpu, m.view.contexts[t].resume)
            && n.view.Pending() == m.view.contexts[t].pending
  {
  }

  /** The round trip: a thread that was running at i and runs again for the first time at j does so with
      its registers, at its return address, with its stack pointer, its stack and its pending interrupts. */
  lemma RoundTrip(moments: seq<Moment>, ops: seq<Operation>, i: nat, j: nat)
    requires Trace(moments, ops) && i + 1 < j < |moments| && moments[j].view.ring[0] == moments[i].view.ring[0]
    requires forall k :: i < k < j ==> moments[k].view.ring[0] != moments[i].view.ring[0]
    ensures ops[i].SwitchOnYield? || ops[i].SwitchOnTick?
    ensures moments[j].cpu.callee == moments[i].cpu.callee && moments[j].cpu.rip == ops[i].returnAddress
    ensures moments[j].cpu.rsp == moments[i].cpu.rsp && moments[j].Stack() == moments[i].Stack()
    ensures moments[j].view.Pending() == moments[i].view.Pending()
  {
    hide Stepped, StacksIntact, Distinct, Limit;
    var t := moments[i].view.ring[0];
    StopsRunning(moments[i], ops[i], moments[i + 1]);
    SuspendedUntilItRuns(moments, ops, i + 1, j - 1, t);
    StartsRunning(moments[j - 1], ops[j - 1], moments[j]);
  }

  lemma CreatesWith(m: Moment, op: Operation, n: Moment, t: Thread)
    requires m.Intact() && Stepped(m, op, n) && op.Create? && t !in m.view.contexts && t in n.view.contexts
    ensures n.view.ring[0] == m.view.ring[0] && t != n.view.ring[0]
    ensures n.view.contexts[t] == Context([], FirstResume(op.entry, op.arg, m.trampoline, t.top))
  {
  }

  /** A new thread that runs for the first time at j starts at the trampoline, with the entry function and
      its argument in the registers it looks for them, on an empty stack. */
  lemma FirstRun(moments: seq<Moment>, ops: seq<Operation>, i: nat, j: nat, t: Thread)
    requires Trace(moments, ops) && i < j < |moments| && ops[i].Create? && t !in moments[i].view.contexts
    requires t in moments[i + 1].view.contexts && moments[j].view.ring[0] == t
    requires forall k :: i < k < j ==> moments[k].view.ring[0] != t
    ensures moments[j].cpu.callee.r12 == ops[i].entry && moments[j].cpu.callee.r13 == ops[i].arg
    ensures moments[j].cpu.rip == moments[i].trampoline && moments[j].cpu.rsp == t.top
    ensures moments[j].view.Pending() == []
  {
    hide Stepped, StacksIntact, Distinct, Limit;
    assert Stepped(moments[i], ops[i], moments[i + 1]);
    CreatesWith(moments[i], ops[i], moments[i + 1], t);
    SuspendedUntilItRuns(moments, ops, i + 1, j - 1, t);
    StartsRunning(moments[j - 1], ops[j - 1], moments[j]);
  }

  // ----- Interrupted code

  /** An interrupt is entered or left, or neither. */
  ghost predicate PendingStep(before: seq<Frame>, after: seq<Frame>) {
    || after == before
    || (before != [] && after == before[..|before| - 1])
    || (after != [] && before == after[..|after| - 1])
  }

  lemma PendingSteps(m: Moment, op: Operation, n: Moment, t: Thread)
    requires m.Intact() && Stepped(m, op, n) && t in m.view.contexts
    ensures t in n.view.contexts && PendingStep(m.view.contexts[t].pending, n.view.contexts[t].pending)
  {
  }

  /** The frames of the interrupts that a thread is in stay as they are. */
  lemma {:induction false} FramesKept(moments: seq<Moment>, ops: seq<Operation>, i: nat, j: nat, t: Thread, n: nat)
    requires Trace(moments, ops) && i <= j < |moments| && t in moments[i].view.contexts
    requires forall k :: i <= k <= j && t in moments[k].view.contexts ==> n <= |moments[k].view.contexts[t].pending|
    ensures t in moments[j].view.contexts
    ensures moments[j].view.contexts[t].pending[..n] == moments[i].view.contexts[t].pending[..n]
    decreases j - i
  {
    hide Stepped, StacksIntact, Distinct, Limit;
    if i < j {
      assert Stepped(moments[i], ops[i], moments[i + 1]);
      PendingSteps(moments[i], ops[i], moments[i + 1], t);
      FramesKept(moments, ops, i + 1, j, t, n);
    }
  }

  lemma EntersWith(m: Moment, op: Operation, n: Moment)
    requires m.Intact() && n.Intact() && Stepped(m, op, n) && op.Enter?
    ensures FRAME_WORDS < m.cpu.rsp <= m.view.ring[0].top
    ensures m.view.ring[0] in n.view.contexts
    ensures var f := m.NewFrame(op.vector);
            && n.view.contexts[m.view.ring[0]].pending == m.view.Pending() + [f]
            && f.cpu == m.cpu && f.above == m.Stack() && f.vector == op.vector
  {
  }

  lemma LeavesWith(m: Moment, op: Operation, n: Moment)
    requires m.Intact() && n.Intact() && Stepped(m, op, n) && op.Leave?
    ensures m.view.Pending() != [] && n.view.ring[0] == m.view.ring[0]
    ensures n.view.Pending() == m.view.Pending()[..|m.view.Pending()| - 1]
    ensures var f := m.view.Pending()[|m.view.Pending()| - 1]; n.cpu == f.cpu && n.Stack() == f.above
  {
  }

  /** The interrupt round trip: whatever runs in between, on this stack or others, the return from an
      interrupt gives the interrupted code back all its registers, its flags and its stack. */
  lemma InterruptRoundTrip(moments: seq<Moment>, ops: seq<Operation>, i: nat, j: nat)
    requires Trace(moments, ops) && i < j < |ops| && ops[i].Enter? && ops[j].Leave?
    requires moments[j].view.ring[0] == moments[i].view.ring[0]
    requires var t, depth := moments[i].view.ring[0], |moments[i].view.Pending()|;
             && (forall k :: i < k <= j && t in moments[k].view.contexts ==>
                   depth < |moments[k].view.contexts[t].pending|)
             && |moments[j].view.Pending()| == depth + 1
    ensures moments[j + 1].cpu == moments[i].cpu && moments[j + 1].view.ring[0] == moments[i].view.ring[0]
    ensures moments[j + 1].Stack() == moments[i].Stack() && moments[j + 1].view.Pending() == moments[i].view.Pending()
  {
    hide Stepped, StacksIntact, Distinct, Limit;
    var t, depth := moments[i].view.ring[0], |moments[i].view.Pending()|;
    EntersWith(moments[i], ops[i], moments[i + 1]);
    FramesKept(moments, ops, i + 1, j, t, depth + 1);
    LeavesWith(moments[j], ops[j], moments[j + 1]);
    var frames := moments[j].view.Pending();
    assert frames[..depth + 1] == frames;
  }

  /** The stack of the running thread has room for the frame of an interrupt. */
  predicate HasRoom(m: Moment)
    requires |m.view.ring| > 0
  {
    m.view.ring[0].base + FRAME_WORDS + 1 <= m.cpu.rsp
  }

  /** Because an interrupt is acknowledged before its handler is called, none is ever left in service: what
      keeps the next one out is the interrupt flag, and nothing else. */
  lemma {:induction false} InterruptsGetThrough(moments: seq<Moment>, ops: seq<Operation>, j: nat, vector: uint64)
    requires Trace(moments, ops) && j < |moments| && !moments[0].inService && vector >= 32
    ensures !moments[j].inService
    ensures HasRoom(moments[j]) ==> (Allowed(moments[j], Enter(vector)) <==> InterruptsOn(moments[j].cpu.rflags))
    decreases j
  {
    hide StacksIntact, Distinct, Limit;
    if j > 0 {
      InterruptsGetThrough(moments, ops, j - 1, vector);
      assert Stepped(moments[j - 1], ops[j - 1], moments[j]);
    }
  }

  // ----- The interrupt flag across switches

  /** A switch leaves the interrupt flag as it is: nothing is stored with the thread that stops. */
  lemma SwitchCarriesFlag(m: Moment, op: Operation, n: Moment)
    requires m.Intact() && n.Intact() && Stepped(m, op, n) && n.view.ring[0] != m.view.ring[0]
    ensures n.cpu.rflags == m.cpu.rflags
  {
  }

  /** A thread that stopped in sched_yield, outside any handler, goes on with the interrupt flag of whoever
      switched to it: it can be interrupted if and only if that code had interrupts on. */
  lemma ResumesWithForeignFlag(moments: seq<Moment>, ops: seq<Operation>, i: nat, j: nat, vector: uint64)
    requires Trace(moments, ops) && i + 1 < j < |moments| && moments[j].view.ring[0] == moments[i].view.ring[0]
    requires forall k :: i < k < j ==> moments[k].view.ring[0] != moments[i].view.ring[0]
    requires moments[i].view.Pending() == []
    ensures moments[j].view.Pending() == []
    ensures InterruptsOn(moments[j].cpu.rflags) <==> InterruptsOn(moments[j - 1].cpu.rflags)
    ensures !InterruptsOn(moments[j - 1].cpu.rflags) ==> !Allowed(moments[j], Enter(vector))
    ensures !moments[0].inService && vector >= 32 && HasRoom(moments[j]) ==>
              (Allowed(moments[j], Enter(vector)) <==> InterruptsOn(moments[j - 1].cpu.rflags))
  {
    hide Stepped, StacksIntact, Distinct, Limit;
    RoundTrip(moments, ops, i, j);
    SwitchCarriesFlag(moments[j - 1], ops[j - 1], moments[j]);
    if !moments[0].inService && vector >= 32 {
      InterruptsGetThrough(moments, ops, j, vector);
    }
  }

  /** As long as interrupts are off and nobody turns them on, by an instruction or by returning from a
      handler, there is none, whichever threads run. */
  lemma {:induction false} MaskedUntilTurnedOn(moments: seq<Moment>, ops: seq<Operation>, i: nat, j: nat)
    requires Trace(moments, ops) && i <= j < |moments| && !InterruptsOn(moments[i].cpu.rflags)
    requires forall k :: i <= k < j ==> !ops[k].Leave? && !(ops[k].Run? && InterruptsOn(ops[k].to.rflags))
    ensures !InterruptsOn(moments[j].cpu.rflags) && forall k :: i <= k < j ==> !ops[k].Enter?
    decreases j
  {
    hide StacksIntact, Distinct, Limit;
    if i < j {
      MaskedUntilTurnedOn(moments, ops, i, j - 1);
      assert Stepped(moments[j - 1], ops[j - 1], moments[j]);
    }
  }

  ghost predicate NobodyInHandler(m: Moment) {
    forall t :: t in m.view.contexts ==> m.view.contexts[t].pending == []
  }

  lemma YielderSteps(m: Moment, op: Operation, n: Moment)
    requires m.Intact() && n.Intact() && Stepped(m, op, n) && NobodyInHandler(m) && !InterruptsOn(m.cpu.rflags)
    requires !(op.Run? && InterruptsOn(op.to.rflags))
    ensures !InterruptsOn(n.cpu.rflags) && NobodyInHandler(n) && !op.Enter?
  {
    hide StacksIntact, Distinct, Limit;
  }

  /** So if interrupts are off while every thread is outside handlers, no tick arrives any more, however
      often threads yield to each other, unless one of them turns interrupts on. */
  lemma {:induction false} NoTickAmongYielders(moments: seq<Moment>, ops: seq<Operation>, i: nat, j: nat)
    requires Trace(moments, ops) && i <= j < |moments| && !InterruptsOn(moments[i].cpu.rflags)
    requires NobodyInHandler(moments[i])
    requires forall k :: i <= k < j ==> !(ops[k].Run? && InterruptsOn(ops[k].to.rflags))
    ensures !InterruptsOn(moments[j].cpu.rflags) && NobodyInHandler(moments[j])
    ensures forall k :: i <= k < j ==> !ops[k].Enter?
    decreases j
  {
    hide Stepped, StacksIntact, Distinct, Limit, NobodyInHandler;
    if i < j {
      NoTickAmongYielders(moments, ops, i, j - 1);
      assert Stepped(moments[j - 1], ops[j - 1], moments[j]);
      YielderSteps(moments[j - 1], ops[j - 1], moments[j]);
    }
  }

  /** Interrupted code had interrupts on; who is not running is inside a handler or has not started; and code
      outside handlers has interrupts on, but for the first instruction of the trampoline. */
  ghost predicate Preemptible(m: Moment)
    requires |m.view.ring| > 0 && m.view.ring[0] in m.view.contexts
  {
    && (forall t :: t in m.view.contexts ==> AllInterruptible(m.view.contexts[t].pending))
    && (forall t :: t in m.view.contexts && t != m.view.ring[0] ==>
          m.view.contexts[t].pending != [] || m.view.contexts[t].resume.rip == m.trampoline)
    && (m.view.Pending() == [] ==> InterruptsOn(m.cpu.rflags) || m.cpu.rip == m.trampoline)
  }

  ghost predicate AllInterruptible(frames: seq<Frame>) {
    forall k :: 0 <= k < |frames| ==> InterruptsOn(frames[k].cpu.rflags)
  }

  /** Code outside handlers does not switch of its own accord, and leaves interrupts on or turns them on. */
  predicate Mannered(m: Moment, op: Operation)
    requires |m.view.ring| > 0 && m.view.ring[0] in m.view.contexts
  {
    m.view.Pending() == [] ==>
      !op.SwitchOnYield? && !op.SwitchOnTick? && (op.Run? ==> InterruptsOn(op.to.rflags))
  }

  lemma StepKeepsPreemptible(m: Moment, op: Operation, n: Moment)
    requires m.Intact() && n.Intact() && Stepped(m, op, n) && Preemptible(m) && Mannered(m, op)
    ensures Preemptible(n)
  {
    hide StacksIntact, Distinct, Limit;
  }

  /** Among threads that never yield, every thread can be preempted whenever it is outside a handler. */
  lemma {:induction false} PreemptionStaysPossible(moments: seq<Moment>, ops: seq<Operation>, j: nat, vector: uint64)
    requires Trace(moments, ops) && j < |moments| && Preemptible(moments[0]) && !moments[0].inService
    requires forall k :: 0 <= k < j ==> Mannered(moments[k], ops[k])
    ensures Preemptible(moments[j])
    ensures var m := moments[j];
            m.view.Pending() == [] && m.cpu.rip != m.trampoline && HasRoom(m) && vector >= 32 ==>
              Allowed(m, Enter(vector))
    decreases j
  {
    hide Stepped, StacksIntact, Distinct, Limit;
    if j > 0 {
      PreemptionStaysPossible(moments, ops, j - 1, vector);
      assert Stepped(moments[j - 1], ops[j - 1], moments[j]);
      StepKeepsPreemptible(moments[j - 1], ops[j - 1], moments[j]);
    }
    if vector >= 32 {
      InterruptsGetThrough(moments, ops, j, vector);
    }
  }

  lemma AfterEnter(m: Moment, k: Moment)
    requires m.Intact() && k.Intact() && Stepped(m, Enter(32), k) && m.view.Pending() == []
    requires m.view.ring[0].base + FRAME_WORDS + 8 <= m.cpu.rsp
    ensures k.view.ring == m.view.ring && k.ticks == m.ticks && k.view.contexts.Keys == m.view.contexts.Keys
    ensures k.view.Pending() == [m.NewFrame(32)] && m.NewFrame(32).cpu == m.cpu
    ensures k.cpu.rsp == Limit(k.view.ring[0], k.view.Pending()) && m.view.ring[0].base + 7 <= k.cpu.rsp
    ensures forall t :: t in m.view.contexts && t != m.view.ring[0] ==> k.view.contexts[t] == m.view.contexts[t]
  {
    hide StacksIntact, Distinct;
  }

  lemma AfterTick(k: Moment, handlerReturn: uint64, l: Moment)
    requires k.Intact() && Stepped(k, SwitchOnTick(handlerReturn), l) && k.ticks + 1 < TIME_SLICE_TICKS
    ensures l.view == k.view && l.cpu == k.cpu && l.ticks == k.ticks + 1
  {
    hide StacksIntact, Distinct;
  }

  lemma AfterLeave(l: Moment, n: Moment)
    requires l.Intact() && n.Intact() && Stepped(l, Leave, n) && |l.view.Pending()| == 1
    ensures n.view.ring == l.view.ring && n.ticks == l.ticks && n.view.contexts.Keys == l.view.contexts.Keys
    ensures n.view.Pending() == [] && n.cpu == l.view.Pending()[0].cpu
    ensures forall t :: t in l.view.contexts && t != l.view.ring[0] ==> n.view.contexts[t] == l.view.contexts[t]
  {
    hide StacksIntact, Distinct;
  }

  /** A timer interrupt that does not end the slice: the running code goes on as if nothing had been. */
  method TickWithin(machine: Machine, handlerReturn: uint64)
    requires machine.Valid() && machine.view.Pending() == [] && InterruptsOn(machine.cpu.rflags)
    requires machine.ticksSinceSwitch + 1 < TIME_SLICE_TICKS
    requires machine.current.base + FRAME_WORDS + 8 <= machine.cpu.rsp
    modifies machine, machine.ram, machine.current`stackPointer, machine.current`next
    ensures machine.Valid() && machine.view.Pending() == [] && machine.cpu == old(machine.cpu)
    ensures machine.ticksSinceSwitch == old(machine.ticksSinceSwitch) + 1
    ensures machine.view.ring == old(machine.view.ring) && machine.view.contexts.Keys == old(machine.view.contexts.Keys)
    ensures forall t :: t in machine.view.contexts && t != machine.current ==>
              machine.view.contexts[t] == old(machine.view).contexts[t]
  {
    hide StacksIntact, Linked, PointersSaved, Stepped, Distinct, Limit;
    ghost var m := machine.Now();
    machine.Do(Enter(32));
    ghost var k := machine.Now();
    AfterEnter(m, k);
    machine.Do(SwitchOnTick(handlerReturn));
    ghost var l := machine.Now();
    AfterTick(k, handlerReturn, l);
    machine.Do(Leave);
    AfterLeave(l, machine.Now());
  }

  /** The running thread yields to the other one, which goes on as in to. */
  method YieldTo(machine: Machine, returnAddress: uint64, to: Registers)
    requires machine.Valid() && |machine.view.ring| == 2 && machine.view.Pending() == []
    requires machine.current.base + 7 <= machine.cpu.rsp
    requires var b := machine.view.ring[1];
             machine.view.contexts[b].pending == [] && b.base <= to.rsp <= b.top
    modifies machine, machine.ram, machine.view.contexts.Keys`stackPointer, machine.view.contexts.Keys`next
    ensures machine.Valid() && machine.view.Pending() == [] && machine.cpu == to && machine.ticksSinceSwitch == 0
    ensures machine.view.ring == [old(machine.view).ring[1], old(machine.view).ring[0]]
    ensures machine.view.contexts.Keys == old(machine.view.contexts.Keys) && machine.current == machine.view.ring[0]
    ensures var c := machine.view.contexts[old(machine.current)]; c.pending == [] && c.resume.rip == returnAddress
  {
    hide StacksIntact, Linked, PointersSaved;
    machine.Do(SwitchOnYield(returnAddress));
    machine.Do(Run(to));
  }

  /** The timer interrupt that ends the slice, if the other thread is outside any handler. */
  method TickAway(machine: Machine, handlerReturn: uint64)
    requires machine.Valid() && |machine.view.ring| == 2 && machine.view.Pending() == []
    requires InterruptsOn(machine.cpu.rflags) && machine.current.base + FRAME_WORDS + 8 <= machine.cpu.rsp
    requires machine.ticksSinceSwitch + 1 == TIME_SLICE_TICKS
    requires machine.view.contexts[machine.view.ring[1]].pending == []
    modifies machine, machine.ram, machine.current`stackPointer, machine.current`next
    ensures machine.Valid() && machine.current == old(machine.view).ring[1] && machine.view.Pending() == []
    ensures !InterruptsOn(machine.cpu.rflags)
    ensures machine.cpu.rip == old(machine.view).contexts[old(machine.view).ring[1]].resume.rip
  {
    hide StacksIntact, Linked, PointersSaved;
    machine.Do(Enter(32));
    machine.Do(SwitchOnTick(handlerReturn));
  }

  lemma RingIsKnown(machine: Machine)
    requires machine.Valid()
    ensures |machine.view.ring| > 0 && machine.view.ring[0] == machine.current
    ensures |machine.view.ring| > 1 ==> machine.view.ring[0] != machine.view.ring[1]
    ensures forall t :: t in machine.view.ring ==> t in machine.view.contexts
  {
  }

  /** The yield that takes preemption away: a yields to b, b turns interrupts on and runs until the timer ends
      its slice, and a returns from sched_yield with interrupts off, so that no interrupt reaches it. */
  method MaskedByTick(machine: Machine, returnAddress: uint64, handlerReturn: uint64, running: Registers)
    requires machine.Valid() && |machine.view.ring| == 2 && machine.view.Pending() == []
    requires machine.current.base + 7 <= machine.cpu.rsp
    requires var b := machine.view.ring[1];
             && machine.view.contexts[b].pending == []
             && b.base + FRAME_WORDS + 8 <= running.rsp <= b.top && InterruptsOn(running.rflags)
    modifies machine, machine.ram, machine.view.contexts.Keys`stackPointer, machine.view.contexts.Keys`next
    ensures machine.Valid() && machine.current == old(machine.current) && machine.cpu.rip == returnAddress
    ensures machine.view.Pending() == [] && !InterruptsOn(machine.cpu.rflags)
    ensures forall v: uint64 :: !Allowed(machine.Now(), Enter(v))
  {
    hide Machine.Valid, Moment.Intact;
    var a, b := machine.view.ring[0], machine.view.ring[1];
    ghost var keys := machine.view.contexts.Keys;
    RingIsKnown(machine);
    assert a in keys && b in keys;
    YieldTo(machine, returnAddress, running);
    for n := 0 to TIME_SLICE_TICKS - 1
      invariant machine.Valid() && machine.current == b
      invariant machine.view.ring == [b, a] && machine.view.contexts.Keys == keys
      invariant machine.view.Pending() == [] && machine.cpu == running && machine.ticksSinceSwitch == n
      invariant machine.view.contexts[a].pending == [] && machine.view.contexts[a].resume.rip == returnAddress
    {
      TickWithin(machine, handlerReturn);
      RingIsKnown(machine);
    }
    TickAway(machine, handlerReturn);
  }

  // ----- Which handler is called

  /** The handler that was registered last for a vector. */
  function LastRegistered(ops: seq<Operation>, vector: uint64, initial: uint64): uint64 {
    if |ops| == 0 then initial
    else
      var op := ops[|ops| - 1];
      if op.Register? && op.vector == vector then op.handler
      else LastRegistered(ops[..|ops| - 1], vector, initial)
  }

  lemma {:induction false} HandlersAreRegistered(moments: seq<Moment>, ops: seq<Operation>, j: nat, vector: uint64)
    requires Trace(moments, ops) && j < |moments|
    ensures moments[j].HandlerOf(vector) == LastRegistered(ops[..j], vector, moments[0].HandlerOf(vector))
    decreases j
  {
    hide StacksIntact, Distinct, Limit;
    if j > 0 {
      HandlersAreRegistered(moments, ops, j - 1, vector);
      assert Stepped(moments[j - 1], ops[j - 1], moments[j]);
      assert ops[..j][..j - 1] == ops[..j - 1];
    }
  }

  /** An interrupt goes to the handler that was registered last for its vector, with the frame as its argument;
      without one it goes back at once. */
  lemma InterruptReachesHandler(moments: seq<Moment>, ops: seq<Operation>, i: nat)
    requires Trace(moments, ops) && i < |ops| && ops[i].Enter?
    ensures var m, h := moments[i + 1], LastRegistered(ops[..i], ops[i].vector, moments[0].HandlerOf(ops[i].vector));
            && m.view.Pending() != []
            && var f := m.view.Pending()[|m.view.Pending()| - 1];
               && m.cpu.rip == (if h != NULL then h else m.stubRest) && m.cpu.scratch.rdi == 8 * f.addr
               && f.addr + FRAME_WORDS <= |m.view.words| && m.view.words[f.addr + VECTOR_WORD] == ops[i].vector
               && f.cpu == moments[i].cpu
  {
    hide StacksIntact, Distinct;
    assert Stepped(moments[i], ops[i], moments[i + 1]);
    HandlersAreRegistered(moments, ops, i, ops[i].vector);
    EntersWith(moments[i], ops[i], moments[i + 1]);
    FrameHoldsVector(moments[i + 1], moments[i + 1].view.ring[0], |moments[i].view.Pending()|);
  }

  /** The frame in memory says which interrupt it was. */
  lemma FrameHoldsVector(m: Moment, t: Thread, k: nat)
    requires m.Intact() && t in m.view.contexts && k < |m.view.contexts[t].pending|
    ensures var f := m.view.contexts[t].pending[k];
            && f.addr + FRAME_WORDS <= |m.view.words|
            && m.view.words[f.addr + VECTOR_WORD] == f.vector && m.view.words[f.addr + VECTOR_WORD + 1] == f.errorCode
  {
    assert StackIntact(m.view.words, t, m.view.contexts[t].pending);
    assert InPlace(m.view.words, t, m.view.contexts[t].pending, k);
  }

  /** And keeps saying so until it is left, whatever runs in between. */
  lemma FrameKeepsVector(moments: seq<Moment>, ops: seq<Operation>, i: nat, j: nat)
    requires Trace(moments, ops) && i < j < |moments| && ops[i].Enter?
    requires var t, depth := moments[i].view.ring[0], |moments[i].view.Pending()|;
             forall k :: i < k <= j && t in moments[k].view.contexts ==> depth < |moments[k].view.contexts[t].pending|
    ensures FRAME_WORDS < moments[i].cpu.rsp
    ensures var t, f := moments[i].view.ring[0], moments[i].NewFrame(ops[i].vector);
            && t in moments[j].view.contexts && f in moments[j].view.contexts[t].pending
            && f.addr + FRAME_WORDS <= |moments[j].view.words|
            && moments[j].view.words[f.addr + VECTOR_WORD] == ops[i].vector
  {
    hide Stepped, StacksIntact, Distinct, Limit;
    var t, depth := moments[i].view.ring[0], |moments[i].view.Pending()|;
    assert Stepped(moments[i], ops[i], moments[i + 1]);
    EntersWith(moments[i], ops[i], moments[i + 1]);
    FramesKept(moments, ops, i + 1, j, t, depth + 1);
    var frames := moments[j].view.contexts[t].pending;
    assert frames[..depth + 1][depth] == frames[depth];
    FrameHoldsVector(moments[j], t, depth);
  }

  // ----- The scheduler

  /** What a step means to the ready ring. */
  ghost function EventOf(op: Operation, n: Moment): (events: seq<Event<Thread>>)
    ensures |events| <= 1
  {
    match op
    case SwitchOnYield(_) => [Yield]
    case SwitchOnTick(_) => [Tick]
    case Create(_, _, record, stack) =>
      if record && stack.Some? && |n.view.ring| > 1 then [Add(n.view.ring[1])] else []
    case _ => []
  }

  ghost function EventsOf(moments: seq<Moment>, ops: seq<Operation>): seq<Event<Thread>>
    requires |moments| == |ops| + 1
    decreases |ops|
  {
    if ops == [] then [] else EventOf(ops[0], moments[1]) + EventsOf(moments[1..], ops[1..])
  }

  function Ticks(ops: seq<Operation>): nat {
    if ops == [] then 0 else (if ops[0].SwitchOnTick? then 1 else 0) + Ticks(ops[1..])
  }

  function Creations(ops: seq<Operation>): nat {
    if ops == [] then 0
    else (if ops[0].Create? && ops[0].record && ops[0].stack.Some? then 1 else 0) + Creations(ops[1..])
  }

  lemma EventMovesRing(m: Moment, op: Operation, n: Moment)
    requires m.Intact() && n.Intact() && Stepped(m, op, n)
    ensures var events := EventOf(op, n);
            && n.Scheduler() == (if events == [] then m.Scheduler() else m.Scheduler().Step(events[0]))
            && TickCount(events) == Ticks([op]) && AddCount(events) == Creations([op])
            && (events != [] && events[0].Add? ==> events[0].thread !in m.view.ring)
  {
  }

  lemma TailIsTrace(moments: seq<Moment>, ops: seq<Operation>)
    requires Trace(moments, ops) && ops != []
    ensures Trace(moments[1..], ops[1..])
  {
    hide Stepped, Moment.Intact;
    forall i | 0 <= i < |ops| - 1 ensures Stepped(moments[1..][i], ops[1..][i], moments[1..][i + 1]) {
      assert Stepped(moments[i + 1], ops[i + 1], moments[i + 2]);
    }
  }

  lemma OneMoreEvent(s: State<Thread>, head: seq<Event<Thread>>, rest: seq<Event<Thread>>, t: Thread)
    requires |s.ring| > 0 && |head| <= 1
    ensures var s' := if head == [] then s else s.Step(head[0]);
            && ReadyRing.Run(s, head + rest) == ReadyRing.Run(s', rest)
            && (AddsFresh(s, head + rest) <==>
                  (head != [] && head[0].Add? ==> head[0].thread !in s.ring) && AddsFresh(s', rest))
            && (RunsEarlier(s, head + rest, t) ==> s.ring[0] == t || RunsEarlier(s', rest, t))
    ensures TickCount(head + rest) == TickCount(head) + TickCount(rest)
    ensures AddCount(head + rest) == AddCount(head) + AddCount(rest)
  {
    if head == [] {
      assert head + rest == rest;
    } else {
      assert (head + rest)[1..] == rest && head[1..] == [];
    }
  }

  lemma OneMoreOperation(ops: seq<Operation>)
    requires ops != []
    ensures Ticks(ops) == Ticks([ops[0]]) + Ticks(ops[1..])
    ensures Creations(ops) == Creations([ops[0]]) + Creations(ops[1..])
  {
    assert [ops[0]][1..] == [];
  }

  /** The machine runs the ready ring: its ring and its tick counter are those of the events of the run. */
  lemma {:induction false} SchedulerFollows(moments: seq<Moment>, ops: seq<Operation>)
    requires Trace(moments, ops)
    ensures var s, events := moments[0].Scheduler(), EventsOf(moments, ops);
            && |s.ring| > 0 && ReadyRing.Run(s, events) == moments[|ops|].Scheduler() && AddsFresh(s, events)
            && TickCount(events) == Ticks(ops) && AddCount(events) == Creations(ops)
    decreases |ops|
  {
    if ops != [] {
      hide Stepped, StacksIntact, Distinct, Limit, EventOf, State.Step, Ticks, Creations;
      assert Stepped(moments[0], ops[0], moments[1]);
      EventMovesRing(moments[0], ops[0], moments[1]);
      TailIsTrace(moments, ops);
      SchedulerFollows(moments[1..], ops[1..]);
      OneMoreOperation(ops);
      OneMoreEvent(moments[0].Scheduler(), EventOf(ops[0], moments[1]), EventsOf(moments[1..], ops[1..]),
                   moments[0].view.ring[0]);
    }
  }

  lemma {:induction false} NotRunningEarlier(moments: seq<Moment>, ops: seq<Operation>, t: Thread)
    requires Trace(moments, ops) && forall k :: 0 <= k < |ops| ==> moments[k].view.ring[0] != t
    ensures |moments[0].view.ring| > 0 && !RunsEarlier(moments[0].Scheduler(), EventsOf(moments, ops), t)
    decreases |ops|
  {
    if ops != [] {
      hide Stepped, StacksIntact, Distinct, Limit, EventOf, State.Step;
      assert Stepped(moments[0], ops[0], moments[1]);
      EventMovesRing(moments[0], ops[0], moments[1]);
      TailIsTrace(moments, ops);
      NotRunningEarlier(moments[1..], ops[1..], t);
      OneMoreEvent(moments[0].Scheduler(), EventOf(ops[0], moments[1]), EventsOf(moments[1..], ops[1..]), t);
    }
  }

  /** In every run of the machine a thread at distance d runs within 10 (d + creations) timer ticks, less
      those since the last switch. */
  lemma RunsWithin(moments: seq<Moment>, ops: seq<Operation>, t: Thread, d: nat)
    requires Trace(moments, ops) && 0 < d < |moments[0].view.ring| && moments[0].view.ring[d] == t
    requires forall k :: 0 <= k < |ops| ==> moments[k].view.ring[0] != t
    ensures Ticks(ops) <= 10 * (d + Creations(ops)) - moments[0].ticks
    ensures moments[|ops|].view.ring[0] != t ==> Ticks(ops) < 10 * (d + Creations(ops)) - moments[0].ticks
  {
    SchedulerFollows(moments, ops);
    NotRunningEarlier(moments, ops, t);
    WaitingBound(moments[0].Scheduler(), EventsOf(moments, ops), t, d);
  }
}
