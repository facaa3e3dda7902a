/** Kernel threads on one processor: the hand-built first frame of thread_create, the register swap
    of context_switch and thread_trampoline, the interrupt stub that may switch away, and the
    scheduler that drives them.  Stack memory is counted in 8-byte words, so that an address on a
    16-byte boundary is an even word number. */
module Threads {
  import opened Words
  import opened ReadyRing

  const IF_BIT: nat := 0x200
  /** THREAD_STACK_PAGES pages of 512 words. */
  const STACK_WORDS: nat := 2048

  /** The registers that a called function has to preserve. */
  datatype Callee = Callee(rbp: uint64, rbx: uint64, r12: uint64, r13: uint64, r14: uint64, r15: uint64)

  datatype Scratch = Scratch(rax: uint64, rcx: uint64, rdx: uint64, rsi: uint64, rdi: uint64,
                             r8: uint64, r9: uint64, r10: uint64, r11: uint64)

  /** The register file; the stack pointer is a word number. */
  datatype Registers = Registers(callee: Callee, scratch: Scratch, rip: uint64, cs: uint64, rflags: uint64,
                                 rsp: nat, ss: uint64)

  predicate InterruptsOn(rflags: nat) { rflags / IF_BIT % 2 == 1 }

  function WithoutInterrupts(rflags: uint64): (r: uint64)
    ensures !InterruptsOn(r)
  {
    var q := rflags / IF_BIT;
    if InterruptsOn(rflags) then
      DivModUnique(rflags - IF_BIT, IF_BIT, q - 1, rflags % IF_BIT);
      rflags - IF_BIT
    else rflags
  }

  function WithInterrupts(rflags: uint64): (r: uint64)
    ensures InterruptsOn(r)
  {
    var q := rflags / IF_BIT;
    if InterruptsOn(rflags) then rflags
    else
      DivModUnique(rflags + IF_BIT, IF_BIT, q + 1, rflags % IF_BIT);
      assert q % 2 == 0 && q < TWO_64 / IF_BIT;
      rflags + IF_BIT
  }

  // ----- What is on the stacks

  /** How a suspended thread will go on: its registers, its stack pointer, and its stack from there up. */
  datatype Resume = Resume(callee: Callee, rip: uint64, rsp: nat, above: seq<uint64>)

  /** The interrupt frame at addr: which interrupt it was, its error code, and the interrupted code: all its
      registers, its stack pointer, and its stack from there up. */
  datatype Frame = Frame(addr: nat, cpu: Registers, above: seq<uint64>, vector: uint64, errorCode: uint64)

  /** The interrupts that a thread is in the middle of, outermost first, and for a thread that is
      not running how it will go on. */
  datatype Context = Context(pending: seq<Frame>, resume: Resume)

  /** How a new thread will go on the first time it runs. */
  function FirstResume(entry: uint64, arg: uint64, trampoline: uint64, top: nat): Resume {
    Resume(Callee(0, 0, entry, arg, 0, 0), trampoline, top, [])
  }

  const FRAME_WORDS: nat := 22
  /** Where struct interrupt_frame has the vector; the error code follows. */
  const VECTOR_WORD: nat := 15
  /** The vectors below are exceptions. */
  const FIRST_IRQ: nat := 32
  const NULL: nat := 0

  /** What context_switch leaves below the stack pointer of the thread it suspends. */
  ghost predicate ResumeAt(words: seq<uint64>, r: Resume) {
    7 <= r.rsp <= |words| && CalleeAt(words, r.rsp - 7, r.callee) && words[r.rsp - 1] == r.rip
  }

  ghost predicate CalleeAt(words: seq<uint64>, at: nat, c: Callee) {
    && at + 6 <= |words|
    && words[at] == c.r15 && words[at + 1] == c.r14 && words[at + 2] == c.r13
    && words[at + 3] == c.r12 && words[at + 4] == c.rbx && words[at + 5] == c.rbp
  }

  /** What isr_common_stub pushes, struct interrupt_frame from its first field up. */
  ghost predicate SavedAt(words: seq<uint64>, at: nat, c: Callee, s: Scratch) {
    && at + 15 <= |words|
    && words[at] == c.r15 && words[at + 1] == c.r14 && words[at + 2] == c.r13 && words[at + 3] == c.r12
    && words[at + 4] == s.r11 && words[at + 5] == s.r10 && words[at + 6] == s.r9 && words[at + 7] == s.r8
    && words[at + 8] == c.rbp && words[at + 9] == s.rdi && words[at + 10] == s.rsi && words[at + 11] == s.rdx
    && words[at + 12] == s.rcx && words[at + 13] == c.rbx && words[at + 14] == s.rax
  }

  /** What the processor pushes when it takes an interrupt in 64-bit mode. */
  ghost predicate InterruptedAt(words: seq<uint64>, at: nat, cpu: Registers) {
    && at + 5 <= |words|
    && words[at] == cpu.rip && words[at + 1] == cpu.cs && words[at + 2] == cpu.rflags
    && words[at + 3] == 8 * cpu.rsp && words[at + 4] == cpu.ss
  }

  /** The frame is intact in memory, and so is the stack above it. */
  ghost predicate FrameIntact(words: seq<uint64>, f: Frame, t: Thread) {
    && t.base <= f.addr && f.addr + FRAME_WORDS <= f.cpu.rsp <= t.top <= |words|
    && SavedAt(words, f.addr, f.cpu.callee, f.cpu.scratch) && InterruptedAt(words, f.addr + 17, f.cpu)
    && words[f.addr + VECTOR_WORD] == f.vector && words[f.addr + VECTOR_WORD + 1] == f.errorCode
    && words[f.cpu.rsp..t.top] == f.above
  }

  /** Frame k is intact, and it interrupted code below the frame before it. */
  ghost predicate InPlace(words: seq<uint64>, t: Thread, frames: seq<Frame>, k: nat)
    requires k < |frames|
  {
    FrameIntact(words, frames[k], t) && (k > 0 ==> frames[k].cpu.rsp <= frames[k - 1].addr)
  }

  /** The code that runs on the stack of t owns the words below here. */
  function Limit(t: Thread, frames: seq<Frame>): nat {
    if frames == [] then t.top else frames[|frames| - 1].addr
  }

  ghost predicate StackIntact(words: seq<uint64>, t: Thread, frames: seq<Frame>) {
    && t.base <= Limit(t, frames) <= t.top <= |words|
    && forall k :: 0 <= k < |frames| ==> InPlace(words, t, frames, k)
  }

  /** The thread can go on where it left off: its stack pointer is inside its own stack, and the
      stack holds what it held. */
  ghost predicate Suspended(words: seq<uint64>, t: Thread, c: Context) {
    && t.base + 7 <= c.resume.rsp <= Limit(t, c.pending) <= t.top <= |words|
    && ResumeAt(words, c.resume) && words[c.resume.rsp..t.top] == c.resume.above
  }

  predicate Apart(s: Thread, t: Thread) { s.top <= t.base || t.top <= s.base }

  ghost predicate AllApart(threads: set<Thread>) {
    forall t, u :: t in threads && u in threads && t != u ==> Apart(t, u)
  }

  /** The stacks are disjoint parts of memory, and every thread but the running one can go on. */
  ghost predicate StacksIntact(words: seq<uint64>, contexts: map<Thread, Context>, current: Thread) {
    && (forall t :: t in contexts ==> StackIntact(words, t, contexts[t].pending))
    && (forall t :: t in contexts && t != current ==> Suspended(words, t, contexts[t]))
    && AllApart(contexts.Keys)
  }

  // ----- Threads and the ready ring

  class Thread {
    const base: nat
    const top: nat
    var stackPointer: nat
    var id: nat
    var next: Thread?

    constructor (base: nat, top: nat, stackPointer: nat)
      ensures this.base == base && this.top == top && this.stackPointer == stackPointer && id == 0
    {
      this.base, this.top, this.stackPointer := base, top, stackPointer;
      id, next := 0, null;
    }
  }

  /** What memory holds, the threads in the order of their next links, the running one first, and
      the state of each thread. */
  datatype View = View(words: seq<uint64>, ring: seq<Thread>, contexts: map<Thread, Context>)
  {
    /** Every thread is in the ring once, and every one but the first can go on. */
    ghost predicate Intact() {
      && |ring| > 0 && 8 * |words| < TWO_64
      && Distinct(ring) && (forall i :: 0 <= i < |ring| ==> ring[i] in contexts)
      && StacksIntact(words, contexts, ring[0])
    }

    /** The interrupts that the running thread is in the middle of. */
    function Pending(): seq<Frame>
      requires |ring| > 0 && ring[0] in contexts
    {
      contexts[ring[0]].pending
    }

    /** The running thread stops as described by r, and its successor takes its place. */
    function Switched(after: seq<uint64>, r: Resume): View
      requires |ring| > 0 && ring[0] in contexts
    {
      View(after, Rotated(ring), contexts[ring[0] := Context(Pending(), r)])
    }

    /** The running thread is in the middle of these interrupts. */
    function WithPending(frames: seq<Frame>): View
      requires |ring| > 0 && ring[0] in contexts
    {
      View(words, ring, contexts[ring[0] := contexts[ring[0]].(pending := frames)])
    }

    /** The running code is interrupted as described by f. */
    function Interrupted(after: seq<uint64>, f: Frame): View
      requires |ring| > 0 && ring[0] in contexts
    {
      this.(words := after).WithPending(Pending() + [f])
    }

    /** The innermost interrupt of the running thread is over. */
    function Returned(): View
      requires |ring| > 0 && ring[0] in contexts && Pending() != []
    {
      WithPending(Pending()[..|Pending()| - 1])
    }

    /** Thread t comes after the running one, in state c. */
    function Added(t: Thread, c: Context): View
      requires |ring| > 0
    {
      View(words, Inserted(ring, t), contexts[t := c])
    }
  }

  ghost predicate Distinct(ring: seq<Thread>) {
    forall i, j :: 0 <= i < j < |ring| ==> ring[i] != ring[j]
  }

  /** Following the next links gives the ring. */
  ghost predicate Linked(ring: seq<Thread>)
    reads ring`next
  {
    forall i :: 0 <= i < |ring| ==> LinkedAt(ring, i)
  }

  ghost predicate LinkedAt(ring: seq<Thread>, i: nat)
    requires i < |ring|
    reads ring`next
  {
    ring[i].next == ring[if i + 1 < |ring| then i + 1 else 0]
  }

  /** The stored stack pointers of the threads that are not running. */
  ghost predicate PointersSaved(contexts: map<Thread, Context>, current: Thread)
    reads contexts.Keys`stackPointer
  {
    forall t :: t in contexts && t != current ==> t.stackPointer + 7 == contexts[t].resume.rsp
  }

  // ----- Steps

  datatype Operation =
    | Run(to: Registers)
    | Write(at: nat, v: uint64)
    | SwitchOnYield(returnAddress: uint64)
    | SwitchOnTick(returnAddress: uint64)
    | Enter(vector: uint64)
    | Leave
    | Create(entry: uint64, arg: uint64, record: bool, stack: Option<nat>)
    | Register(vector: uint64, handler: uint64)

  /** The threads, the processor, the ticks since the last switch, where the trampoline is, whether the LAPIC has
      an interrupt in service, the table of handlers, and where the stub goes on after isr_dispatch. */
  datatype Moment = Moment(view: View, cpu: Registers, ticks: nat, trampoline: uint64, inService: bool,
                           handlers: map<uint64, uint64>, stubRest: uint64)
  {
    /** The handler of a vector; NULL if there is none. */
    function HandlerOf(vector: uint64): uint64 {
      if vector in handlers then handlers[vector] else NULL
    }

    /** Where the processor goes on once an interrupt has been dispatched: in its handler, or at once in the
        rest of the stub. */
    function DispatchTarget(vector: uint64): uint64 {
      if HandlerOf(vector) != NULL then HandlerOf(vector) else stubRest
    }

    ghost predicate Intact() {
      && view.Intact()
      && view.ring[0].base <= cpu.rsp <= Limit(view.ring[0], view.Pending()) <= view.ring[0].top <= |view.words|
    }

    /** The words on the stack of the running thread, from its stack pointer up. */
    function Stack(): seq<uint64>
      requires |view.ring| > 0 && cpu.rsp <= view.ring[0].top <= |view.words|
    {
      view.words[cpu.rsp..view.ring[0].top]
    }

    /** How the running code would go on if it were suspended in a call that returns to returnAddress. */
    function Suspension(returnAddress: uint64): Resume
      requires |view.ring| > 0 && cpu.rsp <= view.ring[0].top <= |view.words|
    {
      Resume(cpu.callee, returnAddress, cpu.rsp, Stack())
    }

    /** The frame of an interrupt taken now. */
    function NewFrame(vector: uint64): Frame
      requires |view.ring| > 0 && FRAME_WORDS < cpu.rsp <= view.ring[0].top <= |view.words|
    {
      Frame(cpu.rsp - cpu.rsp % 2 - FRAME_WORDS, cpu, Stack(), vector, 0)
    }

    function Scheduler(): State<Thread> {
      State(view.ring, ticks)
    }
  }

  /** What the processor, the code it runs, and the LAPIC can do next. */
  predicate Allowed(m: Moment, op: Operation)
    requires |m.view.ring| > 0 && m.view.ring[0] in m.view.contexts
  {
    var t, limit := m.view.ring[0], Limit(m.view.ring[0], m.view.Pending());
    match op
    case Run(to) => t.base <= to.rsp <= limit
    case Write(at, v) => t.base <= at < limit
    case SwitchOnYield(_) => t.base + 7 <= m.cpu.rsp
    case SwitchOnTick(_) => t.base + 7 <= m.cpu.rsp
    case Enter(vector) =>
      !m.inService && InterruptsOn(m.cpu.rflags) && t.base + FRAME_WORDS + 1 <= m.cpu.rsp && vector >= 32
    case Leave => m.view.Pending() != [] && m.cpu.rsp == limit
    case Register(_, _) => true
    case Create(_, _, _, stack) => stack.Some? ==>
      && stack.value % 512 == 0 && stack.value + STACK_WORDS <= |m.view.words|
      && forall u: Thread :: u in m.view.contexts ==> stack.value + STACK_WORDS <= u.base || u.top <= stack.value
  }

  /** The running code goes on as described by r, with what else was in the registers. */
  ghost predicate GoesOn(n: Moment, was: Registers, r: Resume) {
    && |n.view.ring| > 0 && n.cpu == was.(callee := r.callee, rip := r.rip, rsp := r.rsp)
    && r.rsp <= n.view.ring[0].top <= |n.view.words| && n.Stack() == r.above
  }

  /** The running thread is suspended with everything it has, and its successor goes on with
      everything it had when it was suspended; a thread that is alone just goes on. */
  ghost predicate SwitchedOver(m: Moment, returnAddress: uint64, n: Moment)
    requires m.Intact()
  {
    if |m.view.ring| == 1 then n.view == m.view && n.cpu == m.cpu
    else
      && n.view == m.view.Switched(n.view.words, m.Suspension(returnAddress))
      && GoesOn(n, m.cpu, m.view.contexts[m.view.ring[1]].resume)
  }

  /** A new thread comes after the running one, and nothing outside its stack is written. */
  ghost predicate Created(m: Moment, entry: uint64, arg: uint64, base: nat, t: Thread, n: Moment)
    requires |m.view.ring| > 0
  {
    && t !in m.view.contexts && t.base == base && t.top == base + STACK_WORDS
    && n.view == m.view.Added(t, Context([], FirstResume(entry, arg, m.trampoline, t.top))).(words := n.view.words)
    && |n.view.words| == |m.view.words|
    && forall k :: 0 <= k < |n.view.words| && !(t.base <= k < t.top) ==> n.view.words[k] == m.view.words[k]
  }

  /** One step of the machine. */
  ghost predicate Stepped(m: Moment, op: Operation, n: Moment)
    requires m.Intact()
  {
    && Allowed(m, op) && n.trampoline == m.trampoline && n.inService == m.inService && n.stubRest == m.stubRest
    && (op.Register? || n.handlers == m.handlers)
    && match op
       case Run(to) => n == m.(cpu := to)
       case Write(at, v) => n == m.(view := m.view.(words := m.view.words[at := v]))
       case SwitchOnYield(returnAddress) =>
         SwitchedOver(m, returnAddress, n) && n.Scheduler() == m.Scheduler().Step(Yield)
       case SwitchOnTick(returnAddress) =>
         && n.Scheduler() == m.Scheduler().Step(Tick)
         && (if m.Scheduler().Switches(Tick) then SwitchedOver(m, returnAddress, n)
             else n.view == m.view && n.cpu == m.cpu)
       case Enter(vector) =>
         var f := m.NewFrame(vector);
         && n.view == m.view.Interrupted(n.view.words, f) && n.ticks == m.ticks
         && n.cpu == m.cpu.(rflags := n.cpu.rflags, rsp := f.addr, rip := m.DispatchTarget(vector),
                            scratch := m.cpu.scratch.(rdi := 8 * f.addr))
         && !InterruptsOn(n.cpu.rflags)
       case Register(vector, handler) => n == m.(handlers := m.handlers[vector := handler])
       case Leave =>
         var f := m.view.Pending()[|m.view.Pending()| - 1];
         && n.view == m.view.Returned() && n.ticks == m.ticks && n.cpu == f.cpu
         && f.cpu.rsp <= n.view.ring[0].top <= |n.view.words| && n.Stack() == f.above
       case Create(entry, arg, record, stack) =>
         && n.cpu == m.cpu && n.ticks == m.ticks
         && if !record || stack.None? then n.view == m.view
            else |n.view.ring| > 1 && Created(m, entry, arg, stack.value, n.view.ring[1], n)
  }

  class Machine {
    const ram: array<uint64>
    const trampoline: uint64
    const trampolineReturn: uint64
    /** The first pop of isr_common_stub. */
    const stubRest: uint64

    var cpu: Registers
    /** Whether the LAPIC has an interrupt in service. */
    var inService: bool
    /** handlers; a vector that is not in the map has NULL. */
    var handlers: map<uint64, uint64>

    var current: Thread
    var nextThreadId: nat
    var ticksSinceSwitch: nat
    /** What the rules below go by: the past of every thread, as far as it matters. */
    var view: View

    /** sched_init, in the boot code that runs on the stack [base, top). */
    constructor (ram: array<uint64>, trampoline: uint64, trampolineReturn: uint64, stubRest: uint64, base: nat,
                 top: nat, rsp: nat)
      requires base <= rsp <= top <= ram.Length && 8 * ram.Length < TWO_64
      ensures Valid() && this.ram == ram && cpu.rsp == rsp && fresh(current)
      ensures Now().Scheduler() == State([current], 0) && current.id == 0 && nextThreadId == 1
      ensures current.base == base && current.top == top && view.Pending() == [] && handlers == map[]
    {
      this.ram, this.trampoline, this.trampolineReturn := ram, trampoline, trampolineReturn;
      this.stubRest, handlers := stubRest, map[];
      cpu := Registers(Callee(0, 0, 0, 0, 0, 0), Scratch(0, 0, 0, 0, 0, 0, 0, 0, 0), 0, 0, 0, rsp, 0);
      inService := false;
      var bootstrap := new Thread(base, top, base);
      current, nextThreadId, ticksSinceSwitch := bootstrap, 1, 0;
      view := View(ram[..], [bootstrap],
                   map[bootstrap := Context([], Resume(Callee(0, 0, 0, 0, 0, 0), 0, 0, []))]);
      new;
      current.next := current;
    }

    /** The running code is on its own stack, every other thread can go on, and no interrupt is in service. */
    ghost predicate Valid()
      reads this, ram, view.ring, view.contexts.Keys
    {
      Runs(current) && ticksSinceSwitch < TIME_SLICE_TICKS
    }

    ghost predicate Runs(t: Thread)
      reads this, ram, view.ring, view.contexts.Keys
    {
      && view.words == ram[..] && Now().Intact() && view.ring[0] == t
      && Linked(view.ring) && PointersSaved(view.contexts, t) && !inService
    }

    function Now(): Moment
      reads this
    {
      Moment(view, cpu, ticksSinceSwitch, trampoline, inService, handlers, stubRest)
    }

    // ----- Running code

    /** Any computation of the running code, the C parts of an interrupt handler included: it may
        change every register, moving the stack pointer within the part of its stack it owns. */
    method Compute(cpu': Registers)
      requires Valid() && Allowed(Now(), Run(cpu'))
      modifies `cpu
      ensures Valid() && Stepped(old(Now()), Run(cpu'), Now())
    {
      cpu := cpu';
    }

    /** Any store of the running code to the part of its stack it owns. */
    method Store(at: nat, v: uint64)
      requires Valid() && Allowed(Now(), Write(at, v))
      modifies `view, ram
      ensures Valid() && Stepped(old(Now()), Write(at, v), Now())
    {
      hide StacksIntact, Linked, PointersSaved, Distinct;
      ram[at] := v;
      OwnStackChanged(view.words, ram[..], view.contexts, current);
      view := view.(words := ram[..]);
    }

    method Push(v: uint64)
      requires 0 < cpu.rsp <= ram.Length
      modifies `cpu, ram
      ensures cpu == old(cpu).(rsp := old(cpu).rsp - 1) && ram[cpu.rsp] == v
      ensures forall k :: 0 <= k < ram.Length && k != cpu.rsp ==> ram[k] == old(ram[k])
    {
      cpu := cpu.(rsp := cpu.rsp - 1);
      ram[cpu.rsp] := v;
    }

    method Pop() returns (v: uint64)
      requires cpu.rsp < ram.Length
      modifies `cpu
      ensures cpu == old(cpu).(rsp := old(cpu).rsp + 1) && v == ram[old(cpu).rsp]
    {
      v := ram[cpu.rsp];
      cpu := cpu.(rsp := cpu.rsp + 1);
    }

    // ----- Switching threads

    method PushCallee()
      requires 6 <= cpu.rsp <= ram.Length
      modifies `cpu, ram
      ensures cpu == old(cpu).(rsp := old(cpu).rsp - 6)
      ensures CalleeAt(ram[..], cpu.rsp, cpu.callee)
      ensures forall k :: 0 <= k < ram.Length && !(cpu.rsp <= k < cpu.rsp + 6) ==> ram[k] == old(ram[k])
    {
      Push(cpu.callee.rbp);
      Push(cpu.callee.rbx);
      Push(cpu.callee.r12);
      Push(cpu.callee.r13);
      Push(cpu.callee.r14);
      Push(cpu.callee.r15);
    }

    method PopCallee()
      requires cpu.rsp + 6 <= ram.Length
      modifies `cpu
      ensures cpu == old(cpu).(rsp := old(cpu).rsp + 6, callee := cpu.callee)
      ensures CalleeAt(ram[..], old(cpu).rsp, cpu.callee)
    {
      var r15 := Pop();
      var r14 := Pop();
      var r13 := Pop();
      var r12 := Pop();
      var rbx := Pop();
      var rbp := Pop();
      cpu := cpu.(callee := Callee(rbp, rbx, r12, r13, r14, r15));
    }

    /** The call of context_switch with its body: saves the running code on its stack, records
        where in prev, and goes on with what next left on its own. */
    method ContextSwitch(prev: Thread, next: Thread, returnAddress: uint64, ghost r: Resume, ghost n: Resume)
      requires 7 <= cpu.rsp <= ram.Length && prev != next
      requires ResumeAt(ram[..], n) && n.rsp == next.stackPointer + 7 && (n.rsp <= cpu.rsp - 7 || cpu.rsp <= n.rsp - 7)
      requires r.callee == cpu.callee && r.rip == returnAddress && r.rsp == cpu.rsp
      modifies `cpu, prev`stackPointer, ram
      ensures ResumeAt(ram[..], r) && prev.stackPointer + 7 == r.rsp
      ensures forall k :: 0 <= k < ram.Length && !(r.rsp - 7 <= k < r.rsp) ==> ram[k] == old(ram[k])
      ensures cpu == old(cpu).(callee := n.callee, rip := n.rip, rsp := n.rsp)
    {
      Push(returnAddress);
      PushCallee();
      prev.stackPointer := cpu.rsp;
      cpu := cpu.(rsp := next.stackPointer);
      PopCallee();
      var target := Pop();
      cpu := cpu.(rip := target);
    }

    /** switch_to_next, taken as one step with no interrupt inside. */
    method SwitchToNext(returnAddress: uint64)
      requires Runs(current) && current.base + 7 <= cpu.rsp
      modifies `cpu, `current, `ticksSinceSwitch, `view, ram, current`stackPointer
      ensures Valid() && SwitchedOver(old(Now()), returnAddress, Now())
      ensures Now().Scheduler() == old(Now()).Scheduler().Step(Yield)
    {
      var r := Now().Suspension(returnAddress);
      assert LinkedAt(view.ring, 0);
      var prev := current;
      var next := current.next;
      current, ticksSinceSwitch := next, 0;
      if next != prev {
        SwitchAway(prev, next, returnAddress, r);
      } else {
        assert Rotated(view.ring) == view.ring;
      }
    }

    /** sched_yield */
    method SchedYield(returnAddress: uint64)
      requires Valid() && current.base + 7 <= cpu.rsp
      modifies `cpu, `current, `ticksSinceSwitch, `view, ram, current`stackPointer
      ensures Valid() && Stepped(old(Now()), SwitchOnYield(returnAddress), Now())
    {
      SwitchToNext(returnAddress);
    }

    /** sched_tick */
    method SchedTick(returnAddress: uint64)
      requires Valid() && current.base + 7 <= cpu.rsp
      modifies `cpu, `current, `ticksSinceSwitch, `view, ram, current`stackPointer
      ensures Valid() && Stepped(old(Now()), SwitchOnTick(returnAddress), Now())
    {
      hide View.Intact, Linked, PointersSaved, SwitchedOver;
      ghost var m := Now();
      ticksSinceSwitch := ticksSinceSwitch + 1;
      if ticksSinceSwitch >= TIME_SLICE_TICKS {
        SwitchToNext(returnAddress);
        LateSwitch(m, returnAddress, Now());
      }
    }

    /** A switch does not depend on the tick counter. */
    lemma LateSwitch(m: Moment, returnAddress: uint64, n: Moment)
      requires m.Intact() && SwitchedOver(m.(ticks := m.ticks + 1), returnAddress, n)
      ensures SwitchedOver(m, returnAddress, n)
    {
    }

    /** The case of switch_to_next in which context_switch is called. */
    method SwitchAway(prev: Thread, next: Thread, returnAddress: uint64, r: Resume)
      requires Runs(prev) && |view.ring| > 1 && view.ring[1] == next == current && ticksSinceSwitch == 0
      requires prev.base + 7 <= cpu.rsp <= prev.top <= |view.words|
      requires r == Resume(cpu.callee, returnAddress, cpu.rsp, view.words[cpu.rsp..prev.top])
      modifies `cpu, `view, ram, prev`stackPointer
      ensures Valid() && view == old(view).Switched(view.words, r)
      ensures GoesOn(Now(), old(cpu), old(view).contexts[next].resume)
    {
      NextIsReady(view, cpu.rsp);
      ContextSwitch(prev, next, returnAddress, r, view.contexts[next].resume);
      AdoptSwitch(r);
    }

    /** The bookkeeping of a switch away from view.ring[0]. */
    method AdoptSwitch(r: Resume)
      requires view.Intact() && |view.ring| > 1 && view.ring[1] == current && |view.words| == ram.Length
      requires Linked(view.ring) && PointersSaved(view.contexts[view.ring[0] := Context(view.Pending(), r)], current)
      requires view.ring[0].base + 7 <= r.rsp <= Limit(view.ring[0], view.Pending())
      requires ResumeAt(ram[..], r) && r.above == view.words[r.rsp..view.ring[0].top]
      requires forall k :: 0 <= k < ram.Length && !(r.rsp - 7 <= k < r.rsp) ==> ram[k] == view.words[k]
      requires cpu.rsp == view.contexts[current].resume.rsp && !inService && ticksSinceSwitch == 0
      modifies `view
      ensures Valid() && view == old(view).Switched(ram[..], r)
      ensures Suspended(view.words, current, view.contexts[current])
    {
      SwitchKeepsStacks(view, ram[..], r);
      RotatedLinked(view.ring);
      view := view.Switched(ram[..], r);
    }

    // ----- Creating threads

    /** sched_add_thread, for a thread that context_switch can switch to. */
    method AddThread(t: Thread, c: Context)
      requires Valid() && t !in view.contexts && t.stackPointer + 7 == c.resume.rsp
      requires StackIntact(view.words, t, c.pending) && Suspended(view.words, t, c)
      requires forall u :: u in view.contexts ==> Apart(t, u)
      modifies `nextThreadId, `view, t`id, t`next, current`next
      ensures Valid() && view == old(view).Added(t, c)
      ensures Now().Scheduler() == old(Now()).Scheduler().Step(Add(t))
      ensures t.id == old(nextThreadId) && nextThreadId == old(nextThreadId) + 1
    {
      t.id, nextThreadId := nextThreadId, nextThreadId + 1;
      LinkBehindCurrent(t);
      AdoptThread(t, c);
    }

    /** The bookkeeping of a new thread. */
    method AdoptThread(t: Thread, c: Context)
      requires view.Intact() && t !in view.contexts && view.words == ram[..] && view.ring[0] == current && !inService
      requires StackIntact(view.words, t, c.pending) && Suspended(view.words, t, c)
      requires forall u :: u in view.contexts ==> Apart(t, u)
      requires Linked(Inserted(view.ring, t)) && PointersSaved(view.contexts, current)
      requires t.stackPointer + 7 == c.resume.rsp && Now().Intact() && ticksSinceSwitch < TIME_SLICE_TICKS
      modifies `view
      ensures Valid() && view == old(view).Added(t, c)
    {
      InsertionKeepsStacks(view, t, c);
      view := view.Added(t, c);
    }

    lemma IntactNow()
      requires Valid()
      ensures Now().Intact() && view.Intact() && |view.words| == ram.Length
    {
    }

    /** thread_create; record says whether kmalloc gave a struct thread, stack what vmm_alloc_guarded gave. */
    method CreateThread(entry: uint64, arg: uint64, record: bool, stack: Option<nat>) returns (t: Thread?)
      requires Valid() && Allowed(Now(), Create(entry, arg, record, stack))
      modifies `nextThreadId, `view, ram, current`next
      ensures Valid() && Stepped(old(Now()), Create(entry, arg, record, stack), Now())
      ensures t == null <==> !record || stack.None?
      ensures t == null ==> nextThreadId == old(nextThreadId)
      ensures t != null ==> fresh(t) && t == view.ring[1] && t.id == old(nextThreadId) && nextThreadId == t.id + 1
    {
      hide Valid, Moment.Intact, View.Intact, Stepped, View.Added, ResumeAt;
      ghost var m := Now();
      IntactNow();
      if !record || stack.None? {
        NothingCreated(m, entry, arg, record, stack);
        return null;
      }
      var sp := PrepareStack(stack.value, entry, arg);
      ghost var prepared := view;
      t := AddNewThread(stack.value, sp, FirstResume(entry, arg, trampoline, stack.value + STACK_WORDS));
      CreationSteps(m, entry, arg, stack.value, t, prepared, Now());
    }

    method AddNewThread(base: nat, sp: nat, r: Resume) returns (t: Thread)
      requires Valid() && base + 7 <= r.rsp && r.rsp == sp + 7 == base + STACK_WORDS <= |view.words|
      requires ResumeAt(view.words, r) && r.above == []
      requires forall u: Thread :: u in view.contexts ==> base + STACK_WORDS <= u.base || u.top <= base
      modifies `nextThreadId, `view, current`next
      ensures Valid() && fresh(t) && view == old(view).Added(t, Context([], r))
      ensures t.base == base && t.top == base + STACK_WORDS && t.id == old(nextThreadId) && nextThreadId == t.id + 1
    {
      t := new Thread(base, base + STACK_WORDS, sp);
      AddThread(t, Context([], r));
    }

    method PrepareStack(base: nat, entry: uint64, arg: uint64) returns (sp: nat)
      requires Valid() && base + STACK_WORDS <= |view.words|
      requires forall u: Thread :: u in view.contexts ==> base + STACK_WORDS <= u.base || u.top <= base
      modifies `view, ram
      ensures Valid() && view == old(view).(words := view.words) && |view.words| == |old(view).words|
      ensures sp == base + STACK_WORDS - 7
      ensures ResumeAt(view.words, FirstResume(entry, arg, trampoline, base + STACK_WORDS))
      ensures forall k :: 0 <= k < |view.words| && !(base <= k < base + STACK_WORDS) ==>
                view.words[k] == old(view).words[k]
    {
      sp := FillFirstFrame(base + STACK_WORDS, entry, arg);
      AdoptStack(base);
    }

    /** The seven words that thread_create writes below the top of a new stack. */
    method FillFirstFrame(top: nat, entry: uint64, arg: uint64) returns (sp: nat)
      requires 7 <= top <= ram.Length
      modifies ram
      ensures sp == top - 7 && ResumeAt(ram[..], FirstResume(entry, arg, trampoline, top))
      ensures forall k :: 0 <= k < ram.Length && !(sp <= k < top) ==> ram[k] == old(ram[k])
    {
      sp := top;
      sp := sp - 1; ram[sp] := trampoline;
      sp := sp - 1; ram[sp] := 0;
      sp := sp - 1; ram[sp] := 0;
      sp := sp - 1; ram[sp] := entry;
      sp := sp - 1; ram[sp] := arg;
      sp := sp - 1; ram[sp] := 0;
      sp := sp - 1; ram[sp] := 0;
    }

    method AdoptStack(base: nat)
      requires view.Intact() && |view.words| == ram.Length && Linked(view.ring) && view.ring[0] == current && !inService
      requires PointersSaved(view.contexts, current) && Now().Intact() && ticksSinceSwitch < TIME_SLICE_TICKS
      requires forall u: Thread :: u in view.contexts ==> base + STACK_WORDS <= u.base || u.top <= base
      requires forall k :: 0 <= k < ram.Length && !(base <= k < base + STACK_WORDS) ==> ram[k] == view.words[k]
      modifies `view
      ensures Valid() && view == old(view).(words := ram[..])
    {
      forall u | u in view.contexts ensures StackIntact(ram[..], u, view.contexts[u].pending) {
        StackKept(view.words, ram[..], u, view.contexts[u].pending);
      }
      forall u | u in view.contexts && u != current ensures Suspended(ram[..], u, view.contexts[u]) {
        SuspendedKept(view.words, ram[..], u, view.contexts[u]);
      }
      view := view.(words := ram[..]);
    }

    method LinkBehindCurrent(t: Thread)
      requires Linked(view.ring) && |view.ring| > 0 && view.ring[0] == current && t !in view.ring
      requires forall i :: 0 < i < |view.ring| ==> view.ring[i] != current
      modifies t`next, current`next
      ensures Linked(Inserted(view.ring, t))
    {
      assert LinkedAt(view.ring, 0);
      t.next := current.next;
      current.next := t;
      forall i | 0 < i < |view.ring| ensures LinkedAt(view.ring, i) {
        assert old(LinkedAt(view.ring, i));
      }
      InsertedLinked(view.ring, t);
    }

    /** thread_trampoline up to the entry function, for a thread that runs for the first time: it
        starts entry(arg) with interrupts on, and on its stack there is the return address only, at
        a call on a 16-byte boundary. */
    method StartTrampoline(ghost was: Registers, ghost entry: uint64, ghost arg: uint64)
      requires Valid() && current.base + 1 <= current.top && view.Pending() == []
      requires GoesOn(Now(), was, FirstResume(entry, arg, trampoline, current.top))
      modifies `cpu, `view, ram
      ensures Valid() && cpu.rip == entry && cpu.scratch.rdi == arg && InterruptsOn(cpu.rflags)
      ensures cpu.rsp == current.top - 1 && view == old(view).(words := old(view).words[cpu.rsp := trampolineReturn])
      ensures current.top % 2 == 0 ==> (cpu.rsp + 1) % 2 == 0
    {
      Compute(cpu.(rflags := WithInterrupts(cpu.rflags), scratch := cpu.scratch.(rdi := cpu.callee.r13)));
      Store(cpu.rsp - 1, trampolineReturn);
      Compute(cpu.(rip := cpu.callee.r12, rsp := cpu.rsp - 1));
    }

    // ----- Interrupts

    /** What the processor does when the LAPIC presents an interrupt. */
    method Deliver()
      requires InterruptsOn(cpu.rflags) && !inService && 6 <= cpu.rsp <= ram.Length && 8 * ram.Length < TWO_64
      modifies `cpu, `inService, ram
      ensures inService && !InterruptsOn(cpu.rflags)
      ensures cpu == old(cpu).(rflags := cpu.rflags, rsp := old(cpu.rsp - cpu.rsp % 2) - 5)
      ensures InterruptedAt(ram[..], cpu.rsp, old(cpu))
      ensures forall k :: 0 <= k < ram.Length && !(cpu.rsp <= k < old(cpu).rsp) ==> ram[k] == old(ram[k])
    {
      var was := cpu;
      cpu := cpu.(rsp := cpu.rsp - cpu.rsp % 2);
      Push(was.ss);
      Push(8 * was.rsp);
      Push(was.rflags);
      Push(was.cs);
      Push(was.rip);
      cpu := cpu.(rflags := WithoutInterrupts(cpu.rflags));
      inService := true;
    }

    /** The pushes of the stub of an interrupt line and of isr_common_stub. */
    method SaveRegisters(vector: uint64)
      requires 17 <= cpu.rsp <= ram.Length
      modifies `cpu, ram
      ensures cpu == old(cpu).(rsp := old(cpu).rsp - 17) && SavedAt(ram[..], cpu.rsp, cpu.callee, cpu.scratch)
      ensures ram[cpu.rsp + VECTOR_WORD] == vector && ram[cpu.rsp + VECTOR_WORD + 1] == 0
      ensures forall k :: 0 <= k < ram.Length && !(cpu.rsp <= k < old(cpu).rsp) ==> ram[k] == old(ram[k])
    {
      Push(0);
      Push(vector);
      SaveUpper();
      SaveLower();
    }

    method SaveUpper()
      requires 7 <= cpu.rsp <= ram.Length
      modifies `cpu, ram
      ensures cpu == old(cpu).(rsp := old(cpu).rsp - 7)
      ensures ram[cpu.rsp] == cpu.callee.rbp && ram[cpu.rsp + 1] == cpu.scratch.rdi &&
              ram[cpu.rsp + 2] == cpu.scratch.rsi
      ensures ram[cpu.rsp + 3] == cpu.scratch.rdx && ram[cpu.rsp + 4] == cpu.scratch.rcx
      ensures ram[cpu.rsp + 5] == cpu.callee.rbx && ram[cpu.rsp + 6] == cpu.scratch.rax
      ensures forall k :: 0 <= k < ram.Length && !(cpu.rsp <= k < old(cpu).rsp) ==> ram[k] == old(ram[k])
    {
      Push(cpu.scratch.rax);
      Push(cpu.callee.rbx);
      Push(cpu.scratch.rcx);
      Push(cpu.scratch.rdx);
      Push(cpu.scratch.rsi);
      Push(cpu.scratch.rdi);
      Push(cpu.callee.rbp);
    }

    method SaveLower()
      requires 8 <= cpu.rsp <= ram.Length
      modifies `cpu, ram
      ensures cpu == old(cpu).(rsp := old(cpu).rsp - 8)
      ensures ram[cpu.rsp] == cpu.callee.r15 && ram[cpu.rsp + 1] == cpu.callee.r14 && ram[cpu.rsp + 2] == cpu.callee.r13
      ensures ram[cpu.rsp + 3] == cpu.callee.r12 && ram[cpu.rsp + 4] == cpu.scratch.r11 &&
              ram[cpu.rsp + 5] == cpu.scratch.r10
      ensures ram[cpu.rsp + 6] == cpu.scratch.r9 && ram[cpu.rsp + 7] == cpu.scratch.r8
      ensures forall k :: 0 <= k < ram.Length && !(cpu.rsp <= k < old(cpu).rsp) ==> ram[k] == old(ram[k])
    {
      Push(cpu.scratch.r8);
      Push(cpu.scratch.r9);
      Push(cpu.scratch.r10);
      Push(cpu.scratch.r11);
      Push(cpu.callee.r12);
      Push(cpu.callee.r13);
      Push(cpu.callee.r14);
      Push(cpu.callee.r15);
    }

    /** The pops of isr_common_stub, and the words of the vector and the error code skipped. */
    method RestoreRegisters()
      requires cpu.rsp + 17 <= ram.Length
      modifies `cpu
      ensures cpu == old(cpu).(rsp := old(cpu).rsp + 17, callee := cpu.callee, scratch := cpu.scratch)
      ensures SavedAt(ram[..], old(cpu).rsp, cpu.callee, cpu.scratch)
    {
      var r15 := Pop();
      var r14 := Pop();
      var r13 := Pop();
      var r12 := Pop();
      var r11 := Pop();
      var r10 := Pop();
      var r9 := Pop();
      var r8 := Pop();
      var rbp := Pop();
      var rdi := Pop();
      var rsi := Pop();
      var rdx := Pop();
      var rcx := Pop();
      var rbx := Pop();
      var rax := Pop();
      cpu := cpu.(callee := Callee(rbp, rbx, r12, r13, r14, r15),
                  scratch := Scratch(rax, rcx, rdx, rsi, rdi, r8, r9, r10, r11), rsp := cpu.rsp + 2);
    }

    /** iretq */
    method ReturnFromInterrupt(ghost to: Registers)
      requires InterruptedAt(ram[..], cpu.rsp, to)
      modifies `cpu
      ensures cpu == to.(callee := old(cpu).callee, scratch := old(cpu).scratch)
    {
      var rip := Pop();
      var cs := Pop();
      var rflags := Pop();
      var rsp := Pop();
      var ss := Pop();
      cpu := cpu.(rip := rip, cs := cs, rflags := rflags, rsp := rsp / 8, ss := ss);
    }

    /** interrupt_register_handler */
    method RegisterHandler(vector: uint64, handler: uint64)
      requires Valid()
      modifies `handlers
      ensures Valid() && Stepped(old(Now()), Register(vector, handler), Now())
    {
      handlers := handlers[vector := handler];
    }

    /** isr_dispatch up to the call of the handler, with the frame at the stack pointer; !ok stands for
        panic_exception.  Which interrupt it is, is read from the frame.  An exception without a handler panics;
        any other interrupt is acknowledged, with a handler or without. */
    method Dispatch() returns (ok: bool)
      requires cpu.rsp + FRAME_WORDS <= ram.Length && 8 * ram.Length < TWO_64
      modifies `cpu, `inService
      ensures var vector, handler := ram[old(cpu).rsp + VECTOR_WORD], Now().HandlerOf(ram[old(cpu).rsp + VECTOR_WORD]);
              && (ok <==> vector >= FIRST_IRQ || handler != NULL)
              && inService == (old(inService) && vector < FIRST_IRQ)
              && (ok ==> cpu == old(cpu).(rip := if handler != NULL then handler else stubRest,
                                          scratch := old(cpu).scratch.(rdi := 8 * old(cpu).rsp)))
    {
      var vector := ram[cpu.rsp + VECTOR_WORD];
      var handler := if vector in handlers then handlers[vector] else NULL;
      if vector < FIRST_IRQ {
        if handler == NULL {
          return false;
        }
      } else {
        inService := false;
      }
      cpu := cpu.(rip := if handler != NULL then handler else stubRest,
                  scratch := cpu.scratch.(rdi := 8 * cpu.rsp));
      return true;
    }

    /** An interrupt up to the start of its handler: the processor, the stub, and isr_dispatch, which
        acknowledges it before the handler is called.  The handler is that of this vector, is given the frame,
        and finds no interrupt in service. */
    method EnterInterrupt(vector: uint64)
      requires Valid() && Allowed(Now(), Enter(vector))
      modifies `cpu, `inService, `view, ram
      ensures Valid() && Stepped(old(Now()), Enter(vector), Now())
    {
      hide StacksIntact, Linked, PointersSaved, Distinct, SavedAt, InterruptedAt;
      var f := Now().NewFrame(vector);
      SaveInterrupted(vector, f);
      var ok := Dispatch();
      AdoptInterrupt(f);
    }

    method SaveInterrupted(vector: uint64, ghost f: Frame)
      requires InterruptsOn(cpu.rflags) && !inService && FRAME_WORDS + 1 <= cpu.rsp <= ram.Length &&
               8 * ram.Length < TWO_64
      requires f.cpu == cpu && f.addr == cpu.rsp - cpu.rsp % 2 - FRAME_WORDS && f.vector == vector && f.errorCode == 0
      modifies `cpu, `inService, ram
      ensures cpu == f.cpu.(rflags := cpu.rflags, rsp := f.addr) && !InterruptsOn(cpu.rflags) && inService
      ensures SavedAt(ram[..], f.addr, f.cpu.callee, f.cpu.scratch) && InterruptedAt(ram[..], f.addr + 17, f.cpu)
      ensures ram[f.addr + VECTOR_WORD] == f.vector && ram[f.addr + VECTOR_WORD + 1] == f.errorCode
      ensures forall k :: 0 <= k < ram.Length && !(f.addr <= k < f.cpu.rsp) ==> ram[k] == old(ram[k])
    {
      Deliver();
      SaveRegisters(vector);
    }

    method AdoptInterrupt(f: Frame)
      requires view.Intact() && |view.words| == ram.Length && Linked(view.ring) && view.ring[0] == current && !inService
      requires PointersSaved(view.contexts, current) && current.base <= f.addr == cpu.rsp
      requires ticksSinceSwitch < TIME_SLICE_TICKS
      requires f.addr + FRAME_WORDS <= f.cpu.rsp <= Limit(current, view.Pending())
      requires SavedAt(ram[..], f.addr, f.cpu.callee, f.cpu.scratch) && InterruptedAt(ram[..], f.addr + 17, f.cpu)
      requires ram[f.addr + VECTOR_WORD] == f.vector && ram[f.addr + VECTOR_WORD + 1] == f.errorCode
      requires f.cpu.rsp <= current.top <= |view.words| && f.above == view.words[f.cpu.rsp..current.top]
      requires forall k :: 0 <= k < ram.Length && !(f.addr <= k < f.cpu.rsp) ==> ram[k] == view.words[k]
      modifies `view
      ensures Valid() && view == old(view).Interrupted(ram[..], f)
    {
      InterruptKeepsStacks(view, ram[..], f);
      view := view.Interrupted(ram[..], f);
    }

    /** The end of isr_common_stub, once the handler has returned: the interrupted code goes on with all
        its registers, its flags and its stack as they were, however many switches there were in between. */
    method LeaveInterrupt()
      requires Valid() && Allowed(Now(), Leave)
      modifies `cpu, `view
      ensures Valid() && Stepped(old(Now()), Leave, Now())
    {
      hide Linked, PointersSaved, Distinct, AllApart, SavedAt, InterruptedAt;
      ghost var f := view.Pending()[|view.Pending()| - 1];
      PoppedFrame(view.words, current, view.Pending());
      RestoreInterrupted(f);
      AdoptReturn();
    }

    method RestoreInterrupted(ghost f: Frame)
      requires f.addr == cpu.rsp && f.addr + FRAME_WORDS <= ram.Length
      requires SavedAt(ram[..], f.addr, f.cpu.callee, f.cpu.scratch) && InterruptedAt(ram[..], f.addr + 17, f.cpu)
      modifies `cpu
      ensures cpu == f.cpu
    {
      hide InterruptedAt;
      RestoreRegisters();
      ReturnFromInterrupt(f.cpu);
    }

    method AdoptReturn()
      requires view.Intact() && view.words == ram[..] && Linked(view.ring) && view.ring[0] == current && !inService
      requires PointersSaved(view.contexts, current) && view.Pending() != []
      requires cpu.rsp == view.Pending()[|view.Pending()| - 1].cpu.rsp && ticksSinceSwitch < TIME_SLICE_TICKS
      modifies `view
      ensures Valid() && view == old(view).Returned()
    {
      PoppedFrame(view.words, current, view.Pending());
      PendingReplaced(view, view.Pending()[..|view.Pending()| - 1]);
      view := view.Returned();
    }

    // ----- Runs

    /** Whatever happens next is a step that keeps every stack intact. */
    method Do(op: Operation)
      requires Valid() && Allowed(Now(), op)
      modifies `cpu, `inService, `handlers, `current, `ticksSinceSwitch, `nextThreadId, `view, ram
      modifies current`stackPointer, current`next
      ensures Valid() && Stepped(old(Now()), op, Now())
      ensures forall t :: t in view.contexts ==> t in old(view).contexts || fresh(t)
    {
      match op
      case Run(to) => Compute(to);
      case Write(at, v) => Store(at, v);
      case SwitchOnYield(returnAddress) => SchedYield(returnAddress);
      case SwitchOnTick(returnAddress) => SchedTick(returnAddress);
      case Enter(vector) => EnterInterrupt(vector);
      case Leave => LeaveInterrupt();
      case Register(vector, handler) => RegisterHandler(vector, handler);
      case Create(entry, arg, record, stack) => var t := CreateThread(entry, arg, record, stack);
    }
  }

  lemma NothingCreated(m: Moment, entry: uint64, arg: uint64, record: bool, stack: Option<nat>)
    requires m.Intact() && Allowed(m, Create(entry, arg, record, stack)) && (!record || stack.None?)
    ensures Stepped(m, Create(entry, arg, record, stack), m)
  {
  }

  lemma CreationSteps(m: Moment, entry: uint64, arg: uint64, base: nat, t: Thread, prepared: View, n: Moment)
    requires m.Intact() && Allowed(m, Create(entry, arg, true, Some(base)))
    requires t !in m.view.contexts && t.base == base && t.top == base + STACK_WORDS
    requires prepared == m.view.(words := prepared.words) && |prepared.words| == |m.view.words|
    requires forall k :: 0 <= k < |prepared.words| && !(t.base <= k < t.top) ==> prepared.words[k] == m.view.words[k]
    requires n == m.(view := prepared.Added(t, Context([], FirstResume(entry, arg, m.trampoline, t.top))))
    ensures Stepped(m, Create(entry, arg, true, Some(base)), n)
    ensures |n.view.ring| > 1 && n.view.ring[1] == t
  {
    hide View.Intact;
  }

  lemma PendingReplaced(v: View, frames: seq<Frame>)
    requires v.Intact() && StackIntact(v.words, v.ring[0], frames)
    ensures v.WithPending(frames).Intact()
  {
  }

  lemma PushedFrame(words: seq<uint64>, t: Thread, frames: seq<Frame>, f: Frame)
    requires StackIntact(words, t, frames) && FrameIntact(words, f, t) && f.cpu.rsp <= Limit(t, frames)
    ensures StackIntact(words, t, frames + [f])
  {
    var all := frames + [f];
    forall k | 0 <= k < |all| ensures InPlace(words, t, all, k) {
      assert k < |frames| ==> InPlace(words, t, frames, k);
    }
  }

  lemma PoppedFrame(words: seq<uint64>, t: Thread, frames: seq<Frame>)
    requires StackIntact(words, t, frames) && frames != []
    ensures StackIntact(words, t, frames[..|frames| - 1])
    ensures t.base <= frames[|frames| - 1].cpu.rsp <= Limit(t, frames[..|frames| - 1])
    ensures FrameIntact(words, frames[|frames| - 1], t)
  {
    var n := |frames| - 1;
    var rest := frames[..n];
    assert InPlace(words, t, frames, n);
    assert n > 0 ==> InPlace(words, t, frames, n - 1);
    forall k | 0 <= k < n ensures InPlace(words, t, rest, k) {
      assert InPlace(words, t, frames, k);
    }
  }

  lemma InterruptKeepsStacks(v: View, after: seq<uint64>, f: Frame)
    requires v.Intact() && |after| == |v.words| && v.ring[0].base <= f.addr
    requires f.addr + FRAME_WORDS <= f.cpu.rsp <= Limit(v.ring[0], v.Pending()) <= v.ring[0].top <= |after|
    requires SavedAt(after, f.addr, f.cpu.callee, f.cpu.scratch) && InterruptedAt(after, f.addr + 17, f.cpu)
    requires after[f.addr + VECTOR_WORD] == f.vector && after[f.addr + VECTOR_WORD + 1] == f.errorCode
    requires f.above == v.words[f.cpu.rsp..v.ring[0].top]
    requires forall k :: 0 <= k < |after| && !(f.addr <= k < f.cpu.rsp) ==> after[k] == v.words[k]
    ensures v.Interrupted(after, f).Intact()
  {
    var t := v.ring[0];
    OwnStackChanged(v.words, after, v.contexts, t);
    assert after[f.cpu.rsp..t.top] == v.words[f.cpu.rsp..t.top];
    PushedFrame(after, t, v.Pending(), f);
    PendingReplaced(v.(words := after), v.Pending() + [f]);
  }

  lemma InsertedLinked(ring: seq<Thread>, t: Thread)
    requires |ring| > 0 && ring[0].next == t && t.next == (if |ring| > 1 then ring[1] else ring[0])
    requires forall i :: 0 < i < |ring| ==> LinkedAt(ring, i)
    ensures Linked(Inserted(ring, t))
  {
    var after := Inserted(ring, t);
    forall i | 0 <= i < |after| ensures LinkedAt(after, i) {
      if i > 1 {
        assert LinkedAt(ring, i - 1);
      }
    }
  }

  lemma InsertedDistinct(ring: seq<Thread>, t: Thread)
    requires Distinct(ring) && |ring| > 0 && t !in ring
    ensures Distinct(Inserted(ring, t)) && forall u :: u in Inserted(ring, t) ==> u == t || u in ring
  {
  }

  lemma InsertionKeepsStacks(v: View, t: Thread, c: Context)
    requires v.Intact() && t !in v.contexts && StackIntact(v.words, t, c.pending) && Suspended(v.words, t, c)
    requires forall u :: u in v.contexts ==> Apart(t, u)
    ensures v.Added(t, c).Intact()
  {
    var w := v.Added(t, c);
    InsertedDistinct(v.ring, t);
    forall i | 0 <= i < |w.ring| ensures w.ring[i] in w.contexts {
      assert w.ring[i] in Inserted(v.ring, t);
    }
    AddedApart(v.contexts.Keys, w.contexts.Keys, t);
  }

  lemma AddedApart(before: set<Thread>, after: set<Thread>, t: Thread)
    requires AllApart(before) && after == before + {t} && forall u :: u in before ==> Apart(t, u)
    ensures AllApart(after)
  {
  }

  lemma RotatedLinked(ring: seq<Thread>)
    requires Linked(ring) && |ring| > 0
    ensures Linked(Rotated(ring))
  {
    var after := Rotated(ring);
    forall i | 0 <= i < |after| ensures LinkedAt(after, i) {
      assert LinkedAt(ring, if i + 1 < |ring| then i + 1 else 0);
    }
  }

  lemma NextIsReady(v: View, rsp: nat)
    requires v.Intact() && |v.ring| > 1 && v.ring[0].base + 7 <= rsp <= Limit(v.ring[0], v.Pending())
    ensures var n := v.contexts[v.ring[1]].resume;
            && ResumeAt(v.words, n) && (n.rsp <= rsp - 7 || rsp <= n.rsp - 7)
            && rsp <= v.ring[0].top <= |v.words|
  {
    assert Suspended(v.words, v.ring[1], v.contexts[v.ring[1]]) && Apart(v.ring[0], v.ring[1]);
    assert StackIntact(v.words, v.ring[0], v.Pending());
  }

  lemma SwitchKeepsStacks(v: View, after: seq<uint64>, r: Resume)
    requires v.Intact() && |v.ring| > 1 && |v.words| == |after|
    requires v.ring[0].base + 7 <= r.rsp <= Limit(v.ring[0], v.Pending())
    requires ResumeAt(after, r) && r.above == v.words[r.rsp..v.ring[0].top]
    requires forall k :: 0 <= k < |after| && !(r.rsp - 7 <= k < r.rsp) ==> after[k] == v.words[k]
    ensures v.Switched(after, r).Intact()
    ensures Suspended(after, v.ring[1], v.contexts[v.ring[1]])
  {
    OwnStackChanged(v.words, after, v.contexts, v.ring[0]);
    assert after[r.rsp..v.ring[0].top] == v.words[r.rsp..v.ring[0].top];
  }

  // ----- Why nobody is disturbed

  lemma {:induction false} FramesAbove(words: seq<uint64>, t: Thread, frames: seq<Frame>, k: nat)
    requires StackIntact(words, t, frames) && k < |frames|
    ensures Limit(t, frames) <= frames[k].addr
    decreases |frames| - k
  {
    if k < |frames| - 1 {
      FramesAbove(words, t, frames, k + 1);
      assert InPlace(words, t, frames, k + 1);
    }
  }

  ghost predicate SameFrom(before: seq<uint64>, after: seq<uint64>, lo: nat, hi: nat) {
    |before| == |after| && forall k :: lo <= k < hi && k < |before| ==> after[k] == before[k]
  }

  /** What is above the limit of a stack keeps its frames intact. */
  lemma StackKept(before: seq<uint64>, after: seq<uint64>, t: Thread, frames: seq<Frame>)
    requires StackIntact(before, t, frames) && SameFrom(before, after, Limit(t, frames), t.top)
    ensures StackIntact(after, t, frames)
  {
    forall k | 0 <= k < |frames| ensures InPlace(after, t, frames, k) {
      var f := frames[k];
      assert InPlace(before, t, frames, k);
      FramesAbove(before, t, frames, k);
      assert after[f.cpu.rsp..t.top] == before[f.cpu.rsp..t.top];
    }
  }

  lemma SuspendedKept(before: seq<uint64>, after: seq<uint64>, t: Thread, c: Context)
    requires Suspended(before, t, c) && SameFrom(before, after, t.base, t.top)
    ensures Suspended(after, t, c)
  {
    assert after[c.resume.rsp..t.top] == before[c.resume.rsp..t.top];
  }

  /** Writing below the limit of the running thread disturbs nobody. */
  lemma OwnStackChanged(before: seq<uint64>, after: seq<uint64>, contexts: map<Thread, Context>, current: Thread)
    requires |before| == |after| && current in contexts && StacksIntact(before, contexts, current)
    requires forall k :: 0 <= k < |before| && !(current.base <= k < Limit(current, contexts[current].pending)) ==>
               after[k] == before[k]
    ensures StacksIntact(after, contexts, current)
  {
    forall t | t in contexts
      ensures StackIntact(after, t, contexts[t].pending)
      ensures t != current ==> Suspended(after, t, contexts[t])
    {
      assert StackIntact(before, t, contexts[t].pending);
      if t != current {
        assert Apart(current, t);
        SuspendedKept(before, after, t, contexts[t]);
      }
      StackKept(before, after, t, contexts[t].pending);
    }
  }
}
