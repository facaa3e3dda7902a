/** thread_create of kernel/sched/thread.c with the heap and the memory system it calls. */
module ThreadCreation {
  import opened Words
  import opened PageTables
  import opened Entries
  import opened Vmm
  import opened KernelMemory
  import opened KernelRuns
  import opened HeapBlocks
  import opened HeapMemory
  import opened Heap
  import opened EndToEnd
  import Threads

  const THREAD_STACK_PAGES: nat := 4
  /** sizeof(struct thread) */
  const THREAD_SIZE: nat := 32

  /** The stack of every thread lies outside the window of guarded allocations or below its bump pointer. */
  ghost predicate StacksBelow(contexts: map<Threads.Thread, Threads.Context>, next: nat) {
    forall u: Threads.Thread :: u in contexts ==> 8 * u.top <= next || MMIO_BASE <= 8 * u.base
  }

  lemma StackWord(next: nat)
    requires next % PAGE_SIZE == 0
    ensures 8 * ((next + PAGE_SIZE) / 8) == next + PAGE_SIZE && (next + PAGE_SIZE) / 8 % 512 == 0
  {
    DivModUnique(next + PAGE_SIZE, 8, 512 * (next / PAGE_SIZE + 1), 0);
  }

  /** What vmm_alloc_guarded returns is a place for a stack. */
  lemma RangeIsAPlace(m: Threads.Moment, next: nat, entry: uint64, arg: uint64)
    requires m.Intact() && StacksBelow(m.view.contexts, next) && MMIO_BASE <= 8 * |m.view.words|
    requires next % PAGE_SIZE == 0 && next + (THREAD_STACK_PAGES + 2) * PAGE_SIZE <= MMIO_BASE
    ensures var base := (next + PAGE_SIZE) / 8;
            && 8 * base == next + PAGE_SIZE
            && Threads.Allowed(m, Threads.Create(entry, arg, true, Some(base)))
  {
    hide Threads.StacksIntact, Threads.Distinct, Threads.Limit;
    StackWord(next);
  }

  /** After that the stacks are below the bump pointer again. */
  lemma StacksStayBelow(m: Threads.Moment, n: Threads.Moment, next: nat, entry: uint64, arg: uint64, base: nat)
    requires m.Intact() && StacksBelow(m.view.contexts, next)
    requires Threads.Stepped(m, Threads.Create(entry, arg, true, Some(base)), n) && 8 * base == next + PAGE_SIZE
    ensures StacksBelow(n.view.contexts, next + (THREAD_STACK_PAGES + 2) * PAGE_SIZE)
  {
    hide Threads.StacksIntact, Threads.Distinct;
  }

  /** The pages of the heap come before those of the window of guarded allocations. */
  lemma HeapBelowWindow(w: nat, x: nat)
    requires HeapWord(w) && DYNAMIC_BASE <= x < TWO_64
    ensures PageOf(w) < PageOf(x)
  {
    var a, b := w / PAGE_SIZE, x / PAGE_SIZE;
    DivModUnique(a, PAGES, 0xffff, a - 0xffff * PAGES);
    DivModUnique(b, PAGES, 0xffff, b - 0xffff * PAGES);
  }

  lemma RangeIsHarmless(s: Snapshot, h: HeapState, pageCount: nat, flags: uint32)
    requires DYNAMIC_BASE <= s.dynamicNext < TWO_64
    ensures Harmless(s, h, GuardedRange(pageCount, flags))
  {
    hide PageOf;
    forall w: nat {:trigger HeapWord(w)} | HeapWord(w)
      ensures !Concerns(s, GuardedRange(pageCount, flags), PageOf(w))
    {
      HeapBelowWindow(w, s.dynamicNext);
    }
  }

  /** The bump pointer is in its window, on a page boundary. */
  lemma BumpPointer(system: System)
    requires system.Valid()
    ensures var s := system.heap.Seen();
            && s.dynamicNext == system.kernel.manager.dynamicNext
            && DYNAMIC_BASE <= s.dynamicNext <= MMIO_BASE && s.dynamicNext % PAGE_SIZE == 0
  {
    hide Allocator.Valid, HeapState.Sound, JointRun, AllBacked, NoLargePage, Holds;
    ValidKernel(system.kernel);
  }

  /** Page p has a frame of its own.  The kernel may write it if the entries above it allow that, user code may
      not touch it, and it is cached. */
  ghost predicate StackPage(s: Snapshot, p: nat) {
    var path := PathRights(s.words, s.root, 4, p);
    && p in s.granted && p in s.pages && s.pages[p].level == 1
    && s.pages[p].frame in s.owner && s.owner[s.pages[p].frame] == Guarded(p)
    && !s.pages[p].noCache && s.pages[p].rights == Rights(path.writable, false, path.noExecute)
  }

  /** The 16 KiB from address base on are four such pages, between two guard pages. */
  ghost predicate GuardedStack(s: Snapshot, base: nat) {
    var first := PageOf(base);
    && first - 1 in s.guards && first + 4 in s.guards
    && StackPage(s, first) && StackPage(s, first + 1) && StackPage(s, first + 2) && StackPage(s, first + 3)
  }

  /** What vmm_alloc_guarded has done once it has answered. */
  lemma RangeAnswered(a: Snapshot, answer: Option<nat>, b: Snapshot)
    requires Step(a, GuardedRange(THREAD_STACK_PAGES, VMM_WRITABLE), answer, b)
    ensures answer.Some? <==> Enough(a, PageOf(a.dynamicNext) + 1, THREAD_STACK_PAGES)
    ensures b.dynamicNext == a.dynamicNext + (THREAD_STACK_PAGES + 2) * PAGE_SIZE
    ensures answer.Some? ==> answer.value == a.dynamicNext + PAGE_SIZE && GuardedStack(b, answer.value)
  {
    hide Proper, RangeAdded, MissingTables, StackPage;
    if answer.Some? {
      var first := PageOf(answer.value);
      StackPageGranted(a, answer, b, first);
      StackPageGranted(a, answer, b, first + 1);
      StackPageGranted(a, answer, b, first + 2);
      StackPageGranted(a, answer, b, first + 3);
    }
  }

  lemma StackPageGranted(a: Snapshot, answer: Option<nat>, b: Snapshot, p: nat)
    requires Step(a, GuardedRange(THREAD_STACK_PAGES, VMM_WRITABLE), answer, b) && answer.Some?
    requires PageOf(answer.value) <= p < PageOf(answer.value) + THREAD_STACK_PAGES
    ensures StackPage(b, p)
  {
    hide Proper, MissingTables, PathRights;
    RangeIsMapped(a, GuardedRange(THREAD_STACK_PAGES, VMM_WRITABLE), answer, b, p);
  }

  /** A heap call does not move the bump pointer or take back what was handed out. */
  lemma HeapCallKeeps(h: HeapState, s: Snapshot, call: HeapCall, h': HeapState, s': Snapshot)
    requires JointStep(h, s, HeapCalled(call), h', s')
    ensures s'.dynamicNext == s.dynamicNext && s'.guards == s.guards && s'.granted == s.granted
    ensures call.Malloc? ==>
              if call.result == NULL then h' == h
              else call.result !in h.live && h'.live == h.live[call.result := call.size]
    ensures call.Free? ==> h'.live == h.live - {call.ptr}
  {
    hide HeapState.Sound, InMemory;
  }

  /** The memory half of thread_create: the record and the stack. */
  method Allocate(system: System)
    returns (ok: bool, record: bool, stack: Option<nat>, ghost ptr: nat, ghost h: HeapState, ghost s: Snapshot)
    requires system.Valid()
    requires system.kernel.manager.dynamicNext + (THREAD_STACK_PAGES + 2) * PAGE_SIZE <= MMIO_BASE
    modifies system`heaps, system`states, system`events, system.heap`blocks, system.heap`live
    modifies system.heap.memory`headers, system.kernel`held, system.kernel.manager, system.kernel.manager.space`words
    modifies system.kernel.manager.space`tree, system.kernel.manager.space`pages, system.kernel.manager.space`owner
    modifies system.kernel.manager.space`tlb, system.kernel.manager.space`psc
    modifies system.kernel.manager.space.frames`free, system.kernel.manager.space.frames`freeFrames
    modifies system.kernel.manager.space.frames`nextSearchIndex, system.kernel.manager.space.frames.bitmap
    modifies system.kernel.manager.space.mem
    ensures ok ==> system.Valid() && (record <==> ptr != NULL)
    ensures ok ==>
              JointStep(old(system.heap.State()), old(system.heap.Seen()), HeapCalled(HeapCall.Malloc(32, ptr)), h, s)
    ensures !ok ==> old(|system.heap.Seen().free|) < 8
    ensures ok ==>
              (ptr == NULL <==> forall k :: 0 <= k < |old(system.heap.blocks)| ==> !old(system.heap.blocks)[k].Fits(32))
    ensures ok ==> (stack.Some? <==> ptr != NULL && Enough(s, PageOf(s.dynamicNext) + 1, 4))
    ensures ok && stack.Some? ==>
              && stack.value == old(system.heap.Seen().dynamicNext) + PAGE_SIZE
              && system.heap.Seen().dynamicNext == stack.value + (THREAD_STACK_PAGES + 1) * PAGE_SIZE
              && GuardedStack(system.heap.Seen(), stack.value)
              && ptr !in old(system.heap.live) && system.heap.live == old(system.heap.live)[ptr := 32]
    ensures ok && stack.None? ==>
              system.heap.live == old(system.heap.live)
              && old(system.heap.Seen().dynamicNext) <= system.heap.Seen().dynamicNext
  {
    hide System.Valid, JointStep, HeapState.Sound, Step, Enough, GuardedStack, MemoryManager.State, Harmless,
      WritesHeadersOnly, RoundUp;
    record, stack := false, None;
    ghost var h0, s0 := system.heap.State(), system.heap.Seen();
    ptr, h, s := NULL, h0, s0;
    BumpPointer(system);
    RoundUpHolds(THREAD_SIZE);
    var p;
    ok, p := system.Malloc(THREAD_SIZE);
    if !ok {
      return;
    }
    ptr, h, s := p, system.heap.State(), system.heap.Seen();
    HeapCallKeeps(h0, s0, HeapCall.Malloc(THREAD_SIZE, ptr), h, s);
    if p == NULL {
      return;
    }
    record := true;
    BumpPointer(system);
    RangeIsHarmless(s, h, THREAD_STACK_PAGES, VMM_WRITABLE);
    stack := system.Ask(GuardedRange(THREAD_STACK_PAGES, VMM_WRITABLE));
    RangeAnswered(s, stack, system.heap.Seen());
    if stack.None? {
      ghost var b := system.heap.Seen();
      system.Release(p);
      HeapCallKeeps(h, b, HeapCall.Free(p), system.heap.State(), system.heap.Seen());
    }
  }

  /** The new thread t comes right behind the running one, on its stack, from the trampoline. */
  ghost predicate Made(m: Threads.Moment, entry: uint64, arg: uint64, n: Threads.Moment, t: Threads.Thread) {
    && m.Intact() && Threads.Stepped(m, Threads.Create(entry, arg, true, Some(t.base)), n)
    && |n.view.ring| > 1 && n.view.ring[1] == t && t !in m.view.contexts && t.top == t.base + Threads.STACK_WORDS
  }

  lemma ThreadMade(m: Threads.Moment, n: Threads.Moment, entry: uint64, arg: uint64, base: nat, t: Threads.Thread)
    requires m.Intact() && Threads.Stepped(m, Threads.Create(entry, arg, true, Some(base)), n)
    requires |n.view.ring| > 1 ==> n.view.ring[1] == t
    ensures Made(m, entry, arg, n, t) && t.base == base
  {
  }

  /** A stack that does not exist is no obstacle, and the pointer may move on. */
  lemma NoStackNoObstacle(m: Threads.Moment, entry: uint64, arg: uint64, record: bool, next: nat, next': nat)
    requires m.Intact() && StacksBelow(m.view.contexts, next) && next <= next'
    ensures Threads.Allowed(m, Threads.Create(entry, arg, record, None)) && StacksBelow(m.view.contexts, next')
  {
    hide Threads.StacksIntact, Threads.Distinct;
  }

  lemma NothingMade(m: Threads.Moment, n: Threads.Moment, entry: uint64, arg: uint64, record: bool)
    requires m.Intact() && Threads.Stepped(m, Threads.Create(entry, arg, record, None), n)
    ensures n == m
  {
  }

  /** The scheduler's half: the first frame and the ring. */
  method Start(machine: Threads.Machine, entry: uint64, arg: uint64, record: bool, stack: Option<nat>,
               ghost next: nat, ghost next': nat)
    returns (t: Threads.Thread?)
    requires machine.Valid() && MMIO_BASE <= 8 * machine.ram.Length && StacksBelow(machine.view.contexts, next)
    requires next % PAGE_SIZE == 0 && next + (THREAD_STACK_PAGES + 2) * PAGE_SIZE <= MMIO_BASE && next <= next'
    requires stack.Some? ==>
               record && stack.value == next + PAGE_SIZE && next' == next + (THREAD_STACK_PAGES + 2) * PAGE_SIZE
    modifies machine`nextThreadId, machine`view, machine.ram, machine.current`next
    ensures machine.Valid() && StacksBelow(machine.view.contexts, next')
    ensures t == null <==> stack.None?
    ensures t == null ==> machine.Now() == old(machine.Now())
    ensures t != null ==> Made(old(machine.Now()), entry, arg, machine.Now(), t) && 8 * t.base == stack.value
  {
    hide Threads.Machine.Valid, Threads.Moment.Intact, Threads.Stepped, Threads.Allowed, StacksBelow, Made;
    machine.IntactNow();
    ghost var m := machine.Now();
    if stack.None? {
      NoStackNoObstacle(m, entry, arg, record, next, next');
      t := machine.CreateThread(entry, arg, record, None);
      NothingMade(m, machine.Now(), entry, arg, record);
    } else {
      RangeIsAPlace(m, next, entry, arg);
      t := machine.CreateThread(entry, arg, true, Some(stack.value / 8));
      StacksStayBelow(m, machine.Now(), next, entry, arg, stack.value / 8);
      ThreadMade(m, machine.Now(), entry, arg, stack.value / 8, t);
    }
  }

  /** thread_create; !ok stands for a panic in the fault of the first store to a heap page.  h and s are heap and
      memory between the two allocations.  The result is NULL exactly if no block fits the record or there are not
      frames enough for the stack; then the record is not left on the heap and no thread has changed.  Otherwise
      the record stays live, and the thread starts at the trampoline with entry and arg, on 16 KiB of its own
      that can be written and lie between two guard pages, apart from all other stacks. */
  method CreateThread(system: System, machine: Threads.Machine, entry: uint64, arg: uint64)
    returns (ok: bool, t: Threads.Thread?, ghost ptr: nat, ghost h: HeapState, ghost s: Snapshot)
    requires system.Valid() && machine.Valid()
    requires machine.ram as object !in {system.kernel.manager.space.mem, system.kernel.manager.space.frames.bitmap}
    requires system.kernel.manager.dynamicNext + (THREAD_STACK_PAGES + 2) * PAGE_SIZE <= MMIO_BASE
    requires MMIO_BASE <= 8 * machine.ram.Length
    requires StacksBelow(machine.view.contexts, system.heap.Seen().dynamicNext)
    modifies machine`nextThreadId, machine`view, machine.ram, machine.current`next
    modifies system`heaps, system`states, system`events, system.heap`blocks, system.heap`live
    modifies system.heap.memory`headers, system.kernel`held, system.kernel.manager, system.kernel.manager.space`words
    modifies system.kernel.manager.space`tree, system.kernel.manager.space`pages, system.kernel.manager.space`owner
    modifies system.kernel.manager.space`tlb, system.kernel.manager.space`psc
    modifies system.kernel.manager.space.frames`free, system.kernel.manager.space.frames`freeFrames
    modifies system.kernel.manager.space.frames`nextSearchIndex, system.kernel.manager.space.frames.bitmap
    modifies system.kernel.manager.space.mem
    ensures ok ==>
              && system.Valid() && machine.Valid()
              && StacksBelow(machine.view.contexts, system.heap.Seen().dynamicNext)
    ensures !ok ==> old(|system.heap.Seen().free|) < 8
    ensures ok ==>
              JointStep(old(system.heap.State()), old(system.heap.Seen()), HeapCalled(HeapCall.Malloc(32, ptr)), h, s)
    ensures ok ==>
              (ptr == NULL <==> forall k :: 0 <= k < |old(system.heap.blocks)| ==> !old(system.heap.blocks)[k].Fits(32))
    ensures ok ==> (t == null <==> ptr == NULL || !Enough(s, PageOf(s.dynamicNext) + 1, 4))
    ensures ok && t == null ==> system.heap.live == old(system.heap.live) && machine.Now() == old(machine.Now())
    ensures ok && t != null ==>
              && Made(old(machine.Now()), entry, arg, machine.Now(), t)
              && GuardedStack(system.heap.Seen(), 8 * t.base) && 8 * (t.top - t.base) == 16384
              && ptr !in old(system.heap.live) && system.heap.live == old(system.heap.live)[ptr := 32]
  {
    hide System.Valid, Threads.Machine.Valid, StacksBelow, GuardedStack, MemoryManager.State, Threads.Machine.Now,
      JointStep, Enough, Threads.Stepped, Threads.Moment.Intact;
    BumpPointer(system);
    ghost var next := system.heap.Seen().dynamicNext;
    t := null;
    var record, stack;
    ok, record, stack, ptr, h, s := Allocate(system);
    if ok {
      t := Start(machine, entry, arg, record, stack, next, system.heap.Seen().dynamicNext);
    }
  }
}
