/** The memory stack as a whole: the heap of kernel/mm/heap.c on the pages that
    kernel/arch/x86_64/mm/vmm.c maps, in the frames that kernel/mm/pmm.c hands out, and what the rest
    of the kernel does in the meantime. */
module EndToEnd {
  import opened Words
  import opened PhysicalMemory
  import opened PageTables
  import opened Entries
  import opened KernelMemory
  import opened KernelRuns
  import opened HeapBlocks
  import opened HeapMemory
  import opened Heap

  /** Byte i of the live allocation at ptr. */
  predicate LiveByte(live: map<nat, uint64>, ptr: nat, i: nat) {
    ptr in live && i < live[ptr] <= TWO_64 - MIN_SPLIT_SIZE
  }

  lemma LiveByteIsInHeap(blocks: seq<Block>, live: map<nat, uint64>, ptr: nat, i: nat) returns (b: Block)
    requires Tiles(blocks, HEAP_VBASE, HEAP_VBASE + HEAP_SIZE) && Owns(blocks, live) && LiveByte(live, ptr, i)
    ensures IsUsed(blocks, b) && b.Payload() == ptr && ptr + i < b.End()
    ensures HEAP_VBASE <= b.addr && b.End() <= HEAP_VBASE + HEAP_SIZE
  {
    b :| IsUsed(blocks, b) && b.Payload() == ptr;
    assert Granted(b, live);
    var k :| 0 <= k < |blocks| && blocks[k] == b;
    BlocksAreAligned(blocks, HEAP_VBASE, HEAP_VBASE + HEAP_SIZE, k);
  }

  /** Two bytes of live allocations that have been touched are two bytes of physical memory, and
      neither lies in a frame that is free, holds a page table or the allocator's bitmap, or is frame 0. */
  lemma LiveBytesAreApart(heap: Allocator, p: nat, i: nat, q: nat, j: nat)
    requires heap.Valid() && LiveByte(heap.live, p, i) && LiveByte(heap.live, q, j) && (p != q || i != j)
    requires PageOf(p + i) in heap.Seen().pages && PageOf(q + j) in heap.Seen().pages
    ensures PhysicalAddress(heap.Seen().pages, p + i) != PhysicalAddress(heap.Seen().pages, q + j)
    ensures var space := heap.memory.manager.space;
            var f := PhysicalAddress(heap.Seen().pages, p + i) / PAGE_SIZE;
            && f < space.frames.frameCount && f !in space.frames.free && f !in space.tree.level && f != 0
            && !(space.frames.homeFirst <= f < space.frames.homeEnd)
  {
    hide Tiles, Coalesced, Linked, Owns, OnlyBlocks, MemoryManager.Valid, Canonical, PhysicalAddress, InMemory;
    var b := LiveByteIsInHeap(heap.blocks, heap.live, p, i);
    var c := LiveByteIsInHeap(heap.blocks, heap.live, q, j);
    if p != q {
      PayloadsDisjoint(heap.blocks, HEAP_VBASE, HEAP_VBASE + HEAP_SIZE, b, c);
    }
    var manager := heap.memory.manager;
    HeapPageIsLazy(manager.lazyRegions, p + i);
    HeapPageIsLazy(manager.lazyRegions, q + j);
    manager.ManagedBytesAreApart(p + i, q + j);
  }

  // ----- Runs of heap calls and other requests

  /** A call of kmalloc or kfree, or a request of anybody else. */
  datatype Happening = HeapCalled(call: HeapCall) | Requested(r: Request, answer: Option<nat>)

  /** The heap's region is registered, and the kernel may write in it. */
  ghost predicate HeapHosted(s: Snapshot) {
    HeapRegistered(s.regions) && HeapIsOpen(s)
  }

  /** What others do: they leave the pages of the heap alone, but for faults on pages that are not mapped, and
      store into live allocations only. */
  ghost predicate Harmless(s: Snapshot, h: HeapState, r: Request) {
    && (forall w: nat {:trigger HeapWord(w)} :: HeapWord(w) && (PageOf(w) in s.pages || !r.Fault?) ==>
          !Concerns(s, r, PageOf(w)))
    && (r.Store? && HeapWord(r.virt) ==> exists p: nat, k: nat :: LiveByte(h.live, p, k) && r.virt == p + k)
  }

  ghost predicate JointStep(h: HeapState, s: Snapshot, e: Happening, h': HeapState, s': Snapshot) {
    match e
    case HeapCalled(call) =>
      && Called(h, call, h') && InMemory(s', h'.headers)
      && Wrote(s, s', if call.Malloc? then h'.blocks else h.blocks)
    case Requested(r, answer) => h' == h && Step(s, r, answer, s') && Harmless(s, h, r)
  }

  ghost predicate JointRun(heaps: seq<HeapState>, states: seq<Snapshot>, events: seq<Happening>) {
    && |heaps| == |states| == |events| + 1
    && heaps[0].Sound() && HeapHosted(states[0]) && InMemory(states[0], heaps[0].headers)
    && forall n :: 0 <= n < |events| ==> JointStep(heaps[n], states[n], events[n], heaps[n + 1], states[n + 1])
  }

  lemma RunGrows(heaps: seq<HeapState>, states: seq<Snapshot>, events: seq<Happening>, e: Happening, h: HeapState,
                 s: Snapshot)
    requires JointRun(heaps, states, events) && JointStep(heaps[|events|], states[|events|], e, h, s)
    ensures JointRun(heaps + [h], states + [s], events + [e]) && |heaps| == |states| == |events| + 1
  {
    hide JointStep, HeapState.Sound, HeapHosted, InMemory;
    var heaps', states', events' := heaps + [h], states + [s], events + [e];
    forall n | 0 <= n < |events'|
      ensures JointStep(heaps'[n], states'[n], events'[n], heaps'[n + 1], states'[n + 1])
    {
      if n < |events| {
        assert JointStep(heaps[n], states[n], events[n], heaps[n + 1], states[n + 1]);
      }
    }
  }

  /** A word of a live allocation is no word of a header. */
  lemma LiveWordIsNoHeader(h: HeapState, w: nat, p: nat, k: nat)
    requires h.Sound() && LiveByte(h.live, p, k) && w == p + k
    ensures w !in HeaderWordsOf(h.blocks)
    ensures HEAP_VBASE <= w < HEAP_VBASE + HEAP_SIZE
  {
    hide Tiles, Coalesced, Linked, Owns;
    var b := LiveByteIsInHeap(h.blocks, h.live, p, k);
    var m :| 0 <= m < |h.blocks| && h.blocks[m] == b;
    forall n: nat | n < |h.blocks| ensures w !in WordsOf(h.blocks[n].addr) {
      HeadersMissPayloads(h.blocks, HEAP_VBASE, HEAP_VBASE + HEAP_SIZE, n, m);
    }
  }

  lemma RequestKeepsHeaderWord(h: HeapState, s: Snapshot, r: Request, answer: Option<nat>, s': Snapshot, w: nat)
    requires h.Sound() && Step(s, r, answer, s') && Harmless(s, h, r) && HeapHosted(s)
    requires MappedWord(s, w) && HeapWord(w) && w in HeaderWordsOf(h.blocks)
    ensures MappedWord(s', w) && ValueAt(s', w) == ValueAt(s, w)
  {
    hide HeapState.Sound, Canonical, HeaderWordsOf, Proper, Answers, Effect, ListsKept, Undisturbed, OnlyStores, Sound,
      Concerns, IsLazy, SamePaths, PageOf, LiveByte;
    HeapPageIsLazy(s.regions, w);
    if r.Store? && r.virt == w {
      var p: nat, k: nat :| LiveByte(h.live, p, k) && r.virt == p + k;
      LiveWordIsNoHeader(h, w, p, k);
      assert false;
    } else {
      StepKeepsWord(s, r, answer, s', w);
    }
  }

  /** What others do changes no header. */
  lemma RequestKeepsHeaders(h: HeapState, s: Snapshot, r: Request, answer: Option<nat>, s': Snapshot)
    requires h.Sound() && HeapHosted(s) && InMemory(s, h.headers)
    requires Step(s, r, answer, s') && Harmless(s, h, r)
    ensures InMemory(s', h.headers)
  {
    hide HeapState.Sound, Step, Harmless, HeapHosted, MappedWord, ValueAt, HeaderWordsOf, HeaderPlace;
    forall a | a in h.headers ensures HoldsHeader(s', a, h.headers[a]) {
      HeaderWords(a);
      HeaderIsOfBlock(h, a);
      assert a in WordsOf(a) && a + 8 in WordsOf(a) && a + 16 in WordsOf(a) && a + 24 in WordsOf(a);
      RequestKeepsHeaderWord(h, s, r, answer, s', a);
      RequestKeepsHeaderWord(h, s, r, answer, s', a + 8);
      RequestKeepsHeaderWord(h, s, r, answer, s', a + 16);
      RequestKeepsHeaderWord(h, s, r, answer, s', a + 24);
    }
  }

  lemma HeaderIsOfBlock(h: HeapState, a: nat)
    requires h.Sound() && a in h.headers
    ensures WordsOf(a) <= HeaderWordsOf(h.blocks)
  {
    assert StartsBlock(h.blocks, a);
  }

  /** In every state of a run memory holds the header of every block, next and prev links included. */
  lemma {:induction false} HeadersStayInMemory(heaps: seq<HeapState>, states: seq<Snapshot>, events: seq<Happening>,
                                               n: nat)
    requires JointRun(heaps, states, events) && n < |heaps|
    ensures heaps[n].Sound() && HeapHosted(states[n]) && InMemory(states[n], heaps[n].headers)
    ensures forall i: nat :: i < |heaps[n].blocks| ==>
              HoldsHeader(states[n], heaps[n].blocks[i].addr, HeaderOf(heaps[n].blocks, i))
  {
    hide HeapState.Sound, Step, Harmless, HeapHosted, InMemory, Wrote, HoldsHeader;
    if n > 0 {
      HeadersStayInMemory(heaps, states, events, n - 1);
      assert JointStep(heaps[n - 1], states[n - 1], events[n - 1], heaps[n], states[n]);
      match events[n - 1] {
        case HeapCalled(call) => WroteKeepsHost(states[n - 1], states[n], heaps[n - 1], call, heaps[n]);
        case Requested(r, answer) =>
          RequestKeepsHeaders(heaps[n], states[n - 1], r, answer, states[n]);
          StepKeepsHost(states[n - 1], heaps[n], r, answer, states[n]);
      }
    }
    BlocksInMemory(states[n], heaps[n]);
  }

  lemma WroteKeepsHost(s: Snapshot, s': Snapshot, h: HeapState, call: HeapCall, h': HeapState)
    requires Called(h, call, h') && Wrote(s, s', if call.Malloc? then h'.blocks else h.blocks) && HeapHosted(s)
    ensures HeapHosted(s') && h'.Sound()
  {
    hide HeapState.Sound;
  }

  lemma StepKeepsHost(s: Snapshot, h: HeapState, r: Request, answer: Option<nat>, s': Snapshot)
    requires Step(s, r, answer, s') && HeapHosted(s) && Harmless(s, h, r)
    ensures HeapHosted(s')
  {
    hide Evolves, Proper, Sound, HeapIsOpen, Answers, Harmless, Elsewhere;
    var i: nat :| IsHeapSlot(s.regions, i);
    if s'.regions != s.regions {
      assert FillsFirstSlot(s.regions, LazyRegion(r.start, r.end, r.flags, true), s'.regions);
    }
    assert IsHeapSlot(s'.regions, i);
    if r.Fault? {
      FaultKeepsOpen(s, r, answer, s');
    } else {
      HarmlessKeepsOpen(s, h, r, answer, s');
    }
  }

  lemma HarmlessKeepsOpen(s: Snapshot, h: HeapState, r: Request, answer: Option<nat>, s': Snapshot)
    requires Step(s, r, answer, s') && HeapIsOpen(s) && Harmless(s, h, r) && !r.Fault?
    ensures HeapIsOpen(s')
  {
    hide PageOf, PathRights, Effect, Answers, Proper, Undisturbed, OnlyStores, Concerns, HeapWord;
    forall w: nat {:trigger HeapWord(w)} | HeapWord(w)
      ensures PathRights(s'.words, s'.root, 4, PageOf(w)).writable && (PageOf(w) in s'.pages ==> Storable(s', w))
    {
      assert Lookup(s'.pages, PageOf(w)) == Lookup(s.pages, PageOf(w));
    }
  }

  lemma BlocksInMemory(s: Snapshot, h: HeapState)
    requires h.Sound() && InMemory(s, h.headers)
    ensures forall i: nat :: i < |h.blocks| ==> HoldsHeader(s, h.blocks[i].addr, HeaderOf(h.blocks, i))
  {
    hide Tiles, Coalesced, Owns, HoldsHeader, HeaderPlace;
    forall i: nat | i < |h.blocks| ensures HoldsHeader(s, h.blocks[i].addr, HeaderOf(h.blocks, i)) {
      HeaderInList(h.headers, h.blocks, i);
    }
  }

  /** An allocation that stays live keeps its size. */
  lemma {:induction false} LiveStays(heaps: seq<HeapState>, states: seq<Snapshot>, events: seq<Happening>, i: nat,
                                     j: nat, p: nat)
    requires JointRun(heaps, states, events) && i <= j < |heaps| && forall n :: i <= n <= j ==> p in heaps[n].live
    ensures heaps[j].live[p] == heaps[i].live[p]
    decreases j
  {
    hide HeapState.Sound, HeapHosted, InMemory, Wrote, Step, Harmless;
    if i < j {
      LiveStays(heaps, states, events, i, j - 1, p);
      assert JointStep(heaps[j - 1], states[j - 1], events[j - 1], heaps[j], states[j]);
    }
  }

  /** Over every run of heap calls, requests and faults a word of a live allocation that has been touched stays
      mapped and keeps its value while the allocation is not freed and nobody stores at that address. */
  lemma {:induction false} LiveWordKept(heaps: seq<HeapState>, states: seq<Snapshot>, events: seq<Happening>,
                                        i: nat, j: nat, p: nat, k: nat)
    requires JointRun(heaps, states, events) && i <= j < |heaps| && forall n :: i <= n <= j ==> p in heaps[n].live
    requires LiveByte(heaps[i].live, p, k) && (p + k) % 8 == 0 && PageOf(p + k) in states[i].pages
    requires forall n :: i <= n < j && events[n].Requested? && events[n].r.Store? ==> events[n].r.virt != p + k
    ensures PageOf(p + k) in states[j].pages && ValueAt(states[j], p + k) == ValueAt(states[i], p + k)
    decreases j
  {
    hide HeapState.Sound, HeapHosted, InMemory, HoldsHeader, Step, Harmless, ValueAt, PageOf, JointStep;
    if i < j {
      LiveWordKept(heaps, states, events, i, j - 1, p, k);
      LiveStays(heaps, states, events, i, j - 1, p);
      HeadersStayInMemory(heaps, states, events, j - 1);
      HeadersStayInMemory(heaps, states, events, j);
      LiveStays(heaps, states, events, i, j, p);
      LiveWordStep(heaps[j - 1], states[j - 1], events[j - 1], heaps[j], states[j], p, k);
    }
  }

  lemma LiveWordStep(h: HeapState, s: Snapshot, e: Happening, h': HeapState, s': Snapshot, p: nat, k: nat)
    requires JointStep(h, s, e, h', s') && h.Sound() && h'.Sound() && HeapHosted(s)
    requires LiveByte(h.live, p, k) && LiveByte(h'.live, p, k) && (p + k) % 8 == 0 && PageOf(p + k) in s.pages
    requires e.Requested? && e.r.Store? ==> e.r.virt != p + k
    ensures PageOf(p + k) in s'.pages && ValueAt(s', p + k) == ValueAt(s, p + k)
  {
    hide HeapState.Sound, HeapRegistered, HeapIsOpen, InMemory, Step, Harmless, ValueAt, PageOf, Called,
      HeaderWordsOf, Canonical, IsLazy, LiveByte;
    LiveWordIsNoHeader(h, p + k, p, k);
    LiveWordIsNoHeader(h', p + k, p, k);
    HeapPageIsLazy(s.regions, p + k);
    assert MappedWord(s, p + k);
    match e {
      case HeapCalled(call) =>
        KeptWord(s, s', HeaderWordsOf(if call.Malloc? then h'.blocks else h.blocks), p + k);
      case Requested(r, answer) =>
        HarmlessKeepsPage(h, s, r, answer, s', p + k);
        StepKeepsWord(s, r, answer, s', p + k);
    }
  }

  lemma HarmlessKeepsPage(h: HeapState, s: Snapshot, r: Request, answer: Option<nat>, s': Snapshot, w: nat)
    requires Step(s, r, answer, s') && Harmless(s, h, r) && HeapWord(w) && PageOf(w) in s.pages
    ensures Lookup(s'.pages, PageOf(w)) == Lookup(s.pages, PageOf(w)) && PageOf(w) in s'.pages
  {
    hide PageOf, Effect, Answers, Proper, Undisturbed, OnlyStores, Concerns;
  }

  /** Addresses in two live allocations differ, so a store into another one is a store elsewhere. */
  lemma AllocationsApart(h: HeapState, p: nat, k: nat, q: nat, m: nat)
    requires h.Sound() && LiveByte(h.live, p, k) && LiveByte(h.live, q, m) && p != q
    ensures p + k != q + m
  {
    hide Tiles, Coalesced, Linked, OnlyBlocks, Owns;
    var b := LiveByteIsInHeap(h.blocks, h.live, p, k);
    var c := LiveByteIsInHeap(h.blocks, h.live, q, m);
    PayloadsDisjoint(h.blocks, HEAP_VBASE, HEAP_VBASE + HEAP_SIZE, b, c);
  }

  lemma ValidKernel(kernel: Kernel)
    requires kernel.Valid()
    ensures kernel.manager.Valid() && Holds(kernel.held, kernel.manager.State())
  {
    hide MemoryManager.Valid, MemoryManager.State, Holds;
  }

  lemma ValidHeap(heap: Allocator)
    requires heap.Valid()
    ensures heap.memory.manager.Valid() && heap.State().Sound() && heap.freeList == HEAP_VBASE
    ensures HeapHosted(heap.Seen()) && InMemory(heap.Seen(), heap.memory.headers)
  {
    hide MemoryManager.Valid, HeapRegistered, HeapIsOpen, InMemory, Tiles, Coalesced, Linked, OnlyBlocks, Owns;
  }

  lemma StillValid(heap: Allocator)
    requires heap.memory.manager.Valid() && heap.State().Sound() && heap.freeList == HEAP_VBASE
    requires HeapHosted(heap.Seen()) && InMemory(heap.Seen(), heap.memory.headers)
    ensures heap.Valid()
  {
    hide MemoryManager.Valid, HeapRegistered, HeapIsOpen, InMemory, Tiles, Coalesced, Linked, OnlyBlocks, Owns;
  }

  /** The heap and the rest of the kernel on one memory system, and what has happened so far. */
  class System {
    const heap: Allocator
    const kernel: Kernel
    ghost var heaps: seq<HeapState>
    ghost var states: seq<Snapshot>
    ghost var events: seq<Happening>

    ghost predicate Valid()
      reads this, heap, kernel, heap.memory, kernel.manager, kernel.manager.space, kernel.manager.space.frames
      reads kernel.manager.space.frames.bitmap, kernel.manager.space.mem
    {
      && heap.memory.manager == kernel.manager && heap.Valid() && kernel.Valid()
      && JointRun(heaps, states, events)
      && heaps[|events|] == heap.State() && states[|events|] == heap.Seen()
    }

    /** The system once heap_init is done. */
    constructor (heap: Allocator, kernel: Kernel)
      requires heap.memory.manager == kernel.manager && heap.Valid() && kernel.Valid()
      ensures Valid() && this.heap == heap && this.kernel == kernel && events == []
    {
      this.heap, this.kernel := heap, kernel;
      heaps, states, events := [heap.State()], [heap.Seen()], [];
    }

    /** kmalloc */
    method Malloc(size: uint64) returns (ok: bool, ptr: nat)
      requires Valid()
      modifies `heaps, `states, `events, heap`blocks, heap`live
      modifies heap.memory`headers, kernel.manager.space`words, kernel.manager.space`tree, kernel.manager.space`pages
      modifies kernel.manager.space`owner, kernel.manager.space`tlb, kernel.manager.space`psc
      modifies kernel.manager.space.frames`free, kernel.manager.space.frames`freeFrames
      modifies kernel.manager.space.frames`nextSearchIndex, kernel.manager.space.frames.bitmap, kernel.manager.space.mem
      ensures !ok ==> |old(heap.Seen()).free| < 8 && heap.Seen().free == {}
      ensures ok ==> Valid() && events == old(events) + [HeapCalled(HeapCall.Malloc(size, ptr))]
      ensures ok ==>
                (ptr == NULL <==>
                   size == 0 || forall k :: 0 <= k < |old(heap.blocks)| ==> !old(heap.blocks)[k].Fits(RoundUp(size)))
      ensures ok ==> JointStep(old(heap.State()), old(heap.Seen()), HeapCalled(HeapCall.Malloc(size, ptr)),
                               heap.State(), heap.Seen())
    {
      hide Allocator.Valid, HeapState.Sound, Kernel.Valid, JointRun, JointStep, Called, MemoryManager.State, Roomy,
        Allocated, RoundUp, Allocator.WorstCase, FirstFit;
      ghost var h, s := heap.State(), heap.Seen();
      ValidKernel(kernel);
      ghost var i;
      ok, ptr, i := heap.Kmalloc(size);
      if ok {
        Record(h, s, HeapCall.Malloc(size, ptr));
      }
    }

    /** kfree */
    method Release(ptr: nat)
      requires Valid() && (ptr == NULL || ptr in heap.live)
      modifies `heaps, `states, `events, heap`blocks, heap`live
      modifies heap.memory`headers, kernel.manager.space`tlb, kernel.manager.space`psc
      modifies kernel.manager.space`words, kernel.manager.space.mem
      ensures Valid() && events == old(events) + [HeapCalled(HeapCall.Free(ptr))]
      ensures JointStep(old(heap.State()), old(heap.Seen()), HeapCalled(HeapCall.Free(ptr)), heap.State(), heap.Seen())
    {
      hide Allocator.Valid, HeapState.Sound, Kernel.Valid, JointRun, JointStep, Called, MemoryManager.State, Roomy,
        Released;
      ghost var h, s := heap.State(), heap.Seen();
      ValidKernel(kernel);
      ghost var i := heap.Kfree(ptr);
      Record(h, s, HeapCall.Free(ptr));
    }

    /** Any other request. */
    method Ask(r: Request) returns (answer: Option<nat>)
      requires Valid() && kernel.Can(r) && Harmless(heap.Seen(), heap.State(), r)
      modifies `heaps, `states, `events
      modifies kernel`held, kernel.manager, kernel.manager.space`words, kernel.manager.space`tree
      modifies kernel.manager.space`pages, kernel.manager.space`owner, kernel.manager.space`tlb
      modifies kernel.manager.space`psc, kernel.manager.space.frames`free, kernel.manager.space.frames`freeFrames
      modifies kernel.manager.space.frames`nextSearchIndex, kernel.manager.space.frames.bitmap
      modifies kernel.manager.space.mem
      ensures Valid() && events == old(events) + [Requested(r, answer)]
      ensures Step(old(heap.Seen()), r, answer, heap.Seen()) && heap.State() == old(heap.State())
    {
      hide Allocator.Valid, HeapState.Sound, Kernel.Valid, JointRun, JointStep, MemoryManager.State, Step, Harmless,
        Kernel.Can, InMemory, HeapHosted;
      ghost var h, s := heap.State(), heap.Seen();
      ValidHeap(heap);
      answer := kernel.Handle(r);
      RecordRequest(h, s, r, answer);
    }

    ghost method RecordRequest(h: HeapState, s: Snapshot, r: Request, answer: Option<nat>)
      requires JointRun(heaps, states, events) && heaps[|events|] == h && states[|events|] == s
      requires heap.memory.manager == kernel.manager && kernel.Valid()
      requires heap.State() == h && heap.freeList == HEAP_VBASE
      requires h.Sound() && HeapHosted(s) && InMemory(s, h.headers)
      requires Step(s, r, answer, heap.Seen()) && Harmless(s, h, r)
      modifies `heaps, `states, `events
      ensures Valid() && events == old(events) + [Requested(r, answer)]
    {
      hide Allocator.Valid, HeapState.Sound, Kernel.Valid, JointRun, MemoryManager.State, Step, Harmless, InMemory,
        HeapHosted;
      ValidKernel(kernel);
      RequestKeepsHeaders(h, s, r, answer, heap.Seen());
      StepKeepsHost(s, h, r, answer, heap.Seen());
      StillValid(heap);
      RunGrows(heaps, states, events, Requested(r, answer), h, heap.Seen());
      heaps, states, events := heaps + [h], states + [heap.Seen()], events + [Requested(r, answer)];
    }

    ghost method Record(h: HeapState, s: Snapshot, call: HeapCall)
      requires JointRun(heaps, states, events) && heaps[|events|] == h && states[|events|] == s
      requires heap.memory.manager == kernel.manager && heap.Valid() && Holds(kernel.held, s)
      requires Called(h, call, heap.State()) && Wrote(s, heap.Seen(), if call.Malloc? then heap.blocks else h.blocks)
      modifies `heaps, `states, `events
      ensures Valid() && events == old(events) + [HeapCalled(call)]
      ensures JointStep(h, s, HeapCalled(call), heap.State(), heap.Seen())
    {
      hide Tiles, Coalesced, Linked, OnlyBlocks, Owns, JointRun, HeapState.Sound, Called, InMemory, MemoryManager.Valid,
        MemoryManager.State, OnlyWords;
      ValidHeap(heap);
      HeldKept(s, heap.Seen(), if call.Malloc? then heap.blocks else h.blocks, kernel.held);
      RunGrows(heaps, states, events, HeapCalled(call), heap.State(), heap.Seen());
      heaps, states, events := heaps + [heap.State()], states + [heap.Seen()], events + [HeapCalled(call)];
    }
  }

  lemma HeldKept(s: Snapshot, s': Snapshot, blocks: seq<Block>, held: set<nat>)
    requires Wrote(s, s', blocks) && Holds(held, s)
    ensures Holds(held, s')
  {
  }
}
