/** Runs of the memory system: any sequence of requests from the rest of the kernel and from its
    threads, carried out one after the other. */
module KernelRuns {
  import opened Words
  import opened PhysicalMemory
  import opened PageTables
  import opened Entries
  import opened Vmm
  import opened KernelMemory

  ghost predicate Trace(states: seq<Snapshot>, requests: seq<Request>, answers: seq<Option<nat>>) {
    && |states| == |requests| + 1 && |answers| == |requests|
    && forall i :: 0 <= i < |requests| ==> Step(states[i], requests[i], answers[i], states[i + 1])
  }

  lemma TraceGrows(states: seq<Snapshot>, requests: seq<Request>, answers: seq<Option<nat>>,
                   r: Request, answer: Option<nat>, b: Snapshot)
    requires Trace(states, requests, answers) && Step(states[|requests|], r, answer, b)
    ensures Trace(states + [b], requests + [r], answers + [answer])
  {
    hide Step;
    var states', requests', answers' := states + [b], requests + [r], answers + [answer];
    forall i | 0 <= i < |requests'| ensures Step(states'[i], requests'[i], answers'[i], states'[i + 1]) {
      if i < |requests| {
        assert Step(states[i], requests[i], answers[i], states[i + 1]);
      }
    }
  }

  lemma NoStep(s: Snapshot)
    ensures Trace([s], [], [])
  {
  }

  // ----- What lasts

  lemma {:induction false} GuardStays(states: seq<Snapshot>, requests: seq<Request>, answers: seq<Option<nat>>,
                                      i: nat, j: nat, p: nat)
    requires Trace(states, requests, answers) && i < j < |states| && p in states[i].guards
    ensures p in states[j].guards && p !in states[j].pages
    decreases j
  {
    hide ListsKept, Effect, Answers, Proper, Undisturbed, SamePaths;
    if i < j - 1 {
      GuardStays(states, requests, answers, i, j - 1, p);
    }
    assert Step(states[j - 1], requests[j - 1], answers[j - 1], states[j]);
  }

  /** The pages before and after a range that vmm_alloc_guarded has reserved, whether it then returned it or
      not, are never mapped again, whatever is asked later. */
  lemma GuardsHoldForever(states: seq<Snapshot>, requests: seq<Request>, answers: seq<Option<nat>>, i: nat, j: nat)
    requires Trace(states, requests, answers) && i < j < |states| && requests[i].GuardedRange?
    ensures var first := PageOf(states[i].dynamicNext) + 1;
            && first - 1 !in states[j].pages && first + requests[i].pageCount !in states[j].pages
            && (answers[i].Some? ==> PageOf(answers[i].value) == first)
  {
    hide Evolves, ListsKept, Proper, RangeAdded, Enough;
    var first := PageOf(states[i].dynamicNext) + 1;
    assert Step(states[i], requests[i], answers[i], states[i + 1]);
    if j == i + 1 {
      assert Sound(states[j]) by {
        assert Evolves(states[i], requests[i], states[j]);
        EvolvesSoundly(states[i], requests[i], states[j]);
      }
    } else {
      GuardStays(states, requests, answers, i + 1, j, first - 1);
      GuardStays(states, requests, answers, i + 1, j, first + requests[i].pageCount);
    }
  }

  lemma EvolvesSoundly(a: Snapshot, r: Request, b: Snapshot)
    requires Evolves(a, r, b)
    ensures Sound(b)
  {
  }

  /** No request from i to j - 1 is about page p; if p has been handed out, unmapping is the only one that can be. */
  ghost predicate LeftAlone(states: seq<Snapshot>, requests: seq<Request>, i: nat, j: nat, p: nat)
    requires |states| == |requests| + 1 && i <= j < |states|
  {
    forall k :: i <= k < j ==>
      if p in states[i].granted then !(requests[k].Unmap? && PageOf(requests[k].virt) == p)
      else !Concerns(states[k], requests[k], p)
  }

  /** The page keeps its translation, and what was handed out stays so. */
  lemma {:induction false} TranslationStays(states: seq<Snapshot>, requests: seq<Request>, answers: seq<Option<nat>>,
                                            i: nat, j: nat, p: nat)
    requires Trace(states, requests, answers) && i <= j < |states| && LeftAlone(states, requests, i, j, p)
    ensures Lookup(states[j].pages, p) == Lookup(states[i].pages, p)
    ensures p in states[i].granted ==> p in states[j].granted
    ensures IsLazy(states[i].regions, p) ==> IsLazy(states[j].regions, p)
    decreases j
  {
    if i < j {
      TranslationStays(states, requests, answers, i, j - 1, p);
      assert Step(states[j - 1], requests[j - 1], answers[j - 1], states[j]);
    }
  }

  /** A frame stays with its owner until it is given back, and is not free. */
  lemma {:induction false} FrameStaysInUse(states: seq<Snapshot>, requests: seq<Request>, answers: seq<Option<nat>>,
                                           i: nat, j: nat, f: nat)
    requires Trace(states, requests, answers) && i < j < |states| && f in states[i].owner
    requires forall k :: i <= k < j ==> requests[k] != GiveBack(f)
    ensures f in states[j].owner && StaysWith(states[i].owner[f], states[j].owner[f]) && f !in states[j].free
    decreases j
  {
    if i < j - 1 {
      FrameStaysInUse(states, requests, answers, i, j - 1, f);
    }
    assert Step(states[j - 1], requests[j - 1], answers[j - 1], states[j]);
    var a, r, b := states[j - 1], requests[j - 1], states[j];
    if r.Store? || r.StoreHeld? {
      assert OnlyStores(a, r, b);
    } else {
      assert Undisturbed(a.words, a.owner, b.words, b.owner, if r.GiveBack? then {r.frame} else {});
    }
  }

  /** The path of a page never restricts it more than it did; and if there was no table below the root
      on it, then all tables there ever will be are the kernel's own, and a page mapped later gets
      exactly the rights asked for. */
  lemma {:induction false} PathsStayAsOpen(states: seq<Snapshot>, requests: seq<Request>, answers: seq<Option<nat>>,
                                           i: nat, j: nat, p: nat)
    requires Trace(states, requests, answers) && i <= j < |states|
    ensures states[j].root == states[i].root
    ensures PathRights(states[j].words, states[j].root, 4, p) == PathRights(states[i].words, states[i].root, 4, p)
    decreases j
  {
    if i < j {
      PathsStayAsOpen(states, requests, answers, i, j - 1, p);
      assert Step(states[j - 1], requests[j - 1], answers[j - 1], states[j]);
    }
  }

  /** Page p is among those of a range. */
  predicate InRange(a: Snapshot, r: Request, p: nat) {
    r.GuardedRange? && PageOf(a.dynamicNext) < p <= PageOf(a.dynamicNext) + r.pageCount
  }

  lemma RangeIsMapped(a: Snapshot, r: Request, answer: Option<nat>, b: Snapshot, p: nat)
    requires Step(a, r, answer, b) && answer.Some? && InRange(a, r, p)
    ensures p in b.granted && GuardedPage(b.pages, b.owner, a.free, p, r.flags, PathRights(a.words, a.root, 4, p))
  {
    hide Evolves, ListsKept, Proper, MissingTables, GuardedPage;
    var first := PageOf(a.dynamicNext) + 1;
    MissingGrows(a.words, a.root, first, p - first + 1, r.pageCount);
    assert Enough(a, first, p - first + 1);
  }

  /** Every page of a range that was returned stays mapped to its frame, as the flags asked for under the
      rights of its path, until it is unmapped. */
  lemma RangeLasts(states: seq<Snapshot>, requests: seq<Request>, answers: seq<Option<nat>>, i: nat, j: nat, p: nat)
    requires Trace(states, requests, answers) && i < j < |states| && answers[i].Some?
    requires InRange(states[i], requests[i], p)
    requires forall k :: i < k < j ==> !(requests[k].Unmap? && PageOf(requests[k].virt) == p)
    ensures p in states[j].pages && states[j].pages[p].level == 1 && states[j].pages[p].frame in states[i].free
    ensures states[j].pages[p].noCache == (requests[i].flags / 4 % 2 == 1)
    ensures states[j].pages[p].rights
         == PathRights(states[i].words, states[i].root, 4, p).Meet(AskedRights(requests[i].flags))
    ensures p in states[j].granted
  {
    hide Step;
    assert Step(states[i], requests[i], answers[i], states[i + 1]);
    RangeIsMapped(states[i], requests[i], answers[i], states[i + 1], p);
    TranslationStays(states, requests, answers, i + 1, j, p);
  }

  /** What a granted request that is about page p makes of it. */
  lemma OnePageMapped(a: Snapshot, r: Request, answer: Option<nat>, b: Snapshot, p: nat)
    requires Step(a, r, answer, b) && answer.Some?
    ensures r.MapPage? && PageOf(r.virt) == p ==> Lookup(b.pages, p) == Lookup(WithPage(a, p, r.phys, r.flags), p)
    ensures r.Device? && PageOf(a.mmioNext) == p ==> Lookup(b.pages, p) == Lookup(WithPage(a, p, r.phys, MMIO_FLAGS), p)
    ensures r.Fault? && PageOf(r.address) == p ==>
              p in b.pages && forall i: nat :: IsSlot(a.regions, i, p) ==>
                b.pages[p].rights == PathRights(a.words, a.root, 4, p).Meet(AskedRights(a.regions[i].flags))
  {
    hide Evolves, ListsKept, Proper, PathRights, Missing;
  }

  /** A page that once had no table below the root has the kernel's own tables only from then on, and is
      mapped, whenever it is mapped, with exactly the frame and the rights that were asked for. */
  lemma OwnPathGrantsWhatIsAsked(states: seq<Snapshot>, requests: seq<Request>, answers: seq<Option<nat>>,
                                 i: nat, k: nat, j: nat, p: nat)
    requires Trace(states, requests, answers) && i <= k < j < |states| && answers[k].Some?
    requires Missing(states[i].words, states[i].root, 4, p) == 3 && LeftAlone(states, requests, k + 1, j, p)
    ensures requests[k].MapPage? && PageOf(requests[k].virt) == p ==>
              Lookup(states[j].pages, p) == Some(AskedMapping(requests[k].phys, requests[k].flags))
    ensures requests[k].Device? && PageOf(states[k].mmioNext) == p ==>
              Lookup(states[j].pages, p) == Some(AskedMapping(requests[k].phys, MMIO_FLAGS))
    ensures requests[k].Fault? && PageOf(requests[k].address) == p ==>
              p in states[j].pages && forall n: nat :: IsSlot(states[k].regions, n, p) ==>
                states[j].pages[p].rights == AskedRights(states[k].regions[n].flags)
    ensures InRange(states[k], requests[k], p) ==>
              p in states[j].pages && states[j].pages[p].rights == AskedRights(requests[k].flags)
  {
    hide Step, LeftAlone, AskedMapping, AskedRights, IsSlot;
    assert Step(states[k], requests[k], answers[k], states[k + 1]);
    PathsStayAsOpen(states, requests, answers, i, k, p);
    NoTableNoRestriction(states[i].words, states[i].root, p);
    TranslationStays(states, requests, answers, k + 1, j, p);
    OnePageMapped(states[k], requests[k], answers[k], states[k + 1], p);
    if InRange(states[k], requests[k], p) {
      RangeIsMapped(states[k], requests[k], answers[k], states[k + 1], p);
    }
  }

  lemma NoTableNoRestriction(mem: seq<uint64>, root: nat, p: nat)
    requires Missing(mem, root, 4, p) == 3
    ensures PathRights(mem, root, 4, p) == FULL
    ensures forall r: Rights :: FULL.Meet(r) == r
  {
  }

  // ----- Memory is memory

  /** The value of the last store to an address that did not fault. */
  function LastStore(requests: seq<Request>, answers: seq<Option<nat>>, virt: nat, initial: nat): nat
    requires |answers| == |requests|
    decreases |requests|
  {
    if |requests| == 0 then initial
    else
      var n := |requests| - 1;
      var r := requests[n];
      if r.Store? && r.virt == virt && answers[n].Some? then r.value
      else LastStore(requests[..n], answers[..n], virt, initial)
  }

  /** Aligned words of two pages with frames of their own are the same word only at one address. */
  lemma SameCell(s: Snapshot, virt: nat, other: nat)
    requires Canonical(virt) && virt % 8 == 0 && Canonical(other) && other % 8 == 0
    requires PageOf(virt) in s.pages && Backed(s.pages, s.owner, PageOf(virt))
    requires PageOf(other) in s.pages && Backed(s.pages, s.owner, PageOf(other))
    requires s.pages[PageOf(other)].frame == s.pages[PageOf(virt)].frame
    requires other / 8 % WORDS_PER_FRAME == virt / 8 % WORDS_PER_FRAME
    ensures other == virt
  {
    hide PageOf, AddressOf, Canonical;
    PageOfAddress(virt);
    PageOfAddress(other);
    WordOfAddress(virt);
    WordOfAddress(other);
  }

  lemma WordOfAddress(virt: nat)
    requires virt % 8 == 0
    ensures virt == virt / PAGE_SIZE * PAGE_SIZE + 8 * (virt / 8 % WORDS_PER_FRAME)
  {
    DivModUnique(virt / 8, WORDS_PER_FRAME, virt / PAGE_SIZE, virt % PAGE_SIZE / 8);
  }

  ghost predicate Managed(s: Snapshot, p: nat) { IsLazy(s.regions, p) || IsDynamic(p) }

  lemma StoreReaches(a: Snapshot, r: Request, virt: nat)
    requires Sound(a) && Proper(a, r) && Canonical(virt) && virt % 8 == 0
    requires Managed(a, PageOf(virt)) && PageOf(virt) in a.pages
    ensures StoresTo(a, r, a.pages[PageOf(virt)].frame, virt / 8 % WORDS_PER_FRAME) <==>
              r.Store? && r.virt == virt && Storable(a, virt)
  {
    assert Backed(a.pages, a.owner, PageOf(virt));
    if r.Store? && StoresTo(a, r, a.pages[PageOf(virt)].frame, virt / 8 % WORDS_PER_FRAME) {
      SameCell(a, virt, r.virt);
    }
  }

  /** A word of a lazy or guarded page changes by stores to its address only. */
  lemma StepKeepsWord(a: Snapshot, r: Request, answer: Option<nat>, b: Snapshot, virt: nat)
    requires Step(a, r, answer, b) && Canonical(virt) && virt % 8 == 0
    requires Managed(a, PageOf(virt)) && PageOf(virt) in a.pages
    requires Lookup(b.pages, PageOf(virt)) == Lookup(a.pages, PageOf(virt))
    ensures ValueAt(b, virt) == if r.Store? && r.virt == virt && answer.Some? then r.value else ValueAt(a, virt)
  {
    var f, i := a.pages[PageOf(virt)].frame, virt / 8 % WORDS_PER_FRAME;
    StoreReaches(a, r, virt);
    assert Backed(a.pages, a.owner, PageOf(virt));
    if r.Store? || r.StoreHeld? {
      assert OnlyStores(a, r, b);
    } else {
      assert f in b.owner && SameFrame(a.words, b.words, f);
    }
  }

  /** Over every run, whatever the processor caches, a mapped word of the lazy and guarded windows holds
      what was last stored at its address. */
  lemma {:induction false} MemoryIsMemory(states: seq<Snapshot>, requests: seq<Request>, answers: seq<Option<nat>>,
                                          i: nat, j: nat, virt: nat)
    requires Trace(states, requests, answers) && i <= j < |states| && LeftAlone(states, requests, i, j, PageOf(virt))
    requires Canonical(virt) && virt % 8 == 0
    requires Managed(states[i], PageOf(virt)) && PageOf(virt) in states[i].pages
    ensures PageOf(virt) in states[j].pages
    ensures ValueAt(states[j], virt) == LastStore(requests[i..j], answers[i..j], virt, ValueAt(states[i], virt))
    decreases j
  {
    hide Step, ValueAt, Canonical, Concerns;
    var p := PageOf(virt);
    TranslationStays(states, requests, answers, i, j, p);
    if i < j {
      MemoryIsMemory(states, requests, answers, i, j - 1, virt);
      TranslationStays(states, requests, answers, i, j - 1, p);
      assert Step(states[j - 1], requests[j - 1], answers[j - 1], states[j]);
      StepKeepsWord(states[j - 1], requests[j - 1], answers[j - 1], states[j], virt);
      assert requests[i..j][..j - i - 1] == requests[i..j - 1] && answers[i..j][..j - i - 1] == answers[i..j - 1];
    }
  }

  /** And a load gives just that. */
  lemma LoadGivesLastStore(states: seq<Snapshot>, requests: seq<Request>, answers: seq<Option<nat>>, i: nat, j: nat)
    requires Trace(states, requests, answers) && i <= j < |requests| && requests[j].Load?
    requires var virt := requests[j].virt;
             && LeftAlone(states, requests, i, j, PageOf(virt))
             && Managed(states[i], PageOf(virt)) && PageOf(virt) in states[i].pages
    ensures var virt := requests[j].virt;
            answers[j] == Some(LastStore(requests[i..j], answers[i..j], virt, ValueAt(states[i], virt)))
  {
    assert Step(states[j], requests[j], answers[j], states[j + 1]);
    MemoryIsMemory(states, requests, answers, i, j, requests[j].virt);
  }

  /** A page that a fault has brought in reads as zero until something is stored in it. */
  lemma FaultedPageStartsAtZero(states: seq<Snapshot>, requests: seq<Request>, answers: seq<Option<nat>>,
                                i: nat, j: nat, virt: nat)
    requires Trace(states, requests, answers) && i < j < |states| && requests[i].Fault? && answers[i].Some?
    requires PageOf(virt) == PageOf(requests[i].address) && Canonical(virt) && virt % 8 == 0
    requires LeftAlone(states, requests, i + 1, j, PageOf(virt))
    ensures PageOf(virt) in states[j].pages
    ensures ValueAt(states[j], virt) == LastStore(requests[i + 1..j], answers[i + 1..j], virt, 0)
  {
    hide Step, ValueAt, Canonical, LeftAlone, LastStore;
    assert Step(states[i], requests[i], answers[i], states[i + 1]);
    FaultBrings(states[i], requests[i], answers[i], states[i + 1], virt);
    MemoryIsMemory(states, requests, answers, i + 1, j, virt);
  }

  lemma FaultBrings(a: Snapshot, r: Request, answer: Option<nat>, b: Snapshot, virt: nat)
    requires Step(a, r, answer, b) && r.Fault? && answer.Some? && PageOf(virt) == PageOf(r.address)
    ensures Managed(b, PageOf(virt)) && PageOf(virt) in b.pages && ValueAt(b, virt) == 0
  {
  }

  // ----- Carrying out requests

  ghost predicate Holds(held: set<nat>, s: Snapshot) {
    forall f :: f in held ==> f in s.owner && s.owner[f].Held?
  }

  lemma StepKeepsHeld(a: Snapshot, r: Request, answer: Option<nat>, b: Snapshot, held: set<nat>)
    requires Step(a, r, answer, b) && Holds(held, a)
    ensures Holds(if r.GiveBack? then held - {r.frame} else held, b)
    ensures r.TakeFrame? && answer.Some? ==> Holds(held + {answer.value}, b)
  {
    var held' := if r.GiveBack? then held - {r.frame} else held;
    forall f | f in held' ensures f in b.owner && b.owner[f].Held? {
      assert f in a.owner && a.owner[f].Held?;
      assert f in b.owner;
    }
  }

  /** The rest of the kernel, as far as the memory system is concerned: it holds frames and makes requests. */
  class Kernel {
    const manager: MemoryManager
    /** The frames it has taken and not given back. */
    var held: set<nat>

    ghost predicate Valid()
      reads this, manager, manager.space, manager.space.frames, manager.space.frames.bitmap, manager.space.mem
    {
      manager.Valid() && Holds(held, manager.State())
    }

    constructor (manager: MemoryManager)
      requires manager.Valid()
      ensures Valid() && this.manager == manager && held == {}
    {
      this.manager := manager;
      held := {};
    }

    /** What the source demands of its callers. */
    predicate Can(r: Request)
      reads this, manager, manager.space, manager.space.mem
    {
      match r
      case Register(start, end, _) => manager.Suitable(start, end)
      case Fault(address, _) => Canonical(address)
      case GuardedRange(pageCount, _) => manager.dynamicNext + (pageCount + 2) * PAGE_SIZE <= MMIO_BASE
      case Device(_) => manager.mmioNext + PAGE_SIZE <= TWO_64
      case MapPage(virt, _, _) => !manager.Managed(PageOf(virt)) && NoLargePath(PageOf(virt))
      case Unmap(virt) => NoLargePath(PageOf(virt))
      case TakeFrame => true
      case GiveBack(frame) => frame in held
      case Load(virt, _) => manager.Managed(PageOf(virt)) && Canonical(virt) && virt % 8 == 0
      case Store(virt, _, _) => manager.Managed(PageOf(virt)) && Canonical(virt) && virt % 8 == 0
      case StoreHeld(frame, index, _) => frame in held && index < WORDS_PER_FRAME
    }

    predicate NoLargePath(p: nat)
      reads manager, manager.space, manager.space.mem
    {
      NoLargePage(manager.space.mem[..], manager.space.root, 4, p)
    }

    /** Carries out one request; whether or not it can be granted, it is a step of the trace. */
    method Handle(r: Request) returns (answer: Option<nat>)
      requires Valid() && Can(r)
      modifies this`held, manager, manager.space`words, manager.space`tree, manager.space`pages, manager.space`owner
      modifies manager.space`tlb, manager.space`psc, manager.space.frames`free, manager.space.frames`freeFrames
      modifies manager.space.frames`nextSearchIndex, manager.space.frames.bitmap, manager.space.mem
      ensures Valid() && Step(old(manager.State()), r, answer, manager.State())
    {
      hide MemoryManager.Valid, MemoryManager.State, MemoryManager.Suitable, MemoryManager.Fits, MemoryManager.Ready,
        NoLargePage, Canonical, Holds, Step, MemoryManager.Managed;
      Asked(r);
      ghost var a := manager.State();
      match r {
        case Register(start, end, flags) =>
          var ok := manager.RegisterLazyRegion(start, end, flags);
          answer := if ok then Some(0) else None;
        case Fault(address, errorCode) =>
          var ok, _, _ := manager.HandlePageFault(address, errorCode);
          answer := if ok then Some(0) else None;
        case GuardedRange(pageCount, flags) =>
          var base, _ := manager.AllocGuarded(pageCount, flags);
          answer := base;
        case Device(phys) =>
          var ok, virt := manager.MapMmio(phys);
          answer := if ok then Some(virt) else None;
        case MapPage(virt, phys, flags) =>
          var ok := manager.MapElsewhere(virt, phys, flags);
          answer := if ok then Some(0) else None;
        case Unmap(virt) =>
          manager.UnmapPage(virt);
          answer := Some(0);
        case TakeFrame =>
          var phys := manager.HoldFrame();
          answer := if phys != 0 then Some(phys / PAGE_SIZE) else None;
          StepKeepsHeld(a, r, answer, manager.State(), held);
          held := if phys != 0 then held + {phys / PAGE_SIZE} else held;
        case GiveBack(frame) =>
          manager.GiveFrameBack(frame);
          answer := Some(0);
          StepKeepsHeld(a, r, answer, manager.State(), held);
          held := held - {frame};
        case Load(virt, access) =>
          answer := manager.LoadWord(virt, access);
        case Store(virt, value, access) =>
          var ok := manager.StoreTo(virt, value, access);
          answer := if ok then Some(0) else None;
        case StoreHeld(frame, index, value) =>
          manager.StoreToHeld(frame, index, value);
          answer := Some(0);
      }
      if !r.TakeFrame? && !r.GiveBack? {
        StepKeepsHeld(a, r, answer, manager.State(), held);
      }
    }

    /** What Can means for the tables and owners. */
    lemma Asked(r: Request)
      requires Valid() && Can(r)
      ensures r.Register? ==> manager.Fits(r.start, r.end)
      ensures r.Fault? ==> manager.Ready(r.address)
      ensures r.MapPage? || r.Unmap? ==>
                NoLargePage(manager.space.words, manager.space.root, 4, PageOf(r.virt))
      ensures r.GiveBack? || r.StoreHeld? ==>
                r.frame in manager.space.owner && manager.space.owner[r.frame].Held?
    {
      hide NoLargePage, MemoryManager.Suitable, MemoryManager.Fits, MemoryManager.Ready, MemoryManager.Managed,
        AllBacked;
      match r
      case Register(start, end, _) => manager.SuitableFits(start, end);
      case Fault(address, _) => manager.ReadyWhenValid(address);
      case _ =>
    }

    /** Carries out one request after the other, up to the first that the caller must not make.  What
        happens is a trace, so the lemmas about traces hold of it. */
    method Execute(requests: seq<Request>)
      returns (done: nat, ghost states: seq<Snapshot>, answers: seq<Option<nat>>)
      requires Valid()
      modifies this`held, manager, manager.space`words, manager.space`tree, manager.space`pages, manager.space`owner
      modifies manager.space`tlb, manager.space`psc, manager.space.frames`free, manager.space.frames`freeFrames
      modifies manager.space.frames`nextSearchIndex, manager.space.frames.bitmap, manager.space.mem
      ensures Valid() && done <= |requests| && |states| == done + 1 && Trace(states, requests[..done], answers)
      ensures states[0] == old(manager.State()) && states[done] == manager.State()
      ensures done < |requests| ==> !Can(requests[done])
    {
      hide MemoryManager.Valid, MemoryManager.State, Can, Step, Trace, Holds;
      done, states, answers := 0, [manager.State()], [];
      NoStep(states[0]);
      while done < |requests| && Can(requests[done])
        invariant Valid() && done <= |requests| && Trace(states, requests[..done], answers)
        invariant |states| == done + 1
        invariant states[0] == old(manager.State()) && states[done] == manager.State()
      {
        var answer := Handle(requests[done]);
        TraceGrows(states, requests[..done], answers, requests[done], answer, manager.State());
        assert requests[..done + 1] == requests[..done] + [requests[done]];
        done, states, answers := done + 1, states + [manager.State()], answers + [answer];
      }
    }
  }
}
