/** The block headers of kernel/mm/heap.c in memory: four words each, in the pages that faults bring in one
    by one. */
module HeapMemory {
  import opened Words
  import opened PhysicalMemory
  import opened PageTables
  import opened Entries
  import opened KernelMemory
  import opened KernelRuns
  import opened HeapBlocks

  const NULL: nat := 0

  /** struct block_header; prev and next are addresses of headers, or NULL. */
  datatype Header = Header(size: nat, free: bool, prev: nat, next: nat)

  predicate Elsewhere(region: LazyRegion) {
    region.end <= HEAP_VBASE || HEAP_VBASE + HEAP_SIZE <= region.start
  }

  /** Slot i is the first for every page of the heap, and asks for writable pages. */
  ghost predicate IsHeapSlot(regions: seq<LazyRegion>, i: nat) {
    && i < |regions| && regions[i] == LazyRegion(HEAP_VBASE, HEAP_VBASE + HEAP_SIZE, VMM_WRITABLE, true)
    && forall j :: 0 <= j < i ==> regions[j].used && Elsewhere(regions[j])
  }

  /** heap_init has registered the heap's range for demand paging. */
  ghost predicate HeapRegistered(regions: seq<LazyRegion>) {
    exists i: nat :: IsHeapSlot(regions, i)
  }

  lemma HeapPageIsLazy(regions: seq<LazyRegion>, a: nat)
    requires HeapRegistered(regions) && HEAP_VBASE <= a < HEAP_VBASE + HEAP_SIZE
    ensures Canonical(a) && PageOf(a) < PAGES && IsLazy(regions, PageOf(a))
  {
    PageOfAddress(a);
    var i: nat :| IsHeapSlot(regions, i);
    DivModUnique(HEAP_VBASE, PAGE_SIZE, HEAP_VBASE / PAGE_SIZE, 0);
    assert Covers(regions[i], PageOf(a));
  }

  /** A fault in the heap asks for a writable page. */
  lemma HeapSlotIsFirst(regions: seq<LazyRegion>, a: nat, i: nat)
    requires HeapRegistered(regions) && HEAP_VBASE <= a < HEAP_VBASE + HEAP_SIZE && IsSlot(regions, i, PageOf(a))
    ensures regions[i].flags == VMM_WRITABLE
  {
    HeapPageIsLazy(regions, a);
    PageOfAddress(a);
    DivModUnique(HEAP_VBASE, PAGE_SIZE, HEAP_VBASE / PAGE_SIZE, 0);
    var k: nat :| IsHeapSlot(regions, k);
    assert Covers(regions[k], PageOf(a));
    assert forall j :: 0 <= j < k ==> !Covers(regions[j], PageOf(a));
    assert i == k;
  }

  /** The error code of a store to a page that is not present. */
  const WRITE_FAULT: nat := 2

  predicate HeapWord(w: nat) {
    w % 8 == 0 && HEAP_VBASE <= w < HEAP_VBASE + HEAP_SIZE
  }

  /** The kernel may write in the heap: the entries above its pages say so, and its mapped pages themselves. */
  ghost predicate HeapIsOpen(s: Snapshot) {
    forall w: nat {:trigger HeapWord(w)} :: HeapWord(w) ==>
      && PathRights(s.words, s.root, 4, PageOf(w)).writable
      && (PageOf(w) in s.pages ==> Storable(s, w))
  }

  /** What the loader and the registrations before it have to leave for heap_init. */
  ghost predicate HeapUsable(s: Snapshot) {
    HeapIsOpen(s) && forall j :: 0 <= j < |s.regions| && s.regions[j].used ==> Elsewhere(s.regions[j])
  }

  // ----- What stores and faults change

  ghost predicate MappedWord(s: Snapshot, w: nat) {
    Canonical(w) && w % 8 == 0 && Managed(s, PageOf(w)) && PageOf(w) in s.pages
  }

  /** Frames that somebody holds stay held and hold what they held. */
  ghost predicate HeldStays(s: Snapshot, s': Snapshot) {
    forall f: nat {:trigger f in s.owner} :: f in s.owner && s.owner[f].Held? ==>
      f in s'.owner && s'.owner[f].Held? && SameFrame(s.words, s'.words, f)
  }

  /** Every mapped word of the lazy and guarded windows stays mapped, and keeps its value unless written; the
      rest of what others rely on stays as it is. */
  ghost predicate OnlyWords(s: Snapshot, s': Snapshot, written: set<nat>) {
    && s'.regions == s.regions && s'.dynamicNext == s.dynamicNext && s'.mmioNext == s.mmioNext
    && s'.guards == s.guards && s'.granted == s.granted && HeldStays(s, s') && (HeapIsOpen(s) ==> HeapIsOpen(s'))
    && forall w: nat {:trigger MappedWord(s, w)} :: MappedWord(s, w) ==>
         MappedWord(s', w) && (w in written || ValueAt(s', w) == ValueAt(s, w))
  }

  lemma OnlyWordsChain(s: Snapshot, t: Snapshot, u: Snapshot, before: set<nat>, after: set<nat>, all: set<nat>)
    requires OnlyWords(s, t, before) && OnlyWords(t, u, after) && before <= all && after <= all
    ensures OnlyWords(s, u, all)
  {
  }

  lemma StoreMissesHeld(a: Snapshot, r: Request, answer: Option<nat>, b: Snapshot)
    requires Step(a, r, answer, b) && r.Store?
    ensures HeldStays(a, b)
  {
    hide Effect, Answers, ListsKept, SamePaths, Canonical, AllBacked;
    assert OnlyStores(a, r, b) && Backed(a.pages, a.owner, PageOf(r.virt));
    forall f: nat | f in a.owner && a.owner[f].Held?
      ensures f in b.owner && b.owner[f].Held? && SameFrame(a.words, b.words, f)
    {
      assert forall i: nat :: i < WORDS_PER_FRAME ==> !StoresTo(a, r, f, i);
    }
  }

  lemma FaultMissesHeld(a: Snapshot, r: Request, answer: Option<nat>, b: Snapshot)
    requires Step(a, r, answer, b) && r.Fault?
    ensures HeldStays(a, b)
  {
    hide Effect, Answers, ListsKept, SamePaths, SameFrame;
    assert Undisturbed(a.words, a.owner, b.words, b.owner, {});
    forall f: nat | f in a.owner && a.owner[f].Held?
      ensures f in b.owner && b.owner[f].Held? && SameFrame(a.words, b.words, f)
    {
      assert f in b.owner;
    }
  }

  lemma StaysOpen(s: Snapshot, s': Snapshot, written: set<nat>)
    requires OnlyWords(s, s', written) && HeapIsOpen(s)
    ensures HeapIsOpen(s')
  {
  }

  lemma MappedIsStorable(s: Snapshot, w: nat)
    requires HeapIsOpen(s) && HeapWord(w) && PageOf(w) in s.pages
    ensures Storable(s, w)
  {
  }

  lemma SamePagesStayOpen(a: Snapshot, b: Snapshot)
    requires b.pages == a.pages && b.root == a.root && SamePaths(a.words, b.words, a.root)
    ensures HeapIsOpen(a) ==> HeapIsOpen(b)
  {
  }

  /** A page of the heap that a fault brings in is writable. */
  lemma FaultKeepsOpen(a: Snapshot, r: Request, answer: Option<nat>, b: Snapshot)
    requires Step(a, r, answer, b) && r.Fault? && HeapRegistered(a.regions) && HeapIsOpen(a)
    ensures HeapIsOpen(b)
  {
    hide Proper, Answers, Undisturbed, HeapRegistered, PageOf, PathRights, ZeroFrame, IsLazy, AllBacked;
    forall w: nat {:trigger HeapWord(w)} | HeapWord(w)
      ensures PathRights(b.words, b.root, 4, PageOf(w)).writable && (PageOf(w) in b.pages ==> Storable(b, w))
    {
      if PageOf(w) == PageOf(r.address) && answer.Some? && b != a {
        var p := PageOf(w);
        var i: nat :| IsSlot(a.regions, i, p)
                      && b.pages == WithPage(a, p, b.pages[p].frame * PAGE_SIZE, a.regions[i].flags);
        HeapSlotIsFirst(a.regions, w, i);
      }
    }
  }

  lemma StoreChanges(a: Snapshot, r: Request, answer: Option<nat>, b: Snapshot)
    requires Step(a, r, answer, b) && r.Store? && answer.Some?
    ensures OnlyWords(a, b, {r.virt})
  {
    hide Canonical, Proper, Answers, OnlyStores, HeldStays, HeapIsOpen, SamePaths;
    StoreMissesHeld(a, r, answer, b);
    SamePagesStayOpen(a, b);
    forall w: nat {:trigger MappedWord(a, w)} | MappedWord(a, w)
      ensures MappedWord(b, w) && (w == r.virt || ValueAt(b, w) == ValueAt(a, w))
    {
      assert !Concerns(a, r, PageOf(w));
      StepKeepsWord(a, r, answer, b, w);
    }
  }

  lemma FaultChanges(a: Snapshot, r: Request, answer: Option<nat>, b: Snapshot)
    requires Step(a, r, answer, b) && r.Fault? && PageOf(r.address) !in a.pages && HeapRegistered(a.regions)
    ensures OnlyWords(a, b, {})
  {
    hide Canonical, Proper, Answers, Undisturbed, HeldStays, HeapIsOpen, HeapRegistered, SamePaths;
    FaultMissesHeld(a, r, answer, b);
    if HeapIsOpen(a) {
      FaultKeepsOpen(a, r, answer, b);
    }
    forall w: nat {:trigger MappedWord(a, w)} | MappedWord(a, w)
      ensures MappedWord(b, w) && ValueAt(b, w) == ValueAt(a, w)
    {
      assert !Concerns(a, r, PageOf(w));
      StepKeepsWord(a, r, answer, b, w);
    }
  }

  /** A store to the word can be made: its page is mapped, or there are frames for it and its tables. */
  ghost predicate Reachable(s: Snapshot, w: nat) {
    PageOf(w) in s.pages || Missing(s.words, s.root, 4, PageOf(w)) < |s.free|
  }

  /** An access takes at most four frames, fails only if there are not four, and then none is left. */
  ghost predicate Spent(s: Snapshot, s': Snapshot, ok: bool) {
    if ok then |s'.free| + 4 >= |s.free| else |s.free| < 4 && s'.free == {}
  }

  lemma FaultSpends(a: Snapshot, r: Request, answer: Option<nat>, b: Snapshot)
    requires Step(a, r, answer, b) && r.Fault? && r.errorCode % 2 == 0 && IsLazy(a.regions, PageOf(r.address))
    requires PageOf(r.address) !in a.pages
    ensures Spent(a, b, answer.Some?) && (answer.Some? <==> Reachable(a, r.address))
    ensures answer.Some? ==> PageOf(r.address) in b.pages
  {
    hide Evolves, ListsKept, Sound;
  }

  lemma NothingChanges(s: Snapshot)
    ensures OnlyWords(s, s, {})
  {
  }

  // ----- Headers

  /** A place for a header: 32 bytes of the heap on a 16-byte boundary. */
  predicate HeaderPlace(a: nat) {
    a % 16 == 0 && HEAP_VBASE <= a && a + HEADER_SIZE <= HEAP_VBASE + HEAP_SIZE
  }

  function WordsOf(a: nat): set<nat> { {a, a + 8, a + 16, a + 24} }

  /** The memory at a holds h; the flag is one byte, followed by padding. */
  ghost predicate HoldsHeader(s: Snapshot, a: nat, h: Header) {
    && MappedWord(s, a) && MappedWord(s, a + 8) && MappedWord(s, a + 16) && MappedWord(s, a + 24)
    && ValueAt(s, a) == h.size && ValueAt(s, a + 8) % 256 == (if h.free then 1 else 0)
    && ValueAt(s, a + 16) == h.prev && ValueAt(s, a + 24) == h.next
  }

  predicate HeadersApart(a: nat, b: nat) { a + HEADER_SIZE <= b || b + HEADER_SIZE <= a }

  /** Memory holds all these headers, and they do not overlap. */
  ghost predicate InMemory(s: Snapshot, headers: map<nat, Header>) {
    && (forall a :: a in headers ==> HeaderPlace(a) && HoldsHeader(s, a, headers[a]))
    && forall a, b :: a in headers && b in headers && a != b ==> HeadersApart(a, b)
  }

  /** Writing elsewhere keeps a header. */
  lemma HeaderKept(s: Snapshot, s': Snapshot, written: set<nat>, a: nat, h: Header)
    requires OnlyWords(s, s', written) && HoldsHeader(s, a, h) && written !! WordsOf(a)
    ensures HoldsHeader(s', a, h)
  {
  }

  /** Writing to one header keeps the others. */
  lemma OtherHeadersKept(s: Snapshot, s': Snapshot, headers: map<nat, Header>, written: set<nat>, a: nat, h: Header)
    requires InMemory(s, headers) && OnlyWords(s, s', written) && written <= WordsOf(a)
    requires HeaderPlace(a) && HoldsHeader(s', a, h)
    requires forall b :: b in headers && b != a ==> HeadersApart(a, b)
    ensures InMemory(s', headers[a := h])
  {
    hide OnlyWords, HoldsHeader;
    forall b | b in headers && b != a ensures HoldsHeader(s', b, headers[b]) {
      assert HeadersApart(a, b);
      HeaderKept(s, s', written, b, headers[b]);
    }
  }

  /** The header after word k of it has been written. */
  function WithWord(h: Header, k: nat, v: nat): Header {
    match k
    case 0 => h.(size := v)
    case 1 => h.(free := v % 256 != 0)
    case 2 => h.(prev := v)
    case _ => h.(next := v)
  }

  lemma WordWritten(s: Snapshot, s': Snapshot, a: nat, h: Header, k: nat, v: nat)
    requires HoldsHeader(s, a, h) && k < 4 && OnlyWords(s, s', {a + 8 * k})
    requires MappedWord(s', a + 8 * k) && ValueAt(s', a + 8 * k) == v && (k == 1 ==> v % 256 <= 1)
    ensures HoldsHeader(s', a, WithWord(h, k, v))
  {
    hide MappedWord;
    assert MappedWord(s, a) && MappedWord(s, a + 8) && MappedWord(s, a + 16) && MappedWord(s, a + 24);
  }

  /** Writing one word of one header changes that field of that header. */
  lemma FieldWritten(s: Snapshot, s': Snapshot, headers: map<nat, Header>, a: nat, k: nat, v: nat)
    requires InMemory(s, headers) && a in headers && k < 4 && OnlyWords(s, s', {a + 8 * k})
    requires MappedWord(s', a + 8 * k) && ValueAt(s', a + 8 * k) == v && (k == 1 ==> v % 256 <= 1)
    ensures InMemory(s', headers[a := WithWord(headers[a], k, v)]) && OnlyWords(s, s', WordsOf(a))
  {
    hide OnlyWords, HoldsHeader, MappedWord, WithWord;
    WordWritten(s, s', a, headers[a], k, v);
    OtherHeadersKept(s, s', headers, {a + 8 * k}, a, WithWord(headers[a], k, v));
    MoreWords(s, s', {a + 8 * k}, WordsOf(a));
  }

  lemma MoreWords(s: Snapshot, s': Snapshot, written: set<nat>, all: set<nat>)
    requires OnlyWords(s, s', written) && written <= all
    ensures OnlyWords(s, s', all)
  {
  }

  ghost predicate HoldsFirst(s: Snapshot, a: nat, size: nat) {
    MappedWord(s, a) && MappedWord(s, a + 8) && ValueAt(s, a) == size && ValueAt(s, a + 8) % 256 == 1
  }

  ghost predicate HoldsLast(s: Snapshot, a: nat, prev: nat, next: nat) {
    MappedWord(s, a + 16) && MappedWord(s, a + 24) && ValueAt(s, a + 16) == prev && ValueAt(s, a + 24) == next
  }

  lemma HeaderMade(s: Snapshot, s': Snapshot, a: nat, size: nat, prev: nat, next: nat)
    requires HoldsFirst(s, a, size) && OnlyWords(s, s', {a + 16, a + 24}) && HoldsLast(s', a, prev, next)
    ensures HoldsHeader(s', a, Header(size, true, prev, next))
  {
  }

  lemma KeptWord(s: Snapshot, s': Snapshot, written: set<nat>, w: nat)
    requires OnlyWords(s, s', written) && MappedWord(s, w) && w !in written
    ensures MappedWord(s', w) && ValueAt(s', w) == ValueAt(s, w)
  {
  }

  lemma SpentNoMore(s: Snapshot, t: Snapshot, u: Snapshot, ok: bool)
    requires Spent(s, t, ok) && u.free == t.free
    ensures Spent(s, u, ok)
  {
  }

  lemma FewerHeaders(s: Snapshot, headers: map<nat, Header>, fewer: map<nat, Header>)
    requires InMemory(s, headers) && forall a :: a in fewer ==> a in headers && fewer[a] == headers[a]
    ensures InMemory(s, fewer)
  {
    hide HoldsHeader;
  }

  /** The words of a header are words of the heap, and the first two share a page, as do the last two. */
  lemma HeaderWords(a: nat)
    requires HeaderPlace(a)
    ensures HeapWord(a) && HeapWord(a + 8) && HeapWord(a + 16) && HeapWord(a + 24)
    ensures PageOf(a + 8) == PageOf(a) && PageOf(a + 24) == PageOf(a + 16)
  {
    hide PageOf;
    SamePageAbove(a);
    SamePageAbove(a + 16);
    WordBoundary(a);
    WordBoundary(a + 16);
  }

  lemma WordBoundary(a: nat)
    requires a % 16 == 0
    ensures a % 8 == 0 && (a + 8) % 8 == 0
  {
    DivModUnique(a, 8, a / 16 * 2, 0);
    DivModUnique(a + 8, 8, a / 16 * 2 + 1, 0);
  }

  lemma SamePageAbove(a: nat)
    requires a % 16 == 0
    ensures PageOf(a + 8) == PageOf(a)
  {
    var m := a / 16;
    DivModUnique(a, PAGE_SIZE, m / 256, 16 * (m % 256));
    DivModUnique(a + 8, PAGE_SIZE, m / 256, 16 * (m % 256) + 8);
  }

  /** The headers of the heap, read and written through the mapping of their pages. */
  class HeaderMemory {
    const manager: MemoryManager
    ghost var headers: map<nat, Header>

    constructor (manager: MemoryManager)
      ensures this.manager == manager && headers == map[]
    {
      this.manager, this.headers := manager, map[];
    }

    ghost predicate Ready()
      reads manager, manager.space, manager.space.frames, manager.space.frames.bitmap, manager.space.mem
    {
      manager.Valid() && HeapRegistered(manager.lazyRegions) && HeapIsOpen(manager.State())
    }

    ghost predicate Valid()
      reads this, manager, manager.space, manager.space.frames, manager.space.frames.bitmap, manager.space.mem
    {
      Ready() && InMemory(manager.State(), headers)
    }

    lemma WordIsManaged(w: nat)
      requires Ready() && HeapWord(w)
      ensures Canonical(w) && manager.Managed(PageOf(w)) && Managed(manager.State(), PageOf(w))
      ensures IsLazy(manager.lazyRegions, PageOf(w)) && manager.lazyRegions == manager.State().regions
    {
      hide Canonical;
      HeapPageIsLazy(manager.lazyRegions, w);
    }

    /** A word of the heap whose page is mapped. */
    method Load(w: nat) returns (v: uint64)
      requires Ready() && MappedWord(manager.State(), w) && HeapWord(w)
      modifies manager.space`tlb, manager.space`psc
      ensures Ready() && manager.State() == old(manager.State()) && v == ValueAt(manager.State(), w)
    {
      hide MemoryManager.Valid, Canonical, ValueAt, Evolves, HeapIsOpen;
      WordIsManaged(w);
      var access: Access := *;
      var value := manager.LoadWord(w, access);
      v := value.value;
    }

    method Store(w: nat, v: uint64)
      requires Ready() && MappedWord(manager.State(), w) && HeapWord(w)
      modifies manager.space`tlb, manager.space`psc, manager.space`words, manager.space.mem
      ensures Ready() && OnlyWords(old(manager.State()), manager.State(), {w})
      ensures MappedWord(manager.State(), w) && ValueAt(manager.State(), w) == v
      ensures manager.State().free == old(manager.State().free)
    {
      hide MemoryManager.Valid, Canonical, ValueAt, Step, HeapIsOpen, Storable;
      WordIsManaged(w);
      var access: Access := *;
      ghost var s := manager.State();
      MappedIsStorable(s, w);
      var ok := manager.StoreTo(w, v, access);
      StoreChanges(s, KernelMemory.Store(w, v, access), Some(0), manager.State());
      StaysOpen(s, manager.State(), {w});
    }

    lemma NowMapped(w: nat)
      requires Ready() && HeapWord(w) && PageOf(w) in manager.State().pages
      ensures MappedWord(manager.State(), w)
    {
      hide Ready;
      WordIsManaged(w);
    }

    /** The fault of an access to a page that is not mapped; false stands for the panic. */
    method FaultIn(w: nat) returns (ok: bool)
      requires Ready() && HeapWord(w) && PageOf(w) !in manager.State().pages
      modifies manager.space`words, manager.space`tree, manager.space`pages, manager.space`owner, manager.space`tlb
      modifies manager.space.frames`free, manager.space.frames`freeFrames, manager.space.frames`nextSearchIndex
      modifies manager.space.frames.bitmap, manager.space.mem
      ensures Ready() && OnlyWords(old(manager.State()), manager.State(), {})
      ensures ok ==> MappedWord(manager.State(), w)
      ensures ok <==> old(Reachable(manager.State(), w))
      ensures Spent(old(manager.State()), manager.State(), ok)
    {
      hide MemoryManager.Valid, Canonical, ValueAt, Step, MemoryManager.Ready, Missing, Evolves, HeapRegistered, Spent,
        OnlyWords, LeakedFrames, MemoryManager.LostFrames, PathRights, AskedMapping, IsSlot, MemoryManager.Leaks,
        MemoryManager.State, Reachable, MappedWord, IsLazy, PageOf, Managed, HeapIsOpen;
      WordIsManaged(w);
      manager.ReadyWhenValid(w);
      ghost var s := manager.State();
      ghost var frame, slot;
      ok, frame, slot := manager.HandlePageFault(w, WRITE_FAULT);
      FaultChanges(s, Fault(w, WRITE_FAULT), if ok then Some(0) else None, manager.State());
      StaysOpen(s, manager.State(), {});
      FaultSpends(s, Fault(w, WRITE_FAULT), if ok then Some(0) else None, manager.State());
      if ok {
        NowMapped(w);
      }
    }

    /** A store that may be the first to its page: if it faults, it is done again after the fault. */
    method StoreAnyhow(w: nat, v: uint64) returns (ok: bool)
      requires Ready() && HeapWord(w)
      modifies manager.space`words, manager.space`tree, manager.space`pages, manager.space`owner, manager.space`tlb
      modifies manager.space`psc, manager.space.frames`free, manager.space.frames`freeFrames
      modifies manager.space.frames`nextSearchIndex, manager.space.frames.bitmap, manager.space.mem
      ensures Ready() && OnlyWords(old(manager.State()), manager.State(), {w})
      ensures ok ==> MappedWord(manager.State(), w) && ValueAt(manager.State(), w) == v
      ensures ok <==> old(Reachable(manager.State(), w))
      ensures Spent(old(manager.State()), manager.State(), ok)
    {
      hide MemoryManager.Valid, Canonical, ValueAt, Step, Missing, OnlyWords, HeapRegistered, HeapIsOpen;
      WordIsManaged(w);
      var access: Access := *;
      ghost var s := manager.State();
      ok := manager.StoreTo(w, v, access);
      if ok {
        StoreChanges(s, KernelMemory.Store(w, v, access), Some(0), manager.State());
        StaysOpen(s, manager.State(), {w});
      } else {
        if PageOf(w) in s.pages {
          MappedIsStorable(s, w);
        }
        ok := FaultIn(w);
        ghost var t := manager.State();
        if ok {
          Store(w, v);
          OnlyWordsChain(s, t, manager.State(), {}, {w}, {w});
        } else {
          NothingChanges(t);
          OnlyWordsChain(s, t, t, {}, {}, {w});
        }
      }
    }

    // ----- Fields of headers

    method GetSize(a: nat) returns (size: uint64)
      requires Valid() && a in headers
      modifies manager.space`tlb, manager.space`psc
      ensures Valid() && manager.State() == old(manager.State()) && size == headers[a].size
    {
      hide Ready, MappedWord, ValueAt;
      HeaderWords(a);
      size := Load(a);
    }

    method GetFree(a: nat) returns (free: bool)
      requires Valid() && a in headers
      modifies manager.space`tlb, manager.space`psc
      ensures Valid() && manager.State() == old(manager.State()) && free == headers[a].free
    {
      hide Ready, MappedWord, ValueAt;
      HeaderWords(a);
      var word := Load(a + 8);
      free := word % 256 != 0;
    }

    method GetPrev(a: nat) returns (prev: uint64)
      requires Valid() && a in headers
      modifies manager.space`tlb, manager.space`psc
      ensures Valid() && manager.State() == old(manager.State()) && prev == headers[a].prev
    {
      hide Ready, MappedWord, ValueAt;
      HeaderWords(a);
      prev := Load(a + 16);
    }

    method GetNext(a: nat) returns (next: uint64)
      requires Valid() && a in headers
      modifies manager.space`tlb, manager.space`psc
      ensures Valid() && manager.State() == old(manager.State()) && next == headers[a].next
    {
      hide Ready, MappedWord, ValueAt;
      HeaderWords(a);
      next := Load(a + 24);
    }

    method SetWord(a: nat, k: nat, v: uint64)
      requires Valid() && a in headers && k < 4 && (k == 1 ==> v % 256 <= 1)
      modifies `headers, manager.space`tlb, manager.space`psc, manager.space`words, manager.space.mem
      ensures Valid() && headers == old(headers)[a := WithWord(old(headers)[a], k, v)]
      ensures OnlyWords(old(manager.State()), manager.State(), WordsOf(a))
    {
      hide Ready, ValueAt, OnlyWords, MappedWord, WithWord;
      HeaderWords(a);
      ghost var s := manager.State();
      Store(a + 8 * k, v);
      FieldWritten(s, manager.State(), headers, a, k, v);
      headers := headers[a := WithWord(headers[a], k, v)];
    }

    method SetSize(a: nat, size: uint64)
      requires Valid() && a in headers
      modifies `headers, manager.space`tlb, manager.space`psc, manager.space`words, manager.space.mem
      ensures Valid() && headers == old(headers)[a := old(headers)[a].(size := size)]
      ensures OnlyWords(old(manager.State()), manager.State(), WordsOf(a))
    {
      hide Valid, OnlyWords;
      SetWord(a, 0, size);
    }

    /** The flag is one byte; the padding behind it stays as it is. */
    method SetFree(a: nat, free: bool)
      requires Valid() && a in headers
      modifies `headers, manager.space`tlb, manager.space`psc, manager.space`words, manager.space.mem
      ensures Valid() && headers == old(headers)[a := old(headers)[a].(free := free)]
      ensures OnlyWords(old(manager.State()), manager.State(), WordsOf(a))
    {
      hide Ready, ValueAt, OnlyWords, MappedWord;
      HeaderWords(a);
      var word := Load(a + 8);
      var b := if free then 1 else 0;
      DivModUnique(word - word % 256 + b, 256, word / 256, b);
      SetWord(a, 1, word - word % 256 + b);
    }

    method SetPrev(a: nat, prev: uint64)
      requires Valid() && a in headers
      modifies `headers, manager.space`tlb, manager.space`psc, manager.space`words, manager.space.mem
      ensures Valid() && headers == old(headers)[a := old(headers)[a].(prev := prev)]
      ensures OnlyWords(old(manager.State()), manager.State(), WordsOf(a))
    {
      hide Valid, OnlyWords;
      SetWord(a, 2, prev);
    }

    method SetNext(a: nat, next: uint64)
      requires Valid() && a in headers
      modifies `headers, manager.space`tlb, manager.space`psc, manager.space`words, manager.space.mem
      ensures Valid() && headers == old(headers)[a := old(headers)[a].(next := next)]
      ensures OnlyWords(old(manager.State()), manager.State(), WordsOf(a))
    {
      hide Valid, OnlyWords;
      SetWord(a, 3, next);
    }

    lemma SamePage(w: nat, v: nat)
      requires Ready() && MappedWord(manager.State(), w) && HeapWord(v) && PageOf(v) == PageOf(w)
      ensures MappedWord(manager.State(), v)
    {
      hide Ready;
      WordIsManaged(v);
    }

    /** The first store to each page of a new header comes with a fault if need be. */
    method CreateFirst(a: nat, size: uint64) returns (ok: bool)
      requires Ready() && HeaderPlace(a)
      modifies manager.space`words, manager.space`tree, manager.space`pages, manager.space`owner
      modifies manager.space`tlb, manager.space`psc, manager.space.frames`free, manager.space.frames`freeFrames
      modifies manager.space.frames`nextSearchIndex, manager.space.frames.bitmap, manager.space.mem
      ensures Ready() && OnlyWords(old(manager.State()), manager.State(), {a, a + 8})
      ensures Spent(old(manager.State()), manager.State(), ok)
      ensures ok ==> HoldsFirst(manager.State(), a, size)
    {
      hide Ready, ValueAt, OnlyWords, MappedWord, Spent, Reachable;
      HeaderWords(a);
      ghost var s := manager.State();
      ok := StoreAnyhow(a, size);
      ghost var t := manager.State();
      if ok {
        SamePage(a, a + 8);
        var word := Load(a + 8);
        DivModUnique(word - word % 256 + 1, 256, word / 256, 1);
        Store(a + 8, word - word % 256 + 1);
        KeptWord(t, manager.State(), {a + 8}, a);
        OnlyWordsChain(s, t, manager.State(), {a}, {a + 8}, {a, a + 8});
        SpentNoMore(s, t, manager.State(), ok);
      } else {
        MoreWords(s, t, {a}, {a, a + 8});
      }
    }

    method CreateLast(a: nat, prev: uint64, next: uint64) returns (ok: bool)
      requires Ready() && HeaderPlace(a)
      modifies manager.space`words, manager.space`tree, manager.space`pages, manager.space`owner
      modifies manager.space`tlb, manager.space`psc, manager.space.frames`free, manager.space.frames`freeFrames
      modifies manager.space.frames`nextSearchIndex, manager.space.frames.bitmap, manager.space.mem
      ensures Ready() && OnlyWords(old(manager.State()), manager.State(), {a + 16, a + 24})
      ensures Spent(old(manager.State()), manager.State(), ok)
      ensures ok ==> HoldsLast(manager.State(), a, prev, next)
    {
      hide Ready, ValueAt, OnlyWords, MappedWord, Spent, Reachable;
      HeaderWords(a);
      ghost var s := manager.State();
      ok := StoreAnyhow(a + 16, prev);
      ghost var t := manager.State();
      if ok {
        SamePage(a + 16, a + 24);
        Store(a + 24, next);
        KeptWord(t, manager.State(), {a + 24}, a + 16);
        OnlyWordsChain(s, t, manager.State(), {a + 16}, {a + 24}, {a + 16, a + 24});
        SpentNoMore(s, t, manager.State(), ok);
      } else {
        MoreWords(s, t, {a + 16}, {a + 16, a + 24});
      }
    }

    /** The stores that make a new header.  They fail only if fewer than eight frames are free, and then none
        is left. */
    method Create(a: nat, size: uint64, prev: uint64, next: uint64) returns (ok: bool)
      requires Valid() && HeaderPlace(a) && a !in headers && forall b :: b in headers ==> HeadersApart(a, b)
      modifies `headers, manager.space`words, manager.space`tree, manager.space`pages, manager.space`owner
      modifies manager.space`tlb, manager.space`psc, manager.space.frames`free, manager.space.frames`freeFrames
      modifies manager.space.frames`nextSearchIndex, manager.space.frames.bitmap, manager.space.mem
      ensures ok ==> Valid() && headers == old(headers)[a := Header(size, true, prev, next)]
      ensures OnlyWords(old(manager.State()), manager.State(), WordsOf(a))
      ensures !ok ==> |old(manager.State()).free| < 8 && manager.State().free == {}
    {
      hide Ready, OnlyWords, InMemory, HoldsFirst, HoldsLast, HoldsHeader, HeadersApart;
      ghost var s := manager.State();
      ok := CreateFirst(a, size);
      ghost var t := manager.State();
      if !ok {
        MoreWords(s, t, {a, a + 8}, WordsOf(a));
        return;
      }
      ok := CreateLast(a, prev, next);
      ghost var u := manager.State();
      OnlyWordsChain(s, t, u, {a, a + 8}, {a + 16, a + 24}, WordsOf(a));
      if ok {
        HeaderMade(t, u, a, size, prev, next);
        OtherHeadersKept(s, u, headers, WordsOf(a), a, Header(size, true, prev, next));
        headers := headers[a := Header(size, true, prev, next)];
      }
    }

    /** Headers that are needed no more: what is written over them does not matter. */
    ghost method Forget(needed: set<nat>)
      requires Valid()
      modifies `headers
      ensures Valid() && headers == map a | a in old(headers) && a in needed :: old(headers)[a]
    {
      hide Ready, HoldsHeader, MemoryManager.State;
      ghost var fewer := map a | a in headers && a in needed :: headers[a];
      FewerHeaders(manager.State(), headers, fewer);
      headers := fewer;
    }
  }
}
