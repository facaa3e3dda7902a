/** The rest of kernel/arch/x86_64/mm/vmm.c: demand paging, guarded allocations and MMIO pages on
    top of vmm_map, with the virtual windows they live in. */
module KernelMemory {
  import opened Words
  import opened PhysicalMemory
  import opened Pmm
  import opened PageTables
  import opened Entries
  import opened Vmm

  const DYNAMIC_BASE: nat := 0xffff_ffff_b000_0000
  const MMIO_BASE: nat := 0xffff_ffff_c000_0000
  const MAX_LAZY_REGIONS: nat := 8
  /** VMM_WRITABLE | VMM_NO_CACHE | VMM_NO_EXECUTE */
  const MMIO_FLAGS: nat := 13

  datatype LazyRegion = LazyRegion(start: uint64, end: uint64, flags: uint32, used: bool)

  /** An address whose bits 48 to 63 repeat bit 47; only these reach the page tables. */
  predicate Canonical(virt: nat) {
    virt < 0x8000_0000_0000 || 0xffff_8000_0000_0000 <= virt < TWO_64
  }

  /** The first address of page p. */
  function AddressOf(p: nat): (virt: nat)
    requires p < PAGES
    ensures Canonical(virt)
  {
    if p < PAGES / 2 then p * PAGE_SIZE else p * PAGE_SIZE + (TWO_64 - PAGES * PAGE_SIZE)
  }

  lemma PageOfAddress(virt: nat)
    requires Canonical(virt)
    ensures AddressOf(PageOf(virt)) == virt / PAGE_SIZE * PAGE_SIZE
  {
    var x := virt / PAGE_SIZE;
    if virt < 0x8000_0000_0000 {
      DivModUnique(x, PAGES, 0, x);
    } else {
      DivModUnique(x, PAGES, 0xffff, x - 0xffff * PAGES);
    }
  }

  lemma AddressOfPage(p: nat)
    requires p < PAGES
    ensures PageOf(AddressOf(p)) == p && AddressOf(p) % PAGE_SIZE == 0
  {
    if p < PAGES / 2 {
      DivModUnique(AddressOf(p), PAGE_SIZE, p, 0);
      DivModUnique(p, PAGES, 0, p);
    } else {
      DivModUnique(AddressOf(p), PAGE_SIZE, p + 0xffff * PAGES, 0);
      DivModUnique(p + 0xffff * PAGES, PAGES, 0xffff, p);
    }
  }

  /** Pages of consecutive addresses in the upper windows are consecutive. */
  lemma WindowPages(virt: nat, i: nat)
    requires DYNAMIC_BASE <= virt && virt % PAGE_SIZE == 0 && virt + i * PAGE_SIZE < TWO_64
    ensures PageOf(virt + i * PAGE_SIZE) == PageOf(virt) + i
    ensures PageOf(virt) + i < PAGES && AddressOf(PageOf(virt) + i) == virt + i * PAGE_SIZE
  {
    var x := virt / PAGE_SIZE;
    DivModUnique(virt, PAGE_SIZE, x, 0);
    DivModUnique(virt + i * PAGE_SIZE, PAGE_SIZE, x + i, 0);
    DivModUnique(x, PAGES, 0xffff, x - 0xffff * PAGES);
    DivModUnique(x + i, PAGES, 0xffff, x + i - 0xffff * PAGES);
    PageOfAddress(virt + i * PAGE_SIZE);
  }

  /** The n pages from an address in the guarded window on. */
  lemma WindowRange(virt: nat, n: nat)
    requires DYNAMIC_BASE <= virt && virt % PAGE_SIZE == 0 && virt + n * PAGE_SIZE <= MMIO_BASE && n >= 2
    ensures PageOf(virt + PAGE_SIZE) == PageOf(virt) + 1
    ensures (virt + PAGE_SIZE) % PAGE_SIZE == 0 && (virt + n * PAGE_SIZE) % PAGE_SIZE == 0
    ensures forall p :: PageOf(virt) <= p < PageOf(virt) + n ==>
              IsDynamic(p) && virt <= AddressOf(p) < virt + n * PAGE_SIZE
  {
    WindowPages(virt, 1);
    DivModUnique(virt + PAGE_SIZE, PAGE_SIZE, virt / PAGE_SIZE + 1, 0);
    DivModUnique(virt + n * PAGE_SIZE, PAGE_SIZE, virt / PAGE_SIZE + n, 0);
    forall p | PageOf(virt) <= p < PageOf(virt) + n
      ensures IsDynamic(p) && virt <= AddressOf(p) < virt + n * PAGE_SIZE
    {
      WindowPages(virt, p - PageOf(virt));
    }
  }

  predicate Covers(r: LazyRegion, p: nat) {
    p < PAGES && r.used && r.start <= AddressOf(p) < r.end
  }

  predicate IsLazy(regions: seq<LazyRegion>, p: nat) {
    exists i :: 0 <= i < |regions| && Covers(regions[i], p)
  }

  predicate IsDynamic(p: nat) { p < PAGES && DYNAMIC_BASE <= AddressOf(p) < MMIO_BASE }

  predicate IsMmio(p: nat) { p < PAGES && MMIO_BASE <= AddressOf(p) }

  /** If p is mapped, it is to a frame that is set aside for p alone. */
  predicate Backed(pages: map<nat, Mapping>, owner: map<nat, Owner>, p: nat) {
    p in pages ==> pages[p].level == 1 && pages[p].frame in owner && Backs(owner[pages[p].frame], p)
  }

  /** Every mapped page of the lazy and guarded windows is backed. */
  ghost predicate AllBacked(pages: map<nat, Mapping>, owner: map<nat, Owner>, regions: seq<LazyRegion>) {
    forall q {:trigger Backed(pages, owner, q)} :: IsLazy(regions, q) || IsDynamic(q) ==> Backed(pages, owner, q)
  }

  /** Page v has been given the frame f, taken from the free ones. */
  lemma BackingKeepsBacked(pages: map<nat, Mapping>, owner: map<nat, Owner>, free: set<nat>, n: nat, v: nat, m: Mapping,
                           f: nat, backing: Owner, owner': map<nat, Owner>, taken: set<nat>, regions: seq<LazyRegion>)
    requires Partition(owner, free, n) && f in free && taken <= free && f !in taken
    requires m.level == 1 && m.frame == f && Backs(backing, v)
    requires GainedTables(Disown(owner, v)[f := backing], owner', taken)
    requires AllBacked(pages, owner, regions)
    ensures AllBacked(pages[v := m], owner', regions)
  {
    forall q {:trigger Backed(pages[v := m], owner', q)} | IsLazy(regions, q) || IsDynamic(q)
      ensures Backed(pages[v := m], owner', q)
    {
      assert Backed(pages, owner, q);
    }
  }

  /** The frame f, taken from the free ones, backs nothing. */
  lemma HoldingKeepsBacked(pages: map<nat, Mapping>, owner: map<nat, Owner>, free: set<nat>, n: nat, f: nat, o: Owner,
                           owner': map<nat, Owner>, taken: set<nat>, regions: seq<LazyRegion>)
    requires Partition(owner, free, n) && f in free && taken <= free && f !in taken
    requires GainedTables(owner[f := o], owner', taken)
    requires AllBacked(pages, owner, regions)
    ensures AllBacked(pages, owner', regions)
  {
    forall q {:trigger Backed(pages, owner', q)} | IsLazy(regions, q) || IsDynamic(q)
      ensures Backed(pages, owner', q)
    {
      assert Backed(pages, owner, q);
    }
  }

  /** Page p was mapped or unmapped, and unless it was unmapped it lies elsewhere. */
  lemma UpdateKeepsBacked(pages: map<nat, Mapping>, owner: map<nat, Owner>, p: nat, m: Option<Mapping>,
                          owner': map<nat, Owner>, taken: set<nat>, regions: seq<LazyRegion>)
    requires AllBacked(pages, owner, regions) && (m.Some? ==> !IsLazy(regions, p) && !IsDynamic(p))
    requires GainedTables(Disown(owner, p), owner', taken) && taken !! owner.Keys
    ensures AllBacked(Updated(pages, p, m), owner', regions)
  {
    forall q {:trigger Backed(Updated(pages, p, m), owner', q)} | IsLazy(regions, q) || IsDynamic(q)
      ensures Backed(Updated(pages, p, m), owner', q)
    {
      assert Backed(pages, owner, q);
    }
  }

  /** The owners of frames that back nothing may change. */
  lemma OwnersKeepBacked(pages: map<nat, Mapping>, owner: map<nat, Owner>, owner': map<nat, Owner>,
                         regions: seq<LazyRegion>)
    requires AllBacked(pages, owner, regions)
    requires forall f: nat :: f in owner && (owner[f].Lazy? || owner[f].Guarded?) ==>
               f in owner' && owner'[f] == owner[f]
    ensures AllBacked(pages, owner', regions)
  {
    forall q {:trigger Backed(pages, owner', q)} | IsLazy(regions, q) || IsDynamic(q)
      ensures Backed(pages, owner', q)
    {
      assert Backed(pages, owner, q);
    }
  }

  /** Page p is mapped to a frame of its own, from among the given ones, as the flags ask. */
  predicate GuardedPage(pages: map<nat, Mapping>, owner: map<nat, Owner>, from: set<nat>, p: nat, flags: nat,
                        path: Rights) {
    && p in pages && pages[p].level == 1 && pages[p].frame in from
    && pages[p].frame in owner && owner[pages[p].frame] == Guarded(p)
    && pages[p].noCache == (flags / 4 % 2 == 1) && pages[p].rights == path.Meet(AskedRights(flags))
  }

  /** Pages first to end - 1 have been provided, and no other page has changed. */
  ghost predicate RangeProvided(pages0: map<nat, Mapping>, words0: seq<uint64>, root: nat, pages: map<nat, Mapping>,
                                owner: map<nat, Owner>, from: set<nat>, first: nat, end: nat, flags: nat)
  {
    && (forall p {:trigger GuardedPage(pages, owner, from, p, flags, PathRights(words0, root, 4, p))} ::
          first <= p < end ==> GuardedPage(pages, owner, from, p, flags, PathRights(words0, root, 4, p)))
    && (forall p: nat :: !(first <= p < end) ==> Lookup(pages, p) == Lookup(pages0, p))
  }

  /** Frames that had an owner keep it, except that a remapped page lets go of its old one. */
  ghost predicate OthersKept(before: map<nat, Owner>, after: map<nat, Owner>, p: nat, remapped: bool) {
    forall g: nat :: g in before ==>
      g in after && after[g] == if remapped && Backs(before[g], p) then Leaked else before[g]
  }

  /** A frame stays with its owner, or what backed a page that is remapped or unmapped is leaked. */
  predicate StaysWith(before: Owner, after: Owner) {
    after == before || ((before.Lazy? || before.Guarded?) && after.Leaked?)
  }

  /** Every frame in use outside `except` stays in use and, unless it is a table, holds what it held. */
  ghost predicate Undisturbed(m0: seq<uint64>, owner0: map<nat, Owner>, m1: seq<uint64>, owner1: map<nat, Owner>,
                              except: set<nat>)
  {
    forall f: nat {:trigger f in owner1} {:trigger SameFrame(m0, m1, f)} :: f in owner0 && f !in except ==>
      f in owner1 && StaysWith(owner0[f], owner1[f]) && (!owner0[f].Table? ==> SameFrame(m0, m1, f))
  }

  lemma NothingDisturbed(m: seq<uint64>, owner: map<nat, Owner>)
    ensures Undisturbed(m, owner, m, owner, {})
  {
  }

  lemma UndisturbedChain(m0: seq<uint64>, owner0: map<nat, Owner>, m1: seq<uint64>, owner1: map<nat, Owner>,
                         m2: seq<uint64>, owner2: map<nat, Owner>, except: set<nat>)
    requires Undisturbed(m0, owner0, m1, owner1, {}) && Undisturbed(m1, owner1, m2, owner2, except)
    requires except !! owner0.Keys
    ensures Undisturbed(m0, owner0, m2, owner2, {})
  {
    forall f: nat | f in owner0
      ensures f in owner2 && StaysWith(owner0[f], owner2[f]) && (!owner0[f].Table? ==> SameFrame(m0, m2, f))
    {
      assert f in owner1 && f in owner2;
      if !owner0[f].Table? {
        assert SameFrame(m0, m1, f) && SameFrame(m1, m2, f);
      }
    }
  }

  lemma ReleaseDisturbs(m: seq<uint64>, owner0: map<nat, Owner>, owner1: map<nat, Owner>, f: nat)
    requires forall g: nat :: g in owner0 && g != f ==> g in owner1 && owner1[g] == owner0[g]
    ensures Undisturbed(m, owner0, m, owner1, {f})
  {
  }

  /** Writing to tables and free frames only disturbs nobody. */
  lemma MappingDisturbsNobody(m0: seq<uint64>, t0: Tree, free0: set<nat>, owner0: map<nat, Owner>,
                              m1: seq<uint64>, owner1: map<nat, Owner>, p: nat, remapped: bool)
    requires OwnsTables(owner0, t0) && owner0.Keys !! free0
    requires Untouched(m0, m1, t0, free0) && OthersKept(owner0, owner1, p, remapped)
    ensures Undisturbed(m0, owner0, m1, owner1, {})
  {
    forall f: nat | f in owner0
      ensures f in owner1 && StaysWith(owner0[f], owner1[f]) && (!owner0[f].Table? ==> SameFrame(m0, m1, f))
    {
      assert f in t0.level <==> owner0[f].Table?;
    }
  }

  lemma RangeGrows(pages0: map<nat, Mapping>, words0: seq<uint64>, root: nat, from: set<nat>, first: nat, end: nat,
                   flags: nat,
                   pages1: map<nat, Mapping>, owner1: map<nat, Owner>, words1: seq<uint64>, free1: set<nat>,
                   pages2: map<nat, Mapping>, owner2: map<nat, Owner>)
    requires first <= end && free1 <= from && SamePaths(words0, words1, root)
    requires RangeProvided(pages0, words0, root, pages1, owner1, from, first, end, flags)
    requires OthersKept(owner1, owner2, end, false)
    requires GuardedPage(pages2, owner2, free1, end, flags, PathRights(words1, root, 4, end))
    requires pages2 == pages1[end := pages2[end]]
    ensures RangeProvided(pages0, words0, root, pages2, owner2, from, first, end + 1, flags)
  {
    forall p {:trigger GuardedPage(pages2, owner2, from, p, flags, PathRights(words0, root, 4, p))}
      | first <= p < end + 1
      ensures GuardedPage(pages2, owner2, from, p, flags, PathRights(words0, root, 4, p))
    {
      assert PathRights(words1, root, 4, p) == PathRights(words0, root, 4, p);
      if p < end {
        assert GuardedPage(pages1, owner1, from, p, flags, PathRights(words0, root, 4, p));
      }
    }
    forall p: nat | !(first <= p < end + 1) ensures Lookup(pages2, p) == Lookup(pages0, p) {
      assert Lookup(pages1, p) == Lookup(pages0, p);
    }
  }

  lemma RangeKeeps(pages0: map<nat, Mapping>, words0: seq<uint64>, root: nat, from: set<nat>, first: nat, end: nat,
                   flags: nat,
                   pages1: map<nat, Mapping>, owner1: map<nat, Owner>, owner2: map<nat, Owner>)
    requires RangeProvided(pages0, words0, root, pages1, owner1, from, first, end, flags)
    requires OthersKept(owner1, owner2, end, false)
    ensures RangeProvided(pages0, words0, root, pages1, owner2, from, first, end, flags)
  {
    forall p {:trigger GuardedPage(pages1, owner2, from, p, flags, PathRights(words0, root, 4, p))} | first <= p < end
      ensures GuardedPage(pages1, owner2, from, p, flags, PathRights(words0, root, 4, p))
    {
      assert GuardedPage(pages1, owner1, from, p, flags, PathRights(words0, root, 4, p));
    }
  }

  lemma NobodyBacks(owner: map<nat, Owner>, pages: map<nat, Mapping>, p: nat)
    requires BacksPages(owner, pages) && p !in pages
    ensures forall g: nat :: g in owner ==> !Backs(owner[g], p)
  {
    forall g: nat | g in owner ensures !Backs(owner[g], p) {
      assert owner[g].Lazy? || owner[g].Guarded? ==> MapsTo(pages, owner[g].page, g);
    }
  }

  ghost function LeakedFrames(owner: map<nat, Owner>): set<nat> {
    set f | f in owner && owner[f].Leaked?
  }

  /** The frame that backs page p, if any. */
  ghost function BackingOf(owner: map<nat, Owner>, p: nat): set<nat> {
    set f | f in owner && Backs(owner[f], p)
  }

  lemma BackingIsMapped(owner: map<nat, Owner>, pages: map<nat, Mapping>, p: nat)
    requires BacksPages(owner, pages) && Backed(pages, owner, p)
    ensures BackingOf(owner, p) == if p in pages then {pages[p].frame} else {}
  {
    forall f | f in BackingOf(owner, p) ensures p in pages && f == pages[p].frame {
      assert MapsTo(pages, owner[f].page, f);
    }
  }

  lemma Disowned(owner: map<nat, Owner>, p: nat)
    ensures LeakedFrames(Disown(owner, p)) == LeakedFrames(owner) + BackingOf(owner, p)
    ensures GainedTables(Disown(owner, p), Disown(owner, p), {}) && OthersKept(owner, Disown(owner, p), p, true)
  {
  }

  /** What came into use besides frame f are tables. */
  ghost predicate OnlyTables(before: map<nat, Owner>, after: map<nat, Owner>, f: nat) {
    forall g: nat :: g in after && g !in before && g != f ==> after[g].Table?
  }

  /** Providing a page leaks what backed it before. */
  lemma LeaksOfProviding(before: map<nat, Owner>, after: map<nat, Owner>, f: nat, p: nat, mapped: bool)
    requires OthersKept(before, after, p, mapped) && OnlyTables(before, after, f)
    requires f in after ==> f !in before && !after[f].Leaked?
    ensures LeakedFrames(after) == LeakedFrames(before) + if mapped then BackingOf(before, p) else {}
    ensures f in after ==> LeakedFrames(after[f := Leaked]) == LeakedFrames(after) + {f}
  {
  }

  // ----- What holds in every valid state

  function PhysicalAddress(pages: map<nat, Mapping>, virt: nat): nat
    requires PageOf(virt) in pages
  {
    pages[PageOf(virt)].frame * PAGE_SIZE + virt % PAGE_SIZE
  }

  /** Two bytes of backed pages are two bytes of memory, in frames that are neither free nor
      used for anything else. */
  lemma DistinctBytes(pages: map<nat, Mapping>, owner: map<nat, Owner>, free: set<nat>, n: nat, t: Tree,
                      homeFirst: nat, homeEnd: nat, a: nat, b: nat)
    requires Partition(owner, free, n) && OwnsTables(owner, t) && Shielded(owner, homeFirst, homeEnd)
    requires Canonical(a) && Canonical(b) && a != b
    requires PageOf(a) in pages && Backed(pages, owner, PageOf(a))
    requires PageOf(b) in pages && Backed(pages, owner, PageOf(b))
    ensures PhysicalAddress(pages, a) != PhysicalAddress(pages, b)
    ensures var f := PhysicalAddress(pages, a) / PAGE_SIZE;
            f < n && f !in free && f !in t.level && f != 0 && !(homeFirst <= f < homeEnd)
  {
    var f, g := pages[PageOf(a)].frame, pages[PageOf(b)].frame;
    DivModUnique(PhysicalAddress(pages, a), PAGE_SIZE, f, a % PAGE_SIZE);
    DivModUnique(PhysicalAddress(pages, b), PAGE_SIZE, g, b % PAGE_SIZE);
    if PageOf(a) == PageOf(b) {
      PageOfAddress(a);
      PageOfAddress(b);
    } else {
      assert Backs(owner[f], PageOf(a)) && !Backs(owner[f], PageOf(b));
    }
  }

  ghost function FramesBelow(n: nat): (s: set<nat>)
    ensures |s| == n && forall f: nat :: f in s <==> f < n
  {
    if n == 0 then {} else FramesBelow(n - 1) + {n - 1}
  }

  ghost function OwnedBy(owner: map<nat, Owner>, chosen: Owner -> bool): set<nat> {
    set f | f in owner && chosen(owner[f])
  }

  /** Splitting a set of owned frames by one class. */
  lemma SplitOff(owner: map<nat, Owner>, all: Owner -> bool, chosen: Owner -> bool, rest: Owner -> bool)
    requires forall o :: all(o) <==> chosen(o) || rest(o)
    requires forall o :: !(chosen(o) && rest(o))
    ensures |OwnedBy(owner, all)| == |OwnedBy(owner, chosen)| + |OwnedBy(owner, rest)|
  {
    assert OwnedBy(owner, all) == OwnedBy(owner, chosen) + OwnedBy(owner, rest);
    assert OwnedBy(owner, chosen) !! OwnedBy(owner, rest);
  }

  lemma OwnersAddUp(owner: map<nat, Owner>)
    ensures |owner.Keys| ==
            |OwnedBy(owner, (o: Owner) => o.Firmware?)| + |OwnedBy(owner, (o: Owner) => o.Table?)|
            + |OwnedBy(owner, (o: Owner) => o.Lazy?)| + |OwnedBy(owner, (o: Owner) => o.Guarded?)|
            + |OwnedBy(owner, (o: Owner) => o.Held?)| + |OwnedBy(owner, (o: Owner) => o.Leaked?)|
  {
    var any := (o: Owner) => true;
    var notFirmware := (o: Owner) => !o.Firmware?;
    var mapped := (o: Owner) => o.Lazy? || o.Guarded?;
    var unmapped := (o: Owner) => o.Held? || o.Leaked?;
    var notTable := (o: Owner) => mapped(o) || unmapped(o);
    SplitOff(owner, any, (o: Owner) => o.Firmware?, notFirmware);
    SplitOff(owner, notFirmware, (o: Owner) => o.Table?, notTable);
    SplitOff(owner, notTable, mapped, unmapped);
    SplitOff(owner, mapped, (o: Owner) => o.Lazy?, (o: Owner) => o.Guarded?);
    SplitOff(owner, unmapped, (o: Owner) => o.Held?, (o: Owner) => o.Leaked?);
    assert owner.Keys == OwnedBy(owner, any);
  }

  /** Every tracked frame is accounted for once: free, or in exactly one class of owners. */
  lemma FramesAddUp(owner: map<nat, Owner>, free: set<nat>, n: nat)
    requires Partition(owner, free, n) && forall f | f in free :: f < n
    ensures n == |free|
               + |OwnedBy(owner, (o: Owner) => o.Firmware?)| + |OwnedBy(owner, (o: Owner) => o.Table?)|
               + |OwnedBy(owner, (o: Owner) => o.Lazy?)| + |OwnedBy(owner, (o: Owner) => o.Guarded?)|
               + |OwnedBy(owner, (o: Owner) => o.Held?)| + |OwnedBy(owner, (o: Owner) => o.Leaked?)|
  {
    OwnersAddUp(owner);
    assert FramesBelow(n) == free + owner.Keys;
    assert free !! owner.Keys;
  }

  // ----- Requests and what they may change

  /** How the processor goes about an access: whether it uses the TLB, the level whose cached table
      it starts from, and the level of the table that it caches. */
  datatype Access = Access(useTlb: bool, start: nat, fill: nat)

  /** What the rest of the kernel and its threads can ask for. */
  datatype Request =
    | Register(start: uint64, end: uint64, flags: uint32)
    | Fault(address: uint64, errorCode: uint64)
    | GuardedRange(pageCount: nat, flags: uint32)
    | Device(phys: uint64)
    | MapPage(virt: uint64, phys: uint64, flags: uint32)
    | Unmap(virt: uint64)
    | TakeFrame
    | GiveBack(frame: nat)
    | Load(virt: uint64, access: Access)
    | Store(virt: uint64, value: uint64, access: Access)
    | StoreHeld(frame: nat, index: nat, value: uint64)

  datatype Snapshot = Snapshot(
    words: seq<uint64>, root: nat, pages: map<nat, Mapping>, owner: map<nat, Owner>, free: set<nat>,
    regions: seq<LazyRegion>, dynamicNext: nat, mmioNext: nat, guards: set<nat>, granted: set<nat>)

  /** What memory holds at a virtual address. */
  ghost function ValueAt(s: Snapshot, virt: nat): uint64
    requires PageOf(virt) in s.pages
  {
    Word(s.words, s.pages[PageOf(virt)].frame, virt / 8 % WORDS_PER_FRAME)
  }

  /** Kernel code can store there: the page is mapped and every entry of its path says writable. */
  ghost predicate Storable(s: Snapshot, virt: nat) {
    PageOf(virt) in s.pages && s.pages[PageOf(virt)].rights.writable
  }

  /** The guard pages are unmapped, the pages handed out are mapped, every mapped page of the lazy and
      guarded windows has a frame of its own, and nothing in use is free. */
  ghost predicate Sound(s: Snapshot) {
    && (forall p :: p in s.guards ==> p !in s.pages)
    && (forall p :: p in s.granted ==> p in s.pages && IsDynamic(p))
    && AllBacked(s.pages, s.owner, s.regions)
    && s.owner.Keys !! s.free
  }

  /** Whether there are frames enough for all pages of a range and the tables they lack. */
  ghost predicate Enough(s: Snapshot, first: nat, pageCount: nat) {
    pageCount + |MissingTables(s.words, s.root, first, pageCount)| <= |s.free|
  }

  lemma SameEnough(s: Snapshot, t: Snapshot, first: nat)
    requires t.words == s.words && t.root == s.root && t.free == s.free
    ensures forall n: nat {:trigger Enough(s, first, n)} :: Enough(s, first, n) <==> Enough(t, first, n)
  {
  }

  /** The pages whose translation a request may change. */
  ghost predicate Concerns(a: Snapshot, r: Request, p: nat) {
    match r
    case Fault(address, _) => p == PageOf(address) && IsLazy(a.regions, p)
    case GuardedRange(pageCount, _) => PageOf(a.dynamicNext) < p <= PageOf(a.dynamicNext) + pageCount
    case Device(_) => p == PageOf(a.mmioNext)
    case MapPage(virt, _, _) => p == PageOf(virt)
    case Unmap(virt) => p == PageOf(virt)
    case _ => false
  }

  /** Word i of frame f is where a request stores its value. */
  ghost predicate StoresTo(a: Snapshot, r: Request, f: nat, i: nat) {
    match r
    case Store(virt, _, _) =>
      Storable(a, virt) && f == a.pages[PageOf(virt)].frame && i == virt / 8 % WORDS_PER_FRAME
    case StoreHeld(frame, index, _) => f == frame && i == index
    case _ => false
  }

  ghost predicate OnlyStores(a: Snapshot, r: Request, b: Snapshot)
    requires r.Store? || r.StoreHeld?
  {
    && b.owner == a.owner
    && forall f: nat, i: nat {:trigger Word(b.words, f, i)} :: i < WORDS_PER_FRAME ==>
         Word(b.words, f, i) == if StoresTo(a, r, f, i) then r.value else Word(a.words, f, i)
  }

  /** What every request keeps: the translations it is not about, the rights of all paths, the guard
      pages, the ranges handed out, who uses which frame, and what memory in use holds. */
  ghost predicate Evolves(a: Snapshot, r: Request, b: Snapshot) {
    && b.root == a.root && SamePaths(a.words, b.words, a.root) && Sound(b)
    && (forall p: nat :: !Concerns(a, r, p) ==> Lookup(b.pages, p) == Lookup(a.pages, p))
    && a.guards <= b.guards && (forall p :: IsLazy(a.regions, p) ==> IsLazy(b.regions, p))
    && (forall p :: p in a.granted && !(r.Unmap? && p == PageOf(r.virt)) ==>
          p in b.granted && Lookup(b.pages, p) == Lookup(a.pages, p))
    && (if r.Store? || r.StoreHeld? then OnlyStores(a, r, b)
        else Undisturbed(a.words, a.owner, b.words, b.owner, if r.GiveBack? then {r.frame} else {}))
  }

  /** What a request relies on when it is made. */
  ghost predicate Proper(a: Snapshot, r: Request) {
    match r
    case GiveBack(frame) => frame in a.owner && a.owner[frame].Held?
    case Load(virt, _) => Canonical(virt) && virt % 8 == 0 && Backed(a.pages, a.owner, PageOf(virt))
    case Store(virt, _, _) => Canonical(virt) && virt % 8 == 0 && Backed(a.pages, a.owner, PageOf(virt))
    case StoreHeld(frame, index, _) => frame in a.owner && a.owner[frame].Held? && index < WORDS_PER_FRAME
    case _ => true
  }

  /** The first region that covers page p. */
  ghost predicate IsSlot(regions: seq<LazyRegion>, i: nat, p: nat) {
    i < |regions| && Covers(regions[i], p) && forall j :: 0 <= j < i ==> !Covers(regions[j], p)
  }

  /** The first unused slot now holds r. */
  ghost predicate FillsFirstSlot(before: seq<LazyRegion>, r: LazyRegion, after: seq<LazyRegion>) {
    exists i :: 0 <= i < |before| && !before[i].used
                && (forall j :: 0 <= j < i ==> before[j].used) && after == before[i := r]
  }

  /** What the one who asked is told: None is NULL, false, 0 or a page fault. */
  ghost predicate Answers(a: Snapshot, r: Request, answer: Option<nat>) {
    match r
    case Register(_, _, _) => answer.Some? <==> exists i :: 0 <= i < |a.regions| && !a.regions[i].used
    case Fault(address, errorCode) =>
      answer.Some? <==> errorCode % 2 == 0 && IsLazy(a.regions, PageOf(address))
                        && Missing(a.words, a.root, 4, PageOf(address)) < |a.free|
    case GuardedRange(pageCount, _) =>
      && (answer.Some? <==> Enough(a, PageOf(a.dynamicNext) + 1, pageCount))
      && (answer.Some? ==>
            answer.value == a.dynamicNext + PAGE_SIZE && PageOf(answer.value) == PageOf(a.dynamicNext) + 1)
    case Device(_) =>
      && (answer.Some? <==> Missing(a.words, a.root, 4, PageOf(a.mmioNext)) <= |a.free|)
      && (answer.Some? ==> answer.value == a.mmioNext)
    case MapPage(virt, _, _) => answer.Some? <==> Missing(a.words, a.root, 4, PageOf(virt)) <= |a.free|
    case TakeFrame => (answer.Some? <==> a.free != {}) && (answer.Some? ==> answer.value in a.free)
    case Load(virt, _) => answer == if PageOf(virt) in a.pages then Some(ValueAt(a, virt)) else None
    case Store(virt, _, _) => answer.Some? <==> Storable(a, virt)
    case _ => true
  }

  /** Page p has been mapped to frame number phys / PAGE_SIZE as the flags ask, under the rights of its path. */
  function WithPage(a: Snapshot, p: nat, phys: nat, flags: nat): map<nat, Mapping> {
    a.pages[p := AskedMapping(phys, flags).Restrict(PathRights(a.words, a.root, 4, p))]
  }

  /** Page p has been brought in: it has a cleared frame of its own, and the flags of its region. */
  ghost predicate BroughtIn(a: Snapshot, p: nat, b: Snapshot) {
    && p in b.pages && b.pages[p].frame in a.free
    && b.pages[p].frame in b.owner && b.owner[b.pages[p].frame] == Lazy(p) && ZeroFrame(b.words, b.pages[p].frame)
    && exists i: nat ::
         IsSlot(a.regions, i, p) && b.pages == WithPage(a, p, b.pages[p].frame * PAGE_SIZE, a.regions[i].flags)
  }

  /** As many pages of the range as there are frames for, with the tables they lack, are mapped to frames of
      their own as the flags ask, and the others are not mapped. */
  ghost predicate RangeAdded(a: Snapshot, first: nat, pageCount: nat, flags: nat, b: Snapshot) {
    forall n: nat {:trigger Enough(a, first, n)} :: 0 < n <= pageCount ==>
      var p := first + n - 1;
      && p !in a.pages
      && if Enough(a, first, n)
         then GuardedPage(b.pages, b.owner, a.free, p, flags, PathRights(a.words, a.root, 4, p))
         else p !in b.pages
  }

  /** What a request does to what it is about. */
  ghost predicate Effect(a: Snapshot, r: Request, answer: Option<nat>, b: Snapshot) {
    match r
    case Register(start, end, flags) =>
      && b == a.(regions := b.regions)
      && (if answer.Some? then FillsFirstSlot(a.regions, LazyRegion(start, end, flags, true), b.regions)
          else b.regions == a.regions)
    case Fault(address, errorCode) =>
      if errorCode % 2 == 0 && IsLazy(a.regions, PageOf(address)) then
        && (if answer.Some? then BroughtIn(a, PageOf(address), b) else b.pages == a.pages)
        && |b.free| == if answer.Some? then |a.free| - Missing(a.words, a.root, 4, PageOf(address)) - 1 else 0
      else b == a
    case GuardedRange(pageCount, flags) =>
      var first := PageOf(a.dynamicNext) + 1;
      && b.guards == a.guards + {first - 1, first + pageCount}
      && b.dynamicNext == a.dynamicNext + (pageCount + 2) * PAGE_SIZE
      && RangeAdded(a, first, pageCount, flags, b)
      && (forall p :: p in b.granted <==> p in a.granted || (answer.Some? && first <= p < first + pageCount))
      && (if answer.Some?
          then |b.free| + pageCount + |MissingTables(a.words, a.root, first, pageCount)| == |a.free|
          else |b.free| <= 1)
    case Device(phys) =>
      var p := PageOf(a.mmioNext);
      && b.pages == (if answer.Some? then WithPage(a, p, phys, MMIO_FLAGS) else a.pages)
      && b.mmioNext == a.mmioNext + PAGE_SIZE
      && |b.free| == if answer.Some? then |a.free| - Missing(a.words, a.root, 4, p) else 0
    case MapPage(virt, phys, flags) =>
      && b.pages == (if answer.Some? then WithPage(a, PageOf(virt), phys, flags) else a.pages)
      && |b.free| == if answer.Some? then |a.free| - Missing(a.words, a.root, 4, PageOf(virt)) else 0
    case Unmap(virt) =>
      && b.pages == a.pages - {PageOf(virt)} && b.owner == Disown(a.owner, PageOf(virt))
      && b.granted == a.granted - {PageOf(virt)} && b.free == a.free
    case TakeFrame =>
      if answer.Some? then
        && b.owner == a.owner[answer.value := Held] && b.free == a.free - {answer.value}
        && ZeroFrame(b.words, answer.value)
      else b == a
    case GiveBack(frame) => b == a.(owner := a.owner - {frame}, free := a.free + {frame})
    case Load(_, _) => b == a
    case Store(_, _, _) => b == if answer.Some? then a.(words := b.words) else a
    case StoreHeld(_, _, _) => b == a.(words := b.words)
  }

  /** The lists that only some requests change. */
  ghost predicate ListsKept(a: Snapshot, r: Request, b: Snapshot) {
    && (r.Register? || b.regions == a.regions)
    && (r.GuardedRange? || (b.guards == a.guards && b.dynamicNext == a.dynamicNext))
    && (r.Device? || b.mmioNext == a.mmioNext)
    && (r.GuardedRange? || r.Unmap? || b.granted == a.granted)
  }

  ghost predicate Step(a: Snapshot, r: Request, answer: Option<nat>, b: Snapshot) {
    && Sound(a) && Proper(a, r) && Answers(a, r, answer)
    && Evolves(a, r, b) && ListsKept(a, r, b) && Effect(a, r, answer, b)
  }

  /** Nothing has happened, except that a region may have been registered. */
  lemma SameButRegions(a: Snapshot, r: Request, b: Snapshot)
    requires b == a.(regions := b.regions) && Sound(b) && !r.StoreHeld?
    requires forall p :: IsLazy(a.regions, p) ==> IsLazy(b.regions, p)
    requires r.Store? ==> !Storable(a, r.virt)
    ensures Evolves(a, r, b)
  {
  }

  lemma MmioFlags()
    ensures Or(VMM_WRITABLE, Or(VMM_NO_CACHE, VMM_NO_EXECUTE)) == MMIO_FLAGS
  {
  }

  /** The one page that the request is about may have been mapped. */
  lemma OnePageEvolves(a: Snapshot, r: Request, p: nat, mapped: bool, m: Mapping, b: Snapshot)
    requires b.root == a.root && b.regions == a.regions && Sound(b) && SamePaths(a.words, b.words, a.root)
    requires Undisturbed(a.words, a.owner, b.words, b.owner, {}) && b.guards == a.guards && b.granted == a.granted
    requires (r.Fault? || r.Device? || r.MapPage?) && Concerns(a, r, p) && p !in a.granted
    requires b.pages == if mapped then a.pages[p := m] else a.pages
    ensures Evolves(a, r, b)
  {
    hide Sound, SamePaths, Undisturbed, IsLazy;
  }

  lemma FaultSteps(a: Snapshot, address: uint64, errorCode: uint64, mapped: bool, slot: nat, frame: nat, b: Snapshot)
    requires b == a.(words := b.words, pages := b.pages, owner := b.owner, free := b.free)
    requires Sound(a) && Sound(b) && SamePaths(a.words, b.words, a.root)
    requires Undisturbed(a.words, a.owner, b.words, b.owner, {})
    requires errorCode % 2 == 0 && IsSlot(a.regions, slot, PageOf(address)) && PageOf(address) !in a.granted
    requires b.pages == if mapped then WithPage(a, PageOf(address), frame, a.regions[slot].flags) else a.pages
    requires mapped <==> Missing(a.words, a.root, 4, PageOf(address)) < |a.free|
    requires |b.free| == if mapped then |a.free| - Missing(a.words, a.root, 4, PageOf(address)) - 1 else 0
    requires mapped ==>
               var f := frame / PAGE_SIZE;
               && frame == f * PAGE_SIZE && f < FRAMES && f in a.free && f in b.owner
               && b.owner[f] == Lazy(PageOf(address)) && ZeroFrame(b.words, f)
    ensures Step(a, Fault(address, errorCode), if mapped then Some(0) else None, b)
  {
    hide Sound, SamePaths, Undisturbed, Missing, ZeroFrame, Evolves, PathRights, Covers;
    if mapped {
      AskedFrame(frame, a.regions[slot].flags);
    }
    OnePageEvolves(a, Fault(address, errorCode), PageOf(address), mapped,
                   AskedMapping(frame, a.regions[slot].flags)
                   .Restrict(PathRights(a.words, a.root, 4, PageOf(address))), b);
  }

  lemma FaultIgnored(a: Snapshot, address: uint64, errorCode: uint64)
    requires Sound(a) && !(errorCode % 2 == 0 && IsLazy(a.regions, PageOf(address)))
    ensures Step(a, Fault(address, errorCode), None, a)
  {
    hide Sound, IsLazy;
    SameButRegions(a, Fault(address, errorCode), a);
  }

  lemma RangeEvolves(a: Snapshot, pageCount: nat, flags: uint32, done: nat, b: Snapshot)
    requires b.root == a.root && b.regions == a.regions && Sound(b) && SamePaths(a.words, b.words, a.root)
    requires done <= pageCount
    requires Undisturbed(a.words, a.owner, b.words, b.owner, {}) && a.guards <= b.guards && a.granted <= b.granted
    requires var first := PageOf(a.dynamicNext) + 1;
             && RangeProvided(a.pages, a.words, a.root, b.pages, b.owner, a.free, first, first + done, flags)
             && forall p :: first <= p < first + pageCount ==> p !in a.granted
    ensures Evolves(a, GuardedRange(pageCount, flags), b)
  {
    hide Sound, SamePaths, Undisturbed, GuardedPage;
  }

  lemma RangeIsAdded(a: Snapshot, first: nat, pageCount: nat, flags: uint32, done: nat, b: Snapshot)
    requires done <= pageCount && forall n: nat :: n <= pageCount ==> (n <= done <==> Enough(a, first, n))
    requires RangeProvided(a.pages, a.words, a.root, b.pages, b.owner, a.free, first, first + done, flags)
    requires forall p :: first <= p < first + pageCount ==> p !in a.pages
    ensures RangeAdded(a, first, pageCount, flags, b)
  {
    hide Enough, GuardedPage;
    forall n: nat {:trigger Enough(a, first, n)} | 0 < n <= pageCount
      ensures first + n - 1 !in a.pages
      ensures if Enough(a, first, n) then GuardedPage(b.pages, b.owner, a.free, first + n - 1, flags,
                                                      PathRights(a.words, a.root, 4, first + n - 1))
              else first + n - 1 !in b.pages
    {
      var p := first + n - 1;
      assert Lookup(a.pages, p) == None;
      if n > done {
        assert Lookup(b.pages, p) == Lookup(a.pages, p);
      }
    }
  }

  class MemoryManager {
    const space: AddressSpace
    var dynamicNext: nat
    var mmioNext: nat
    var lazyRegions: seq<LazyRegion>
    /** The guard pages around every range handed out so far, and the pages of those ranges. */
    ghost var guards: set<nat>
    ghost var granted: set<nat>

    /** Pages whose frames this file provides. */
    predicate Managed(p: nat)
      reads this
    {
      IsLazy(lazyRegions, p) || IsDynamic(p)
    }

    /** The bump pointers stay in their windows, and nothing is mapped above them. */
    ghost predicate Windows()
      reads this
    {
      && DYNAMIC_BASE <= dynamicNext <= MMIO_BASE && dynamicNext % PAGE_SIZE == 0
      && MMIO_BASE <= mmioNext <= TWO_64 && mmioNext % PAGE_SIZE == 0
      && |lazyRegions| == MAX_LAZY_REGIONS
      && forall i :: 0 <= i < |lazyRegions| && lazyRegions[i].used ==> lazyRegions[i].end <= DYNAMIC_BASE
    }

    ghost predicate Valid()
      reads this, space, space.frames, space.frames.bitmap, space.mem
    {
      && space.Valid() && Windows()
      && (forall p {:trigger NoLargePage(space.words, space.root, 4, p)} :: Managed(p) || IsMmio(p) ==>
            NoLargePage(space.words, space.root, 4, p))
      && (forall p :: p in space.pages && IsDynamic(p) ==> AddressOf(p) < dynamicNext)
      && (forall p :: p in guards ==> IsDynamic(p) && AddressOf(p) < dynamicNext && p !in space.pages)
      && (forall p :: p in granted ==> IsDynamic(p) && p in space.pages)
      && AllBacked(space.pages, space.owner, lazyRegions)
    }

    ghost function State(): Snapshot
      reads this, space, space.frames
    {
      Snapshot(space.words, space.root, space.pages, space.owner, space.frames.free, lazyRegions, dynamicNext, mmioNext,
               guards, granted)
    }

    lemma SoundState()
      requires Valid()
      ensures Sound(State()) && space.frames.freeFrames == |space.frames.free|
    {
      hide NoLargePage, AllBacked;
    }

    constructor (space: AddressSpace)
      requires space.Valid()
      requires forall p: nat :: p < PAGES && DYNAMIC_BASE <= AddressOf(p) ==>
                 p !in space.pages && NoLargePage(space.words, space.root, 4, p)
      ensures this.space == space && Valid() && guards == granted == {}
      ensures dynamicNext == 0xffff_ffff_b000_0000 && mmioNext == 0xffff_ffff_c000_0000 && |lazyRegions| == 8
      ensures forall i :: 0 <= i < MAX_LAZY_REGIONS ==> !lazyRegions[i].used
    {
      this.space := space;
      dynamicNext, mmioNext := DYNAMIC_BASE, MMIO_BASE;
      lazyRegions := seq(MAX_LAZY_REGIONS, _ => LazyRegion(0, 0, 0, false));
      guards, granted := {}, {};
    }

    /** The range lies below the window of guarded allocations, has no large page on its paths, and what is
        mapped in it already has a frame of its own. */
    ghost predicate Fits(start: uint64, end: uint64)
      reads space
    {
      && end <= DYNAMIC_BASE
      && forall p: nat {:trigger Backed(space.pages, space.owner, p)} :: p < PAGES && start <= AddressOf(p) < end ==>
           NoLargePage(space.words, space.root, 4, p) && Backed(space.pages, space.owner, p)
    }

    /** It fits, in particular, if nothing in it is mapped. */
    predicate Suitable(start: uint64, end: uint64)
      reads space, space.mem
    {
      && end <= DYNAMIC_BASE
      && forall p | 0 <= p < PAGES :: start <= AddressOf(p) < end ==>
           && Walk(space.mem[..], space.root, 4, p) == None
           && NoLargePage(space.mem[..], space.root, 4, p)
    }

    lemma SuitableFits(start: uint64, end: uint64)
      requires Valid() && Suitable(start, end)
      ensures Fits(start, end)
    {
      hide NoLargePage, Walk, AllBacked;
      forall p: nat | p < PAGES && start <= AddressOf(p) < end
        ensures NoLargePage(space.words, space.root, 4, p) && Backed(space.pages, space.owner, p)
      {
        assert Walk(space.words, space.root, 4, p) == Lookup(space.pages, p);
      }
    }

    lemma RegisteringKeeps(i: nat, start: uint64, end: uint64, flags: uint32)
      requires Valid() && i < MAX_LAZY_REGIONS && !lazyRegions[i].used
      ensures var regions := lazyRegions[i := LazyRegion(start, end, flags, true)];
              Fits(start, end) ==>
                && end <= DYNAMIC_BASE
                && (forall p: nat :: IsLazy(regions, p) ==>
                      IsLazy(lazyRegions, p) || NoLargePage(space.words, space.root, 4, p))
                && AllBacked(space.pages, space.owner, regions)
      ensures forall p :: IsLazy(lazyRegions, p) ==> IsLazy(lazyRegions[i := LazyRegion(start, end, flags, true)], p)
      ensures forall p :: IsDynamic(p) ==>
                (IsLazy(lazyRegions[i := LazyRegion(start, end, flags, true)], p) <==> start <= AddressOf(p) < end)
    {
      hide AddressSpace.Valid, NoLargePage, Backed;
      forall p | IsDynamic(p)
        ensures IsLazy(lazyRegions[i := LazyRegion(start, end, flags, true)], p) <==> start <= AddressOf(p) < end
      {
        var regions := lazyRegions[i := LazyRegion(start, end, flags, true)];
        assert Covers(regions[i], p) <==> start <= AddressOf(p) < end;
        forall k | 0 <= k < |regions| && k != i ensures !Covers(regions[k], p) {
          assert regions[k] == lazyRegions[k];
        }
      }
      forall p | IsLazy(lazyRegions, p) ensures IsLazy(lazyRegions[i := LazyRegion(start, end, flags, true)], p) {
        var k :| 0 <= k < |lazyRegions| && Covers(lazyRegions[k], p);
        assert Covers(lazyRegions[i := LazyRegion(start, end, flags, true)][k], p);
      }
      if Fits(start, end) {
        var regions := lazyRegions[i := LazyRegion(start, end, flags, true)];
        forall p: nat | IsLazy(regions, p)
          ensures IsLazy(lazyRegions, p) || (p < PAGES && start <= AddressOf(p) < end)
        {
          var k :| 0 <= k < |regions| && Covers(regions[k], p);
          if k != i {
            assert Covers(lazyRegions[k], p);
          }
        }
        forall p {:trigger Backed(space.pages, space.owner, p)} | IsLazy(regions, p) || IsDynamic(p)
          ensures Backed(space.pages, space.owner, p)
        {
        }
        forall p: nat | IsLazy(regions, p)
          ensures IsLazy(lazyRegions, p) || NoLargePage(space.words, space.root, 4, p)
        {
          assert Backed(space.pages, space.owner, p);
        }
      }
    }

    lemma RegisteredFits(i: nat)
      requires Valid() && i < MAX_LAZY_REGIONS && lazyRegions[i].used
      ensures Fits(lazyRegions[i].start, lazyRegions[i].end)
    {
      hide AddressSpace.Valid, NoLargePage, Backed;
      forall p: nat | p < PAGES && lazyRegions[i].start <= AddressOf(p) < lazyRegions[i].end
        ensures NoLargePage(space.words, space.root, 4, p) && Backed(space.pages, space.owner, p)
      {
        assert Covers(lazyRegions[i], p);
        assert Managed(p);
      }
    }

    /** vmm_register_lazy_region takes the first unused slot, whatever the range.  The invariant is kept
        exactly if the range fits. */
    method RegisterLazyRegion(start: uint64, end: uint64, flags: uint32) returns (ok: bool)
      requires Valid()
      modifies `lazyRegions
      ensures ok <==> exists i :: 0 <= i < MAX_LAZY_REGIONS && !old(lazyRegions)[i].used
      ensures !ok ==> lazyRegions == old(lazyRegions)
      ensures ok ==> FillsFirstSlot(old(lazyRegions), LazyRegion(start, end, flags, true), lazyRegions)
      ensures ok ==> forall p :: IsDynamic(p) ==> (IsLazy(lazyRegions, p) <==> start <= AddressOf(p) < end)
      ensures Valid() <==> !ok || Fits(start, end)
      ensures Valid() ==> Step(old(State()), Register(start, end, flags), if ok then Some(0) else None, State())
    {
      hide AddressSpace.Valid, NoLargePage, Evolves, AllBacked, Fits, IsLazy, IsDynamic;
      ghost var before := State();
      SoundState();
      for i := 0 to MAX_LAZY_REGIONS
        invariant forall j :: 0 <= j < i ==> lazyRegions[j].used
        invariant lazyRegions == before.regions && State() == before
      {
        if !lazyRegions[i].used {
          RegisteringKeeps(i, start, end, flags);
          lazyRegions := lazyRegions[i := LazyRegion(start, end, flags, true)];
          if AllBacked(space.pages, space.owner, lazyRegions) {
            SameButRegions(before, Register(start, end, flags), State());
          }
          if Valid() {
            RegisteredFits(i);
          }
          return true;
        }
      }
      SameButRegions(before, Register(start, end, flags), before);
      return false;
    }

    /** Page p may get a frame: it is a page of the windows, but no guard page. */
    ghost predicate Providable(p: nat)
      reads this
    {
      Managed(p) && p !in guards && (IsDynamic(p) ==> AddressOf(p) < dynamicNext)
    }

    /** The allocation and mapping of one page, keeping everything else as it was. */
    method Provide(virt: uint64, flags: uint32, ghost backing: Owner) returns (frame: nat, ok: bool)
      requires space.Valid() && NoLargePage(space.words, space.root, 4, PageOf(virt))
      requires backing == Lazy(PageOf(virt)) || backing == Guarded(PageOf(virt))
      modifies space`words, space`tree, space`pages, space`owner, space`tlb
      modifies space.frames`free, space.frames`freeFrames, space.frames`nextSearchIndex, space.frames.bitmap, space.mem
      ensures space.Valid() && (old(Valid() && Providable(PageOf(virt))) ==> Valid())
      ensures ok <==> old(Missing(space.words, space.root, 4, PageOf(virt))) < old(space.frames.freeFrames)
      ensures frame == 0 <==> old(space.frames.free) == {}
      ensures frame == 0 ==> !ok && space.owner == old(space.owner)
      ensures frame != 0 ==>
                var f := frame / PAGE_SIZE;
                && frame == PAGE_SIZE * f && f in old(space.frames.free) && f !in old(space.owner)
                && f in space.owner && space.owner[f] == (if ok then backing else Held)
                && ZeroFrame(space.words, f)
      ensures space.pages ==
              if ok then old(space.pages)[PageOf(virt) :=
                AskedMapping(frame, flags).Restrict(old(PathRights(space.words, space.root, 4, PageOf(virt))))]
              else old(space.pages)
      ensures space.frames.freeFrames ==
              if ok then old(space.frames.freeFrames) - old(Missing(space.words, space.root, 4, PageOf(virt))) - 1
              else 0
      ensures space.frames.free <= old(space.frames.free)
      ensures OthersKept(old(space.owner), space.owner, PageOf(virt), ok)
      ensures OnlyTables(old(space.owner), space.owner, frame / PAGE_SIZE)
      ensures Undisturbed(old(space.words), old(space.owner), space.words, space.owner, {})
      ensures SamePaths(old(space.words), space.words, space.root)
      ensures OpensOnly(old(space.words), space.words, space.root, PageOf(virt))
      ensures ok ==> TableAt(space.words, space.root, PageOf(virt), 1).Some?
      ensures ok ==> AskedMapping(frame, flags).frame == frame / PAGE_SIZE
    {
      hide AddressSpace.Valid, Partition, AllBacked, NoLargePage, Missing, Undisturbed, Untouched, OwnsTables,
        OpensOnly, TableAt, ZeroFrame;
      space.FreeFrames();
      ghost var pages0, owner0, free0 := space.pages, space.owner, space.frames.free;
      ghost var words0, t0 := space.words, space.tree;
      frame, ok := space.Back(virt, flags, backing);
      if frame != 0 {
        ghost var f := frame / PAGE_SIZE;
        ghost var taken := free0 - {f} - space.frames.free;
        AskedFrame(frame, flags);
        if !AllBacked(pages0, owner0, lazyRegions) {
        } else if ok {
          BackingKeepsBacked(pages0, owner0, free0, space.frames.frameCount, PageOf(virt), space.pages[PageOf(virt)],
                             f, backing, space.owner, taken, lazyRegions);
        } else {
          HoldingKeepsBacked(pages0, owner0, free0, space.frames.frameCount, f, Held, space.owner, taken, lazyRegions);
        }
      }
      MappingDisturbsNobody(words0, t0, free0, owner0, space.words, space.owner, PageOf(virt), ok);
    }

    /** The only reference to a held frame goes out of scope. */
    ghost method DropHeld(f: nat)
      requires space.Valid() && f in space.owner && space.owner[f].Held?
      modifies space`owner
      ensures space.Valid() && (old(Valid()) ==> Valid()) && space.owner == old(space.owner)[f := Leaked]
    {
      ghost var owner0 := space.owner;
      space.Leak(f);
      if AllBacked(space.pages, owner0, lazyRegions) {
        OwnersKeepBacked(space.pages, owner0, space.owner, lazyRegions);
      }
    }

    /** The search of vmm_handle_page_fault; MAX_LAZY_REGIONS if no region covers p. */
    method FindRegion(page: uint64, ghost p: nat) returns (slot: nat)
      requires |lazyRegions| == MAX_LAZY_REGIONS && p < PAGES && page == AddressOf(p)
      ensures slot <= MAX_LAZY_REGIONS
      ensures slot < MAX_LAZY_REGIONS ==> IsSlot(lazyRegions, slot, p)
      ensures slot < MAX_LAZY_REGIONS <==> IsLazy(lazyRegions, p)
    {
      for i := 0 to MAX_LAZY_REGIONS
        invariant forall j :: 0 <= j < i ==> !Covers(lazyRegions[j], p)
      {
        if lazyRegions[i].used && page >= lazyRegions[i].start && page < lazyRegions[i].end {
          assert Covers(lazyRegions[i], p);
          return i;
        }
      }
      return MAX_LAZY_REGIONS;
    }

    /** What resolving a fault on page p with this frame leaks: the frame, if it was the last but
        there are tables missing; and what backed the page already, if it gets a new frame. */
    ghost function LostFrames(p: nat, frame: nat): set<nat>
      reads space, space.frames
    {
      if Missing(space.words, space.root, 4, p) < space.frames.freeFrames then
        if p in space.pages then {space.pages[p].frame} else {}
      else if space.frames.freeFrames > 0 then {frame / PAGE_SIZE}
      else {}
    }

    /** When it leaks anything. */
    ghost predicate Leaks(p: nat)
      reads space, space.frames
    {
      var missing := Missing(space.words, space.root, 4, p);
      0 < space.frames.freeFrames <= missing || (missing < space.frames.freeFrames && p in space.pages)
    }

    lemma LostIsNew(p: nat)
      requires Valid() && Managed(p)
      ensures forall frame: nat :: frame / PAGE_SIZE in space.frames.free || space.frames.free == {} ==>
                (Leaks(p) <==> LeakedFrames(space.owner) + LostFrames(p, frame) != LeakedFrames(space.owner))
    {
      hide NoLargePage, Missing;
      assert Backed(space.pages, space.owner, p);
      forall frame: nat | frame / PAGE_SIZE in space.frames.free || space.frames.free == {}
        ensures Leaks(p) <==> LeakedFrames(space.owner) + LostFrames(p, frame) != LeakedFrames(space.owner)
      {
        space.FreeFrames();
        if Leaks(p) {
          var f :| f in LostFrames(p, frame);
          assert f !in LeakedFrames(space.owner);
        }
      }
    }

    /** What vmm_handle_page_fault does once it has found the region. */
    method ProvideLazily(page: uint64, flags: uint32) returns (frame: nat, ok: bool)
      requires space.Valid() && NoLargePage(space.words, space.root, 4, PageOf(page))
      modifies space`words, space`tree, space`pages, space`owner, space`tlb
      modifies space.frames`free, space.frames`freeFrames, space.frames`nextSearchIndex, space.frames.bitmap, space.mem
      ensures space.Valid()
      ensures ok <==> old(Missing(space.words, space.root, 4, PageOf(page))) < old(space.frames.freeFrames)
      ensures frame == 0 <==> old(space.frames.free) == {}
      ensures ok ==> frame != 0
      ensures frame != 0 ==>
                var f := frame / PAGE_SIZE;
                && frame == PAGE_SIZE * f && f in old(space.frames.free) && f in space.owner
                && space.owner[f] == (if ok then Lazy(PageOf(page)) else Leaked) && ZeroFrame(space.words, f)
      ensures space.pages ==
              if ok then old(space.pages)[PageOf(page) :=
                AskedMapping(frame, flags).Restrict(old(PathRights(space.words, space.root, 4, PageOf(page))))]
              else old(space.pages)
      ensures space.frames.freeFrames ==
              if ok then old(space.frames.freeFrames) - old(Missing(space.words, space.root, 4, PageOf(page))) - 1
              else 0
      ensures Undisturbed(old(space.words), old(space.owner), space.words, space.owner, {})
      ensures SamePaths(old(space.words), space.words, space.root)
      ensures old(Valid() && IsLazy(lazyRegions, PageOf(page))) ==>
                && Valid()
                && LeakedFrames(space.owner) == old(LeakedFrames(space.owner)) + old(LostFrames(PageOf(page), frame))
                && (old(Leaks(PageOf(page))) <==> LeakedFrames(space.owner) != old(LeakedFrames(space.owner)))
    {
      hide Valid, AddressSpace.Valid, NoLargePage, Undisturbed, SamePaths, OthersKept, OnlyTables, LeakedFrames,
        BackingOf, ZeroFrame, OpensOnly, TableAt, Leaks, Providable, Missing, PathRights, AskedMapping, IsLazy, Sound;
      ghost var valid := Valid() && IsLazy(lazyRegions, PageOf(page));
      if valid {
        LazyPage(PageOf(page));
        LostIsNew(PageOf(page));
      }
      space.FreeFrames();
      ghost var words0, owner0 := space.words, space.owner;
      frame, ok := Provide(page, flags, Lazy(PageOf(page)));
      if frame != 0 {
        LeaksOfProviding(owner0, space.owner, frame / PAGE_SIZE, PageOf(page), ok);
      }
      if !ok && frame != 0 {
        ghost var owner1 := space.owner;
        DropHeld(frame / PAGE_SIZE);
        ReleaseDisturbs(space.words, owner1, space.owner, frame / PAGE_SIZE);
        UndisturbedChain(words0, owner0, space.words, owner1, space.words, space.owner, {frame / PAGE_SIZE});
      }
    }

    lemma LazyPage(p: nat)
      requires Valid() && IsLazy(lazyRegions, p)
      ensures Providable(p) && NoLargePage(space.words, space.root, 4, p)
      ensures BackingOf(space.owner, p) == if p in space.pages then {space.pages[p].frame} else {}
    {
      hide AddressSpace.Valid, NoLargePage, AllBacked;
      BackingNow(p);
    }

    lemma BackingNow(p: nat)
      requires Valid() && Managed(p)
      ensures BackingOf(space.owner, p) == if p in space.pages then {space.pages[p].frame} else {}
    {
      hide NoLargePage;
      BackingIsMapped(space.owner, space.pages, p);
    }

    lemma NotGranted(p: nat)
      requires Valid()
      ensures IsLazy(lazyRegions, p) || !Managed(p) ==> p !in granted
    {
      hide AddressSpace.Valid, NoLargePage, AllBacked;
    }

    /** The fault at this address can be handled: if it is in a lazy region, no large page is on its path. */
    ghost predicate Ready(faultAddr: uint64)
      reads this, space, space.frames, space.frames.bitmap, space.mem
    {
      && space.Valid() && |lazyRegions| == MAX_LAZY_REGIONS
      && (IsLazy(lazyRegions, PageOf(faultAddr)) ==> NoLargePage(space.words, space.root, 4, PageOf(faultAddr)))
    }

    lemma ReadyWhenValid(faultAddr: uint64)
      requires Valid()
      ensures Ready(faultAddr)
    {
      hide AddressSpace.Valid, NoLargePage, AllBacked;
    }

    /** ALIGN_DOWN of the faulting address. */
    method PageStart(addr: uint64) returns (page: uint64)
      requires Canonical(addr)
      ensures page == AddressOf(PageOf(addr)) && PageOf(page) == PageOf(addr) < PAGES
    {
      ghost var _, _, _, k, _, _, _, _, _, _ := Exponents();
      AlignDownRounds(addr, k, PAGE_SIZE);
      page := AlignDown(addr, PAGE_SIZE);
      PageOfAddress(addr);
      AddressOfPage(PageOf(addr));
    }

    /** vmm_handle_page_fault.  A not-present fault in a lazy region is resolved exactly when there
        are frames for the page and its missing tables: the page then maps to a cleared frame of
        its own, with the flags of the first region that covers it.  Otherwise no translation
        changes; but if any frame was free it is taken all the same, and leaked.  All that holds
        whatever ranges have been registered. */
    method HandlePageFault(faultAddr: uint64, errorCode: uint64) returns (ok: bool, ghost frame: nat, ghost slot: nat)
      requires Canonical(faultAddr) && Ready(faultAddr)
      modifies space`words, space`tree, space`pages, space`owner, space`tlb
      modifies space.frames`free, space.frames`freeFrames, space.frames`nextSearchIndex, space.frames.bitmap, space.mem
      ensures space.Valid()
      ensures ok <==>
                && errorCode % 2 == 0 && IsLazy(lazyRegions, PageOf(faultAddr))
                && old(Missing(space.words, space.root, 4, PageOf(faultAddr))) < old(space.frames.freeFrames)
      ensures frame != 0 <==>
                errorCode % 2 == 0 && IsLazy(lazyRegions, PageOf(faultAddr)) && old(space.frames.free) != {}
      ensures !ok ==> space.pages == old(space.pages)
      ensures frame != 0 ==>
                && frame / PAGE_SIZE in old(space.frames.free) && frame / PAGE_SIZE in space.owner
                && space.owner[frame / PAGE_SIZE] == if ok then Lazy(PageOf(faultAddr)) else Leaked
      ensures ok ==>
                && IsSlot(lazyRegions, slot, PageOf(faultAddr)) && ZeroFrame(space.words, frame / PAGE_SIZE)
                && space.pages == old(space.pages)[PageOf(faultAddr) :=
                     AskedMapping(frame, lazyRegions[slot].flags)
                     .Restrict(old(PathRights(space.words, space.root, 4, PageOf(faultAddr))))]
      ensures old(Valid()) ==>
                && Valid() && Step(old(State()), Fault(faultAddr, errorCode), if ok then Some(0) else None, State())
                && LeakedFrames(space.owner) == old(LeakedFrames(space.owner)) +
                   (if errorCode % 2 == 0 && IsLazy(lazyRegions, PageOf(faultAddr))
                    then old(LostFrames(PageOf(faultAddr), frame)) else {})
                && (LeakedFrames(space.owner) != old(LeakedFrames(space.owner)) <==>
                      errorCode % 2 == 0 && IsLazy(lazyRegions, PageOf(faultAddr)) && old(Leaks(PageOf(faultAddr))))
    {
      hide Valid, AddressSpace.Valid, NoLargePage, Undisturbed, SamePaths, LeakedFrames, LostFrames, Sound,
        ZeroFrame, Leaks, Missing, PathRights, Step, IsLazy, IsDynamic, Covers, AskedMapping;
      ok, frame, slot := false, 0, 0;
      ghost var s, valid := State(), Valid();
      if valid {
        SoundState();
        NotGranted(PageOf(faultAddr));
        if !(errorCode % 2 == 0 && IsLazy(lazyRegions, PageOf(faultAddr))) {
          FaultIgnored(s, faultAddr, errorCode);
        }
      }
      var present := IsPresent(errorCode);
      if !present {
        var page := PageStart(faultAddr);
        var i := FindRegion(page, PageOf(faultAddr));
        slot := i;
        if i < MAX_LAZY_REGIONS {
          space.FreeFrames();
          var f;
          f, ok := ProvideLazily(page, lazyRegions[i].flags);
          frame := f;
          if valid {
            SoundState();
            FaultSteps(s, faultAddr, errorCode, ok, slot, frame, State());
          }
        }
      }
    }

    /** A range that reaches the guarded window takes a guard page away: after it is registered, a fault
        maps the page. */
    method MapGuardPage(g: nat) returns (registered: bool, resolved: bool)
      requires Valid() && g in guards && exists i :: 0 <= i < MAX_LAZY_REGIONS && !lazyRegions[i].used
      requires Missing(space.words, space.root, 4, g) < space.frames.freeFrames
      modifies `lazyRegions, space`words, space`tree, space`pages, space`owner, space`tlb
      modifies space.frames`free, space.frames`freeFrames, space.frames`nextSearchIndex, space.frames.bitmap, space.mem
      ensures registered && resolved && g in guards && g in space.pages && !Valid()
    {
      hide AddressSpace.Valid, NoLargePage, AllBacked, Missing, IsLazy, Step, AddressOf, PageOf, IsSlot;
      GuardAddress(g);
      registered := RegisterLazyRegion(AddressOf(g), AddressOf(g) + PAGE_SIZE, 0);
      ghost var frame, slot;
      resolved, frame, slot := HandlePageFault(AddressOf(g), 0);
    }

    lemma GuardAddress(g: nat)
      requires Valid() && g in guards
      ensures IsDynamic(g) && AddressOf(g) + PAGE_SIZE < TWO_64 && PageOf(AddressOf(g)) == g
      ensures NoLargePage(space.words, space.root, 4, g)
    {
      hide AddressSpace.Valid, NoLargePage, AllBacked;
      AddressOfPage(g);
    }

    /** pmm_free_frame for a frame that never came into use. */
    method ReturnFrame(frame: nat)
      requires Valid() && frame / PAGE_SIZE in space.owner && space.owner[frame / PAGE_SIZE].Held?
      modifies space`owner, space.frames`free, space.frames`freeFrames, space.frames.bitmap
      ensures Valid() && space.owner == old(space.owner) - {frame / PAGE_SIZE}
      ensures space.frames.free == old(space.frames.free) + {frame / PAGE_SIZE}
      ensures space.frames.freeFrames == old(space.frames.freeFrames) + 1
    {
      ghost var owner0 := space.owner;
      space.FreeHeld(frame);
      OwnersKeepBacked(space.pages, owner0, space.owner, lazyRegions);
    }

    /** One round of the loop in vmm_alloc_guarded. */
    method ProvideGuarded(virt: uint64, flags: uint32) returns (ok: bool)
      requires Valid() && IsDynamic(PageOf(virt)) && AddressOf(PageOf(virt)) < dynamicNext
      requires PageOf(virt) !in guards && PageOf(virt) !in space.pages
      modifies space`words, space`tree, space`pages, space`owner, space`tlb
      modifies space.frames`free, space.frames`freeFrames, space.frames`nextSearchIndex, space.frames.bitmap, space.mem
      ensures Valid()
      ensures ok <==> old(Missing(space.words, space.root, 4, PageOf(virt))) < old(space.frames.freeFrames)
      ensures ok ==>
                && GuardedPage(space.pages, space.owner, old(space.frames.free), PageOf(virt), flags,
                               old(PathRights(space.words, space.root, 4, PageOf(virt))))
                && space.pages == old(space.pages)[PageOf(virt) := space.pages[PageOf(virt)]]
                && space.frames.freeFrames
                   == old(space.frames.freeFrames) - old(Missing(space.words, space.root, 4, PageOf(virt))) - 1
                && TableAt(space.words, space.root, PageOf(virt), 1).Some?
      ensures !ok ==> space.pages == old(space.pages) && space.frames.freeFrames <= 1
      ensures space.frames.free <= old(space.frames.free)
      ensures OthersKept(old(space.owner), space.owner, PageOf(virt), false)
      ensures Undisturbed(old(space.words), old(space.owner), space.words, space.owner, {})
      ensures SamePaths(old(space.words), space.words, space.root)
      ensures OpensOnly(old(space.words), space.words, space.root, PageOf(virt))
    {
      hide AddressSpace.Valid, AllBacked, NoLargePage, Undisturbed, SamePaths, OnlyTables, OpensOnly, TableAt,
        ZeroFrame, Missing, PathRights;
      NobodyBacksNow(PageOf(virt));
      ghost var words0, owner0 := space.words, space.owner;
      var frame;
      frame, ok := Provide(virt, flags, Guarded(PageOf(virt)));
      AskedFrame(frame, flags);
      if !ok && frame != 0 {
        ghost var owner1 := space.owner;
        ReturnFrame(frame);
        ReleaseDisturbs(space.words, owner1, space.owner, frame / PAGE_SIZE);
        UndisturbedChain(words0, owner0, space.words, owner1, space.words, space.owner, {frame / PAGE_SIZE});
      }
    }

    lemma NobodyBacksNow(p: nat)
      requires Valid() && p !in space.pages
      ensures forall g: nat :: g in space.owner ==> !Backs(space.owner[g], p)
      ensures forall g: nat :: g in space.frames.free ==> g < FRAMES
    {
      NobodyBacks(space.owner, space.pages, p);
    }

    /** What vmm_alloc_guarded has achieved since s, with done pages provided. */
    ghost predicate Progress(s: Snapshot, first: nat, done: nat, flags: nat)
      reads this, space, space.frames
    {
      && s.root == space.root && space.frames.free <= s.free
      && RangeProvided(s.pages, s.words, space.root, space.pages, space.owner, s.free, first, first + done, flags)
      && SamePaths(s.words, space.words, space.root)
      && Undisturbed(s.words, s.owner, space.words, space.owner, {})
    }

    /** The free frames and the missing tables have gone down together, but for one frame a page. */
    ghost predicate Spent(s: Snapshot, first: nat, done: nat, pageCount: nat)
      requires done <= pageCount
      reads space, space.frames
    {
      space.frames.freeFrames + done + |MissingTables(s.words, space.root, first, pageCount)|
      == |s.free| + |MissingTables(space.words, space.root, first + done, pageCount - done)|
    }

    ghost predicate AllSpent(s: Snapshot, first: nat, done: nat, pageCount: nat)
      reads space, space.frames
    {
      forall n: nat :: done <= n <= pageCount ==> Spent(s, first, done, n)
    }

    /** The loop of vmm_alloc_guarded; done counts the pages provided. */
    method ProvideRange(start: uint64, pageCount: nat, flags: uint32, ghost first: nat)
      returns (ok: bool, ghost done: nat)
      requires Valid() && first == PageOf(start) && DYNAMIC_BASE <= start && start % PAGE_SIZE == 0
      requires start + pageCount * PAGE_SIZE <= dynamicNext
      requires forall p :: first <= p < first + pageCount ==> p !in guards && p !in space.pages
      modifies space`words, space`tree, space`pages, space`owner, space`tlb
      modifies space.frames`free, space.frames`freeFrames, space.frames`nextSearchIndex, space.frames.bitmap, space.mem
      ensures Valid() && Progress(old(State()), first, done, flags)
      ensures done <= pageCount && (ok <==> done == pageCount)
      ensures forall n: nat :: n <= pageCount ==> (n <= done <==> Enough(old(State()), first, n))
      ensures ok ==>
                space.frames.freeFrames + pageCount + |MissingTables(old(space.words), space.root, first, pageCount)|
                == old(space.frames.freeFrames)
      ensures !ok ==> space.frames.freeFrames <= 1
    {
      hide AddressSpace.Valid, AllBacked, NoLargePage, Undisturbed, SamePaths, Windows, Progress, Spent, Enough,
        MissingTables;
      ghost var s := State();
      StartRange(first, pageCount, flags);
      EndRange(s, first, 0);
      for i := 0 to pageCount
        invariant Valid() && Progress(s, first, i, flags)
        invariant AllSpent(s, first, i, pageCount)
        invariant forall n: nat :: n <= i ==> Enough(s, first, n)
      {
        done := i;
        ok := ProvideNext(start, i, pageCount, flags, s, first);
        if !ok {
          return;
        }
        EndRange(s, first, i + 1);
      }
      ok, done := true, pageCount;
      EndRange(s, first, pageCount);
    }

    lemma StartRange(first: nat, pageCount: nat, flags: nat)
      requires Valid()
      ensures Progress(State(), first, 0, flags) && State().root == space.root
      ensures AllSpent(State(), first, 0, pageCount)
      ensures |State().free| == space.frames.freeFrames
    {
      hide AllBacked, NoLargePage;
      NothingDisturbed(space.words, space.owner);
    }

    lemma EndRange(s: Snapshot, first: nat, done: nat)
      requires s.root == space.root && Spent(s, first, done, done)
      ensures Enough(s, first, done)
      ensures space.frames.freeFrames + done + |MissingTables(s.words, space.root, first, done)| == |s.free|
    {
      assert MissingTables(space.words, space.root, first + done, 0) == {};
    }

    method ProvideNext(start: uint64, i: nat, pageCount: nat, flags: uint32, ghost s: Snapshot, ghost first: nat)
      returns (ok: bool)
      requires Valid() && first == PageOf(start) && DYNAMIC_BASE <= start && start % PAGE_SIZE == 0
      requires i < pageCount && start + pageCount * PAGE_SIZE <= dynamicNext
      requires first + i !in guards && first + i !in s.pages
      requires Progress(s, first, i, flags) && AllSpent(s, first, i, pageCount)
      modifies space`words, space`tree, space`pages, space`owner, space`tlb
      modifies space.frames`free, space.frames`freeFrames, space.frames`nextSearchIndex, space.frames.bitmap, space.mem
      ensures Valid()
      ensures Progress(s, first, if ok then i + 1 else i, flags)
      ensures ok ==> AllSpent(s, first, i + 1, pageCount)
      ensures !ok ==> space.frames.freeFrames <= 1 && forall n: nat :: i < n <= pageCount ==> !Enough(s, first, n)
    {
      hide AddressSpace.Valid, AllBacked, NoLargePage, Undisturbed, SamePaths, OpensOnly, TableAt, Missing,
        PathRights, GuardedPage, OthersKept, MissingTables, Spent, SpentBefore, Enough;
      ghost var pages1, owner1, words1, free1 := space.pages, space.owner, space.words, space.frames.free;
      ghost var p, n1 := first + i, space.frames.freeFrames;
      WindowPages(start, i);
      WindowPages(start, pageCount);
      assert Lookup(space.pages, p) == Lookup(s.pages, p);
      forall n: nat | i < n <= pageCount ensures SpentBefore(s, first, i, n, words1, n1) {
        BeforeRound(s, first, i, n);
      }
      ok := ProvideGuarded(start + i * PAGE_SIZE, flags);
      SamePathsChain(s.words, words1, space.words, space.root);
      UndisturbedChain(s.words, s.owner, words1, owner1, space.words, space.owner, {});
      if ok {
        ghost var next := i + 1;
        forall n: nat | next <= n <= pageCount ensures Spent(s, first, next, n) {
          OneMoreSpent(s, first, i, n, words1, n1);
        }
        RangeGrows(s.pages, s.words, space.root, s.free, first, p, flags, pages1, owner1, words1, free1,
                   space.pages, space.owner);
      } else {
        forall n: nat | i < n <= pageCount ensures !Enough(s, first, n) {
          TooFew(s, first, i, n, words1, n1);
        }
        RangeKeeps(s.pages, s.words, space.root, s.free, first, p, flags, pages1, owner1, space.owner);
      }
    }

    /** Spent, in the state before a round, with the tables that the next page lacks. */
    ghost predicate SpentBefore(s: Snapshot, first: nat, done: nat, n: nat, words: seq<uint64>, freeFrames: nat)
      requires done < n
    {
      var rest := |MissingTables(words, space.root, first + done, n - done)|;
      && freeFrames + done + |MissingTables(s.words, space.root, first, n)| == |s.free| + rest
      && |MissingTables(words, space.root, first + done, 1)| == Missing(words, space.root, 4, first + done) <= rest
    }

    lemma OneMoreSpent(s: Snapshot, first: nat, i: nat, n: nat, words1: seq<uint64>, n1: nat)
      requires i < n && first + n <= PAGES && SpentBefore(s, first, i, n, words1, n1)
      requires space.frames.freeFrames == n1 - Missing(words1, space.root, 4, first + i) - 1
      requires OpensOnly(words1, space.words, space.root, first + i)
      requires TableAt(space.words, space.root, first + i, 1).Some?
      ensures Spent(s, first, i + 1, n)
    {
      hide OpensOnly, TableAt, Missing, MissingTables;
      TablesAbove(space.words, space.root, first + i);
      MissingShrinks(words1, space.words, space.root, first + i, n - i);
    }

    lemma TooFew(s: Snapshot, first: nat, i: nat, n: nat, words1: seq<uint64>, n1: nat)
      requires i < n && s.root == space.root && SpentBefore(s, first, i, n, words1, n1)
      requires n1 <= Missing(words1, space.root, 4, first + i)
      ensures !Enough(s, first, n)
    {
      hide Missing, MissingTables;
    }

    lemma BeforeRound(s: Snapshot, first: nat, i: nat, n: nat)
      requires Valid() && i < n && Spent(s, first, i, n)
      ensures SpentBefore(s, first, i, n, space.words, space.frames.freeFrames)
    {
      hide NoLargePage, Missing, MissingTables, AllBacked;
      MissingForOne(space.words, space.tree, first + i);
      MissingGrows(space.words, space.root, first + i, 1, n - i);
    }

    /** vmm_alloc_guarded.  The range lies between two fresh guard pages, which stay unmapped for
        as long as the manager is valid: every method keeps them in guards.  Exactly so many pages
        are provided as there are frames for, with the tables they lack.  If those are not all, NULL:
        the pages provided then stay mapped but are granted to nobody. */
    method AllocGuarded(pageCount: nat, flags: uint32) returns (base: Option<nat>, ghost done: nat)
      requires Valid() && dynamicNext + (pageCount + 2) * PAGE_SIZE <= MMIO_BASE
      modifies `dynamicNext, `guards, `granted
      modifies space`words, space`tree, space`pages, space`owner, space`tlb
      modifies space.frames`free, space.frames`freeFrames, space.frames`nextSearchIndex, space.frames.bitmap, space.mem
      ensures Valid() && Step(old(State()), GuardedRange(pageCount, flags), base, State())
      ensures dynamicNext == old(dynamicNext) + (pageCount + 2) * PAGE_SIZE
      ensures guards == old(guards) + {PageOf(old(dynamicNext)), PageOf(old(dynamicNext)) + pageCount + 1}
      ensures var first := PageOf(old(dynamicNext)) + 1;
              && done <= pageCount && (base.Some? <==> done == pageCount)
              && (forall n: nat :: n <= pageCount ==> (n <= done <==> Enough(old(State()), first, n)))
              && RangeProvided(old(space.pages), old(space.words), space.root, space.pages, space.owner,
                               old(space.frames.free), first, first + done, flags)
              && (base.Some? ==> forall p :: p in granted <==> p in old(granted) || first <= p < first + pageCount)
      ensures base.Some? ==> base.value == old(dynamicNext) + PAGE_SIZE
      ensures base.None? ==> space.frames.freeFrames <= 1 && granted == old(granted)
    {
      hide Valid, Sound, SamePaths, Undisturbed, RangeProvided, IsDynamic, Evolves, MissingTables, RangeAdded, Enough;
      ghost var s := State();
      SoundState();
      ghost var first := PageOf(dynamicNext) + 1;
      var regionStart := ReserveWindow(pageCount);
      SameEnough(s, State(), first);
      var ok;
      ok, done := ProvideRange(regionStart, pageCount, flags, first);
      if ok {
        GrantRange(first, first + pageCount, flags, s.pages, s.words, s.free);
        base := Some(regionStart);
      } else {
        base := None;
      }
      SoundState();
      RangeEvolves(s, pageCount, flags, done, State());
      RangeIsAdded(s, first, pageCount, flags, done, State());
    }

    /** Advances the bump pointer over the range and its two guard pages. */
    method ReserveWindow(pageCount: nat) returns (regionStart: nat)
      requires Valid() && dynamicNext + (pageCount + 2) * PAGE_SIZE <= MMIO_BASE
      modifies `dynamicNext, `guards
      ensures Valid() && regionStart == old(dynamicNext) + PAGE_SIZE
      ensures PageOf(regionStart) == PageOf(old(dynamicNext)) + 1
      ensures dynamicNext == old(dynamicNext) + (pageCount + 2) * PAGE_SIZE
      ensures guards == old(guards) + {PageOf(old(dynamicNext)), PageOf(old(dynamicNext)) + pageCount + 1}
      ensures regionStart % PAGE_SIZE == 0 && DYNAMIC_BASE <= regionStart < TWO_64
      ensures forall p :: PageOf(regionStart) <= p < PageOf(regionStart) + pageCount ==>
                IsDynamic(p) && p !in guards && p !in space.pages && p !in granted
    {
      hide AddressSpace.Valid, AllBacked, NoLargePage, PageOf, AddressOf, IsDynamic, IsLazy;
      ghost var before := PageOf(dynamicNext);
      WindowRange(dynamicNext, pageCount + 2);
      regionStart := dynamicNext + PAGE_SIZE;
      var regionEnd := regionStart + pageCount * PAGE_SIZE;
      assert regionEnd + PAGE_SIZE == dynamicNext + (pageCount + 2) * PAGE_SIZE;
      dynamicNext := regionEnd + PAGE_SIZE;
      guards := guards + {before, before + pageCount + 1};
    }

    ghost method GrantRange(first: nat, end: nat, flags: nat, pages0: map<nat, Mapping>, words0: seq<uint64>,
                            free0: set<nat>)
      requires Valid() && RangeProvided(pages0, words0, space.root, space.pages, space.owner, free0, first, end, flags)
      requires forall p :: first <= p < end ==> IsDynamic(p)
      modifies `granted
      ensures Valid() && forall p :: p in granted <==> p in old(granted) || first <= p < end
    {
      hide AddressSpace.Valid, AllBacked, NoLargePage;
      forall p | first <= p < end ensures p in space.pages {
        assert GuardedPage(space.pages, space.owner, free0, p, flags, PathRights(words0, space.root, 4, p));
      }
      granted := granted + set p | p in space.pages && first <= p < end;
    }

    /** vmm_map of a page outside the lazy and guarded windows. */
    method MapUnmanaged(virt: uint64, phys: uint64, flags: uint32) returns (ok: bool)
      requires Valid() && !Managed(PageOf(virt)) && NoLargePage(space.words, space.root, 4, PageOf(virt))
      modifies space`words, space`tree, space`pages, space`owner, space`tlb
      modifies space.frames`free, space.frames`freeFrames, space.frames`nextSearchIndex, space.frames.bitmap, space.mem
      ensures Valid() && Sound(State())
      ensures ok <==> old(Missing(space.words, space.root, 4, PageOf(virt))) <= old(space.frames.freeFrames)
      ensures |space.frames.free| ==
              if ok then old(space.frames.freeFrames) - old(Missing(space.words, space.root, 4, PageOf(virt))) else 0
      ensures space.pages ==
              if ok then old(space.pages)[PageOf(virt) :=
                AskedMapping(phys, flags).Restrict(old(PathRights(space.words, space.root, 4, PageOf(virt))))]
              else old(space.pages)
      ensures Undisturbed(old(space.words), old(space.owner), space.words, space.owner, {})
      ensures SamePaths(old(space.words), space.words, space.root)
    {
      hide AddressSpace.Valid, AllBacked, NoLargePage, Undisturbed, Partition, OwnsTables, Untouched, Sound, Missing,
        PathRights, OpensOnly, TableAt;
      space.FreeFrames();
      ghost var s, t0 := State(), space.tree;
      ok := space.Map(virt, phys, flags);
      if ok {
        UpdateKeepsBacked(s.pages, s.owner, PageOf(virt), Some(space.pages[PageOf(virt)]), space.owner,
                          s.free - space.frames.free, lazyRegions);
      } else {
        OwnersKeepBacked(s.pages, s.owner, space.owner, lazyRegions);
      }
      MappingDisturbsNobody(s.words, t0, s.free, s.owner, space.words, space.owner, PageOf(virt), ok);
      SoundState();
    }

    /** vmm_map by some other part of the kernel. */
    method MapElsewhere(virt: uint64, phys: uint64, flags: uint32) returns (ok: bool)
      requires Valid() && !Managed(PageOf(virt)) && NoLargePage(space.words, space.root, 4, PageOf(virt))
      modifies space`words, space`tree, space`pages, space`owner, space`tlb
      modifies space.frames`free, space.frames`freeFrames, space.frames`nextSearchIndex, space.frames.bitmap, space.mem
      ensures Valid() && Step(old(State()), MapPage(virt, phys, flags), if ok then Some(0) else None, State())
      ensures space.pages ==
              if ok then old(space.pages)[PageOf(virt) :=
                AskedMapping(phys, flags).Restrict(old(PathRights(space.words, space.root, 4, PageOf(virt))))]
              else old(space.pages)
    {
      hide AddressSpace.Valid, AllBacked, Undisturbed, SamePaths, Sound, Missing, PathRights, NoLargePage, Evolves,
        IsLazy;
      SoundState();
      NotGranted(PageOf(virt));
      ghost var s := State();
      ok := MapUnmanaged(virt, phys, flags);
      OnePageEvolves(s, MapPage(virt, phys, flags), PageOf(virt), ok,
                     AskedMapping(phys, flags).Restrict(PathRights(s.words, s.root, 4, PageOf(virt))), State());
    }

    lemma MmioPage()
      requires Valid() && mmioNext + PAGE_SIZE <= TWO_64
      ensures var p := PageOf(mmioNext);
              !Managed(p) && IsMmio(p) && p !in granted && NoLargePage(space.words, space.root, 4, p)
    {
      hide AddressSpace.Valid, AllBacked, NoLargePage;
      WindowPages(mmioNext, 0);
    }

    /** vmm_map_mmio; false stands for the panic. */
    method MapMmio(phys: uint64) returns (ok: bool, virt: nat)
      requires Valid() && mmioNext + PAGE_SIZE <= TWO_64
      modifies `mmioNext
      modifies space`words, space`tree, space`pages, space`owner, space`tlb
      modifies space.frames`free, space.frames`freeFrames, space.frames`nextSearchIndex, space.frames.bitmap, space.mem
      ensures Valid() && Step(old(State()), Device(phys), if ok then Some(virt) else None, State())
      ensures virt == old(mmioNext) && mmioNext == virt + PAGE_SIZE
      ensures space.pages ==
              if ok then old(space.pages)[PageOf(virt) :=
                Mapping(1, phys / PAGE_SIZE % FRAMES, true,
                        old(PathRights(space.words, space.root, 4, PageOf(virt))).Meet(Rights(true, false, true)))]
              else old(space.pages)
    {
      hide AddressSpace.Valid, AllBacked, Undisturbed, SamePaths, Sound, Missing, PathRights, NoLargePage, Evolves,
        IsLazy, AddressOf, PageOf;
      SoundState();
      ghost var s := State();
      virt := mmioNext;
      MmioPage();
      mmioNext := mmioNext + PAGE_SIZE;
      MmioFlags();
      ghost var p := PageOf(virt);
      ok := MapUnmanaged(virt, phys, Or(VMM_WRITABLE, Or(VMM_NO_CACHE, VMM_NO_EXECUTE)));
      OnePageEvolves(s, Device(phys), p, ok, AskedMapping(phys, 13).Restrict(PathRights(s.words, s.root, 4, p)),
                     State());
    }

    /** vmm_unmap of any page; one that was handed out is from then on no longer. */
    method UnmapPage(virt: uint64)
      requires Valid() && NoLargePage(space.words, space.root, 4, PageOf(virt))
      modifies `granted, space`words, space`pages, space`owner, space`tlb, space.mem
      ensures Valid() && Step(old(State()), Unmap(virt), Some(0), State())
      ensures space.pages == old(space.pages) - {PageOf(virt)} && granted == old(granted) - {PageOf(virt)}
      ensures LeakedFrames(space.owner) == old(LeakedFrames(space.owner)) + BackingOf(old(space.owner), PageOf(virt))
    {
      hide AddressSpace.Valid, AllBacked, NoLargePage, Undisturbed, OwnsTables, Untouched, Sound, PathRights,
        LeakedFrames, BackingOf, Disown, GainedTables, OthersKept;
      space.FreeFrames();
      SoundState();
      ghost var s, t0 := State(), space.tree;
      space.Unmap(virt);
      Disowned(s.owner, PageOf(virt));
      granted := granted - {PageOf(virt)};
      UpdateKeepsBacked(s.pages, s.owner, PageOf(virt), None, space.owner, {}, lazyRegions);
      MappingDisturbsNobody(s.words, t0, {}, s.owner, space.words, space.owner, PageOf(virt), true);
      SoundState();
    }

    /** pmm_alloc_frame by some other part of the kernel. */
    method HoldFrame() returns (phys: nat)
      requires Valid()
      modifies space`words, space`owner
      modifies space.frames`free, space.frames`freeFrames, space.frames`nextSearchIndex, space.frames.bitmap, space.mem
      ensures Valid() && Step(old(State()), TakeFrame, if phys != 0 then Some(phys / PAGE_SIZE) else None, State())
      ensures space.pages == old(space.pages)
      ensures phys == 0 <==> old(space.frames.free) == {}
      ensures phys != 0 ==>
                var f := phys / PAGE_SIZE;
                && f in old(space.frames.free) && space.owner == old(space.owner)[f := Held]
                && ZeroFrame(space.words, f)
    {
      hide AddressSpace.Valid, AllBacked, NoLargePage, Sound, PathRights, SameTables, Missing, ZeroFrame;
      space.FreeFrames();
      SoundState();
      ghost var s := State();
      phys := space.AllocHeld();
      OwnersKeepBacked(s.pages, s.owner, space.owner, lazyRegions);
      SoundState();
    }

    /** pmm_free_frame by whoever holds the frame. */
    method GiveFrameBack(frame: nat)
      requires Valid() && frame in space.owner && space.owner[frame].Held?
      modifies space`owner, space.frames`free, space.frames`freeFrames, space.frames.bitmap
      ensures Valid() && Step(old(State()), GiveBack(frame), Some(0), State())
      ensures space.owner == old(space.owner) - {frame} && space.frames.free == old(space.frames.free) + {frame}
    {
      hide AddressSpace.Valid, AllBacked, NoLargePage, Sound, PathRights, Undisturbed;
      SoundState();
      ghost var owner0 := space.owner;
      DivModUnique(frame * PAGE_SIZE, PAGE_SIZE, frame, 0);
      ReturnFrame(frame * PAGE_SIZE);
      ReleaseDisturbs(space.words, owner0, space.owner, frame);
      SoundState();
    }

    /** A load by a thread; None is a page fault. */
    method LoadWord(virt: uint64, access: Access) returns (value: Option<nat>)
      requires Valid() && Managed(PageOf(virt)) && Canonical(virt) && virt % 8 == 0
      modifies space`tlb, space`psc
      ensures Valid() && Step(old(State()), Load(virt, access), value, State())
      ensures value == if PageOf(virt) in space.pages then Some(ValueAt(State(), virt)) else None
    {
      hide AllBacked, NoLargePage, Sound, PathRights, Evolves;
      ghost var s := State();
      SoundState();
      BackedNow(PageOf(virt));
      SameButRegions(s, Load(virt, access), s);
      var m := space.Translate(PageOf(virt), access.useTlb, access.start, access.fill);
      if m.None? {
        return None;
      }
      BackedInUse(PageOf(virt));
      value := Some(space.mem[WORDS_PER_FRAME * m.value.frame + virt / 8 % WORDS_PER_FRAME]);
    }

    /** A store by a thread; false is a page fault, which is taken if the page is not mapped, or not writable. */
    method StoreTo(virt: uint64, value: uint64, access: Access) returns (ok: bool)
      requires Valid() && Managed(PageOf(virt)) && Canonical(virt) && virt % 8 == 0
      modifies space`tlb, space`psc, space`words, space.mem
      ensures Valid() && Step(old(State()), Store(virt, value, access), if ok then Some(0) else None, State())
      ensures space.pages == old(space.pages)
      ensures ok <==> Storable(old(State()), virt)
      ensures if ok then ValueAt(State(), virt) == value else State() == old(State())
    {
      hide AddressSpace.Valid, AllBacked, NoLargePage, Sound;
      ghost var s := State();
      SoundState();
      BackedNow(PageOf(virt));
      var m := space.Translate(PageOf(virt), access.useTlb, access.start, access.fill);
      ok := m.Some? && m.value.rights.writable;
      if ok {
        BackedInUse(PageOf(virt));
        space.StoreInto(m.value.frame, virt / 8 % WORDS_PER_FRAME, value);
        SoundState();
      } else {
        SameButRegions(s, Store(virt, value, access), s);
      }
    }

    /** A store by whoever holds the frame, through the direct map. */
    method StoreToHeld(frame: nat, index: nat, value: uint64)
      requires Valid() && frame in space.owner && space.owner[frame].Held? && index < WORDS_PER_FRAME
      modifies space`words, space.mem
      ensures Valid() && Step(old(State()), StoreHeld(frame, index, value), Some(0), State())
      ensures space.owner == old(space.owner) && Word(space.words, frame, index) == value
    {
      hide AddressSpace.Valid, AllBacked, NoLargePage, Sound;
      SoundState();
      space.StoreInto(frame, index, value);
      SoundState();
    }

    lemma BackedNow(p: nat)
      requires Valid() && Managed(p)
      ensures Backed(space.pages, space.owner, p)
    {
      hide NoLargePage;
    }

    /** The frame of a mapped page of the lazy and guarded windows is in use and not a table. */
    lemma BackedInUse(p: nat)
      requires Valid() && Managed(p) && p in space.pages
      ensures var f := space.pages[p].frame;
              && f in space.owner && Backs(space.owner[f], p) && !space.owner[f].Table?
              && WORDS_PER_FRAME * f + WORDS_PER_FRAME <= space.mem.Length
    {
      hide NoLargePage;
      assert Backed(space.pages, space.owner, p);
    }

    /** Two bytes of the lazy and guarded windows never share a byte of memory. */
    lemma ManagedBytesAreApart(a: nat, b: nat)
      requires Valid() && Canonical(a) && Canonical(b) && a != b && Managed(PageOf(a)) && Managed(PageOf(b))
      requires PageOf(a) in space.pages && PageOf(b) in space.pages
      ensures PhysicalAddress(space.pages, a) != PhysicalAddress(space.pages, b)
      ensures var f := PhysicalAddress(space.pages, a) / PAGE_SIZE;
              && f < space.frames.frameCount && f !in space.frames.free && f !in space.tree.level && f != 0
              && !(space.frames.homeFirst <= f < space.frames.homeEnd)
    {
      hide NoLargePage, WellFormed, Describes, CachesPaths, BacksPages, PhysicalAddress, Canonical;
      BackedNow(PageOf(a));
      BackedNow(PageOf(b));
      DistinctBytes(space.pages, space.owner, space.frames.free, space.frames.frameCount, space.tree,
                    space.frames.homeFirst, space.frames.homeEnd, a, b);
    }

    /** In every valid state every tracked frame is accounted for once: free, or in exactly one class of owners. */
    lemma FramesAreAccountedFor()
      requires Valid()
      ensures space.frames.frameCount == space.frames.freeFrames
                + |OwnedBy(space.owner, (o: Owner) => o.Firmware?)| + |OwnedBy(space.owner, (o: Owner) => o.Table?)|
                + |OwnedBy(space.owner, (o: Owner) => o.Lazy?)| + |OwnedBy(space.owner, (o: Owner) => o.Guarded?)|
                + |OwnedBy(space.owner, (o: Owner) => o.Held?)| + |OwnedBy(space.owner, (o: Owner) => o.Leaked?)|
    {
      hide NoLargePage, AllBacked, WellFormed, Describes, CachesPaths, OwnedBy;
      FramesAddUp(space.owner, space.frames.free, space.frames.frameCount);
    }
  }
}
