/** kernel/arch/x86_64/mm/vmm.c: extending the boot loader's page tables in place, with frames
    from the physical allocator, next to a TLB that caches finished walks. */
module Vmm {
  import opened Words
  import opened Bitmap
  import opened PhysicalMemory
  import opened Pmm
  import opened PageTables
  import opened Entries

  /** Who is using a frame that is not free.  Lazy and Guarded name the page it backs. */
  datatype Owner = Firmware | Table | Lazy(page: nat) | Guarded(page: nat) | Held | Leaked

  predicate Backs(o: Owner, p: nat) { o == Lazy(p) || o == Guarded(p) }

  /** Frames that backed page p no longer do: p has been remapped or unmapped. */
  function Disown(owner: map<nat, Owner>, p: nat): map<nat, Owner> {
    map f | f in owner :: if Backs(owner[f], p) then Leaked else owner[f]
  }

  /** Only tables and free frames were written. */
  ghost predicate Untouched(before: seq<uint64>, after: seq<uint64>, t: Tree, free: set<nat>) {
    forall f: nat :: f !in t.level && f !in free ==> SameFrame(before, after, f)
  }

  lemma NothingTouched(m: seq<uint64>, t: Tree, free: set<nat>)
    ensures Untouched(m, m, t, free)
  {
  }

  lemma ClearedThenUntouched(m0: seq<uint64>, m1: seq<uint64>, m2: seq<uint64>, t: Tree, free: set<nat>, f: nat)
    requires ClearedOnly(m0, m1, f) && f in free && Untouched(m1, m2, t, free - {f})
    ensures Untouched(m0, m2, t, free)
    ensures f !in t.level ==> ZeroFrame(m2, f)
  {
    forall g: nat | g !in t.level && g !in free ensures SameFrame(m0, m2, g) {
      assert SameFrame(m0, m1, g) && SameFrame(m1, m2, g);
    }
    if f !in t.level {
      assert SameFrame(m1, m2, f);
    }
  }

  /** From (m0, t0) with free frames free0, tables were linked in and nothing else happened:
      no walk changed, no present entry changed, and only free frames turned into tables. */
  ghost predicate Grown(m0: seq<uint64>, t0: Tree, free0: set<nat>, m1: seq<uint64>, t1: Tree, free1: set<nat>) {
    && |m1| == |m0| && t1.root == t0.root && free1 <= free0
    && (forall f :: f in t1.level <==> f in t0.level || f in free0 - free1)
    && (forall f :: f in t0.level ==> f in t1.level && t1.level[f] == t0.level[f])
    && (forall f, i: nat :: f in t0.level && i < WORDS_PER_FRAME && Present(Word(m0, f, i)) ==>
          Word(m1, f, i) == Word(m0, f, i))
    && Untouched(m0, m1, t0, free0)
    && SameWalks(m0, m1, t0.root, 4) && SamePaths(m0, m1, t0.root)
  }

  lemma GrownChains(m0: seq<uint64>, t0: Tree, free0: set<nat>, m1: seq<uint64>, t1: Tree, free1: set<nat>,
                    m2: seq<uint64>, t2: Tree, free2: set<nat>)
    requires Grown(m0, t0, free0, m1, t1, free1) && Grown(m1, t1, free1, m2, t2, free2)
    ensures Grown(m0, t0, free0, m2, t2, free2)
  {
    forall f, i: nat | f in t0.level && i < WORDS_PER_FRAME && Present(Word(m0, f, i))
      ensures Word(m2, f, i) == Word(m0, f, i)
    {
      assert Word(m1, f, i) == Word(m0, f, i);
    }
    forall f: nat | f !in t0.level && f !in free0 ensures SameFrame(m0, m2, f) {
      assert SameFrame(m0, m1, f) && SameFrame(m1, m2, f);
    }
    forall p: nat
      ensures Walk(m2, t0.root, 4, p) == Walk(m0, t0.root, 4, p)
      ensures PathRights(m2, t0.root, 4, p) == PathRights(m0, t0.root, 4, p)
    {
      assert Walk(m1, t0.root, 4, p) == Walk(m0, t0.root, 4, p);
    }
  }

  lemma {:induction false} GrownKeepsPath(m0: seq<uint64>, t0: Tree, free0: set<nat>,
                                          m1: seq<uint64>, t1: Tree, free1: set<nat>, p: nat, L: nat)
    requires WellFormed(m0, t0) && Grown(m0, t0, free0, m1, t1, free1)
    requires 1 <= L <= 4 && TableAt(m0, t0.root, p, L).Some?
    ensures TableAt(m1, t0.root, p, L) == TableAt(m0, t0.root, p, L)
    ensures RightsAbove(m1, t0.root, p, L) == RightsAbove(m0, t0.root, p, L)
    decreases 4 - L
  {
    if L < 4 {
      GrownKeepsPath(m0, t0, free0, m1, t1, free1, p, L + 1);
      BelowTableAt(m0, t0, p, L + 1);
      var f := TableAt(m0, t0.root, p, L + 1).value;
      assert Word(m1, f, Index(p, L + 1)) == Word(m0, f, Index(p, L + 1));
    }
  }

  /** After ensure_next_level the path of p reaches one level further down, and it lacks one
      table less exactly when one was taken. */
  lemma StepDown(m0: seq<uint64>, t0: Tree, free0: set<nat>, m1: seq<uint64>, t1: Tree, free1: set<nat>,
                 p: nat, L: nat)
    requires WellFormed(m0, t0) && WellFormed(m1, t1) && Grown(m0, t0, free0, m1, t1, free1)
    requires 1 < L <= 4 && TableAt(m0, t0.root, p, L).Some? && NoLargePage(m0, t0.root, 4, p)
    requires var f, i := TableAt(m0, t0.root, p, L).value, Index(p, L);
             if Present(Word(m0, f, i)) then m1 == m0
             else LinksNew(m0, m1, t0, f, i, Target(Word(m1, f, i)))
    ensures var f, i := TableAt(m0, t0.root, p, L).value, Index(p, L);
            && TableAt(m1, t0.root, p, L - 1) == Some(Target(Word(m1, f, i)))
            && Missing(m1, t0.root, 4, p) + (if Present(Word(m0, f, i)) then 0 else 1)
               == Missing(m0, t0.root, 4, p)
  {
    BelowTableAt(m0, t0, p, L);
    GrownKeepsPath(m0, t0, free0, m1, t1, free1, p, L);
    var f, i := TableAt(m0, t0.root, p, L).value, Index(p, L);
    BelowTableAt(m1, t1, p, L);
    if !Present(Word(m0, f, i)) {
      EmptyTable(m1, Target(Word(m1, f, i)), L - 1, p);
    }
  }

  /** And it opens no other path than those that share the new table. */
  lemma StepOpens(m0: seq<uint64>, t0: Tree, m1: seq<uint64>, p: nat, L: nat)
    requires WellFormed(m0, t0) && p < PAGES && 1 < L <= 4 && TableAt(m0, t0.root, p, L).Some?
    requires var f, i := TableAt(m0, t0.root, p, L).value, Index(p, L);
             if Present(Word(m0, f, i)) then m1 == m0
             else LinksNew(m0, m1, t0, f, i, Target(Word(m1, f, i)))
    ensures OpensOnly(m0, m1, t0.root, p)
  {
    hide NoLargePage, Missing, LastTable, Walk, LinksNew;
    BelowTableAt(m0, t0, p, L);
    var f, i := TableAt(m0, t0.root, p, L).value, Index(p, L);
    if Present(Word(m0, f, i)) {
      SameTablesOpenNothing(m0, m1, t0.root, p);
    } else {
      LinkOpensPath(m0, m1, t0, f, i, Target(Word(m1, f, i)), p);
    }
  }

  lemma NothingGrown(m: seq<uint64>, t: Tree, free: set<nat>)
    ensures Grown(m, t, free, m, t, free)
  {
  }

  /** Storing e as word i of frame f. */
  lemma StoreWord(before: seq<uint64>, after: seq<uint64>, f: nat, i: nat, e: uint64)
    requires i < WORDS_PER_FRAME && WORDS_PER_FRAME * f + i < |before|
    requires after == before[WORDS_PER_FRAME * f + i := e]
    ensures Word(after, f, i) == e
    ensures forall g: nat, j: nat :: g != f || j != i ==> Word(after, g, j) == Word(before, g, j)
  {
  }

  /** Clearing the free frame g and linking it as entry i of table f. */
  lemma LinkGrows(m0: seq<uint64>, m1: seq<uint64>, m2: seq<uint64>, t: Tree, free: set<nat>,
                  f: nat, i: nat, g: nat, e: uint64)
    requires WellFormed(m0, t) && f in t.level && t.level[f] > 1 && i < WORDS_PER_FRAME
    requires g in free && g !in t.level && WORDS_PER_FRAME * g + WORDS_PER_FRAME <= |m0|
    requires !Present(Word(m0, f, i))
    requires ClearedOnly(m0, m1, g)
    requires m2 == m1[WORDS_PER_FRAME * f + i := e]
    requires Present(e) && !Large(e) && Target(e) == g && EntryRights(e) == FULL
    ensures var t' := Extend(t, f, i, g);
            WellFormed(m2, t') && Grown(m0, t, free, m2, t', free - {g})
    ensures Word(m2, f, i) == e && ZeroFrame(m2, g) && LinksNew(m0, m2, t, f, i, g)
  {
    StoreWord(m1, m2, f, i, e);
    forall h, j: nat | h in t.level && j < WORDS_PER_FRAME && (h != f || j != i)
      ensures Word(m2, h, j) == Word(m0, h, j)
    {
      assert SameFrame(m0, m1, h);
    }
    assert ZeroFrame(m2, g);
    assert LinksNew(m0, m2, t, f, i, g);
    LinkKeepsTree(m0, m2, t, f, i, g);
    forall p: nat
      ensures Walk(m2, t.root, 4, p) == Walk(m0, t.root, 4, p)
      ensures PathRights(m2, t.root, 4, p) == PathRights(m0, t.root, 4, p)
      ensures NoLargePage(m2, t.root, 4, p) == NoLargePage(m0, t.root, 4, p)
    {
      LinkKeepsWalks(m0, m2, t, f, i, g, t.root, 4, p);
    }
    forall h: nat | h !in t.level && h !in free ensures SameFrame(m0, m2, h) {
      assert SameFrame(m0, m1, h);
    }
  }

  // ----- Accounting

  /** Every one of the n tracked frames is either free or owned, never both. */
  ghost predicate Partition(owner: map<nat, Owner>, free: set<nat>, n: nat) {
    forall f: nat :: f in owner <==> f < n && f !in free
  }

  ghost predicate OwnsTables(owner: map<nat, Owner>, t: Tree) {
    forall f: nat :: f in t.level <==> f in owner && owner[f].Table?
  }

  /** The taken frames became tables and nothing else changed hands. */
  ghost predicate GainedTables(before: map<nat, Owner>, after: map<nat, Owner>, taken: set<nat>) {
    && (forall f: nat :: f in after <==> f in before || f in taken)
    && (forall f: nat :: f in after ==> after[f] == if f in before then before[f] else Table)
  }

  lemma GainsChain(owner0: map<nat, Owner>, free0: set<nat>, owner1: map<nat, Owner>, free1: set<nat>,
                   owner2: map<nat, Owner>, free2: set<nat>)
    requires free2 <= free1 <= free0
    requires GainedTables(owner0, owner1, free0 - free1) && GainedTables(owner1, owner2, free1 - free2)
    ensures GainedTables(owner0, owner2, free0 - free2)
  {
  }

  /** Page p is an ordinary page mapped to frame f. */
  predicate MapsTo(pages: map<nat, Mapping>, p: nat, f: nat) {
    p in pages && pages[p].level == 1 && pages[p].frame == f
  }

  /** A frame that backs a page is what that page is mapped to; so no two pages share one. */
  ghost predicate BacksPages(owner: map<nat, Owner>, pages: map<nat, Mapping>) {
    forall f: nat :: f in owner && (owner[f].Lazy? || owner[f].Guarded?) ==> MapsTo(pages, owner[f].page, f)
  }

  /** A cached translation is what a walk would find. */
  ghost predicate Coherent(tlb: map<nat, Mapping>, pages: map<nat, Mapping>) {
    forall p: nat :: p in tlb ==> p in pages && tlb[p] == pages[p]
  }

  /** Frame 0 and the frames under the bitmap stay with the firmware. */
  ghost predicate Shielded(owner: map<nat, Owner>, homeFirst: nat, homeEnd: nat) {
    forall f: nat :: f in owner && (f == 0 || homeFirst <= f < homeEnd) ==> owner[f].Firmware?
  }

  lemma DisownKeeps(owner: map<nat, Owner>, free: set<nat>, n: nat, t: Tree, first: nat, end: nat,
                    pages: map<nat, Mapping>, p: nat, m: Option<Mapping>)
    requires Partition(owner, free, n) && OwnsTables(owner, t) && Shielded(owner, first, end)
    requires BacksPages(owner, pages)
    ensures Partition(Disown(owner, p), free, n) && OwnsTables(Disown(owner, p), t)
    ensures Shielded(Disown(owner, p), first, end)
    ensures BacksPages(Disown(owner, p), Updated(pages, p, m))
  {
  }

  // ----- Translation caches (section 4.10 of the Intel SDM, Vol. 3A)

  /** A paging-structure cache entry: the table that serves all pages with one prefix. */
  datatype CachedTable = CachedTable(frame: nat, rights: Rights)

  ghost predicate CachesPaths(psc: map<Prefix, CachedTable>, mem: seq<uint64>, root: nat) {
    forall k, p: nat {:trigger k in psc, PrefixOf(p, k.level)} :: k in psc && PrefixOf(p, k.level) == k.bits ==>
      && 1 <= k.level <= 3 && TableAt(mem, root, p, k.level) == Some(psc[k].frame)
      && RightsAbove(mem, root, p, k.level) == psc[k].rights
  }

  lemma GrownKeepsCaches(psc: map<Prefix, CachedTable>, m0: seq<uint64>, t0: Tree, free0: set<nat>,
                         m1: seq<uint64>, t1: Tree, free1: set<nat>)
    requires WellFormed(m0, t0) && Grown(m0, t0, free0, m1, t1, free1) && CachesPaths(psc, m0, t0.root)
    ensures CachesPaths(psc, m1, t0.root)
  {
    forall k, p: nat | k in psc && PrefixOf(p, k.level) == k.bits
      ensures 1 <= k.level <= 3 && TableAt(m1, t0.root, p, k.level) == Some(psc[k].frame)
      ensures RightsAbove(m1, t0.root, p, k.level) == psc[k].rights
    {
      GrownKeepsPath(m0, t0, free0, m1, t1, free1, p, k.level);
    }
  }

  lemma LeafKeepsCaches(psc: map<Prefix, CachedTable>, before: seq<uint64>, after: seq<uint64>, t: Tree, f: nat, i: nat)
    requires WellFormed(before, t) && f in t.level && t.level[f] == 1
    requires OnlyEntry(before, after, t, f, i) && CachesPaths(psc, before, t.root)
    ensures CachesPaths(psc, after, t.root)
  {
    forall k, p: nat | k in psc && PrefixOf(p, k.level) == k.bits
      ensures 1 <= k.level <= 3 && TableAt(after, t.root, p, k.level) == Some(psc[k].frame)
      ensures RightsAbove(after, t.root, p, k.level) == psc[k].rights
    {
      LeafKeepsPaths(before, after, t, f, i, p, k.level);
    }
  }

  lemma LeafKeepsTables(before: seq<uint64>, after: seq<uint64>, t: Tree, f: nat, i: nat)
    requires WellFormed(before, t) && f in t.level && t.level[f] == 1 && OnlyEntry(before, after, t, f, i)
    ensures SameTables(before, after, t.root)
  {
    forall p: nat, L: nat {:trigger TableAt(after, t.root, p, L)} | 1 <= L <= 4
      ensures TableAt(after, t.root, p, L) == TableAt(before, t.root, p, L)
    {
      LeafKeepsPaths(before, after, t, f, i, p, L);
    }
  }

  /** Caching the path of p at level L. */
  lemma FillKeepsCaches(psc: map<Prefix, CachedTable>, mem: seq<uint64>, root: nat, p: nat, L: nat)
    requires CachesPaths(psc, mem, root) && 1 <= L <= 3 && TableAt(mem, root, p, L).Some?
    ensures CachesPaths(psc[Prefix(L, PrefixOf(p, L)) :=
                            CachedTable(TableAt(mem, root, p, L).value, RightsAbove(mem, root, p, L))], mem, root)
  {
    forall q: nat | PrefixOf(q, L) == PrefixOf(p, L)
      ensures TableAt(mem, root, q, L) == TableAt(mem, root, p, L)
      ensures RightsAbove(mem, root, q, L) == RightsAbove(mem, root, p, L)
    {
      PathDependsOnPrefix(mem, root, q, p, L);
    }
  }

  /** A write outside the tree changes nothing the hardware sees. */
  lemma OutsideKeepsAll(before: seq<uint64>, after: seq<uint64>, t: Tree, pages: map<nat, Mapping>,
                        psc: map<Prefix, CachedTable>)
    requires WellFormed(before, t) && Describes(pages, before, t.root) && CachesPaths(psc, before, t.root)
    requires |after| == |before| && forall g | g in t.level :: SameFrame(before, after, g)
    ensures WellFormed(after, t) && Describes(pages, after, t.root) && CachesPaths(psc, after, t.root)
    ensures SamePaths(before, after, t.root) && SameTables(before, after, t.root)
    ensures forall p: nat :: Missing(after, t.root, 4, p) == Missing(before, t.root, 4, p)
  {
    forall p: nat, L: nat {:trigger TableAt(after, t.root, p, L)} | 1 <= L <= 4
      ensures TableAt(after, t.root, p, L) == TableAt(before, t.root, p, L)
    {
      OutsideKeepsPath(before, after, t, p, L);
    }
    forall p: nat
      ensures Missing(after, t.root, 4, p) == Missing(before, t.root, 4, p)
      ensures Walk(after, t.root, 4, p) == Walk(before, t.root, 4, p)
      ensures PathRights(after, t.root, 4, p) == PathRights(before, t.root, 4, p)
      ensures NoLargePage(after, t.root, 4, p) == NoLargePage(before, t.root, 4, p)
    {
      OutsideWrites(before, after, t, t.root, 4, p);
    }
    SameWalksSamePages(before, after, t.root, pages);
    forall k, p: nat {:trigger k in psc, PrefixOf(p, k.level)} | k in psc && PrefixOf(p, k.level) == k.bits
      ensures 1 <= k.level <= 3 && TableAt(after, t.root, p, k.level) == Some(psc[k].frame)
      ensures RightsAbove(after, t.root, p, k.level) == psc[k].rights
    {
      OutsideKeepsPath(before, after, t, p, k.level);
    }
    forall f, i: nat | f in t.level && i < WORDS_PER_FRAME && IsLink(t.level[f], Word(after, f, i))
      ensures PointsTo(t, f, i, Target(Word(after, f, i)))
    {
      assert SameFrame(before, after, f);
      assert Word(after, f, i) == Word(before, f, i);
    }
  }

  lemma AskedFrame(phys: nat, flags: nat)
    requires phys / PAGE_SIZE < FRAMES
    ensures AskedMapping(phys, flags).frame == phys / PAGE_SIZE && AskedMapping(phys, flags).level == 1
  {
    DivModUnique(phys / PAGE_SIZE, FRAMES, 0, phys / PAGE_SIZE);
  }

  /** The owners after the held frame f was, or was not, mapped at page p. */
  ghost predicate HeldMapped(before: map<nat, Owner>, after: map<nat, Owner>, p: nat, f: nat, taken: set<nat>,
                             mapped: bool, backing: Owner)
  {
    && f in after && after[f] == (if mapped then backing else Held)
    && (forall g: nat :: g in after <==> g in before || g in taken)
    && (forall g: nat :: g in after && g != f ==>
          after[g] == if g !in before then Table
                      else if mapped && Backs(before[g], p) then Leaked else before[g])
  }

  /** Taking frame f, mapping page p and making f the backing of p, seen from the start. */
  lemma HeldThenMapped(owner0: map<nat, Owner>, p: nat, f: nat, owner2: map<nat, Owner>, taken: set<nat>,
                       mapped: bool, backing: Owner)
    requires f !in owner0 && f !in taken
    requires HeldMapped(owner0[f := Held], owner2, p, f, taken, mapped, backing)
    ensures GainedTables((if mapped then Disown(owner0, p) else owner0)[f := if mapped then backing else Held],
                         owner2, taken)
  {
  }

  lemma SamePathsChain(m0: seq<uint64>, m1: seq<uint64>, m2: seq<uint64>, root: nat)
    requires SamePaths(m0, m1, root) && SamePaths(m1, m2, root)
    ensures SamePaths(m0, m2, root)
  {
    forall p: nat
      ensures PathRights(m2, root, 4, p) == PathRights(m0, root, 4, p)
      ensures NoLargePage(m2, root, 4, p) == NoLargePage(m0, root, 4, p)
    {
      assert PathRights(m1, root, 4, p) == PathRights(m0, root, 4, p);
      assert NoLargePage(m1, root, 4, p) == NoLargePage(m0, root, 4, p);
    }
  }

  lemma TakeFrame(owner: map<nat, Owner>, free: set<nat>, n: nat, g: nat, o: Owner)
    requires Partition(owner, free, n) && g in free && g < n
    ensures g !in owner && Partition(owner[g := o], free - {g}, n)
  {
  }

  lemma NewTable(m0: seq<uint64>, m1: seq<uint64>, m2: seq<uint64>, t: Tree, free: set<nat>,
                 owner: map<nat, Owner>, n: nat, f: nat, i: nat, g: nat, e: uint64)
    requires WellFormed(m0, t) && f in t.level && t.level[f] > 1 && i < WORDS_PER_FRAME
    requires g in free && g < n && WORDS_PER_FRAME * n <= |m0|
    requires !Present(Word(m0, f, i)) && ClearedOnly(m0, m1, g)
    requires m2 == m1[WORDS_PER_FRAME * f + i := e]
    requires Present(e) && !Large(e) && Target(e) == g && EntryRights(e) == FULL
    requires Partition(owner, free, n) && OwnsTables(owner, t)
    ensures var t' := Extend(t, f, i, g);
            WellFormed(m2, t') && Grown(m0, t, free, m2, t', free - {g}) && OwnsTables(owner[g := Table], t')
    ensures Partition(owner[g := Table], free - {g}, n)
    ensures GainedTables(owner, owner[g := Table], free - (free - {g}))
    ensures Word(m2, f, i) == e && ZeroFrame(m2, g) && LinksNew(m0, m2, t, f, i, g)
  {
    TakeFrame(owner, free, n, g, Table);
    LinkGrows(m0, m1, m2, t, free, f, i, g, e);
    assert free - (free - {g}) == {g};
  }

  /** Linking tables and then writing a leaf of page p, put together. */
  lemma GrowThenLeaf(m0: seq<uint64>, t0: Tree, free0: set<nat>, owner0: map<nat, Owner>,
                     m1: seq<uint64>, t1: Tree, free1: set<nat>, owner1: map<nat, Owner>, m2: seq<uint64>, p: nat)
    requires Grown(m0, t0, free0, m1, t1, free1) && GainedTables(owner0, owner1, free0 - free1)
    requires SamePaths(m1, m2, t0.root) && Untouched(m1, m2, t1, {})
    ensures SamePaths(m0, m2, t0.root) && Untouched(m0, m2, t0, free0)
    ensures PathRights(m1, t0.root, 4, p) == PathRights(m0, t0.root, 4, p)
    ensures GainedTables(Disown(owner0, p), Disown(owner1, p), free0 - free1)
  {
    forall q: nat
      ensures PathRights(m2, t0.root, 4, q) == PathRights(m0, t0.root, 4, q)
      ensures NoLargePage(m2, t0.root, 4, q) == NoLargePage(m0, t0.root, 4, q)
    {
      assert PathRights(m1, t0.root, 4, q) == PathRights(m0, t0.root, 4, q);
      assert NoLargePage(m1, t0.root, 4, q) == NoLargePage(m0, t0.root, 4, q);
    }
    forall f: nat | f !in t0.level && f !in free0 ensures SameFrame(m0, m2, f) {
      assert SameFrame(m0, m1, f) && SameFrame(m1, m2, f);
    }
  }

  class AddressSpace {
    const mem: array<uint64>
    const frames: FrameAllocator
    /** The frame of the top-level table, from CR3. */
    const root: nat
    /** What memory holds. */
    ghost var words: seq<uint64>
    ghost var tree: Tree
    /** What the hardware makes of every page. */
    ghost var pages: map<nat, Mapping>
    ghost var owner: map<nat, Owner>
    /** The TLB, and the paging-structure caches that let a walk start below the root. */
    var tlb: map<nat, Mapping>
    var psc: map<Prefix, CachedTable>

    /** The tree, the page map, the owners and the TLB all agree with the words and with the
        set of free frames. */
    ghost predicate Consistent(free: set<nat>)
      reads this, frames
    {
      && WellFormed(words, tree) && tree.root == root && Describes(pages, words, root)
      && Partition(owner, free, frames.frameCount)
      && OwnsTables(owner, tree)
      && Shielded(owner, frames.homeFirst, frames.homeEnd)
      && BacksPages(owner, pages)
      && Coherent(tlb, pages) && CachesPaths(psc, words, root)
    }

    ghost predicate Valid()
      reads this, frames, frames.bitmap, mem
    {
      && frames.Valid() && frames.mem == mem && frames.frameCount <= FRAMES
      && words == mem[..] && Consistent(frames.free)
    }

    /** Takes over the tables the boot loader left behind: a tree without shared tables, held in
        frames that are in use and are neither frame 0 nor under the bitmap. */
    constructor (frames: FrameAllocator, root: nat, ghost tree: Tree)
      requires frames.Valid() && frames.frameCount <= FRAMES
      requires WellFormed(frames.mem[..], tree) && tree.root == root
      requires forall f :: f in tree.level ==>
                 f < frames.frameCount && f !in frames.free && !frames.Untouchable(f)
      ensures Valid() && this.frames == frames && this.root == root && this.tree == tree
      ensures forall f :: f in owner ==> owner[f].Table? || owner[f].Firmware?
    {
      this.mem, this.frames, this.root, this.tree := frames.mem, frames, root, tree;
      this.words := frames.mem[..];
      ghost var pages := PageMapExists(frames.mem[..], root);
      this.pages := pages;
      this.owner := map f: nat | f < frames.frameCount && f !in frames.free ::
        if f in tree.level then Table else Firmware;
      this.tlb, this.psc := map[], map[];
    }

    /** Word i of the level-L table for p, in memory. */
    lemma OnPath(p: nat, L: nat, i: nat)
      requires Valid() && 1 <= L <= 4 && TableAt(words, root, p, L).Some? && i < WORDS_PER_FRAME
      ensures var f := TableAt(words, root, p, L).value;
              && f in tree.level && tree.level[f] == L
              && WORDS_PER_FRAME * f + i < mem.Length && mem[WORDS_PER_FRAME * f + i] == Word(words, f, i)
      ensures WellFormed(words, tree) && tree.root == root
      ensures L > 1 && i == Index(p, L) && !Present(Word(words, TableAt(words, root, p, L).value, i)) ==>
                Missing(words, root, 4, p) > 0
    {
      hide NoLargePage, LastTable, Walk, TableAt, Index;
      BelowTableAt(words, tree, p, L);
    }

    lemma OnLastTable(p: nat)
      requires Valid() && TableAt(words, root, p, 1).Some?
      ensures LastTable(words, root, 4, p) == TableAt(words, root, p, 1)
      ensures WORDS_PER_FRAME * TableAt(words, root, p, 1).value + Index(p, 1) < mem.Length
    {
      hide NoLargePage, Missing, Walk, TableAt, Index;
      BelowTableAt(words, tree, p, 1);
    }

    /** Takes a frame for a new table and stores its address in an empty entry. */
    method StoreLink(table: nat, index: nat)
      returns (ok: bool, ghost g: nat, ghost cleared: seq<uint64>, ghost e: uint64)
      requires Valid() && table in tree.level && index < WORDS_PER_FRAME
      modifies frames`free, frames`freeFrames, frames`nextSearchIndex, frames.bitmap, mem
      ensures frames.Valid()
      ensures !ok ==>
                mem[..] == words && frames.free == old(frames.free) && frames.freeFrames == old(frames.freeFrames) == 0
      ensures ok ==>
                && g in old(frames.free) && g < frames.frameCount && frames.free == old(frames.free) - {g}
                && frames.freeFrames == old(frames.freeFrames) - 1
                && Present(e) && !Large(e) && Target(e) == g && EntryRights(e) == FULL
                && ClearedOnly(words, cleared, g) && mem[..] == cleared[WORDS_PER_FRAME * table + index := e]
    {
      var phys := frames.AllocFrame();
      g, cleared, e := phys / PAGE_SIZE, mem[..], 0;
      if phys == 0 {
        return false, g, cleared, e;
      }
      var entry := MakeLink(phys);
      mem[WORDS_PER_FRAME * table + index] := entry;
      return true, g, cleared, entry;
    }

    /** Brings the ghost state up to date after StoreLink. */
    ghost method AdoptTable(table: nat, index: nat, L: nat, g: nat, cleared: seq<uint64>, e: uint64, free: set<nat>)
      requires Consistent(free) && g in free && g < frames.frameCount
      requires !(g == 0 || frames.homeFirst <= g < frames.homeEnd) && WORDS_PER_FRAME * frames.frameCount <= |words|
      requires table in tree.level && tree.level[table] == L > 1 && index < WORDS_PER_FRAME
      requires !Present(Word(words, table, index))
      requires Present(e) && !Large(e) && Target(e) == g && EntryRights(e) == FULL
      requires ClearedOnly(words, cleared, g)
      modifies `words, `tree, `owner
      ensures words == cleared[WORDS_PER_FRAME * table + index := e]
      ensures Consistent(free - {g})
      ensures Grown(old(words), old(tree), free, words, tree, free - {g})
      ensures GainedTables(old(owner), owner, free - (free - {g}))
      ensures LinksNew(old(words), words, old(tree), table, index, Target(Word(words, table, index)))
    {
      hide WellFormed, Describes, CachesPaths, LinksNew, GainedTables, ZeroFrame, SameFrame, Coherent, Untouched,
        SamePaths, SameWalks;
      TablesFit(words, tree);
      ghost var after := cleared[WORDS_PER_FRAME * table + index := e];
      NewTable(words, cleared, after, tree, free, owner, frames.frameCount, table, index, g, e);
      SameWalksSamePages(words, after, root, pages);
      GrownKeepsCaches(psc, words, tree, free, after, Extend(tree, table, index, g), free - {g});
      words, tree, owner := after, Extend(tree, table, index, g), owner[g := Table];
    }

    /** The conditional half of ensure_next_level: afterwards entry index of table is a link. */
    method EnsureEntry(table: nat, index: nat, ghost L: nat) returns (ok: bool)
      requires Valid() && table in tree.level && tree.level[table] == L > 1 && index < WORDS_PER_FRAME
      modifies `words, `tree, `owner, frames`free, frames`freeFrames, frames`nextSearchIndex, frames.bitmap, mem
      ensures Valid()
      ensures Grown(old(words), old(tree), old(frames.free), words, tree, frames.free)
      ensures GainedTables(old(owner), owner, old(frames.free) - frames.free)
      ensures !ok ==>
                && words == old(words) && frames.freeFrames == old(frames.freeFrames) == 0
                && !old(Present(Word(words, table, index)))
      ensures ok && old(Present(Word(words, table, index))) ==>
                words == old(words) && frames.freeFrames == old(frames.freeFrames)
      ensures ok && !old(Present(Word(words, table, index))) ==>
                && frames.freeFrames == old(frames.freeFrames) - 1
                && LinksNew(old(words), words, old(tree), table, index, Target(Word(words, table, index)))
    {
      ok := IsPresent(mem[WORDS_PER_FRAME * table + index]);
      if ok {
        NothingGrown(words, tree, frames.free);
      } else {
        ghost var free := frames.free;
        ghost var g, cleared, e;
        ok, g, cleared, e := StoreLink(table, index);
        if ok {
          AdoptTable(table, index, L, g, cleared, e, free);
        } else {
          NothingGrown(words, tree, frames.free);
        }
      }
    }

    /** ensure_next_level */
    method EnsureNextLevel(table: nat, index: nat, ghost L: nat, ghost p: nat) returns (next: Option<nat>)
      requires Valid() && 1 < L <= 4 && p < PAGES && NoLargePage(words, root, 4, p)
      requires TableAt(words, root, p, L) == Some(table) && index == Index(p, L)
      modifies `words, `tree, `owner, frames`free, frames`freeFrames, frames`nextSearchIndex, frames.bitmap, mem
      ensures Valid()
      ensures Grown(old(words), old(tree), old(frames.free), words, tree, frames.free)
      ensures GainedTables(old(owner), owner, old(frames.free) - frames.free)
      ensures next.None? ==>
                frames.freeFrames == old(frames.freeFrames) == 0 < old(Missing(words, root, 4, p))
      ensures next.Some? ==>
                && TableAt(words, root, p, L - 1) == next
                && Missing(words, root, 4, p) + old(frames.freeFrames)
                   == old(Missing(words, root, 4, p)) + frames.freeFrames
      ensures OpensOnly(old(words), words, root, p)
    {
      hide AddressSpace.Valid, NoLargePage, Missing, TableAt, Grown, GainedTables, OpensOnly, LinksNew, Index;
      ghost var m0, t0, free0 := words, tree, frames.free;
      OnPath(p, L, index);
      var ok := EnsureEntry(table, index, L);
      if !ok {
        SameTablesOpenNothing(m0, words, root, p);
        return None;
      }
      Lowered(m0, t0, free0, p, L);
      var frame := NextTable(mem[WORDS_PER_FRAME * table + index]);
      return Some(frame);
    }

    /** EnsureEntry has made sure that the path of p goes on below level L. */
    lemma Lowered(m0: seq<uint64>, t0: Tree, free0: set<nat>, p: nat, L: nat)
      requires Valid() && WellFormed(m0, t0) && t0.root == root && Grown(m0, t0, free0, words, tree, frames.free)
      requires 1 < L <= 4 && p < PAGES && NoLargePage(m0, root, 4, p) && TableAt(m0, root, p, L).Some?
      requires var f, i := TableAt(m0, root, p, L).value, Index(p, L);
               if Present(Word(m0, f, i)) then words == m0
               else LinksNew(m0, words, t0, f, i, Target(Word(words, f, i)))
      ensures var f, i := TableAt(m0, root, p, L).value, Index(p, L);
              && f in tree.level && WORDS_PER_FRAME * f + WORDS_PER_FRAME <= |words|
              && mem[WORDS_PER_FRAME * f + i] == Word(words, f, i)
              && TableAt(words, root, p, L - 1) == Some(Target(Word(words, f, i)))
              && Missing(words, root, 4, p) + (if Present(Word(m0, f, i)) then 0 else 1) == Missing(m0, root, 4, p)
      ensures OpensOnly(m0, words, root, p)
    {
      hide NoLargePage, Missing, Index, LinksNew, OpensOnly;
      BelowTableAt(m0, t0, p, L);
      StepOpens(m0, t0, words, p, L);
      StepDown(m0, t0, free0, words, tree, frames.free, p, L);
    }

    /** How far vmm_map has come since the state (m0, t0, free0, owner0) with n0 free frames:
        down to the level-L table of p, or, if table is None, out of frames. */
    ghost predicate Descended(m0: seq<uint64>, t0: Tree, free0: set<nat>, owner0: map<nat, Owner>, n0: nat,
                              p: nat, L: nat, table: Option<nat>)
      requires L <= 4
      reads this, frames
    {
      && Grown(m0, t0, free0, words, tree, frames.free)
      && GainedTables(owner0, owner, free0 - frames.free) && OpensOnly(m0, words, root, p)
      && (table.Some? ==>
            && TableAt(words, root, p, L) == table
            && Missing(words, root, 4, p) + n0 == Missing(m0, root, 4, p) + frames.freeFrames)
      && (table.None? ==> frames.freeFrames == 0 && n0 < Missing(m0, root, 4, p))
    }

    /** One more ensure_next_level, unless an earlier one has failed. */
    method Descend(table: Option<nat>, index: nat, ghost L: nat, ghost p: nat, ghost m0: seq<uint64>, ghost t0: Tree,
                   ghost free0: set<nat>, ghost owner0: map<nat, Owner>, ghost n0: nat) returns (next: Option<nat>)
      requires Valid() && 1 < L <= 4 && p < PAGES && t0.root == root && NoLargePage(words, root, 4, p)
      requires index == Index(p, L)
      requires Descended(m0, t0, free0, owner0, n0, p, L, table)
      modifies `words, `tree, `owner, frames`free, frames`freeFrames, frames`nextSearchIndex, frames.bitmap, mem
      ensures Valid() && NoLargePage(words, root, 4, p)
      ensures Descended(m0, t0, free0, owner0, n0, p, L - 1, next)
    {
      next := table;
      if table.Some? {
        ghost var m1, t1, free1, owner1 := words, tree, frames.free, owner;
        next := EnsureNextLevel(table.value, index, L, p);
        GrownChains(m0, t0, free0, m1, t1, free1, words, tree, frames.free);
        GainsChain(owner0, free0, owner1, free1, owner, frames.free);
        OpensChain(m0, m1, words, root, p);
      }
    }

    /** The first two ensure_next_level calls of vmm_map. */
    method EnsurePd(i4: nat, i3: nat, ghost p: nat) returns (pd: Option<nat>)
      requires Valid() && p < PAGES && NoLargePage(words, root, 4, p) && i4 == Index(p, 4) && i3 == Index(p, 3)
      modifies `words, `tree, `owner, frames`free, frames`freeFrames, frames`nextSearchIndex, frames.bitmap, mem
      ensures Valid() && NoLargePage(words, root, 4, p)
      ensures Descended(old(words), old(tree), old(frames.free), old(owner), old(frames.freeFrames), p, 2, pd)
    {
      ghost var m0, t0, free0, owner0, n0 := words, tree, frames.free, owner, frames.freeFrames;
      NothingGrown(words, tree, frames.free);
      SameTablesOpenNothing(words, words, root, p);
      var pdpt := Descend(Some(root), i4, 4, p, m0, t0, free0, owner0, n0);
      pd := Descend(pdpt, i3, 3, p, m0, t0, free0, owner0, n0);
    }

    /** The page table on the path of p: the three ensure_next_level calls of vmm_map. */
    method EnsurePt(i4: nat, i3: nat, i2: nat, ghost p: nat) returns (pt: Option<nat>)
      requires Valid() && p < PAGES && NoLargePage(words, root, 4, p)
      requires i4 == Index(p, 4) && i3 == Index(p, 3) && i2 == Index(p, 2)
      modifies `words, `tree, `owner, frames`free, frames`freeFrames, frames`nextSearchIndex, frames.bitmap, mem
      ensures Valid()
      ensures Grown(old(words), old(tree), old(frames.free), words, tree, frames.free)
      ensures GainedTables(old(owner), owner, old(frames.free) - frames.free)
      ensures OpensOnly(old(words), words, root, p)
      ensures pt.Some? ==> TableAt(words, root, p, 1) == pt
      ensures pt.Some? ==> old(frames.freeFrames) == old(Missing(words, root, 4, p)) + frames.freeFrames
      ensures pt.None? ==> frames.freeFrames == 0 && old(frames.freeFrames) < old(Missing(words, root, 4, p))
    {
      ghost var m0, t0, free0, owner0, n0 := words, tree, frames.free, owner, frames.freeFrames;
      var pd := EnsurePd(i4, i3, p);
      pt := Descend(pd, i2, 2, p, m0, t0, free0, owner0, n0);
      if pt.Some? {
        NothingMissing(words, tree, p);
      }
    }

    /** invlpg */
    method Invalidate(p: nat)
      modifies `tlb
      ensures tlb == old(tlb) - {p}
    {
      tlb := tlb - {p};
    }

    /** Brings the ghost state up to date after a store to the level-1 entry of page p. */
    ghost method AdoptLeaf(pt: nat, p: nat, e: uint64, free: set<nat>)
      requires Consistent(free) && p < PAGES && p !in tlb
      requires LastTable(words, root, 4, p) == Some(pt)
      requires WORDS_PER_FRAME * pt + Index(p, 1) < |words|
      modifies `words, `pages, `owner
      ensures words == old(words)[WORDS_PER_FRAME * pt + Index(p, 1) := e]
      ensures pages == Updated(old(pages), p, LeafUnder(old(PathRights(words, root, 4, p)), e))
      ensures owner == Disown(old(owner), p)
      ensures Consistent(free)
      ensures SamePaths(old(words), words, root) && SameTables(old(words), words, root)
      ensures Untouched(old(words), words, tree, {})
    {
      hide NoLargePage, Missing, TableAt, LastTable, Walk, PathRights, Index, Describes, CachesPaths, OwnsTables,
        Partition, Shielded, BacksPages, Disown, SameTables, WellFormed;
      var before, after := words, words[WORDS_PER_FRAME * pt + Index(p, 1) := e];
      TablesFit(words, tree);
      LastTableInTree(before, tree, root, 4, p);
      StoreWord(before, after, pt, Index(p, 1), e);
      LeafKeepsTree(before, after, tree, pt, Index(p, 1));
      LeafWriteIsMapUpdate(before, after, tree, pt, p, pages);
      LeafKeepsCaches(psc, before, after, tree, pt, Index(p, 1));
      forall q: nat
        ensures PathRights(after, root, 4, q) == PathRights(before, root, 4, q)
        ensures NoLargePage(after, root, 4, q) == NoLargePage(before, root, 4, q)
      {
        LeafWriteElsewhere(before, after, tree, pt, p, q);
      }
      LeafKeepsTables(before, after, tree, pt, Index(p, 1));
      DisownKeeps(owner, free, frames.frameCount, tree, frames.homeFirst, frames.homeEnd, pages, p,
                  LeafUnder(PathRights(before, root, 4, p), e));
      words, owner := after, Disown(owner, p);
      pages := Updated(pages, p, LeafUnder(PathRights(before, root, 4, p), e));
    }

    /** The end of vmm_map: the leaf store and invlpg. */
    method WriteLeaf(pt: nat, i1: nat, virt: uint64, phys: uint64, flags: uint32)
      requires Valid() && TableAt(words, root, PageOf(virt), 1) == Some(pt) && i1 == Index(PageOf(virt), 1)
      modifies `words, `pages, `owner, `tlb, mem
      ensures Valid()
      ensures pages == old(pages)[PageOf(virt) :=
                         AskedMapping(phys, flags).Restrict(old(PathRights(words, root, 4, PageOf(virt))))]
      ensures tlb == old(tlb) - {PageOf(virt)} && owner == Disown(old(owner), PageOf(virt))
      ensures SameTables(old(words), words, root)
      ensures SamePaths(old(words), words, root) && Untouched(old(words), words, tree, {})
    {
      hide NoLargePage, Missing, TableAt, LastTable, Walk, PathRights, Index, WellFormed, Describes, CachesPaths,
        OwnsTables, Partition, Shielded, BacksPages;
      OnLastTable(PageOf(virt));
      var e := MakeLeaf(phys, flags);
      mem[WORDS_PER_FRAME * pt + i1] := e;
      Invalidate(PageOf(virt));
      AdoptLeaf(pt, PageOf(virt), e, frames.free);
    }

    /** vmm_map.  It succeeds exactly when there are frames enough for the missing tables, and
        then changes what the hardware makes of this one page, to the frame and flags asked for
        under the rights its path already had; on failure no translation changes. */
    method Map(virt: uint64, phys: uint64, flags: uint32) returns (ok: bool)
      requires Valid() && NoLargePage(words, root, 4, PageOf(virt))
      modifies `words, `tree, `pages, `owner, `tlb
      modifies frames`free, frames`freeFrames, frames`nextSearchIndex, frames.bitmap, mem
      ensures Valid()
      ensures ok <==> old(Missing(words, root, 4, PageOf(virt))) <= old(frames.freeFrames)
      ensures old(frames.freeFrames) - frames.freeFrames ==
              if ok then old(Missing(words, root, 4, PageOf(virt))) else old(frames.freeFrames)
      ensures pages ==
              if ok then old(pages)[PageOf(virt) :=
                AskedMapping(phys, flags).Restrict(old(PathRights(words, root, 4, PageOf(virt))))]
              else old(pages)
      ensures tlb == if ok then old(tlb) - {PageOf(virt)} else old(tlb)
      ensures SamePaths(old(words), words, root)
      ensures frames.free <= old(frames.free)
      ensures GainedTables(if ok then Disown(old(owner), PageOf(virt)) else old(owner), owner,
                           old(frames.free) - frames.free)
      ensures Untouched(old(words), words, old(tree), old(frames.free))
      ensures OpensOnly(old(words), words, root, PageOf(virt))
      ensures ok ==> TableAt(words, root, PageOf(virt), 1).Some?
    {
      hide NoLargePage, Missing, TableAt, PathRights, Index, WellFormed, Describes, Partition, OwnsTables, Shielded,
        BacksPages, Coherent, CachesPaths, GainedTables, OpensOnly, SameTables, Untouched, SamePaths, SameWalks;
      ghost var m0, t0, free0, owner0 := words, tree, frames.free, owner;
      var i4, i3, i2, i1 := PageTableIndices(virt);
      var pt := EnsurePt(i4, i3, i2, PageOf(virt));
      ok := pt.Some?;
      if ok {
        ghost var m1, owner1 := words, owner;
        WriteLeaf(pt.value, i1, virt, phys, flags);
        GrowThenLeaf(m0, t0, free0, owner0, m1, tree, frames.free, owner1, words, PageOf(virt));
        SameTablesOpenNothing(m1, words, root, PageOf(virt));
        OpensChain(m0, m1, words, root, PageOf(virt));
      }
    }

    /** The level-1 table for the address, if the walk gets that far. */
    method FindPt(i4: nat, i3: nat, i2: nat, ghost p: nat) returns (pt: Option<nat>)
      requires Valid() && NoLargePage(words, root, 4, p)
      requires i4 == Index(p, 4) && i3 == Index(p, 3) && i2 == Index(p, 2)
      ensures pt.Some? ==> TableAt(words, root, p, 1) == pt
      ensures pt.None? ==> Walk(words, root, 4, p) == None
    {
      BelowTableAt(words, tree, p, 4);
      var present := IsPresent(mem[WORDS_PER_FRAME * root + i4]);
      if !present {
        return None;
      }
      var pdpt := NextTable(mem[WORDS_PER_FRAME * root + i4]);
      BelowTableAt(words, tree, p, 3);
      present := IsPresent(mem[WORDS_PER_FRAME * pdpt + i3]);
      if !present {
        return None;
      }
      var pd := NextTable(mem[WORDS_PER_FRAME * pdpt + i3]);
      BelowTableAt(words, tree, p, 2);
      present := IsPresent(mem[WORDS_PER_FRAME * pd + i2]);
      if !present {
        return None;
      }
      var frame := NextTable(mem[WORDS_PER_FRAME * pd + i2]);
      return Some(frame);
    }

    /** vmm_unmap: removes this one page from what the hardware sees, and nothing else. */
    method Unmap(virt: uint64)
      requires Valid() && NoLargePage(words, root, 4, PageOf(virt))
      modifies `words, `pages, `owner, `tlb, mem
      ensures Valid()
      ensures pages == old(pages) - {PageOf(virt)} && tlb == old(tlb) - {PageOf(virt)}
      ensures owner == Disown(old(owner), PageOf(virt))
      ensures SamePaths(old(words), words, root) && Untouched(old(words), words, tree, {})
    {
      hide NoLargePage, Missing, TableAt, LastTable, Walk, PathRights, Index, WellFormed, CachesPaths, OwnsTables,
        Partition, Shielded;
      var i4, i3, i2, i1 := PageTableIndices(virt);
      var pt := FindPt(i4, i3, i2, PageOf(virt));
      if pt.None? {
        assert Lookup(pages, PageOf(virt)) == None;
        assert Disown(owner, PageOf(virt)) == owner;
        return;
      }
      OnLastTable(PageOf(virt));
      mem[WORDS_PER_FRAME * pt.value + i1] := 0;
      Invalidate(PageOf(virt));
      AdoptLeaf(pt.value, PageOf(virt), 0, frames.free);
    }

    /** A walk that starts at a cached table ends where one from the root does. */
    lemma CachedWalk(p: nat, start: nat)
      requires Valid() && p < PAGES && Prefix(start, PrefixOf(p, start)) in psc
      ensures var c := psc[Prefix(start, PrefixOf(p, start))];
              Under(c.rights, Walk(words, c.frame, start, p)) == Walk(words, root, 4, p)
    {
      hide NoLargePage, Missing, TableAt, LastTable, Walk, PathRights, RightsAbove, PrefixOf;
      BelowTableAt(words, tree, p, start);
    }

    /** What the processor does with an access to page p.  It may use a TLB entry; or start at
        the table that the caches hold for p at some level, else at the root; and it caches
        what it finds.  Which of these happens is up to the hardware, hence the parameters. */
    method Translate(p: nat, useTlb: bool, start: nat, fill: nat) returns (m: Option<Mapping>)
      requires Valid() && p < PAGES
      modifies `tlb, `psc
      ensures Valid()
      ensures m == Lookup(pages, p)
    {
      hide NoLargePage, Missing, TableAt, LastTable, Walk, PathRights, RightsAbove, WellFormed, CachesPaths,
        OwnsTables, Partition, Shielded, BacksPages, PrefixOf, Under;
      if useTlb && p in tlb {
        return Some(tlb[p]);
      }
      var k := Prefix(start, PrefixOf(p, start));
      if k in psc {
        CachedWalk(p, start);
        m := Under(psc[k].rights, Walk(mem[..], psc[k].frame, start, p));
      } else {
        m := Walk(mem[..], root, 4, p);
      }
      assert Walk(words, root, 4, p) == Lookup(pages, p);
      if m.Some? {
        tlb := tlb[p := m.value];
      }
      if 1 <= fill <= 3 {
        var table := TableAt(mem[..], root, p, fill);
        if table.Some? {
          FillKeepsCaches(psc, words, root, p, fill);
          psc := psc[Prefix(fill, PrefixOf(p, fill)) :=
                     CachedTable(table.value, RightsAbove(mem[..], root, p, fill))];
        }
      }
    }

    /** pmm_alloc_frame on behalf of some holder; 0 is failure. */
    method AllocHeld() returns (phys: nat)
      requires Valid()
      modifies `words, `owner, frames`free, frames`freeFrames, frames`nextSearchIndex, frames.bitmap, mem
      ensures Valid()
      ensures phys == 0 <==> old(frames.free) == {}
      ensures phys == 0 ==>
                words == old(words) && owner == old(owner) && frames.free == {} && frames.freeFrames == 0
      ensures phys != 0 ==>
                var f := phys / PAGE_SIZE;
                && phys == PAGE_SIZE * f && f in old(frames.free) && frames.free == old(frames.free) - {f}
                && frames.freeFrames == old(frames.freeFrames) - 1
                && owner == old(owner)[f := Held] && ClearedOnly(old(words), words, f)
      ensures SamePaths(old(words), words, root) && SameTables(old(words), words, root)
      ensures forall p: nat :: Missing(words, root, 4, p) == old(Missing(words, root, 4, p))
    {
      ghost var before, free := words, frames.free;
      phys := frames.AllocFrame();
      if phys != 0 {
        AdoptHeld(phys / PAGE_SIZE, mem[..], free);
      } else {
        words := mem[..];
      }
    }

    ghost method AdoptHeld(f: nat, after: seq<uint64>, free: set<nat>)
      requires Consistent(free) && f in free && f < frames.frameCount
      requires !(f == 0 || frames.homeFirst <= f < frames.homeEnd)
      requires ClearedOnly(words, after, f)
      modifies `words, `owner
      ensures words == after && owner == old(owner)[f := Held] && Consistent(free - {f})
      ensures SamePaths(old(words), words, root) && SameTables(old(words), words, root)
      ensures forall p: nat :: Missing(words, root, 4, p) == old(Missing(words, root, 4, p))
    {
      TakeFrame(owner, free, frames.frameCount, f, Held);
      OutsideKeepsAll(words, after, tree, pages, psc);
      words, owner := after, owner[f := Held];
    }

    /** pmm_free_frame for a held frame: never a panic. */
    method FreeHeld(phys: nat)
      requires Valid() && phys / PAGE_SIZE in owner && owner[phys / PAGE_SIZE].Held?
      modifies `owner, frames`free, frames`freeFrames, frames.bitmap
      ensures Valid()
      ensures owner == old(owner) - {phys / PAGE_SIZE}
      ensures frames.free == old(frames.free) + {phys / PAGE_SIZE}
      ensures frames.freeFrames == old(frames.freeFrames) + 1
    {
      var ok := frames.FreeFrame(phys);
      assert ok;
      owner := owner - {phys / PAGE_SIZE};
    }

    /** No byte of the frame bitmap lies in a table or in any other frame in use. */
    lemma BitmapIsElsewhere(f: nat)
      requires Valid() && f in owner && !owner[f].Firmware?
      ensures Misses(frames.bitmap.Length, frames.home, f)
    {
      frames.BitmapIsElsewhere(f);
    }

    /** A store by whoever uses frame f. */
    method StoreInto(f: nat, i: nat, value: uint64)
      requires Valid() && f in owner && !owner[f].Table? && i < WORDS_PER_FRAME
      modifies `words, mem
      ensures Valid() && SamePaths(old(words), words, root)
      ensures forall g: nat, j: nat {:trigger Word(words, g, j)} :: j < WORDS_PER_FRAME ==>
                Word(words, g, j) == if g == f && j == i then value else Word(old(words), g, j)
      ensures !owner[f].Firmware? ==>
                frames.Memory() == Stored(old(frames.Memory()), WORDS_PER_FRAME * f + i, value)
    {
      hide Image, Stored, Misses;
      hide NoLargePage, Missing, Describes, CachesPaths, WellFormed, SamePaths, SameTables, BacksPages, Shielded;
      ghost var before := words;
      mem[WORDS_PER_FRAME * f + i] := value;
      StoreWord(before, mem[..], f, i, value);
      OutsideKeepsAll(before, mem[..], tree, pages, psc);
      words := mem[..];
      if !owner[f].Firmware? {
        StoreInMemory(before, f, i, value);
      }
    }

    lemma StoreInMemory(before: seq<uint64>, f: nat, i: nat, value: uint64)
      requires Valid() && f in owner && !owner[f].Firmware? && i < WORDS_PER_FRAME
      requires WORDS_PER_FRAME * f + i < |before| && mem[..] == before[WORDS_PER_FRAME * f + i := value]
      ensures frames.Memory() == Stored(Image(before, frames.bitmap[..], frames.home), WORDS_PER_FRAME * f + i, value)
    {
      hide Image, Stored, FrameAllocator.Memory;
      assert (WORDS_PER_FRAME * f + i) / WORDS_PER_FRAME == f;
      frames.StoreInMemory(before, WORDS_PER_FRAME * f + i, value);
    }

    /** A held frame that its page is mapped to becomes the backing of that page. */
    ghost method Assign(f: nat, backing: Owner)
      requires Valid() && f in owner && owner[f].Held?
      requires (backing.Lazy? || backing.Guarded?) && MapsTo(pages, backing.page, f)
      modifies `owner
      ensures Valid() && owner == old(owner)[f := backing]
    {
      owner := owner[f := backing];
    }

    /** Nobody is left who knows of a held frame. */
    ghost method Leak(f: nat)
      requires Valid() && f in owner && owner[f].Held?
      modifies `owner
      ensures Valid() && owner == old(owner)[f := Leaked]
    {
      owner := owner[f := Leaked];
    }

    /** vmm_map of a held frame, which becomes the backing of the page if that succeeds. */
    method MapHeld(virt: uint64, frame: uint64, flags: uint32, ghost backing: Owner) returns (ok: bool)
      requires Valid() && NoLargePage(words, root, 4, PageOf(virt))
      requires frame / PAGE_SIZE in owner && owner[frame / PAGE_SIZE].Held?
      requires backing == Lazy(PageOf(virt)) || backing == Guarded(PageOf(virt))
      modifies `words, `tree, `pages, `owner, `tlb
      modifies frames`free, frames`freeFrames, frames`nextSearchIndex, frames.bitmap, mem
      ensures Valid()
      ensures ok <==> old(Missing(words, root, 4, PageOf(virt))) <= old(frames.freeFrames)
      ensures frames.freeFrames == if ok then old(frames.freeFrames) - old(Missing(words, root, 4, PageOf(virt))) else 0
      ensures pages ==
              if ok then old(pages)[PageOf(virt) :=
                AskedMapping(frame, flags).Restrict(old(PathRights(words, root, 4, PageOf(virt))))]
              else old(pages)
      ensures SamePaths(old(words), words, root) && SameFrame(old(words), words, frame / PAGE_SIZE)
      ensures Untouched(old(words), words, old(tree), old(frames.free))
      ensures OpensOnly(old(words), words, root, PageOf(virt))
      ensures ok ==> TableAt(words, root, PageOf(virt), 1).Some?
      ensures frames.free <= old(frames.free)
      ensures HeldMapped(old(owner), owner, PageOf(virt), frame / PAGE_SIZE, old(frames.free) - frames.free, ok,
                         backing)
    {
      hide AddressSpace.Valid, NoLargePage, Missing, SamePaths, OpensOnly, TableAt, PathRights;
      FreeFrames();
      ok := Map(virt, frame, flags);
      AskedFrame(frame, flags);
      if ok {
        assert MapsTo(pages, PageOf(virt), frame / PAGE_SIZE);
        Assign(frame / PAGE_SIZE, backing);
      }
    }

    lemma FreeFrames()
      requires Valid()
      ensures frames.freeFrames == |frames.free| && frames.frameCount <= FRAMES
      ensures Partition(owner, frames.free, frames.frameCount) && OwnsTables(owner, tree)
      ensures forall f | f in frames.free :: f < FRAMES && f !in owner && f !in tree.level
    {
    }

    /** pmm_alloc_frame and then vmm_map of the new frame.  frame is 0 if there was none; if the
        mapping fails the frame is still held. */
    method Back(virt: uint64, flags: uint32, ghost backing: Owner) returns (frame: nat, ok: bool)
      requires Valid() && NoLargePage(words, root, 4, PageOf(virt))
      requires backing == Lazy(PageOf(virt)) || backing == Guarded(PageOf(virt))
      modifies `words, `tree, `pages, `owner, `tlb
      modifies frames`free, frames`freeFrames, frames`nextSearchIndex, frames.bitmap, mem
      ensures Valid()
      ensures ok <==> old(Missing(words, root, 4, PageOf(virt))) < old(frames.freeFrames)
      ensures frame == 0 ==> !ok && owner == old(owner) && frames.free == old(frames.free) == {}
      ensures frame != 0 ==>
                var f := frame / PAGE_SIZE;
                && frame == PAGE_SIZE * f && f in old(frames.free) && f !in frames.free
                && frames.free <= old(frames.free)
                && GainedTables((if ok then Disown(old(owner), PageOf(virt)) else old(owner))
                                [f := if ok then backing else Held], owner, old(frames.free) - {f} - frames.free)
      ensures pages ==
              if ok then old(pages)[PageOf(virt) :=
                AskedMapping(frame, flags).Restrict(old(PathRights(words, root, 4, PageOf(virt))))]
              else old(pages)
      ensures frames.freeFrames ==
              if ok then old(frames.freeFrames) - old(Missing(words, root, 4, PageOf(virt))) - 1 else 0
      ensures frame != 0 ==> ZeroFrame(words, frame / PAGE_SIZE)
      ensures SamePaths(old(words), words, root)
      ensures Untouched(old(words), words, old(tree), old(frames.free))
      ensures OpensOnly(old(words), words, root, PageOf(virt))
      ensures ok ==> TableAt(words, root, PageOf(virt), 1).Some?
    {
      hide AddressSpace.Valid, NoLargePage, Missing, Grown, SamePaths, OpensOnly, SameTables, TableAt, HeldMapped,
        GainedTables, Untouched, ClearedOnly;
      ghost var m0, owner0, t0, free0 := words, owner, tree, frames.free;
      FreeFrames();
      frame := AllocHeld();
      SameTablesOpenNothing(m0, words, root, PageOf(virt));
      if frame == 0 {
        NothingTouched(words, tree, free0);
        return 0, false;
      }
      ghost var m1, free1 := words, frames.free;
      ok := MapHeld(virt, frame, flags, backing);
      ClearedThenUntouched(m0, m1, words, t0, free0, frame / PAGE_SIZE);
      OpensChain(m0, m1, words, root, PageOf(virt));
      SamePathsChain(m0, m1, words, root);
      HeldThenMapped(owner0, PageOf(virt), frame / PAGE_SIZE, owner, free1 - frames.free, ok, backing);
    }
  }
}
