/** The x86-64 four-level page walk over tables held in physical memory, and what single writes
    do to it (4-level paging, section 4.5 of the Intel SDM, Vol. 3A). */
module PageTables {
  import opened Words
  import opened PhysicalMemory

  const PAGES: nat := 0x10_0000_0000
  const FRAMES: nat := 0x100_0000_0000

  // ----- Entries

  predicate Present(e: nat) { e % 2 == 1 }

  predicate Writable(e: nat) { e / 2 % 2 == 1 }

  predicate User(e: nat) { e / 4 % 2 == 1 }

  predicate NoCache(e: nat) { e / 16 % 2 == 1 }

  predicate Large(e: nat) { e / 128 % 2 == 1 }

  predicate NoExecute(e: nat) { e / 0x8000_0000_0000_0000 % 2 == 1 }

  /** The frame number an entry points to. */
  function Target(e: nat): nat { e / PAGE_SIZE % FRAMES }

  /** An entry of a level-L table that points to a table of the level below, not to a page. */
  predicate IsLink(L: nat, e: nat) {
    L > 1 && Present(e) && !(L < 4 && Large(e))
  }

  // ----- Pages

  /** The number of the page that holds a virtual address; bits 48 to 63 take no part in a walk. */
  function PageOf(virt: nat): (p: nat)
    ensures p < PAGES
  {
    virt / PAGE_SIZE % PAGES
  }

  /** The index that page p selects in a level-L table. */
  function Index(p: nat, L: nat): (i: nat)
    ensures i < WORDS_PER_FRAME
    decreases L, p
  {
    if L <= 1 then p % 512 else Index(p / 512, L - 1)
  }

  lemma {:induction false} IndicesDeterminePage(p: nat, q: nat)
    requires p < PAGES && q < PAGES
    requires forall L :: 1 <= L <= 4 ==> Index(p, L) == Index(q, L)
    ensures p == q
  {
    Digits(p);
    Digits(q);
    assert Index(p, 1) == Index(q, 1) && Index(p, 2) == Index(q, 2);
    assert Index(p, 3) == Index(q, 3) && Index(p, 4) == Index(q, 4);
    var p2, q2 := p / 512, q / 512;
    var p3, q3 := p2 / 512, q2 / 512;
    var p4, q4 := p3 / 512, q3 / 512;
    assert p4 == q4;
    assert p3 == q3;
    assert p2 == q2;
  }

  /** The indices of a page are its digits in base 512. */
  lemma Digits(p: nat)
    ensures Index(p, 1) == p % 512
    ensures Index(p, 2) == p / 512 % 512
    ensures Index(p, 3) == p / 512 / 512 % 512
    ensures Index(p, 4) == p / 512 / 512 / 512 % 512
  {
    assert Index(p, 2) == Index(p / 512, 1);
    assert Index(p, 3) == Index(p / 512, 2) == Index(p / 512 / 512, 1);
    assert Index(p, 4) == Index(p / 512, 3) == Index(p / 512 / 512, 2) == Index(p / 512 / 512 / 512, 1);
  }

  // ----- The walk

  /** Write, user and execute-disable: anded, anded and ored over the levels of a walk. */
  datatype Rights = Rights(writable: bool, user: bool, noExecute: bool)
  {
    function Meet(r: Rights): Rights {
      Rights(writable && r.writable, user && r.user, noExecute || r.noExecute)
    }
  }

  const FULL := Rights(true, true, false)

  function EntryRights(e: nat): Rights {
    Rights(Writable(e), User(e), NoExecute(e))
  }

  /** What a completed walk yields; level 1 is a 4 KiB page, 2 and 3 are large pages. */
  datatype Mapping = Mapping(level: nat, frame: nat, noCache: bool, rights: Rights)
  {
    function Restrict(r: Rights): Mapping { this.(rights := r.Meet(rights)) }
  }

  function LeafMapping(L: nat, e: nat): Mapping {
    Mapping(L, Target(e), NoCache(e), EntryRights(e))
  }

  /** The walk for page p from the level-L table in frame f. */
  function Walk(mem: seq<uint64>, f: nat, L: nat, p: nat): Option<Mapping>
    decreases L, p
  {
    var e := Word(mem, f, Index(p, L));
    if L == 0 || !Present(e) then None
    else if !IsLink(L, e) then Some(LeafMapping(L, e))
    else match Walk(mem, Target(e), L - 1, p)
      case None => None
      case Some(m) => Some(m.Restrict(EntryRights(e)))
  }

  /** The frame of the level-1 table that the walk for p reaches. */
  function LastTable(mem: seq<uint64>, f: nat, L: nat, p: nat): Option<nat>
    decreases L, p
  {
    var e := Word(mem, f, Index(p, L));
    if L == 1 then Some(f)
    else if IsLink(L, e) then LastTable(mem, Target(e), L - 1, p)
    else None
  }

  /** The rights left over by the tables that are already there for p. */
  function PathRights(mem: seq<uint64>, f: nat, L: nat, p: nat): Rights
    decreases L, p
  {
    var e := Word(mem, f, Index(p, L));
    if IsLink(L, e) then EntryRights(e).Meet(PathRights(mem, Target(e), L - 1, p))
    else FULL
  }

  /** How many tables are missing on the path to p. */
  function Missing(mem: seq<uint64>, f: nat, L: nat, p: nat): (n: nat)
    ensures n < L || n == L == 0
    decreases L, p
  {
    var e := Word(mem, f, Index(p, L));
    if L <= 1 then 0
    else if IsLink(L, e) then Missing(mem, Target(e), L - 1, p)
    else L - 1
  }

  /** No large page lies on the path to p. */
  predicate NoLargePage(mem: seq<uint64>, f: nat, L: nat, p: nat)
    decreases L, p
  {
    var e := Word(mem, f, Index(p, L));
    L <= 1 || !Present(e) || (IsLink(L, e) && NoLargePage(mem, Target(e), L - 1, p))
  }

  // ----- The tree

  /** Which frames hold tables, at which level, and the table and index of the one entry that
      points to each. */
  datatype Tree = Tree(root: nat, level: map<nat, nat>, parent: map<nat, nat>, slot: map<nat, nat>)

  ghost predicate WellFormed(mem: seq<uint64>, t: Tree) {
    && t.root in t.level && t.level[t.root] == 4
    && (forall f :: f in t.level ==> 1 <= t.level[f] <= 4 && WORDS_PER_FRAME * f + WORDS_PER_FRAME <= |mem|)
    && (forall f, i: nat :: f in t.level && i < WORDS_PER_FRAME && IsLink(t.level[f], Word(mem, f, i)) ==>
          PointsTo(t, f, i, Target(Word(mem, f, i))))
  }

  /** Entry i of table f is the parent entry of table g. */
  predicate PointsTo(t: Tree, f: nat, i: nat, g: nat) {
    && f in t.level && g in t.level && t.level[g] + 1 == t.level[f]
    && g in t.parent && t.parent[g] == f && g in t.slot && t.slot[g] == i
  }

  lemma TablesFit(mem: seq<uint64>, t: Tree)
    requires WellFormed(mem, t)
    ensures t.root in t.level && t.level[t.root] == 4
    ensures forall f :: f in t.level ==> WORDS_PER_FRAME * f + WORDS_PER_FRAME <= |mem|
  {
  }

  function Lookup(pages: map<nat, Mapping>, p: nat): Option<Mapping> {
    if p in pages then Some(pages[p]) else None
  }

  /** The plain page map says of every page what the four-level walk says. */
  ghost predicate Describes(pages: map<nat, Mapping>, mem: seq<uint64>, root: nat) {
    && (forall p :: p in pages ==> p < PAGES)
    && (forall p: nat {:trigger Walk(mem, root, 4, p)} :: p < PAGES ==> Walk(mem, root, 4, p) == Lookup(pages, p))
  }

  lemma PageMapExists(mem: seq<uint64>, root: nat) returns (pages: map<nat, Mapping>)
    ensures Describes(pages, mem, root)
  {
    pages := map p: nat | p < PAGES && Walk(mem, root, 4, p).Some? :: Walk(mem, root, 4, p).value;
  }

  /** Walks from table f see the same in both memories. */
  ghost predicate SameWalks(before: seq<uint64>, after: seq<uint64>, f: nat, L: nat) {
    forall p: nat :: Walk(after, f, L, p) == Walk(before, f, L, p)
  }

  /** Every page keeps the rights of its path, and no large page appears on one or goes away. */
  ghost predicate SamePaths(before: seq<uint64>, after: seq<uint64>, root: nat) {
    && (forall p: nat :: PathRights(after, root, 4, p) == PathRights(before, root, 4, p))
    && (forall p: nat :: NoLargePage(after, root, 4, p) == NoLargePage(before, root, 4, p))
  }

  // ----- Walks stay inside the tree and never share a table

  lemma {:induction false} DisjointPaths(mem: seq<uint64>, t: Tree, f: nat, g: nat, L: nat, p: nat, q: nat)
    requires WellFormed(mem, t)
    requires f in t.level && t.level[f] == L && g in t.level && t.level[g] == L
    requires LastTable(mem, f, L, p).Some? && LastTable(mem, f, L, p) == LastTable(mem, g, L, q)
    ensures f == g
    ensures forall k :: 2 <= k <= L ==> Index(p, k) == Index(q, k)
    decreases L
  {
    if L > 1 {
      var c, d := Target(Word(mem, f, Index(p, L))), Target(Word(mem, g, Index(q, L)));
      assert PointsTo(t, f, Index(p, L), c);
      assert PointsTo(t, g, Index(q, L), d);
      DisjointPaths(mem, t, c, d, L - 1, p, q);
    }
  }

  lemma {:induction false} LastTableInTree(mem: seq<uint64>, t: Tree, f: nat, L: nat, p: nat)
    requires WellFormed(mem, t) && f in t.level && t.level[f] == L
    requires LastTable(mem, f, L, p).Some?
    ensures LastTable(mem, f, L, p).value in t.level && t.level[LastTable(mem, f, L, p).value] == 1
    decreases L
  {
    if L > 1 {
      var c := Target(Word(mem, f, Index(p, L)));
      assert PointsTo(t, f, Index(p, L), c);
      LastTableInTree(mem, t, c, L - 1, p);
    }
  }

  /** The level-L table on the path from the root to page p, if the path gets that far. */
  function TableAt(mem: seq<uint64>, root: nat, p: nat, L: nat): Option<nat>
    decreases 4 - L, p
  {
    if L >= 4 then Some(root)
    else match TableAt(mem, root, p, L + 1)
      case None => None
      case Some(f) =>
        var e := Word(mem, f, Index(p, L + 1));
        if IsLink(L + 1, e) then Some(Target(e)) else None
  }

  /** The rights of the entries that lead from the root to the level-L table for p. */
  function RightsAbove(mem: seq<uint64>, root: nat, p: nat, L: nat): Rights
    decreases 4 - L, p
  {
    if L >= 4 then FULL
    else match TableAt(mem, root, p, L + 1)
      case None => FULL
      case Some(f) => EntryRights(Word(mem, f, Index(p, L + 1))).Meet(RightsAbove(mem, root, p, L + 1))
  }

  function Under(r: Rights, m: Option<Mapping>): Option<Mapping> {
    match m case None => None case Some(v) => Some(v.Restrict(r))
  }

  /** What lies below a table on the path of p is what lies below the root for p. */
  lemma {:induction false} BelowTableAt(mem: seq<uint64>, t: Tree, p: nat, L: nat)
    requires WellFormed(mem, t) && 1 <= L <= 4 && TableAt(mem, t.root, p, L).Some?
    ensures var f := TableAt(mem, t.root, p, L).value;
            && f in t.level && t.level[f] == L
            && Missing(mem, f, L, p) == Missing(mem, t.root, 4, p)
            && NoLargePage(mem, f, L, p) == NoLargePage(mem, t.root, 4, p)
            && LastTable(mem, f, L, p) == LastTable(mem, t.root, 4, p)
            && Walk(mem, t.root, 4, p) == Under(RightsAbove(mem, t.root, p, L), Walk(mem, f, L, p))
    decreases 4 - L
  {
    if L < 4 {
      BelowTableAt(mem, t, p, L + 1);
      var f := TableAt(mem, t.root, p, L + 1).value;
      assert PointsTo(t, f, Index(p, L + 1), Target(Word(mem, f, Index(p, L + 1))));
    }
  }

  lemma NothingMissing(mem: seq<uint64>, t: Tree, p: nat)
    requires WellFormed(mem, t) && TableAt(mem, t.root, p, 1).Some?
    ensures Missing(mem, t.root, 4, p) == 0
  {
    BelowTableAt(mem, t, p, 1);
  }

  /** p / 512^L: what pages that share their level-L table have in common. */
  function PrefixOf(p: nat, L: nat): nat
    decreases L, p
  {
    if L == 0 then p else PrefixOf(p / 512, L - 1)
  }

  lemma {:induction false} PrefixStep(p: nat, L: nat)
    ensures Index(p, L + 1) == PrefixOf(p, L) % 512
    ensures PrefixOf(p, L + 1) == PrefixOf(p, L) / 512
    decreases L
  {
    if L > 0 { PrefixStep(p / 512, L - 1); }
  }

  lemma {:induction false} PathDependsOnPrefix(mem: seq<uint64>, root: nat, p: nat, q: nat, L: nat)
    requires L <= 4 && PrefixOf(p, L) == PrefixOf(q, L)
    ensures TableAt(mem, root, p, L) == TableAt(mem, root, q, L)
    ensures RightsAbove(mem, root, p, L) == RightsAbove(mem, root, q, L)
    decreases 4 - L
  {
    if L < 4 {
      PrefixStep(p, L);
      PrefixStep(q, L);
      PathDependsOnPrefix(mem, root, p, q, L + 1);
    }
  }

  // ----- Writes outside the tree

  lemma {:induction false} OutsideWrites(before: seq<uint64>, after: seq<uint64>, t: Tree, f: nat, L: nat, p: nat)
    requires WellFormed(before, t) && f in t.level && t.level[f] == L
    requires forall g | g in t.level :: SameFrame(before, after, g)
    ensures Walk(after, f, L, p) == Walk(before, f, L, p)
    ensures PathRights(after, f, L, p) == PathRights(before, f, L, p)
    ensures LastTable(after, f, L, p) == LastTable(before, f, L, p)
    ensures Missing(after, f, L, p) == Missing(before, f, L, p)
    ensures NoLargePage(after, f, L, p) == NoLargePage(before, f, L, p)
    decreases L
  {
    var i := Index(p, L);
    assert Word(after, f, i) == Word(before, f, i);
    if IsLink(L, Word(before, f, i)) {
      assert PointsTo(t, f, i, Target(Word(before, f, i)));
      OutsideWrites(before, after, t, Target(Word(before, f, i)), L - 1, p);
    }
  }

  lemma {:induction false} OutsideKeepsPath(before: seq<uint64>, after: seq<uint64>, t: Tree, p: nat, L: nat)
    requires WellFormed(before, t) && 1 <= L <= 4
    requires forall g | g in t.level :: SameFrame(before, after, g)
    ensures TableAt(after, t.root, p, L) == TableAt(before, t.root, p, L)
    ensures RightsAbove(after, t.root, p, L) == RightsAbove(before, t.root, p, L)
    decreases 4 - L
  {
    if L < 4 {
      OutsideKeepsPath(before, after, t, p, L + 1);
      if TableAt(before, t.root, p, L + 1).Some? {
        BelowTableAt(before, t, p, L + 1);
        var g := TableAt(before, t.root, p, L + 1).value;
        assert SameFrame(before, after, g);
        assert Word(after, g, Index(p, L + 1)) == Word(before, g, Index(p, L + 1));
      }
    }
  }

  // ----- Linking a new table

  /** The only table word that changed is entry i of table f. */
  ghost predicate OnlyEntry(before: seq<uint64>, after: seq<uint64>, t: Tree, f: nat, i: nat) {
    && |after| == |before|
    && forall g, j: nat :: g in t.level && j < WORDS_PER_FRAME && (g != f || j != i) ==>
         Word(after, g, j) == Word(before, g, j)
  }

  /** Entry i of table f was empty and now links to the cleared frame g, with full rights. */
  ghost predicate LinksNew(before: seq<uint64>, after: seq<uint64>, t: Tree, f: nat, i: nat, g: nat) {
    && f in t.level && t.level[f] > 1 && i < WORDS_PER_FRAME && g !in t.level
    && WORDS_PER_FRAME * g + WORDS_PER_FRAME <= |after|
    && OnlyEntry(before, after, t, f, i) && ZeroFrame(after, g)
    && !Present(Word(before, f, i))
    && IsLink(t.level[f], Word(after, f, i))
    && Target(Word(after, f, i)) == g && EntryRights(Word(after, f, i)) == FULL
  }

  function Extend(t: Tree, f: nat, i: nat, g: nat): Tree
    requires f in t.level && t.level[f] > 1
  {
    Tree(t.root, t.level[g := t.level[f] - 1], t.parent[g := f], t.slot[g := i])
  }

  lemma LinkKeepsTree(before: seq<uint64>, after: seq<uint64>, t: Tree, f: nat, i: nat, g: nat)
    requires WellFormed(before, t) && LinksNew(before, after, t, f, i, g)
    ensures WellFormed(after, Extend(t, f, i, g))
  {
    var t' := Extend(t, f, i, g);
    forall h, j: nat | h in t'.level && j < WORDS_PER_FRAME && IsLink(t'.level[h], Word(after, h, j))
      ensures PointsTo(t', h, j, Target(Word(after, h, j)))
    {
      if h != g && (h != f || j != i) {
        assert PointsTo(t, h, j, Target(Word(before, h, j)));
      }
    }
  }

  lemma EmptyTable(mem: seq<uint64>, g: nat, L: nat, p: nat)
    requires ZeroFrame(mem, g)
    ensures Walk(mem, g, L, p) == None && PathRights(mem, g, L, p) == FULL
    ensures L > 0 ==> Missing(mem, g, L, p) == L - 1 && NoLargePage(mem, g, L, p)
  {
    assert Word(mem, g, Index(p, L)) == 0;
  }

  lemma {:induction false} LinkKeepsWalks(before: seq<uint64>, after: seq<uint64>, t: Tree,
                                          f: nat, i: nat, g: nat, h: nat, L: nat, p: nat)
    requires WellFormed(before, t) && LinksNew(before, after, t, f, i, g)
    requires h in t.level && t.level[h] == L
    ensures Walk(after, h, L, p) == Walk(before, h, L, p)
    ensures PathRights(after, h, L, p) == PathRights(before, h, L, p)
    ensures NoLargePage(after, h, L, p) == NoLargePage(before, h, L, p)
    decreases L
  {
    var j := Index(p, L);
    if h == f && j == i {
      EmptyTable(after, g, L - 1, p);
    } else {
      assert Word(after, h, j) == Word(before, h, j);
      if IsLink(L, Word(before, h, j)) {
        assert PointsTo(t, h, j, Target(Word(before, h, j)));
        LinkKeepsWalks(before, after, t, f, i, g, Target(Word(before, h, j)), L - 1, p);
      }
    }
  }

  // ----- Which paths a link opens

  lemma TopPrefix(p: nat)
    requires p < PAGES
    ensures PrefixOf(p, 4) == 0
  {
    assert PrefixOf(p, 4) == PrefixOf(p / 512, 3) == PrefixOf(p / 512 / 512, 2);
    assert PrefixOf(p / 512 / 512, 2) == PrefixOf(p / 512 / 512 / 512, 1) == PrefixOf(p / 512 / 512 / 512 / 512, 0);
  }

  /** Pages that share their level-L table agree in all that is above it. */
  lemma {:induction false} PathsMeet(mem: seq<uint64>, t: Tree, p: nat, q: nat, L: nat)
    requires WellFormed(mem, t) && p < PAGES && q < PAGES && 1 <= L <= 4
    requires TableAt(mem, t.root, p, L).Some? && TableAt(mem, t.root, q, L) == TableAt(mem, t.root, p, L)
    ensures PrefixOf(q, L) == PrefixOf(p, L)
    decreases 4 - L
  {
    if L == 4 {
      TopPrefix(p);
      TopPrefix(q);
    } else {
      BelowTableAt(mem, t, p, L + 1);
      BelowTableAt(mem, t, q, L + 1);
      var f, h := TableAt(mem, t.root, p, L + 1).value, TableAt(mem, t.root, q, L + 1).value;
      assert PointsTo(t, f, Index(p, L + 1), TableAt(mem, t.root, p, L).value);
      assert PointsTo(t, h, Index(q, L + 1), TableAt(mem, t.root, q, L).value);
      PathsMeet(mem, t, p, q, L + 1);
      PrefixStep(p, L);
      PrefixStep(q, L);
    }
  }

  /** Every table that was there still is, and a new one serves pages that share it with p. */
  ghost predicate OpensOnly(before: seq<uint64>, after: seq<uint64>, root: nat, p: nat) {
    forall q: nat, L: nat {:trigger TableAt(after, root, q, L)} :: q < PAGES && 1 <= L <= 3 ==>
      (TableAt(after, root, q, L).Some? <==>
         TableAt(before, root, q, L).Some? || (PrefixOf(q, L) == PrefixOf(p, L) && TableAt(after, root, p, L).Some?))
  }

  lemma {:induction false} LinkOpensAt(before: seq<uint64>, after: seq<uint64>, t: Tree, f: nat, i: nat, g: nat,
                                       p: nat, q: nat, K: nat)
    requires WellFormed(before, t) && LinksNew(before, after, t, f, i, g) && p < PAGES && q < PAGES
    requires TableAt(before, t.root, p, t.level[f]) == Some(f) && i == Index(p, t.level[f]) && 1 <= K <= 4
    ensures TableAt(before, t.root, q, K).Some? ==> TableAt(after, t.root, q, K) == TableAt(before, t.root, q, K)
    ensures TableAt(before, t.root, q, K).None? && TableAt(after, t.root, q, K).Some? ==>
              K + 1 == t.level[f] && TableAt(after, t.root, q, K) == Some(g) && PrefixOf(q, K) == PrefixOf(p, K)
    decreases 4 - K
  {
    hide Walk, LastTable, NoLargePage, RightsAbove, Missing, PrefixOf, Index;
    if K < 4 {
      LinkOpensAt(before, after, t, f, i, g, p, q, K + 1);
      var j := Index(q, K + 1);
      if TableAt(before, t.root, q, K + 1).Some? {
        BelowTableAt(before, t, q, K + 1);
        var h := TableAt(before, t.root, q, K + 1).value;
        if h == f && j == i {
          PathsMeet(before, t, p, q, K + 1);
          PrefixStep(p, K);
          PrefixStep(q, K);
        } else {
          assert Word(after, h, j) == Word(before, h, j);
        }
      } else if TableAt(after, t.root, q, K + 1).Some? {
        assert Word(after, g, j) == 0;
      }
    }
  }

  /** Linking a new table on the path of p opens the paths of the pages that share it with p. */
  lemma LinkOpensPath(before: seq<uint64>, after: seq<uint64>, t: Tree, f: nat, i: nat, g: nat, p: nat)
    requires WellFormed(before, t) && LinksNew(before, after, t, f, i, g) && p < PAGES
    requires TableAt(before, t.root, p, t.level[f]) == Some(f) && i == Index(p, t.level[f])
    ensures OpensOnly(before, after, t.root, p)
  {
    forall q: nat, K: nat {:trigger TableAt(after, t.root, q, K)} | q < PAGES && 1 <= K <= 3
      ensures TableAt(after, t.root, q, K).Some? <==>
                TableAt(before, t.root, q, K).Some?
                || (PrefixOf(q, K) == PrefixOf(p, K) && TableAt(after, t.root, p, K).Some?)
    {
      LinkOpensAt(before, after, t, f, i, g, p, q, K);
      if PrefixOf(q, K) == PrefixOf(p, K) {
        PathDependsOnPrefix(after, t.root, q, p, K);
      }
    }
  }

  /** The path of every page leads through the tables it led through before. */
  ghost predicate SameTables(before: seq<uint64>, after: seq<uint64>, root: nat) {
    forall q: nat, L: nat {:trigger TableAt(after, root, q, L)} :: 1 <= L <= 4 ==>
      TableAt(after, root, q, L) == TableAt(before, root, q, L)
  }

  lemma SameTablesOpenNothing(before: seq<uint64>, after: seq<uint64>, root: nat, p: nat)
    requires SameTables(before, after, root)
    ensures OpensOnly(before, after, root, p)
  {
    forall q: nat, L: nat {:trigger TableAt(after, root, q, L)} | q < PAGES && 1 <= L <= 3
      ensures TableAt(after, root, q, L).Some? <==>
                TableAt(before, root, q, L).Some?
                || (PrefixOf(q, L) == PrefixOf(p, L) && TableAt(after, root, p, L).Some?)
    {
      if PrefixOf(q, L) == PrefixOf(p, L) {
        PathDependsOnPrefix(after, root, q, p, L);
      }
    }
  }

  lemma OpensChain(m0: seq<uint64>, m1: seq<uint64>, m2: seq<uint64>, root: nat, p: nat)
    requires OpensOnly(m0, m1, root, p) && OpensOnly(m1, m2, root, p) && p < PAGES
    ensures OpensOnly(m0, m2, root, p)
  {
    forall q: nat, L: nat {:trigger TableAt(m2, root, q, L)} | q < PAGES && 1 <= L <= 3
      ensures TableAt(m2, root, q, L).Some? <==>
                TableAt(m0, root, q, L).Some? || (PrefixOf(q, L) == PrefixOf(p, L) && TableAt(m2, root, p, L).Some?)
    {
      assert TableAt(m1, root, q, L).Some? <==>
               TableAt(m0, root, q, L).Some? || (PrefixOf(q, L) == PrefixOf(p, L) && TableAt(m1, root, p, L).Some?);
      assert TableAt(m1, root, p, L).Some? ==> TableAt(m2, root, p, L).Some?;
    }
  }

  // ----- How many tables a range of pages needs

  /** The level-L table of all pages with these upper bits. */
  datatype Prefix = Prefix(level: nat, bits: nat)

  /** The tables that are missing for the n pages from first on. */
  ghost function MissingTables(mem: seq<uint64>, root: nat, first: nat, n: nat): set<Prefix> {
    set p: nat, L: nat | first <= p < first + n && 1 <= L <= 3 && TableAt(mem, root, p, L).None? ::
      Prefix(L, PrefixOf(p, L))
  }

  /** For one page they are as many as Missing counts. */
  lemma MissingForOne(mem: seq<uint64>, t: Tree, p: nat)
    requires WellFormed(mem, t)
    ensures |MissingTables(mem, t.root, p, 1)| == Missing(mem, t.root, 4, p)
  {
    hide Walk, LastTable, NoLargePage, RightsAbove, Index, PrefixOf;
    var all := MissingTables(mem, t.root, p, 1);
    var k1, k2, k3 := Prefix(1, PrefixOf(p, 1)), Prefix(2, PrefixOf(p, 2)), Prefix(3, PrefixOf(p, 3));
    if TableAt(mem, t.root, p, 3).None? {
      BelowTableAt(mem, t, p, 4);
      assert TableAt(mem, t.root, p, 4) == Some(t.root);
      assert !IsLink(4, Word(mem, t.root, Index(p, 4)));
      assert TableAt(mem, t.root, p, 2).None? && TableAt(mem, t.root, p, 1).None?;
      assert all == {k1, k2, k3};
    } else if TableAt(mem, t.root, p, 2).None? {
      BelowTableAt(mem, t, p, 3);
      assert TableAt(mem, t.root, p, 1).None?;
      assert all == {k1, k2};
    } else if TableAt(mem, t.root, p, 1).None? {
      BelowTableAt(mem, t, p, 2);
      assert all == {k1};
    } else {
      BelowTableAt(mem, t, p, 1);
      assert TableAt(mem, t.root, p, 2).Some? && TableAt(mem, t.root, p, 3).Some?;
      assert all == {};
    }
  }

  /** Once the tables of the first page are there, the others lack those that they do not share with it. */
  lemma MissingShrinks(m0: seq<uint64>, m1: seq<uint64>, root: nat, first: nat, n: nat)
    requires OpensOnly(m0, m1, root, first) && n > 0 && first + n <= PAGES
    requires forall L :: 1 <= L <= 3 ==> TableAt(m1, root, first, L).Some?
    ensures |MissingTables(m1, root, first + 1, n - 1)| + |MissingTables(m0, root, first, 1)|
            == |MissingTables(m0, root, first, n)|
  {
    var rest, one, all := MissingTables(m1, root, first + 1, n - 1), MissingTables(m0, root, first, 1),
                          MissingTables(m0, root, first, n);
    forall k | k in rest ensures k in all && k !in one {
      var q: nat, L: nat :| first + 1 <= q < first + n && 1 <= L <= 3 && TableAt(m1, root, q, L).None?
                            && k == Prefix(L, PrefixOf(q, L));
      assert TableAt(m0, root, q, L).None? && PrefixOf(q, L) != PrefixOf(first, L);
    }
    forall k | k in all && k !in one ensures k in rest {
      var q: nat, L: nat :| first <= q < first + n && 1 <= L <= 3 && TableAt(m0, root, q, L).None?
                            && k == Prefix(L, PrefixOf(q, L));
      if PrefixOf(q, L) == PrefixOf(first, L) {
        PathDependsOnPrefix(m0, root, q, first, L);
      }
      assert TableAt(m1, root, q, L).None?;
    }
    assert one <= all;
    assert rest == all - one;
  }

  lemma MissingGrows(mem: seq<uint64>, root: nat, first: nat, m: nat, n: nat)
    requires m <= n
    ensures |MissingTables(mem, root, first, m)| <= |MissingTables(mem, root, first, n)|
  {
    var some, all := MissingTables(mem, root, first, m), MissingTables(mem, root, first, n);
    assert all == some + (all - some);
  }

  lemma TablesAbove(mem: seq<uint64>, root: nat, p: nat)
    requires TableAt(mem, root, p, 1).Some?
    ensures forall L :: 1 <= L <= 3 ==> TableAt(mem, root, p, L).Some?
  {
    assert TableAt(mem, root, p, 2).Some? && TableAt(mem, root, p, 3).Some?;
  }

  // ----- Writing a leaf

  lemma LeafKeepsTree(before: seq<uint64>, after: seq<uint64>, t: Tree, f: nat, i: nat)
    requires WellFormed(before, t) && f in t.level && t.level[f] == 1
    requires OnlyEntry(before, after, t, f, i)
    ensures WellFormed(after, t)
  {
    forall h, j: nat | h in t.level && j < WORDS_PER_FRAME && IsLink(t.level[h], Word(after, h, j))
      ensures PointsTo(t, h, j, Target(Word(after, h, j)))
    {
      assert Word(after, h, j) == Word(before, h, j);
    }
  }

  /** A leaf write leaves the path to every table alone. */
  lemma {:induction false} LeafKeepsPaths(before: seq<uint64>, after: seq<uint64>, t: Tree, f: nat, i: nat, p: nat,
                                          L: nat)
    requires WellFormed(before, t) && f in t.level && t.level[f] == 1
    requires OnlyEntry(before, after, t, f, i)
    requires 1 <= L <= 4
    ensures TableAt(after, t.root, p, L) == TableAt(before, t.root, p, L)
    ensures RightsAbove(after, t.root, p, L) == RightsAbove(before, t.root, p, L)
    decreases 4 - L
  {
    if L < 4 {
      LeafKeepsPaths(before, after, t, f, i, p, L + 1);
      if TableAt(before, t.root, p, L + 1).Some? {
        BelowTableAt(before, t, p, L + 1);
        var g := TableAt(before, t.root, p, L + 1).value;
        assert Word(after, g, Index(p, L + 1)) == Word(before, g, Index(p, L + 1));
      }
    }
  }

  /** What a present or absent leaf entry means under the rights of its path. */
  function LeafUnder(r: Rights, e: nat): Option<Mapping> {
    if Present(e) then Some(LeafMapping(1, e).Restrict(r)) else None
  }

  lemma {:induction false} LeafWalk(before: seq<uint64>, after: seq<uint64>, t: Tree,
                                    f: nat, i: nat, h: nat, L: nat, p: nat)
    requires WellFormed(before, t) && f in t.level && t.level[f] == 1 && i < WORDS_PER_FRAME
    requires OnlyEntry(before, after, t, f, i)
    requires h in t.level && t.level[h] == L
    ensures PathRights(after, h, L, p) == PathRights(before, h, L, p)
    ensures LastTable(after, h, L, p) == LastTable(before, h, L, p)
    ensures NoLargePage(after, h, L, p) == NoLargePage(before, h, L, p)
    ensures Walk(after, h, L, p) ==
            if LastTable(before, h, L, p) == Some(f) && Index(p, 1) == i
            then LeafUnder(PathRights(before, h, L, p), Word(after, f, i))
            else Walk(before, h, L, p)
    decreases L
  {
    var j := Index(p, L);
    if h != f || j != i {
      assert Word(after, h, j) == Word(before, h, j);
    }
    if IsLink(L, Word(before, h, j)) {
      assert PointsTo(t, h, j, Target(Word(before, h, j)));
      LeafWalk(before, after, t, f, i, Target(Word(before, h, j)), L - 1, p);
    }
  }

  lemma LeafWriteElsewhere(before: seq<uint64>, after: seq<uint64>, t: Tree, f: nat, p: nat, q: nat)
    requires WellFormed(before, t) && p < PAGES
    requires LastTable(before, t.root, 4, p) == Some(f)
    requires OnlyEntry(before, after, t, f, Index(p, 1))
    ensures PathRights(after, t.root, 4, q) == PathRights(before, t.root, 4, q)
    ensures NoLargePage(after, t.root, 4, q) == NoLargePage(before, t.root, 4, q)
    ensures q < PAGES && q != p ==> Walk(after, t.root, 4, q) == Walk(before, t.root, 4, q)
    ensures q == p ==> Walk(after, t.root, 4, p) ==
                       LeafUnder(PathRights(before, t.root, 4, p), Word(after, f, Index(p, 1)))
  {
    LastTableInTree(before, t, t.root, 4, p);
    LeafWalk(before, after, t, f, Index(p, 1), t.root, 4, q);
    if q < PAGES && q != p && LastTable(before, t.root, 4, q) == Some(f) && Index(q, 1) == Index(p, 1) {
      DisjointPaths(before, t, t.root, t.root, 4, p, q);
      IndicesDeterminePage(p, q);
    }
  }

  /** The page map with page p set to m, or removed. */
  function Updated(pages: map<nat, Mapping>, p: nat, m: Option<Mapping>): map<nat, Mapping> {
    if m.Some? then pages[p := m.value] else pages - {p}
  }

  /** A leaf write through the path of page p changes what the hardware makes of p and of no
      other page. */
  lemma LeafWriteIsMapUpdate(before: seq<uint64>, after: seq<uint64>, t: Tree, f: nat, p: nat,
                             pages: map<nat, Mapping>)
    requires WellFormed(before, t) && p < PAGES
    requires LastTable(before, t.root, 4, p) == Some(f)
    requires OnlyEntry(before, after, t, f, Index(p, 1))
    requires Describes(pages, before, t.root)
    ensures Describes(Updated(pages, p, LeafUnder(PathRights(before, t.root, 4, p), Word(after, f, Index(p, 1)))),
                      after, t.root)
  {
    var pages' := Updated(pages, p, LeafUnder(PathRights(before, t.root, 4, p), Word(after, f, Index(p, 1))));
    forall q: nat | q < PAGES ensures Walk(after, t.root, 4, q) == Lookup(pages', q) {
      LeafWriteElsewhere(before, after, t, f, p, q);
      assert Walk(before, t.root, 4, q) == Lookup(pages, q);
    }
  }

  lemma SameWalksSamePages(before: seq<uint64>, after: seq<uint64>, root: nat, pages: map<nat, Mapping>)
    requires SameWalks(before, after, root, 4) && Describes(pages, before, root)
    ensures Describes(pages, after, root)
  {
    forall q: nat | q < PAGES ensures Walk(after, root, 4, q) == Lookup(pages, q) {
      assert Walk(before, root, 4, q) == Lookup(pages, q);
    }
  }
}
