/** How kernel/arch/x86_64/mm/vmm.c puts page-table entries together, bit by bit, and that the
    hardware's reading of them gives back what was asked for. */
module Entries {
  import opened Words
  import opened PageTables

  const PTE_PRESENT: nat := 0x1
  const PTE_WRITABLE: nat := 0x2
  const PTE_USER: nat := 0x4
  const PTE_CACHE_DISABLE: nat := 0x10
  const PTE_NO_EXECUTE: nat := 0x8000_0000_0000_0000
  const PTE_ADDR_MASK: nat := 0x000f_ffff_ffff_f000

  const VMM_WRITABLE: nat := 1
  const VMM_USER: nat := 2
  const VMM_NO_CACHE: nat := 4
  const VMM_NO_EXECUTE: nat := 8

  function SetIf(entry: nat, flags: nat, flag: nat, bit: nat): nat {
    if And(flags, flag) != 0 then Or(entry, bit) else entry
  }

  function TranslateFlags(flags: uint32): nat {
    var entry := PTE_PRESENT;
    var entry := SetIf(entry, flags, VMM_WRITABLE, PTE_WRITABLE);
    var entry := SetIf(entry, flags, VMM_USER, PTE_USER);
    var entry := SetIf(entry, flags, VMM_NO_CACHE, PTE_CACHE_DISABLE);
    SetIf(entry, flags, VMM_NO_EXECUTE, PTE_NO_EXECUTE)
  }

  /** The entry vmm_map writes. */
  function LeafEntry(phys: uint64, flags: uint32): nat {
    Or(And(phys, PTE_ADDR_MASK), TranslateFlags(flags))
  }

  /** The entry ensure_next_level writes. */
  function LinkEntry(phys: uint64): nat {
    Or(Or(Or(phys, PTE_PRESENT), PTE_WRITABLE), PTE_USER)
  }

  /** What the caller asked for, read straight off the VMM_* flags. */
  function AskedRights(flags: nat): Rights {
    Rights(flags % 2 == 1, flags / 2 % 2 == 1, flags / 8 % 2 == 1)
  }

  function AskedMapping(phys: nat, flags: nat): Mapping {
    Mapping(1, phys / PAGE_SIZE % FRAMES, flags / 4 % 2 == 1, AskedRights(flags))
  }

  function Low(flags: nat): nat {
    1 + 2 * (flags % 2) + 4 * (flags / 2 % 2) + 16 * (flags / 4 % 2)
  }

  lemma SetIfAdds(entry: nat, flags: nat, k: nat, flag: nat, j: nat, bit: nat)
    requires Pow2(k) == flag && Pow2(j) == bit && entry < bit
    ensures SetIf(entry, flags, flag, bit) == entry + (if flags / flag % 2 == 1 then bit else 0)
  {
    TestBit(flags, k, flag);
    SetHighBit(entry, j, bit);
  }

  lemma TranslateFlagsValue(flags: uint32)
    ensures TranslateFlags(flags) == Low(flags) + PTE_NO_EXECUTE * (flags / 8 % 2)
  {
    var k3, k4, _, _, _, _, _, _, _, k63 := Exponents();
    var k1 := ExponentOne();
    var k2 := Square(k1, 2);
    SetIfAdds(PTE_PRESENT, flags, 0, VMM_WRITABLE, k1, PTE_WRITABLE);
    SetIfAdds(1 + 2 * (flags % 2), flags, k1, VMM_USER, k2, PTE_USER);
    SetIfAdds(1 + 2 * (flags % 2) + 4 * (flags / 2 % 2), flags, k2, VMM_NO_CACHE, k4, PTE_CACHE_DISABLE);
    SetIfAdds(Low(flags), flags, k3, VMM_NO_EXECUTE, k63, PTE_NO_EXECUTE);
  }

  lemma AddressBits(phys: uint64)
    ensures And(phys, PTE_ADDR_MASK) == phys / PAGE_SIZE % FRAMES * PAGE_SIZE
  {
    var _, _, _, k12, k40, _, _, _, _, _ := Exponents();
    AndField(phys, k12, k40);
    ShiftBy(FRAMES - 1, k12, PAGE_SIZE);
    ShiftBy(phys, k12, PAGE_SIZE);
    ShiftBy(phys / PAGE_SIZE % FRAMES, k12, PAGE_SIZE);
  }

  /** `|` of a shifted frame number with low flag bits and the execute-disable bit. */
  lemma OrFrame(frame: nat, low: nat, nx: nat)
    requires frame < FRAMES && low < PAGE_SIZE && nx < 2
    ensures Or(frame * PAGE_SIZE, low + PTE_NO_EXECUTE * nx)
         == frame * PAGE_SIZE + low + PTE_NO_EXECUTE * nx
  {
    var high := 0x8_0000_0000_0000 * nx;
    var _, _, _, k, _, _, _, _, _, _ := Exponents();
    OrSplits(frame, 0, high, low, k);
    ShiftBy(frame, k, PAGE_SIZE);
    ShiftBy(high, k, PAGE_SIZE);
    ShiftBy(frame + high, k, PAGE_SIZE);
    OrHigh(frame, nx);
    assert PTE_NO_EXECUTE * nx == high * PAGE_SIZE;
  }

  lemma OrHigh(frame: nat, bit: nat)
    requires frame < FRAMES && bit < 2
    ensures Or(frame, 0x8_0000_0000_0000 * bit) == frame + 0x8_0000_0000_0000 * bit
  {
    if bit == 0 {
      OrCommutes(frame, 0);
    } else {
      var _, _, _, _, _, k51, _, _, _, _ := Exponents();
      SetHighBit(frame, k51, 0x8_0000_0000_0000);
    }
  }

  /** The table a present entry leads to, as the code computes it. */
  method NextTable(e: uint64) returns (frame: nat)
    ensures frame == Target(e)
  {
    AddressBits(e);
    frame := And(e, PTE_ADDR_MASK) / PAGE_SIZE;
  }

  method IsPresent(e: uint64) returns (b: bool)
    ensures b == Present(e)
  {
    TestBit(e, 0, 1);
    b := And(e, PTE_PRESENT) != 0;
  }

  lemma LeafEntryValue(phys: uint64, flags: uint32)
    ensures LeafEntry(phys, flags) ==
            phys / PAGE_SIZE % FRAMES * PAGE_SIZE + Low(flags) + PTE_NO_EXECUTE * (flags / 8 % 2)
  {
    TranslateFlagsValue(flags);
    AddressBits(phys);
    OrFrame(phys / PAGE_SIZE % FRAMES, Low(flags), flags / 8 % 2);
  }

  lemma LeafValueDecodes(frame: nat, w: nat, u: nat, c: nat, x: nat)
    requires frame < FRAMES && w < 2 && u < 2 && c < 2 && x < 2
    ensures var e := frame * PAGE_SIZE + 1 + 2 * w + 4 * u + 16 * c + PTE_NO_EXECUTE * x;
            && e < TWO_64 && Present(e) && !Large(e)
            && LeafMapping(1, e) == Mapping(1, frame, c == 1, Rights(w == 1, u == 1, x == 1))
  {
    var low := 1 + 2 * w + 4 * u + 16 * c;
    var e := frame * PAGE_SIZE + low + PTE_NO_EXECUTE * x;
    LeafFields(frame, low, x);
    LowFields(e, low, w, u, c);
  }

  lemma LeafFields(frame: nat, low: nat, x: nat)
    requires frame < FRAMES && low < PAGE_SIZE && x < 2
    ensures var e := frame * PAGE_SIZE + low + PTE_NO_EXECUTE * x;
            && e < TWO_64 && Target(e) == frame && e % PAGE_SIZE == low && (NoExecute(e) <==> x == 1)
  {
    var e := frame * PAGE_SIZE + low + PTE_NO_EXECUTE * x;
    DivModUnique(e, PAGE_SIZE, frame + 0x8_0000_0000_0000 * x, low);
    DivModUnique(e, PTE_NO_EXECUTE, x, frame * PAGE_SIZE + low);
    DivModUnique(e / PAGE_SIZE, FRAMES, 0x800 * x, frame);
  }

  lemma LowFields(e: nat, low: nat, w: nat, u: nat, c: nat)
    requires w < 2 && u < 2 && c < 2 && low == 1 + 2 * w + 4 * u + 16 * c
    requires e % PAGE_SIZE == low
    ensures Present(e) && !Large(e)
    ensures (Writable(e) <==> w == 1) && (User(e) <==> u == 1) && (NoCache(e) <==> c == 1)
  {
    var h := e / PAGE_SIZE;
    DivModUnique(e, 2, 0x800 * h + w + 2 * u + 8 * c, 1);
    DivModUnique(e / 2, 2, 0x400 * h + u + 4 * c, w);
    DivModUnique(e, 4, 0x400 * h + u + 4 * c, 1 + 2 * w);
    DivModUnique(e / 4, 2, 0x200 * h + 2 * c, u);
    DivModUnique(e, 16, 0x100 * h + c, 1 + 2 * w + 4 * u);
    DivModUnique(e / 16, 2, 0x80 * h, c);
    DivModUnique(e, 128, 0x20 * h, low);
    DivModUnique(e / 128, 2, 0x10 * h, 0);
  }

  /** Decoding the leaf that vmm_map writes gives back the frame and every flag. */
  lemma LeafDecodes(phys: uint64, flags: uint32)
    ensures LeafEntry(phys, flags) < TWO_64
    ensures Present(LeafEntry(phys, flags)) && !Large(LeafEntry(phys, flags))
    ensures LeafMapping(1, LeafEntry(phys, flags)) == AskedMapping(phys, flags)
  {
    LeafEntryValue(phys, flags);
    LeafValueDecodes(phys / PAGE_SIZE % FRAMES, flags % 2, flags / 2 % 2, flags / 4 % 2, flags / 8 % 2);
  }

  method MakeLeaf(phys: uint64, flags: uint32) returns (e: uint64)
    ensures Present(e) && LeafMapping(1, e) == AskedMapping(phys, flags)
  {
    LeafDecodes(phys, flags);
    e := LeafEntry(phys, flags);
  }

  lemma OrLowBits(frame: nat, l: nat, m: nat, r: nat)
    requires l < PAGE_SIZE && m < PAGE_SIZE && Or(l, m) == r
    ensures Or(frame * PAGE_SIZE + l, m) == frame * PAGE_SIZE + r
  {
    var _, _, _, k, _, _, _, _, _, _ := Exponents();
    ShiftBy(frame, k, PAGE_SIZE);
    ShiftBy(0, k, PAGE_SIZE);
    OrSplits(frame, l, 0, m, k);
    OrCommutes(frame, 0);
  }

  /** Decoding a link that ensure_next_level writes gives the new table and full rights. */
  lemma LinkDecodes(phys: uint64)
    requires phys % PAGE_SIZE == 0 && phys / PAGE_SIZE < FRAMES
    ensures LinkEntry(phys) == phys + 7
    ensures Present(LinkEntry(phys)) && !Large(LinkEntry(phys))
    ensures Target(LinkEntry(phys)) == phys / PAGE_SIZE
    ensures EntryRights(LinkEntry(phys)) == FULL
  {
    var frame := phys / PAGE_SIZE;
    OrLowBits(frame, 0, 1, 1);
    assert Or(1, 2) == 3;
    OrLowBits(frame, 1, 2, 3);
    assert Or(3, 4) == 7;
    OrLowBits(frame, 3, 4, 7);
    LinkValueDecodes(frame);
  }

  method MakeLink(phys: uint64) returns (e: uint64)
    requires phys % PAGE_SIZE == 0 && phys / PAGE_SIZE < FRAMES
    ensures Present(e) && !Large(e) && Target(e) == phys / PAGE_SIZE && EntryRights(e) == FULL
  {
    LinkDecodes(phys);
    e := LinkEntry(phys);
  }

  lemma LinkValueDecodes(frame: nat)
    requires frame < FRAMES
    ensures Present(frame * PAGE_SIZE + 7) && !Large(frame * PAGE_SIZE + 7)
    ensures Target(frame * PAGE_SIZE + 7) == frame && EntryRights(frame * PAGE_SIZE + 7) == FULL
  {
    var e := frame * PAGE_SIZE + 7;
    DivModUnique(e, PAGE_SIZE, frame, 7);
    DivModUnique(e, 2, 0x800 * frame + 3, 1);
    DivModUnique(e / 2, 2, 0x400 * frame + 1, 1);
    DivModUnique(e, 4, 0x400 * frame + 1, 3);
    DivModUnique(e / 4, 2, 0x200 * frame, 1);
    DivModUnique(e, 128, 0x20 * frame, 7);
    DivModUnique(e / 128, 2, 0x10 * frame, 0);
    DivModUnique(e, PTE_NO_EXECUTE, 0, e);
    DivModUnique(frame, FRAMES, 0, frame);
  }

  /** Dropping the low nine bits commutes with dropping the bits above. */
  lemma DropDigit(x: nat, m: nat, d: nat)
    requires m > 0 && d == 512 * m
    ensures x % d / 512 == x / 512 % m
  {
    var q, r := x / d, x % d;
    assert x == q * d + r && q * d == 512 * (q * m);
    assert r < 512 * m;
    assert x / 512 == q * m + r / 512;
    DivModUnique(x / 512, m, q, r / 512);
  }

  lemma IndexDigits(x: nat)
    ensures Index(x % PAGES, 1) == x % 512
    ensures Index(x % PAGES, 2) == x / 512 % 512
    ensures Index(x % PAGES, 3) == x / 512 / 512 % 512
    ensures Index(x % PAGES, 4) == x / 512 / 512 / 512 % 512
  {
    var p, y, z := x % PAGES, x / 512, x / 512 / 512;
    DropDigit(x, 0x800_0000, PAGES);
    DropDigit(y, 0x4_0000, 0x800_0000);
    DropDigit(z, 0x200, 0x4_0000);
    var p2, p3, p4 := y % 0x800_0000, z % 0x4_0000, z / 512 % 512;
    assert p / 512 == p2 && p2 / 512 == p3 && p3 / 512 == p4;
    Digits(p);
    DigitOf(x, 0x800_0000, PAGES);
    DigitOf(y, 0x4_0000, 0x800_0000);
    DigitOf(z, 0x200, 0x4_0000);
  }

  lemma DigitOf(x: nat, m: nat, d: nat)
    requires m > 0 && d == 512 * m
    ensures x % d % 512 == x % 512
  {
    var q, r := x / d, x % d;
    assert x == q * d + r && q * d == 512 * (q * m);
    DivModUnique(x, 512, q * m + r / 512, r % 512);
  }

  lemma UnitOfLevel(virt: nat)
    ensures virt / 0x20_0000 == virt / PAGE_SIZE / 512
    ensures virt / 0x4000_0000 == virt / PAGE_SIZE / 512 / 512
    ensures virt / 0x80_0000_0000 == virt / PAGE_SIZE / 512 / 512 / 512
  {
  }

  /** page_table_indices: shifting and masking the address gives the indices of its page. */
  method PageTableIndices(virt: uint64) returns (i4: nat, i3: nat, i2: nat, i1: nat)
    ensures i4 == Index(PageOf(virt), 4) && i3 == Index(PageOf(virt), 3)
    ensures i2 == Index(PageOf(virt), 2) && i1 == Index(PageOf(virt), 1)
  {
    i4 := And(virt / 0x80_0000_0000, 511);
    i3 := And(virt / 0x4000_0000, 511);
    i2 := And(virt / 0x20_0000, 511);
    i1 := And(virt / 0x1000, 511);
    ghost var _, _, k9, _, _, _, _, _, _, _ := Exponents();
    AndLowMask(virt / 0x80_0000_0000, k9);
    AndLowMask(virt / 0x4000_0000, k9);
    AndLowMask(virt / 0x20_0000, k9);
    AndLowMask(virt / 0x1000, k9);
    UnitOfLevel(virt);
    IndexDigits(virt / PAGE_SIZE);
  }
}
