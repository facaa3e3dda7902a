/** kernel/mm/pmm.c: the physical frame allocator.
    Physical memory is an array of 64-bit words, 512 to a frame. */
module PhysicalMemory {
  import opened Words

  const WORDS_PER_FRAME: nat := 512

  /** Word i of frame f. */
  function Word(mem: seq<uint64>, f: nat, i: nat): uint64 {
    if i < WORDS_PER_FRAME && WORDS_PER_FRAME * f + i < |mem| then mem[WORDS_PER_FRAME * f + i] else 0
  }

  ghost predicate SameFrame(before: seq<uint64>, after: seq<uint64>, f: nat) {
    forall i: nat :: i < WORDS_PER_FRAME ==> Word(after, f, i) == Word(before, f, i)
  }

  ghost predicate ZeroFrame(mem: seq<uint64>, f: nat) {
    forall i: nat :: i < WORDS_PER_FRAME ==> Word(mem, f, i) == 0
  }

  /** Frame f has been cleared and no other frame has been touched. */
  ghost predicate ClearedOnly(before: seq<uint64>, after: seq<uint64>, f: nat) {
    && |after| == |before|
    && ZeroFrame(after, f)
    && forall g: nat :: g != f ==> SameFrame(before, after, g)
  }

  method ClearFrame(mem: array<uint64>, f: nat)
    requires WORDS_PER_FRAME * f + WORDS_PER_FRAME <= mem.Length
    modifies mem
    ensures ClearedOnly(old(mem[..]), mem[..], f)
  {
    var first := WORDS_PER_FRAME * f;
    for i := 0 to WORDS_PER_FRAME
      invariant forall k :: first <= k < first + i ==> mem[k] == 0
      invariant forall k :: 0 <= k < first || first + i <= k < mem.Length ==> mem[k] == old(mem[k])
    {
      mem[first + i] := 0;
    }
  }
}

module Pmm {
  import opened Words
  import opened Bitmap
  import opened PhysicalMemory

  datatype RegionType = Usable | Reserved | AcpiReclaimable | AcpiNvs | BadMemory
                      | BootloaderReclaimable | ExecutableAndModules | FramebufferMemory | ReservedMapped

  datatype Region = Region(base: uint64, length: uint64, kind: RegionType)
  {
    function End(): nat { base + length }

    predicate IsRam() { kind.Usable? || kind.BootloaderReclaimable? || kind.ExecutableAndModules? }

    predicate Covers(f: nat) { base / PAGE_SIZE <= f < End() / PAGE_SIZE }
  }

  /** What the boot protocol guarantees of its memory map. */
  ghost predicate WellFormedMap(memmap: seq<Region>) {
    && (forall i :: 0 <= i < |memmap| ==> memmap[i].End() < TWO_64)
    && (forall i :: 0 <= i < |memmap| && memmap[i].kind.Usable? ==>
          memmap[i].base % PAGE_SIZE == 0 && memmap[i].length % PAGE_SIZE == 0)
    && (forall i, j :: 0 <= i < j < |memmap| && memmap[i].kind.Usable? && memmap[j].kind.Usable? ==>
          memmap[i].End() <= memmap[j].base || memmap[j].End() <= memmap[i].base)
  }

  /** Frame f lies in one of the first k regions, and that region is usable. */
  ghost predicate InUsable(memmap: seq<Region>, k: nat, f: nat)
    requires k <= |memmap|
  {
    exists i :: 0 <= i < k && memmap[i].kind.Usable? && memmap[i].Covers(f)
  }

  /** These are the frames that lie in a usable region as a whole. */
  lemma UsableFrames(memmap: seq<Region>, f: nat)
    requires WellFormedMap(memmap)
    ensures InUsable(memmap, |memmap|, f) <==>
            exists i :: 0 <= i < |memmap| && memmap[i].kind == Usable
                        && memmap[i].base <= 4096 * f && 4096 * f + 4096 <= memmap[i].base + memmap[i].length
  {
    forall i | 0 <= i < |memmap| && memmap[i].kind.Usable?
      ensures memmap[i].Covers(f)
         <==> memmap[i].base <= 4096 * f && 4096 * f + 4096 <= memmap[i].base + memmap[i].length
    {
    }
  }

  /** The highest end address among the RAM-backed regions of the first k. */
  function HighestRam(memmap: seq<Region>, k: nat): (h: nat)
    requires k <= |memmap|
    ensures forall i :: 0 <= i < k && memmap[i].kind in {Usable, BootloaderReclaimable, ExecutableAndModules} ==>
              memmap[i].End() <= h
    ensures h == 0 || exists i :: 0 <= i < k && memmap[i].End() == h
                                  && memmap[i].kind in {Usable, BootloaderReclaimable, ExecutableAndModules}
  {
    if k == 0 then 0
    else
      var h := HighestRam(memmap, k - 1);
      if memmap[k - 1].IsRam() && memmap[k - 1].End() > h then memmap[k - 1].End() else h
  }

  /** How many frames the allocator tracks, and how many bytes of bits that takes. */
  function FrameCount(memmap: seq<Region>): nat {
    HighestRam(memmap, |memmap|) / PAGE_SIZE
  }

  function BitmapBytes(frames: nat): nat {
    if frames < TWO_64 then AlignUp(frames, 8) / 8 else 0
  }

  predicate Fits(region: Region, bytes: nat) {
    region.kind.Usable? && region.length >= bytes
  }

  /** Region i is the first one that can hold that many bytes. */
  ghost predicate IsHome(memmap: seq<Region>, i: nat, bytes: nat) {
    i < |memmap| && Fits(memmap[i], bytes) && forall j :: 0 <= j < i ==> !Fits(memmap[j], bytes)
  }

  /** The bitmap has a bit for every frame and lies inside its region. */
  lemma HomeHoldsBitmap(memmap: seq<Region>, i: nat)
    requires WellFormedMap(memmap) && IsHome(memmap, i, BitmapBytes(FrameCount(memmap)))
    requires memmap[i].base != 0
    ensures 0 < FrameCount(memmap) <= 8 * BitmapBytes(FrameCount(memmap))
    ensures AlignUp(BitmapBytes(FrameCount(memmap)), PAGE_SIZE) / PAGE_SIZE
         == (BitmapBytes(FrameCount(memmap)) + PAGE_SIZE - 1) / PAGE_SIZE
    ensures memmap[i].base / PAGE_SIZE
         + (BitmapBytes(FrameCount(memmap)) + PAGE_SIZE - 1) / PAGE_SIZE <= FrameCount(memmap)
  {
    var frames := FrameCount(memmap);
    assert memmap[i].End() <= HighestRam(memmap, |memmap|) < TWO_64;
    BytesForFrames(frames);
    RegionHoldsFrames(memmap[i].base, memmap[i].length, HighestRam(memmap, |memmap|), BitmapBytes(frames));
  }

  lemma BytesForFrames(frames: nat)
    requires frames < TWO_64 / PAGE_SIZE
    ensures frames <= 8 * BitmapBytes(frames) && BitmapBytes(frames) < TWO_64 / PAGE_SIZE
    ensures AlignUp(BitmapBytes(frames), PAGE_SIZE) / PAGE_SIZE
         == (BitmapBytes(frames) + PAGE_SIZE - 1) / PAGE_SIZE
  {
    var k3, _, _, k12, _, _, _, _, _, _ := Exponents();
    AlignUpRounds(frames, k3, 8);
    var bytes := BitmapBytes(frames);
    AlignUpRounds(bytes, k12, PAGE_SIZE);
  }

  lemma RegionHoldsFrames(base: nat, length: nat, highest: nat, bytes: nat)
    requires base % PAGE_SIZE == 0 && length % PAGE_SIZE == 0 && base > 0
    requires bytes <= length && base + length <= highest
    ensures base / PAGE_SIZE + (bytes + PAGE_SIZE - 1) / PAGE_SIZE <= highest / PAGE_SIZE
    ensures highest / PAGE_SIZE > 0
  {
  }

  lemma RoomInFrames(phys: nat, bytes: nat)
    requires phys % PAGE_SIZE == 0
    ensures phys + bytes <= PAGE_SIZE * (phys / PAGE_SIZE + (bytes + PAGE_SIZE - 1) / PAGE_SIZE)
  {
  }

  /** The frames under a bitmap of that many bytes that starts at phys. */
  predicate UnderBitmap(phys: nat, bytes: nat, f: nat) {
    phys / PAGE_SIZE <= f < phys / PAGE_SIZE + (bytes + PAGE_SIZE - 1) / PAGE_SIZE
  }

  /** These are the frames that hold a byte of the bitmap. */
  lemma BitmapFrames(phys: nat, bytes: nat, f: nat)
    requires phys % PAGE_SIZE == 0
    ensures UnderBitmap(phys, bytes, f) <==> phys < 4096 * f + 4096 && 4096 * f < phys + bytes
  {
  }

  /** After frame f was handed out the search index is f + 1.  If f is then freed and a search
      from there picks it again, nothing else was free. */
  lemma ReusedOnlyWhenAlone(free: set<nat>, n: nat, f: nat)
    requires f in free && forall k | k in free :: k < n
    requires forall k | k in free ::
               CyclicDistance((f + 1) % n, f, n) <= CyclicDistance((f + 1) % n, k, n)
    ensures free == {f}
  {
    WrapOnce(f + 1, n);
    forall k | k in free ensures k == f {
      assert CyclicDistance((f + 1) % n, f, n) == n - 1;
    }
  }

  /** Byte k of a word, counted from the lowest. */
  ghost function ByteOf(w: uint64, k: nat): byte {
    (Shr(w, 8 * k) % 256) as byte
  }

  /** The bytes of physical memory, in which the bitmap lies at address home. */
  ghost function Image(mem: seq<uint64>, bits: seq<byte>, home: nat): (ram: seq<byte>)
    ensures |ram| == 8 * |mem|
  {
    seq(8 * |mem|, a requires 0 <= a < 8 * |mem| =>
      if home <= a < home + |bits| then bits[a - home] else ByteOf(mem[a / 8], a % 8))
  }

  /** `memset(frame, 0, PAGE_SIZE)` on those bytes. */
  ghost function Cleared(ram: seq<byte>, f: nat): (cleared: seq<byte>)
    ensures |cleared| == |ram|
  {
    seq(|ram|, a requires 0 <= a < |ram| => if a / PAGE_SIZE == f then 0 else ram[a])
  }

  /** The store of a word on those bytes, lowest byte first. */
  ghost function Stored(ram: seq<byte>, i: nat, value: uint64): (stored: seq<byte>)
    ensures |stored| == |ram|
  {
    seq(|ram|, a requires 0 <= a < |ram| => if a / 8 == i then ByteOf(value, a % 8) else ram[a])
  }

  /** Nothing of a bitmap of that many bytes lies in frame f. */
  ghost predicate Misses(bytes: nat, home: nat, f: nat) {
    home + bytes <= PAGE_SIZE * f || PAGE_SIZE * f + PAGE_SIZE <= home
  }

  /** Setting or resetting a bit is the byte store at that address. */
  lemma BitStoreInImage(mem: seq<uint64>, bits: seq<byte>, home: nat, bit: nat, on: bool)
    requires bit / 8 < |bits| && home + |bits| <= 8 * |mem|
    ensures Image(mem, WithBit(bits, 0, bit, on), home) == WithBit(Image(mem, bits, home), home, bit, on)
  {
    hide ByteOf, Marked, Image;
    ByteInImage(mem, bits, home, bit / 8);
    ByteStoreInImage(mem, bits, home, bit / 8, Marked(bits[bit / 8], bit % 8, on));
  }

  lemma ByteInImage(mem: seq<uint64>, bits: seq<byte>, home: nat, i: nat)
    requires i < |bits| && home + |bits| <= 8 * |mem|
    ensures Image(mem, bits, home)[home + i] == bits[i]
  {
  }

  lemma ByteStoreInImage(mem: seq<uint64>, bits: seq<byte>, home: nat, i: nat, b: byte)
    requires i < |bits| && home + |bits| <= 8 * |mem|
    ensures Image(mem, bits[i := b], home) == Image(mem, bits, home)[home + i := b]
  {
    hide ByteOf;
  }

  /** Clearing a frame is clearing it in the one memory there is, because the bitmap is elsewhere. */
  lemma ClearInImage(before: seq<uint64>, after: seq<uint64>, bits: seq<byte>, home: nat, f: nat)
    requires ClearedOnly(before, after, f) && Misses(|bits|, home, f)
    ensures Image(after, bits, home) == Cleared(Image(before, bits, home), f)
  {
    hide ByteOf, ClearedOnly, Misses;
    var got, want := Image(after, bits, home), Cleared(Image(before, bits, home), f);
    ClearKeepsLength(before, after, f);
    forall a: nat | a < |got| ensures got[a] == want[a] {
      if home <= a < home + |bits| {
        MissesByte(|bits|, home, f, a - home);
      } else {
        ClearedWord(before, after, f, a);
        ZeroByte(a % 8);
      }
    }
  }

  lemma ClearKeepsLength(before: seq<uint64>, after: seq<uint64>, f: nat)
    requires ClearedOnly(before, after, f)
    ensures |after| == |before|
  {
  }

  lemma MissesByte(bytes: nat, home: nat, f: nat, k: nat)
    requires Misses(bytes, home, f) && k < bytes
    ensures (home + k) / PAGE_SIZE != f
  {
  }

  lemma ClearedWord(before: seq<uint64>, after: seq<uint64>, f: nat, a: nat)
    requires ClearedOnly(before, after, f) && a < 8 * |before|
    ensures after[a / 8] == if a / PAGE_SIZE == f then 0 else before[a / 8]
  {
    var g, i := a / PAGE_SIZE, a / 8 % WORDS_PER_FRAME;
    assert a / 8 == WORDS_PER_FRAME * g + i;
    assert Word(after, g, i) == after[a / 8] && Word(before, g, i) == before[a / 8];
    if g == f {
      assert ZeroFrame(after, f);
    } else {
      assert SameFrame(before, after, g);
    }
  }

  lemma {:induction false} ShrOfZero(k: nat)
    ensures Shr(0, k) == 0
  {
    if k > 0 { ShrOfZero(k - 1); }
  }

  lemma ZeroByte(k: nat)
    ensures ByteOf(0, k) == 0
  {
    ShrOfZero(8 * k);
  }

  /** So is a store into a frame that the bitmap is not in. */
  lemma WordStoreInImage(mem: seq<uint64>, bits: seq<byte>, home: nat, i: nat, value: uint64)
    requires i < |mem| && Misses(|bits|, home, i / WORDS_PER_FRAME)
    ensures Image(mem[i := value], bits, home) == Stored(Image(mem, bits, home), i, value)
  {
    hide ByteOf, Misses;
    var got, want := Image(mem[i := value], bits, home), Stored(Image(mem, bits, home), i, value);
    forall a: nat | a < |got| ensures got[a] == want[a] {
      if home <= a < home + |bits| && a / 8 == i {
        assert a / PAGE_SIZE == i / WORDS_PER_FRAME;
        MissesByte(|bits|, home, i / WORDS_PER_FRAME, a - home);
        assert false;
      }
    }
  }

  class FrameAllocator {
    const mem: array<uint64>
    var bitmap: array<byte>
    var frameCount: nat
    var nextSearchIndex: nat
    var freeFrames: nat
    /** The frames whose bit is clear. */
    ghost var free: set<nat>
    /** The frames that the bitmap itself occupies. */
    ghost var homeFirst: nat
    ghost var homeEnd: nat
    /** The physical address of the bitmap. */
    ghost var home: nat

    constructor (mem: array<uint64>)
      ensures this.mem == mem && frameCount == freeFrames == nextSearchIndex == 0
      ensures Valid() && free == {} && fresh(bitmap)
    {
      this.mem := mem;
      bitmap := new byte[0];
      frameCount, nextSearchIndex, freeFrames, free, homeFirst, homeEnd, home := 0, 0, 0, {}, 0, 0, 0;
    }

    /** The bitmap has a bit for every frame, and `free` and its size are up to date. */
    ghost predicate Counted()
      reads this, bitmap
    {
      && frameCount <= 8 * bitmap.Length
      && WORDS_PER_FRAME * frameCount <= mem.Length
      && mem as object != bitmap as object
      && Records(bitmap[..], frameCount, free)
      && freeFrames == |free|
    }

    /** Frame 0 and the bitmap's own frames: never to be handed out. */
    ghost predicate Untouchable(f: nat)
      reads this
    {
      f == 0 || homeFirst <= f < homeEnd
    }

    ghost predicate Valid()
      reads this, bitmap
    {
      Counted() && Placed() && forall f | f in free :: !Untouchable(f)
    }

    /** The bitmap lies in its own frames, inside the memory. */
    ghost predicate Placed()
      reads this, bitmap
    {
      && homeFirst == home / PAGE_SIZE && home + bitmap.Length <= PAGE_SIZE * homeEnd
      && home + bitmap.Length <= 8 * mem.Length
    }

    /** All of physical memory, the bitmap's bytes in their place. */
    ghost function Memory(): seq<byte>
      reads this, bitmap, mem
    {
      Image(mem[..], bitmap[..], home)
    }

    /** No byte of the bitmap lies in a frame that may be handed out. */
    lemma BitmapIsElsewhere(f: nat)
      requires Placed() && !Untouchable(f)
      ensures Misses(bitmap.Length, home, f)
    {
    }

    /** A store outside the bitmap's frames is that store in the one memory there is. */
    lemma StoreInMemory(before: seq<uint64>, i: nat, value: uint64)
      requires i < |before| && mem[..] == before[i := value]
      requires Placed() && !Untouchable(i / WORDS_PER_FRAME)
      ensures Memory() == Stored(Image(before, bitmap[..], home), i, value)
    {
      hide Image, Stored, Misses;
      BitmapIsElsewhere(i / WORDS_PER_FRAME);
      WordStoreInImage(before, bitmap[..], home, i, value);
    }

    method FindHighestRam(memmap: seq<Region>) returns (highest: nat)
      ensures highest == HighestRam(memmap, |memmap|)
    {
      highest := 0;
      for i := 0 to |memmap|
        invariant highest == HighestRam(memmap, i)
      {
        if !memmap[i].IsRam() {
          continue;
        }
        var end := memmap[i].End();
        if end > highest {
          highest := end;
        }
      }
    }

    /** The base of the first usable region with room for the bitmap; 0 if there is none. */
    method FindHome(memmap: seq<Region>, bytes: nat) returns (phys: nat)
      ensures forall i: nat :: IsHome(memmap, i, bytes) ==> phys == memmap[i].base
      ensures (forall i: nat :: !IsHome(memmap, i, bytes)) ==> phys == 0
    {
      for i := 0 to |memmap|
        invariant forall j :: 0 <= j < i ==> !Fits(memmap[j], bytes)
      {
        if memmap[i].kind.Usable? && memmap[i].length >= bytes {
          assert IsHome(memmap, i, bytes);
          return memmap[i].base;
        }
      }
      return 0;
    }

    /** Clears the bits of one region, none of which may be clear yet. */
    method ReleaseRegion(region: Region)
      requires Counted() && region.End() / PAGE_SIZE <= frameCount
      requires forall f | f in free :: !region.Covers(f)
      modifies `free, `freeFrames, bitmap
      ensures Counted()
      ensures forall f: nat :: f in free <==> f in old(free) || region.Covers(f)
    {
      var first, end := region.base / PAGE_SIZE, region.End() / PAGE_SIZE;
      for f := first to end
        invariant Counted()
        invariant forall g: nat :: g in free <==> g in old(free) || first <= g < f
      {
        Reset(bitmap, f);
        free, freeFrames := free + {f}, freeFrames + 1;
      }
    }

    /** Allocates the bitmap storage with every bit set. */
    method FillBitmap(bytes: nat)
      requires frameCount <= 8 * bytes && WORDS_PER_FRAME * frameCount <= mem.Length && freeFrames == 0
      modifies `bitmap, `free
      ensures Counted() && free == {} && fresh(bitmap) && bitmap.Length == bytes
    {
      bitmap := new byte[bytes];
      for i := 0 to bytes
        invariant fresh(bitmap) && bitmap.Length == bytes
        invariant forall k :: 0 <= k < i ==> bitmap[k] == 0xff
      {
        bitmap[i] := 0xff;
      }
      forall f: nat | f < frameCount ensures Holds(bitmap[..], f) {
        MaskValues();
        assert bitmap[..][f / 8] == 0xff;
      }
      free := {};
    }

    method ReleaseUsable(memmap: seq<Region>)
      requires WellFormedMap(memmap) && frameCount == FrameCount(memmap)
      requires Counted() && free == {}
      modifies `free, `freeFrames, bitmap
      ensures Counted()
      ensures forall f: nat :: f in free <==> InUsable(memmap, |memmap|, f)
    {
      for i := 0 to |memmap|
        invariant Counted()
        invariant forall f: nat :: f in free <==> InUsable(memmap, i, f)
      {
        if memmap[i].kind != Usable {
          continue;
        }
        assert forall f | f in free :: !memmap[i].Covers(f);
        ReleaseRegion(memmap[i]);
      }
    }

    method ClaimFrame(f: nat)
      requires Counted() && f < frameCount
      modifies `free, `freeFrames, bitmap
      ensures Counted() && free == old(free) - {f}
    {
      var used := Test(bitmap, f);
      if !used {
        assert f in free;
        Set(bitmap, f);
        free, freeFrames := free - {f}, freeFrames - 1;
      } else {
        assert old(free) - {f} == old(free);
      }
    }

    method ClaimRange(first: nat, end: nat)
      requires Counted() && first <= end <= frameCount
      modifies `free, `freeFrames, bitmap
      ensures Counted()
      ensures forall f: nat :: f in free <==> f in old(free) && !(first <= f < end)
    {
      for f := first to end
        invariant Counted()
        invariant forall g: nat :: g in free <==> g in old(free) && !(first <= g < f)
      {
        ClaimFrame(f);
      }
    }

    /** Takes back the frames under the bitmap and frame 0. */
    method ClaimUntouchables(phys: nat, end: nat)
      requires Counted() && phys / PAGE_SIZE <= end <= frameCount && frameCount > 0
      requires phys + bitmap.Length <= PAGE_SIZE * end
      modifies `free, `freeFrames, `homeFirst, `homeEnd, `home, bitmap
      ensures Valid() && homeFirst == phys / PAGE_SIZE && homeEnd == end && home == phys
      ensures forall f: nat :: f in free <==> f in old(free) && !Untouchable(f)
    {
      ClaimRange(phys / PAGE_SIZE, end);
      ClaimFrame(0);
      homeFirst, homeEnd, home := phys / PAGE_SIZE, end, phys;
    }

    /** The rest of pmm_init, once the frames for the bitmap are known. */
    method Build(memmap: seq<Region>, bytes: nat, phys: nat, end: nat)
      requires WellFormedMap(memmap) && freeFrames == 0
      requires 0 < frameCount <= 8 * bytes && WORDS_PER_FRAME * frameCount <= mem.Length
      requires frameCount == FrameCount(memmap)
      requires phys / PAGE_SIZE <= end <= frameCount && phys + bytes <= PAGE_SIZE * end
      modifies `bitmap, `free, `freeFrames, `homeFirst, `homeEnd, `home
      ensures Valid() && fresh(bitmap) && bitmap.Length == bytes
      ensures homeFirst == phys / PAGE_SIZE && homeEnd == end && home == phys
      ensures forall f: nat :: f in free <==> InUsable(memmap, |memmap|, f) && !Untouchable(f)
    {
      FillBitmap(bytes);
      ReleaseUsable(memmap);
      ClaimUntouchables(phys, end);
    }

    /** pmm_init; false stands for the panic, which happens exactly when no usable region can hold
        the bitmap or the first that can starts at address 0.  Otherwise the free frames are the
        usable ones, minus frame 0 and those under the bitmap, which end up untouchable. */
    method Init(memmap: seq<Region>) returns (ok: bool)
      requires WellFormedMap(memmap)
      requires HighestRam(memmap, |memmap|) <= 8 * mem.Length
      requires freeFrames == 0
      modifies this
      ensures ok <==> exists i: nat ::
                IsHome(memmap, i, BitmapBytes(FrameCount(memmap))) && memmap[i].base != 0
      ensures ok ==> Valid() && fresh(bitmap) && frameCount == FrameCount(memmap)
      ensures ok ==> forall i: nat :: IsHome(memmap, i, BitmapBytes(frameCount)) ==> home == memmap[i].base
      ensures ok ==> bitmap.Length == BitmapBytes(frameCount)
      ensures ok ==> forall i: nat :: IsHome(memmap, i, BitmapBytes(frameCount)) ==>
                forall f: nat ::
                  && (Untouchable(f) <==> f == 0 || UnderBitmap(memmap[i].base, BitmapBytes(frameCount), f))
                  && (f in free <==> InUsable(memmap, |memmap|, f) && !Untouchable(f))
    {
      var highest := FindHighestRam(memmap);
      frameCount := highest / PAGE_SIZE;
      var bytes := BitmapBytes(frameCount);
      var phys := FindHome(memmap, bytes);
      if phys == 0 {
        return false;
      }
      ghost var home: nat :| IsHome(memmap, home, bytes);
      HomeHoldsBitmap(memmap, home);
      RoomInFrames(phys, bytes);
      Build(memmap, bytes, phys, phys / PAGE_SIZE + AlignUp(bytes, PAGE_SIZE) / PAGE_SIZE);
      return true;
    }

    /** The bookkeeping half of pmm_alloc_frame; frameCount stands for failure. */
    method TakeFirstFree() returns (frame: nat)
      requires Counted()
      modifies `free, `freeFrames, `nextSearchIndex, bitmap
      ensures Counted() && frame <= frameCount
      ensures frame == frameCount <==> old(free) == {}
      ensures bitmap[..] == if frame < frameCount then WithBit(old(bitmap[..]), 0, frame, true) else old(bitmap[..])
      ensures frame == frameCount ==>
                free == {} && nextSearchIndex == old(nextSearchIndex) && freeFrames == old(freeFrames)
      ensures frame < frameCount ==>
                && frame in old(free) && free == old(free) - {frame}
                && freeFrames == old(freeFrames) - 1 && nextSearchIndex == frame + 1
                && forall k | k in old(free) ::
                     CyclicDistance(old(nextSearchIndex) % frameCount, frame, frameCount)
                     <= CyclicDistance(old(nextSearchIndex) % frameCount, k, frameCount)
    {
      hide WithBit, CyclicDistance;
      frame := FindFirstClear(bitmap, frameCount, nextSearchIndex);
      assert forall f | f in free :: !Holds(bitmap[..], f);
      if frame < frameCount {
        Set(bitmap, frame);
        free, freeFrames := free - {frame}, freeFrames - 1;
        nextSearchIndex := frame + 1;
      }
    }

    lemma AllocInMemory(mem0: seq<uint64>, bits0: seq<byte>, frame: nat)
      requires Placed() && !Untouchable(frame) && frame / 8 < |bits0| == bitmap.Length && |mem0| == mem.Length
      requires bitmap[..] == WithBit(bits0, 0, frame, true) && ClearedOnly(mem0, mem[..], frame)
      ensures home + frame / 8 < 8 * |mem0|
      ensures Memory() == Cleared(WithBit(Image(mem0, bits0, home), home, frame, true), frame)
    {
      hide ClearedOnly, Image, Cleared, Misses, Mask, WithBit;
      BitmapIsElsewhere(frame);
      BitStoreInImage(mem0, bits0, home, frame, true);
      ClearInImage(mem0, mem[..], bitmap[..], home, frame);
    }

    /** pmm_alloc_frame.  It fails exactly when nothing is free; otherwise it takes the first
        free frame at or cyclically after the search index, and clears it. */
    method AllocFrame() returns (phys: nat)
      requires Counted()
      modifies `free, `freeFrames, `nextSearchIndex, bitmap, mem
      ensures Counted() && (old(Valid()) ==> Valid())
      ensures old(free) == {} ==>
                phys == 0 && free == {} && mem[..] == old(mem[..])
                && nextSearchIndex == old(nextSearchIndex) && freeFrames == old(freeFrames)
      ensures old(free) != {} ==>
                && phys == PAGE_SIZE * (phys / PAGE_SIZE) && phys / PAGE_SIZE < frameCount
                && free == old(free) - {phys / PAGE_SIZE} && phys / PAGE_SIZE in old(free)
                && freeFrames == old(freeFrames) - 1
                && ClearedOnly(old(mem[..]), mem[..], phys / PAGE_SIZE)
                && nextSearchIndex == phys / PAGE_SIZE + 1
      ensures old(Valid()) && phys != 0 ==>
                && home + phys / PAGE_SIZE / 8 < |old(Memory())|
                && Memory() == Cleared(WithBit(old(Memory()), home, phys / PAGE_SIZE, true), phys / PAGE_SIZE)
      ensures old(free) != {} ==>
                forall k | k in old(free) ::
                  CyclicDistance(old(nextSearchIndex) % frameCount, phys / PAGE_SIZE, frameCount)
                  <= CyclicDistance(old(nextSearchIndex) % frameCount, k, frameCount)
    {
      hide Records, ClearedOnly, CyclicDistance, WithBit, Cleared, Image;
      var frame := TakeFirstFree();
      if frame == frameCount {
        return 0;
      }
      phys := frame * PAGE_SIZE;
      ClearFrame(mem, frame);
      if old(Valid()) {
        AllocInMemory(old(mem[..]), old(bitmap[..]), frame);
      }
    }

    /** pmm_free_frame; false stands for the panic.  It accepts every frame in use, so it keeps
        the allocator valid exactly when the frame is not one of the untouchable ones. */
    method FreeFrame(phys: nat) returns (ok: bool)
      requires Counted()
      modifies `free, `freeFrames, bitmap
      ensures Counted()
      ensures ok <==> phys / PAGE_SIZE < frameCount && phys / PAGE_SIZE !in old(free)
      ensures free == if ok then old(free) + {phys / PAGE_SIZE} else old(free)
      ensures old(Valid()) ==> (Valid() <==> !(ok && Untouchable(phys / PAGE_SIZE)))
      ensures old(Valid()) && ok ==>
                && home + phys / PAGE_SIZE / 8 < |old(Memory())|
                && Memory() == WithBit(old(Memory()), home, phys / PAGE_SIZE, false)
    {
      hide WithBit, Image;
      var frame := phys / PAGE_SIZE;
      if frame >= frameCount {
        return false;
      }
      var used := Test(bitmap, frame);
      if !used {
        return false;
      }
      Reset(bitmap, frame);
      free, freeFrames := free + {frame}, freeFrames + 1;
      if Placed() {
        BitStoreInImage(mem[..], old(bitmap[..]), home, frame, false);
      }
      return true;
    }

    lemma FreeFramesAreTracked()
      requires Counted()
      ensures forall f | f in free :: f < frameCount
    {
    }

    /** pmm_alloc_frame, pmm_free_frame of what it gave, pmm_alloc_frame: the same frame comes back only
        if nothing else was free, and what is free then is what was free after the first call. */
    method AllocFreeAlloc() returns (first: nat, second: nat)
      requires Valid()
      modifies `free, `freeFrames, `nextSearchIndex, bitmap, mem
      ensures Valid() && (first == 0 <==> old(free) == {}) && (second == 0 <==> old(free) == {})
      ensures first != 0 && second == first ==> old(free) == {first / PAGE_SIZE}
      ensures second != 0 ==> second / PAGE_SIZE in old(free) && free == old(free) - {second / PAGE_SIZE}
    {
      hide CyclicDistance, Records, ClearedOnly, Counted, FrameAllocator.Memory, WithBit, Cleared;
      FreeFramesAreTracked();
      first := AllocFrame();
      if first == 0 {
        return 0, 0;
      }
      var freed := FreeFrame(first);
      assert freed && free == old(free);
      second := AllocFrame();
      if second == first {
        ReusedOnlyWhenAlone(old(free), frameCount, first / PAGE_SIZE);
      }
    }

    /** pmm_free_frame accepts frame 0, which must never be free: the invariant is gone. */
    method FreeFrameZero() returns (ok: bool)
      requires Valid() && frameCount > 0
      modifies `free, `freeFrames, bitmap
      ensures ok && free == old(free) + {0} && Counted() && !Valid()
    {
      ok := FreeFrame(0);
      assert 0 in free;
    }

    /** If nothing else is free, pmm_alloc_frame then hands out frame 0, which reads as a failure. */
    method AllocFrameZero() returns (phys: nat)
      requires Counted() && free == {0}
      modifies `free, `freeFrames, `nextSearchIndex, bitmap, mem
      ensures phys == 0 && free == {} && freeFrames == old(freeFrames) - 1
    {
      phys := AllocFrame();
    }
  }
}
