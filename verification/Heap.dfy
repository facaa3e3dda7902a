/** kernel/mm/heap.c: a first-fit allocator over a doubly linked list of block headers, stored by
    address in one contiguous range, with splitting and coalescing in both directions. */
module HeapBlocks {
  import opened Words

  const HEAP_VBASE: nat := 0xffff_ffff_9000_0000
  const HEAP_SIZE: nat := 16 * 1024 * 1024
  const HEADER_SIZE: nat := 32
  const MIN_SPLIT_SIZE: nat := 16

  /** One block: a header at addr, then size usable bytes. */
  datatype Block = Block(addr: nat, size: nat, free: bool)
  {
    function Payload(): nat { addr + HEADER_SIZE }

    function End(): nat { addr + HEADER_SIZE + size }

    predicate Fits(s: nat) { free && size >= s }
  }

  predicate Follows(blocks: seq<Block>, i: int) {
    0 <= i < |blocks| - 1 ==> blocks[i + 1].addr == blocks[i].End()
  }

  /** The blocks follow each other without gap or overlap from one address to another. */
  ghost predicate Tiles(blocks: seq<Block>, from: nat, to: nat) {
    && |blocks| > 0 && blocks[0].addr == from && blocks[|blocks| - 1].End() == to
    && (forall i :: Follows(blocks, i))
    && (forall i :: 0 <= i < |blocks| ==> blocks[i].size % MIN_SPLIT_SIZE == 0)
  }

  predicate FreePair(blocks: seq<Block>, i: int) {
    0 <= i < |blocks| - 1 && blocks[i].free && blocks[i + 1].free
  }

  /** Maximally coalesced: no two free blocks are neighbours. */
  ghost predicate Coalesced(blocks: seq<Block>) {
    forall i :: !FreePair(blocks, i)
  }

  lemma {:induction false} BlocksAreOrdered(blocks: seq<Block>, from: nat, to: nat, i: nat, j: nat)
    requires Tiles(blocks, from, to) && i < j < |blocks|
    ensures blocks[i].End() <= blocks[j].addr
    decreases j
  {
    assert Follows(blocks, j - 1);
    if i < j - 1 {
      BlocksAreOrdered(blocks, from, to, i, j - 1);
    }
  }

  lemma DistinctAddresses(blocks: seq<Block>, from: nat, to: nat, i: nat)
    requires Tiles(blocks, from, to) && i < |blocks|
    ensures forall j :: 0 <= j < |blocks| && j != i ==>
              blocks[j].addr != blocks[i].addr && !(blocks[i].addr <= blocks[j].addr < blocks[i].End())
  {
    forall j | 0 <= j < |blocks| && j != i
      ensures blocks[j].addr != blocks[i].addr && !(blocks[i].addr <= blocks[j].addr < blocks[i].End())
    {
      if j < i {
        BlocksAreOrdered(blocks, from, to, j, i);
      } else {
        BlocksAreOrdered(blocks, from, to, i, j);
      }
    }
  }

  lemma {:induction false} BlocksAreAligned(blocks: seq<Block>, from: nat, to: nat, i: nat)
    requires Tiles(blocks, from, to) && from % 16 == 0 && i < |blocks|
    ensures from <= blocks[i].addr && blocks[i].addr % 16 == 0 && blocks[i].End() <= to
  {
    if i > 0 {
      BlocksAreAligned(blocks, from, to, i - 1);
      assert Follows(blocks, i - 1);
    }
    if i < |blocks| - 1 {
      BlocksAreOrdered(blocks, from, to, i, |blocks| - 1);
    }
  }

  // ----- Allocation

  /** The first block that fits. */
  ghost predicate FirstFit(blocks: seq<Block>, s: nat, i: nat) {
    i < |blocks| && blocks[i].Fits(s) && forall j :: 0 <= j < i ==> !blocks[j].Fits(s)
  }

  predicate Splits(b: Block, s: nat) {
    b.size >= s + HEADER_SIZE + MIN_SPLIT_SIZE
  }

  /** The blocks once s bytes have been taken from free block i. */
  function Allocated(blocks: seq<Block>, i: nat, s: nat): seq<Block>
    requires i < |blocks| && blocks[i].Fits(s)
  {
    var b := blocks[i];
    if Splits(b, s) then
      blocks[..i]
      + [Block(b.addr, s, false), Block(b.Payload() + s, b.size - s - HEADER_SIZE, true)]
      + blocks[i + 1..]
    else blocks[i := Block(b.addr, b.size, false)]
  }

  lemma AllocatedIsSound(blocks: seq<Block>, from: nat, to: nat, i: nat, s: nat)
    requires Tiles(blocks, from, to) && Coalesced(blocks)
    requires i < |blocks| && blocks[i].Fits(s) && s % MIN_SPLIT_SIZE == 0
    ensures Tiles(Allocated(blocks, i, s), from, to) && Coalesced(Allocated(blocks, i, s))
    ensures s <= Allocated(blocks, i, s)[i].size <= s + 32
  {
    var b, after := blocks[i], Allocated(blocks, i, s);
    if Splits(b, s) {
      assert forall k :: i + 2 <= k < |after| ==> after[k] == blocks[k - 1];
    }
    forall k ensures !FreePair(after, k) && Follows(after, k) {
      assert !FreePair(blocks, k) && !FreePair(blocks, k - 1);
      assert Follows(blocks, k) && Follows(blocks, k - 1);
    }
  }

  // ----- Release

  /** Blocks i and i + 1 turned into one. */
  function Merged(blocks: seq<Block>, i: nat): seq<Block>
    requires i + 1 < |blocks|
  {
    blocks[..i]
    + [Block(blocks[i].addr, blocks[i].size + HEADER_SIZE + blocks[i + 1].size, blocks[i].free)]
    + blocks[i + 2..]
  }

  function MergedForward(blocks: seq<Block>, i: nat): seq<Block>
    requires i < |blocks|
  {
    if i + 1 < |blocks| && blocks[i + 1].free then Merged(blocks, i) else blocks
  }

  function MergedBackward(blocks: seq<Block>, i: nat): seq<Block>
    requires i < |blocks|
  {
    if i > 0 && blocks[i - 1].free then Merged(blocks, i - 1) else blocks
  }

  /** The blocks once block i has been given back. */
  function Released(blocks: seq<Block>, i: nat): seq<Block>
    requires i < |blocks|
  {
    MergedBackward(MergedForward(blocks[i := blocks[i].(free := true)], i), i)
  }

  lemma MergedTiles(blocks: seq<Block>, from: nat, to: nat, i: nat)
    requires Tiles(blocks, from, to) && i + 1 < |blocks|
    ensures Tiles(Merged(blocks, i), from, to)
  {
    var after := Merged(blocks, i);
    assert forall k :: i + 1 <= k < |after| ==> after[k] == blocks[k + 1];
    assert forall k :: 0 <= k < i ==> after[k] == blocks[k];
    assert Follows(blocks, i);
    forall k ensures Follows(after, k) {
      assert Follows(blocks, k) && Follows(blocks, k + 1);
    }
  }

  /** Merging two neighbours adds no free pair. */
  lemma MergedPairs(blocks: seq<Block>, i: nat, k: int)
    requires i + 1 < |blocks| && blocks[i].free && blocks[i + 1].free && FreePair(Merged(blocks, i), k)
    ensures FreePair(blocks, if k < i then k else k + 1)
  {
    var after := Merged(blocks, i);
    assert forall j :: i + 1 <= j < |after| ==> after[j] == blocks[j + 1];
  }

  lemma ForwardIsSound(blocks: seq<Block>, from: nat, to: nat, i: nat)
    requires Tiles(blocks, from, to) && i < |blocks| && blocks[i].free
    requires forall k :: FreePair(blocks, k) ==> k == i - 1 || k == i
    ensures var after := MergedForward(blocks, i);
            && Tiles(after, from, to) && i < |after| && after[i].free
            && (i > 0 ==> after[i - 1] == blocks[i - 1])
            && forall k :: FreePair(after, k) ==> k == i - 1
  {
    if i + 1 < |blocks| && blocks[i + 1].free {
      MergedTiles(blocks, from, to, i);
      forall k | FreePair(Merged(blocks, i), k) ensures k == i - 1 {
        MergedPairs(blocks, i, k);
        assert k == i ==> FreePair(blocks, i + 1);
      }
    }
  }

  lemma BackwardIsSound(blocks: seq<Block>, from: nat, to: nat, i: nat)
    requires Tiles(blocks, from, to) && i < |blocks| && blocks[i].free
    requires forall k :: FreePair(blocks, k) ==> k == i - 1
    ensures Tiles(MergedBackward(blocks, i), from, to) && Coalesced(MergedBackward(blocks, i))
  {
    if i > 0 && blocks[i - 1].free {
      MergedTiles(blocks, from, to, i - 1);
      var after := Merged(blocks, i - 1);
      forall k ensures !FreePair(after, k) {
        if FreePair(after, k) {
          MergedPairs(blocks, i - 1, k);
        }
      }
    } else {
      assert !FreePair(blocks, i - 1);
    }
  }

  lemma MarkKeepsPairs(blocks: seq<Block>, from: nat, to: nat, i: nat)
    requires Tiles(blocks, from, to) && Coalesced(blocks) && i < |blocks|
    ensures var b1 := blocks[i := blocks[i].(free := true)];
            Tiles(b1, from, to) && forall k :: FreePair(b1, k) ==> k == i - 1 || k == i
  {
    var b1 := blocks[i := blocks[i].(free := true)];
    forall k ensures Follows(b1, k) && (FreePair(b1, k) ==> k == i - 1 || k == i) {
      assert Follows(blocks, k) && !FreePair(blocks, k);
    }
  }

  lemma ReleasedIsSound(blocks: seq<Block>, from: nat, to: nat, i: nat)
    requires Tiles(blocks, from, to) && Coalesced(blocks) && i < |blocks| && !blocks[i].free
    ensures Tiles(Released(blocks, i), from, to) && Coalesced(Released(blocks, i))
  {
    var b1 := blocks[i := blocks[i].(free := true)];
    MarkKeepsPairs(blocks, from, to, i);
    ForwardIsSound(b1, from, to, i);
    BackwardIsSound(MergedForward(b1, i), from, to, i);
  }

  // ----- Used blocks

  ghost predicate IsUsed(blocks: seq<Block>, b: Block) {
    b in blocks && !b.free
  }

  lemma AllocatedUsed(blocks: seq<Block>, i: nat, s: nat, b: Block)
    requires i < |blocks| && blocks[i].Fits(s)
    ensures IsUsed(Allocated(blocks, i, s), b) <==> IsUsed(blocks, b) || b == Allocated(blocks, i, s)[i]
  {
    assert blocks == blocks[..i] + [blocks[i]] + blocks[i + 1..];
    if !Splits(blocks[i], s) {
      assert Allocated(blocks, i, s) == blocks[..i] + [Block(blocks[i].addr, blocks[i].size, false)] + blocks[i + 1..];
    }
  }

  lemma MergedUsed(blocks: seq<Block>, i: nat, b: Block)
    requires i + 1 < |blocks| && blocks[i].free && blocks[i + 1].free
    ensures IsUsed(Merged(blocks, i), b) <==> IsUsed(blocks, b)
  {
    assert blocks == blocks[..i] + [blocks[i], blocks[i + 1]] + blocks[i + 2..];
  }

  lemma ReleasedUsed(blocks: seq<Block>, from: nat, to: nat, i: nat, b: Block)
    requires Tiles(blocks, from, to) && i < |blocks| && !blocks[i].free
    ensures IsUsed(Released(blocks, i), b) <==> IsUsed(blocks, b) && b != blocks[i]
  {
    var b1 := blocks[i := blocks[i].(free := true)];
    DistinctAddresses(blocks, from, to, i);
    assert blocks == blocks[..i] + [blocks[i]] + blocks[i + 1..];
    assert b1 == blocks[..i] + [b1[i]] + blocks[i + 1..];
    assert blocks[i] !in blocks[..i] && blocks[i] !in blocks[i + 1..];
    var b2 := MergedForward(b1, i);
    if b2 != b1 { MergedUsed(b1, i, b); }
    if MergedBackward(b2, i) != b2 { MergedUsed(b2, i - 1, b); }
  }

  // ----- Counting

  function UsedCount(blocks: seq<Block>): nat {
    if blocks == [] then 0 else (if blocks[0].free then 0 else 1) + UsedCount(blocks[1..])
  }

  function FreeCount(blocks: seq<Block>): nat {
    if blocks == [] then 0 else (if blocks[0].free then 1 else 0) + FreeCount(blocks[1..])
  }

  /** The usable bytes of the used blocks. */
  function UsedBytes(blocks: seq<Block>): nat {
    if blocks == [] then 0 else (if blocks[0].free then 0 else blocks[0].size) + UsedBytes(blocks[1..])
  }

  /** The bytes of the free blocks, headers included. */
  function FreeSpan(blocks: seq<Block>): nat {
    if blocks == [] then 0 else (if blocks[0].free then HEADER_SIZE + blocks[0].size else 0) + FreeSpan(blocks[1..])
  }

  lemma {:induction false} SpansAddUp(blocks: seq<Block>, from: nat, to: nat)
    requires Tiles(blocks, from, to)
    ensures to == from + UsedBytes(blocks) + HEADER_SIZE * UsedCount(blocks) + FreeSpan(blocks)
    decreases |blocks|
  {
    var rest := blocks[1..];
    if rest != [] {
      forall i ensures Follows(rest, i) {
        assert Follows(blocks, i + 1);
      }
      assert Follows(blocks, 0);
      SpansAddUp(rest, blocks[0].End(), to);
    }
  }

  lemma {:induction false} FewFreeBlocks(blocks: seq<Block>)
    requires Coalesced(blocks)
    ensures FreeCount(blocks) <= UsedCount(blocks) + 1
    ensures blocks != [] && !blocks[0].free ==> FreeCount(blocks) <= UsedCount(blocks)
    decreases |blocks|
  {
    if blocks != [] {
      var rest := blocks[1..];
      forall k ensures !FreePair(rest, k) {
        assert !FreePair(blocks, k + 1);
      }
      assert !FreePair(blocks, 0);
      FewFreeBlocks(rest);
    }
  }

  lemma {:induction false} SmallFreeBlocks(blocks: seq<Block>, s: nat)
    requires s % 16 == 0
    requires forall i :: 0 <= i < |blocks| ==> !blocks[i].Fits(s) && blocks[i].size % 16 == 0
    ensures FreeSpan(blocks) <= FreeCount(blocks) * (s + 16)
    decreases |blocks|
  {
    if blocks != [] {
      var n := FreeCount(blocks[1..]);
      SmallFreeBlocks(blocks[1..], s);
      assert blocks[0].free ==> s >= 16 && blocks[0].size <= s - 16;
      assert (n + 1) * (s + 16) == n * (s + 16) + (s + 16);
    }
  }

  lemma NoFitMeansFull(blocks: seq<Block>, from: nat, to: nat, s: nat)
    requires Tiles(blocks, from, to) && Coalesced(blocks) && s % 16 == 0
    requires forall i :: 0 <= i < |blocks| ==> !blocks[i].Fits(s)
    ensures to - from <= UsedBytes(blocks) + 32 * UsedCount(blocks) + (UsedCount(blocks) + 1) * (s + 16)
  {
    SpansAddUp(blocks, from, to);
    FewFreeBlocks(blocks);
    SmallFreeBlocks(blocks, s);
    Scale(FreeCount(blocks), UsedCount(blocks) + 1, s + 16);
  }

  lemma Scale(a: nat, b: nat, c: nat)
    requires a <= b
    ensures a * c <= b * c
  {
  }

  /** The fragmentation bound: with n used blocks of U bytes in all, a request of s bytes (rounded
      up) finds a block whenever the range is larger than U + 32n + (n + 1)(s + 16). */
  lemma FragmentationBound(blocks: seq<Block>, from: nat, to: nat, s: nat)
    requires Tiles(blocks, from, to) && Coalesced(blocks) && s % 16 == 0
    requires to - from > UsedBytes(blocks) + 32 * UsedCount(blocks) + (UsedCount(blocks) + 1) * (s + 16)
    ensures exists i :: 0 <= i < |blocks| && blocks[i].Fits(s)
  {
    if forall i :: 0 <= i < |blocks| ==> !blocks[i].Fits(s) {
      NoFitMeansFull(blocks, from, to, s);
    }
  }

  /** Where the used blocks start; there are as many payloads as used blocks. */
  function UsedPayloads(blocks: seq<Block>): set<nat> {
    if blocks == [] then {} else (if blocks[0].free then {} else {blocks[0].Payload()}) + UsedPayloads(blocks[1..])
  }

  lemma {:induction false} OnePayloadEach(blocks: seq<Block>, from: nat, to: nat)
    requires Tiles(blocks, from, to)
    ensures |UsedPayloads(blocks)| == UsedCount(blocks)
    ensures forall p :: p in UsedPayloads(blocks) ==> p >= from + HEADER_SIZE
    decreases |blocks|
  {
    var rest := blocks[1..];
    if rest != [] {
      forall i ensures Follows(rest, i) {
        assert Follows(blocks, i + 1);
      }
      assert Follows(blocks, 0);
      OnePayloadEach(rest, blocks[0].End(), to);
    }
  }

  lemma {:induction false} PayloadsOfUsed(blocks: seq<Block>)
    ensures forall b :: IsUsed(blocks, b) ==> b.Payload() in UsedPayloads(blocks)
    ensures forall p :: p in UsedPayloads(blocks) ==> exists b :: IsUsed(blocks, b) && b.Payload() == p
    decreases |blocks|
  {
    if blocks != [] {
      var rest := blocks[1..];
      PayloadsOfUsed(rest);
      assert blocks == [blocks[0]] + rest;
      forall p | p in UsedPayloads(blocks) ensures exists b :: IsUsed(blocks, b) && b.Payload() == p {
        if p in UsedPayloads(rest) {
          var b :| IsUsed(rest, b) && b.Payload() == p;
          assert IsUsed(blocks, b);
        } else {
          assert IsUsed(blocks, blocks[0]);
        }
      }
    }
  }

  /** Every block has room for something. */
  ghost predicate Roomy(blocks: seq<Block>) {
    forall i :: 0 <= i < |blocks| ==> blocks[i].size >= MIN_SPLIT_SIZE
  }

  /** An allocation leaves a block without room exactly if it splits off fewer than 16 bytes. */
  lemma AllocatedRoomy(blocks: seq<Block>, i: nat, s: nat)
    requires Roomy(blocks) && i < |blocks| && blocks[i].Fits(s)
    ensures Roomy(Allocated(blocks, i, s)) <==> !(s < MIN_SPLIT_SIZE && Splits(blocks[i], s))
  {
    var after := Allocated(blocks, i, s);
    forall k | 0 <= k < |after| && k != i && k != i + 1 ensures after[k].size >= MIN_SPLIT_SIZE {
      assert after[k] == blocks[if k < i then k else if Splits(blocks[i], s) then k - 1 else k];
    }
    assert i + 1 < |after| ==> after[i + 1].size >= MIN_SPLIT_SIZE by {
      if i + 1 < |after| && !Splits(blocks[i], s) {
        assert after[i + 1] == blocks[i + 1];
      }
    }
    assert after[i].size == if Splits(blocks[i], s) then s else blocks[i].size;
  }

  lemma MergedRoomy(blocks: seq<Block>, i: nat)
    requires Roomy(blocks) && i + 1 < |blocks|
    ensures Roomy(Merged(blocks, i))
  {
    var after := Merged(blocks, i);
    forall k | 0 <= k < |after| ensures after[k].size >= MIN_SPLIT_SIZE {
      assert k != i ==> after[k] == blocks[if k < i then k else k + 1];
    }
  }

  lemma ReleasedRoomy(blocks: seq<Block>, i: nat)
    requires Roomy(blocks) && i < |blocks|
    ensures Roomy(Released(blocks, i))
  {
    var b1 := blocks[i := blocks[i].(free := true)];
    var b2 := MergedForward(b1, i);
    if b2 != b1 { MergedRoomy(b1, i); }
    if MergedBackward(b2, i) != b2 { MergedRoomy(b2, i - 1); }
  }

  /** With nothing in use, coalescing leaves exactly one block. */
  lemma AllFreeIsOneBlock(blocks: seq<Block>, from: nat, to: nat)
    requires Tiles(blocks, from, to) && Coalesced(blocks)
    requires forall i :: 0 <= i < |blocks| ==> blocks[i].free
    ensures |blocks| == 1 && blocks[0].addr == from && blocks[0].End() == to && blocks[0].free
  {
    assert !FreePair(blocks, 0);
  }
}

module Heap {
  import opened Words
  import opened Entries
  import opened KernelMemory
  import opened HeapBlocks
  import opened HeapMemory

  function AddrOrNull(blocks: seq<Block>, i: int): nat {
    if 0 <= i < |blocks| then blocks[i].addr else NULL
  }

  function HeaderOf(blocks: seq<Block>, i: nat): Header
    requires i < |blocks|
  {
    Header(blocks[i].size, blocks[i].free, AddrOrNull(blocks, i - 1), AddrOrNull(blocks, i + 1))
  }

  predicate HeaderIn(headers: map<nat, Header>, blocks: seq<Block>, i: nat) {
    i < |blocks| && blocks[i].addr in headers && headers[blocks[i].addr] == HeaderOf(blocks, i)
  }

  /** The headers in memory are those of the blocks, so prev and next are mutually inverse. */
  ghost predicate Linked(headers: map<nat, Header>, blocks: seq<Block>) {
    forall i: nat :: i < |blocks| ==> HeaderIn(headers, blocks, i)
  }

  /** The headers after kmalloc has split block i. */
  function SplitHeaders(headers: map<nat, Header>, blocks: seq<Block>, i: nat, s: nat): map<nat, Header>
    requires i < |blocks| && blocks[i].Fits(s) && Splits(blocks[i], s)
    requires AddrOrNull(blocks, i + 1) in headers || AddrOrNull(blocks, i + 1) == NULL
  {
    var b, cut, next := blocks[i], blocks[i].Payload() + s, AddrOrNull(blocks, i + 1);
    var relinked := if next == NULL then headers else headers[next := headers[next].(prev := cut)];
    relinked[b.addr := Header(s, false, AddrOrNull(blocks, i - 1), cut)]
            [cut := Header(b.size - s - HEADER_SIZE, true, b.addr, next)]
  }

  /** after is blocks with block i cut in two. */
  ghost predicate CutAt(blocks: seq<Block>, after: seq<Block>, i: nat, s: nat) {
    && i < |blocks| && |after| == |blocks| + 1
    && (forall k :: 0 <= k < i ==> after[k] == blocks[k])
    && after[i] == Block(blocks[i].addr, s, false)
    && after[i + 1].addr == blocks[i].Payload() + s && after[i + 1].free
    && after[i + 1].size == blocks[i].size - s - HEADER_SIZE
    && (forall k :: i + 2 <= k < |after| ==> after[k] == blocks[k - 1])
  }

  lemma SplitLinksLeft(headers: map<nat, Header>, blocks: seq<Block>, after: seq<Block>, from: nat, to: nat, i: nat,
                       s: nat, k: nat)
    requires 0 < from && Tiles(blocks, from, to) && Linked(headers, blocks)
    requires i < |blocks| && blocks[i].Fits(s) && Splits(blocks[i], s) && CutAt(blocks, after, i, s)
    requires AddrOrNull(blocks, i + 1) in headers || AddrOrNull(blocks, i + 1) == NULL
    requires k < i
    ensures HeaderIn(SplitHeaders(headers, blocks, i, s), after, k)
  {
    DistinctAddresses(blocks, from, to, i);
    if i + 1 < |blocks| {
      DistinctAddresses(blocks, from, to, i + 1);
    }
    assert HeaderIn(headers, blocks, k);
    assert after[k + 1].addr == blocks[k + 1].addr;
  }

  lemma SplitLinksMiddle(headers: map<nat, Header>, blocks: seq<Block>, after: seq<Block>, from: nat, to: nat,
                         i: nat, s: nat, k: nat)
    requires 0 < from && Tiles(blocks, from, to) && Linked(headers, blocks)
    requires i < |blocks| && blocks[i].Fits(s) && Splits(blocks[i], s) && CutAt(blocks, after, i, s)
    requires AddrOrNull(blocks, i + 1) in headers || AddrOrNull(blocks, i + 1) == NULL
    requires i <= k <= i + 1
    ensures HeaderIn(SplitHeaders(headers, blocks, i, s), after, k)
  {
    assert HeaderIn(headers, blocks, i);
    assert i + 2 < |after| ==> after[i + 2] == blocks[i + 1];
  }

  lemma SplitLinksRight(headers: map<nat, Header>, blocks: seq<Block>, after: seq<Block>, from: nat, to: nat, i: nat,
                        s: nat, k: nat)
    requires 0 < from && Tiles(blocks, from, to) && Linked(headers, blocks)
    requires i < |blocks| && blocks[i].Fits(s) && Splits(blocks[i], s) && CutAt(blocks, after, i, s)
    requires AddrOrNull(blocks, i + 1) in headers || AddrOrNull(blocks, i + 1) == NULL
    requires i + 1 < k < |after|
    ensures HeaderIn(SplitHeaders(headers, blocks, i, s), after, k)
  {
    DistinctAddresses(blocks, from, to, i);
    DistinctAddresses(blocks, from, to, i + 1);
    BlocksAreOrdered(blocks, from, to, i, i + 1);
    assert HeaderIn(headers, blocks, k - 1);
    assert k + 1 < |after| ==> after[k + 1] == blocks[k];
    assert after[k - 1] == if k == i + 2 then after[i + 1] else blocks[k - 2];
  }

  /** Splitting block i in the list is splitting it in the sequence. */
  lemma SplitKeepsLinks(headers: map<nat, Header>, blocks: seq<Block>, from: nat, to: nat, i: nat, s: nat)
    requires 0 < from && Tiles(blocks, from, to) && Linked(headers, blocks)
    requires i < |blocks| && blocks[i].Fits(s) && Splits(blocks[i], s)
    requires AddrOrNull(blocks, i + 1) in headers || AddrOrNull(blocks, i + 1) == NULL
    ensures Linked(SplitHeaders(headers, blocks, i, s), Allocated(blocks, i, s))
  {
    var after := Allocated(blocks, i, s);
    assert CutAt(blocks, after, i, s);
    forall k: nat | k < |after| ensures HeaderIn(SplitHeaders(headers, blocks, i, s), after, k) {
      if k < i {
        SplitLinksLeft(headers, blocks, after, from, to, i, s, k);
      } else if k <= i + 1 {
        SplitLinksMiddle(headers, blocks, after, from, to, i, s, k);
      } else {
        SplitLinksRight(headers, blocks, after, from, to, i, s, k);
      }
    }
  }

  // ----- Merging

  /** The headers after block i has absorbed block i + 1. */
  function MergeHeaders(headers: map<nat, Header>, blocks: seq<Block>, i: nat): map<nat, Header>
    requires i + 1 < |blocks|
    requires AddrOrNull(blocks, i + 2) in headers || AddrOrNull(blocks, i + 2) == NULL
  {
    var a, next := blocks[i].addr, AddrOrNull(blocks, i + 2);
    var absorbed := headers[a := Header(blocks[i].size + HEADER_SIZE + blocks[i + 1].size, blocks[i].free,
                                        AddrOrNull(blocks, i - 1), next)];
    if next == NULL then absorbed else absorbed[next := absorbed[next].(prev := a)]
  }

  /** after is blocks with blocks i and i + 1 joined. */
  ghost predicate JoinedAt(blocks: seq<Block>, after: seq<Block>, i: nat) {
    && i + 1 < |blocks| && |after| == |blocks| - 1
    && (forall k :: 0 <= k < i ==> after[k] == blocks[k])
    && after[i] == Block(blocks[i].addr, blocks[i].size + HEADER_SIZE + blocks[i + 1].size, blocks[i].free)
    && (forall k :: i < k < |after| ==> after[k] == blocks[k + 1])
  }

  lemma MergeLinksAt(headers: map<nat, Header>, blocks: seq<Block>, after: seq<Block>, from: nat, to: nat, i: nat,
                     k: nat)
    requires 0 < from && Tiles(blocks, from, to) && Linked(headers, blocks) && JoinedAt(blocks, after, i)
    requires AddrOrNull(blocks, i + 2) in headers || AddrOrNull(blocks, i + 2) == NULL
    requires k < |after|
    ensures HeaderIn(MergeHeaders(headers, blocks, i), after, k)
  {
    DistinctAddresses(blocks, from, to, i);
    if i + 2 < |blocks| {
      DistinctAddresses(blocks, from, to, i + 2);
      BlocksAreOrdered(blocks, from, to, i, i + 2);
    }
    if k <= i {
      assert HeaderIn(headers, blocks, k);
      assert k + 1 < |after| ==> after[k + 1].addr == if k == i then blocks[i + 2].addr else blocks[k + 1].addr;
    } else {
      assert HeaderIn(headers, blocks, k + 1);
      assert k + 1 < |after| ==> after[k + 1] == blocks[k + 2];
      assert after[k - 1].addr == if k == i + 1 then blocks[i].addr else blocks[k].addr;
    }
  }

  /** Merging in the list is merging in the sequence. */
  lemma MergeKeepsLinks(headers: map<nat, Header>, blocks: seq<Block>, from: nat, to: nat, i: nat)
    requires 0 < from && Tiles(blocks, from, to) && Linked(headers, blocks) && i + 1 < |blocks|
    requires AddrOrNull(blocks, i + 2) in headers || AddrOrNull(blocks, i + 2) == NULL
    ensures Linked(MergeHeaders(headers, blocks, i), Merged(blocks, i))
  {
    var after := Merged(blocks, i);
    assert JoinedAt(blocks, after, i);
    forall k: nat | k < |after| ensures HeaderIn(MergeHeaders(headers, blocks, i), after, k) {
      MergeLinksAt(headers, blocks, after, from, to, i, k);
    }
  }

  // ----- Who was given what

  /** The next multiple of 16, computed in 64 bits: the topmost 15 sizes wrap around to 0. */
  function RoundUp(request: uint64): nat {
    (request + MIN_SPLIT_SIZE - 1) % TWO_64 / MIN_SPLIT_SIZE * MIN_SPLIT_SIZE
  }

  lemma RoundUpHolds(request: uint64)
    ensures RoundUp(request) % MIN_SPLIT_SIZE == 0
    ensures request <= TWO_64 - 16 ==> request <= RoundUp(request) < request + 16
    ensures request > TWO_64 - 16 ==> RoundUp(request) == 0
  {
    var _, k := SmallExponents();
    AlignUpRounds(request, k, MIN_SPLIT_SIZE);
  }

  lemma AlignIsRoundUp(request: uint64)
    ensures AlignUp(request, MIN_SPLIT_SIZE) == RoundUp(request)
  {
    var _, k := SmallExponents();
    AlignUpRounds(request, k, MIN_SPLIT_SIZE);
  }

  predicate Granted(b: Block, live: map<nat, uint64>) {
    && b.Payload() in live
    && RoundUp(live[b.Payload()]) <= b.size <= RoundUp(live[b.Payload()]) + 32
  }

  /** The live pointers are exactly the payloads of the used blocks, each a little larger than
      was asked for at most. */
  ghost predicate Owns(blocks: seq<Block>, live: map<nat, uint64>) {
    && (forall b :: IsUsed(blocks, b) ==> Granted(b, live))
    && (forall ptr :: ptr in live ==> exists b :: IsUsed(blocks, b) && b.Payload() == ptr)
  }

  /** The block for a request holds it unless the rounding wraps around. */
  lemma GrantedSize(blocks: seq<Block>, from: nat, to: nat, i: nat, request: uint64)
    requires i < |blocks| && blocks[i].Fits(RoundUp(request))
    requires Tiles(blocks, from, to) && to < TWO_64 - 16
    ensures var after := Allocated(blocks, i, RoundUp(request));
            && i < |after| && after[i].addr == blocks[i].addr
            && (request <= after[i].size <==> request <= TWO_64 - 16)
    ensures Roomy(blocks) ==>
              (Roomy(Allocated(blocks, i, RoundUp(request)))
               <==> !(RoundUp(request) < MIN_SPLIT_SIZE && Splits(blocks[i], RoundUp(request))))
  {
    RoundUpHolds(request);
    if Roomy(blocks) { AllocatedRoomy(blocks, i, RoundUp(request)); }
    if i < |blocks| - 1 { BlocksAreOrdered(blocks, from, to, i, |blocks| - 1); }
  }

  /** There are as many used blocks as live pointers. */
  lemma LiveCount(blocks: seq<Block>, live: map<nat, uint64>, from: nat, to: nat)
    requires Tiles(blocks, from, to) && Owns(blocks, live)
    ensures UsedCount(blocks) == |live|
  {
    OnePayloadEach(blocks, from, to);
    PayloadsOfUsed(blocks);
    assert UsedPayloads(blocks) == live.Keys by {
      forall p | p in live ensures p in UsedPayloads(blocks) {
        var b :| IsUsed(blocks, b) && b.Payload() == p;
      }
      forall p | p in UsedPayloads(blocks) ensures p in live {
        var b :| IsUsed(blocks, b) && b.Payload() == p;
        assert Granted(b, live);
      }
    }
  }

  lemma OwnsAfterAlloc(blocks: seq<Block>, live: map<nat, uint64>, from: nat, to: nat, i: nat, request: uint64)
    requires Tiles(blocks, from, to) && Owns(blocks, live)
    requires i < |blocks| && blocks[i].Fits(RoundUp(request)) && RoundUp(request) % MIN_SPLIT_SIZE == 0
    requires Coalesced(blocks)
    ensures blocks[i].Payload() !in live
    ensures Owns(Allocated(blocks, i, RoundUp(request)), live[blocks[i].Payload() := request])
  {
    var after, ptr := Allocated(blocks, i, RoundUp(request)), blocks[i].Payload();
    AllocatedIsSound(blocks, from, to, i, RoundUp(request));
    UsedElsewhere(blocks, from, to, i);
    forall b | IsUsed(after, b) ensures Granted(b, live[ptr := request]) {
      AllocatedUsed(blocks, i, RoundUp(request), b);
    }
    var live' := live[ptr := request];
    forall p | p in live' ensures exists b :: IsUsed(after, b) && b.Payload() == p {
      if p == ptr {
        assert IsUsed(after, after[i]);
      } else {
        var b :| IsUsed(blocks, b) && b.Payload() == p;
        AllocatedUsed(blocks, i, RoundUp(request), b);
      }
    }
  }

  /** No used block other than block i has its payload. */
  lemma UsedElsewhere(blocks: seq<Block>, from: nat, to: nat, i: nat)
    requires Tiles(blocks, from, to) && i < |blocks|
    ensures forall b :: IsUsed(blocks, b) && b != blocks[i] ==> b.Payload() != blocks[i].Payload()
  {
    DistinctAddresses(blocks, from, to, i);
  }

  lemma OwnsAfterRelease(blocks: seq<Block>, live: map<nat, uint64>, from: nat, to: nat, i: nat)
    requires Tiles(blocks, from, to) && Owns(blocks, live) && i < |blocks| && !blocks[i].free
    ensures Owns(Released(blocks, i), live - {blocks[i].Payload()})
  {
    var after := Released(blocks, i);
    UsedElsewhere(blocks, from, to, i);
    forall b | IsUsed(after, b) ensures Granted(b, live - {blocks[i].Payload()}) {
      ReleasedUsed(blocks, from, to, i, b);
    }
    forall p | p in live - {blocks[i].Payload()} ensures exists b :: IsUsed(after, b) && b.Payload() == p {
      var b :| IsUsed(blocks, b) && b.Payload() == p;
      ReleasedUsed(blocks, from, to, i, b);
    }
  }

  /** Memory is only written where a block header starts. */
  ghost predicate WritesHeadersOnly(before: map<nat, Header>, after: map<nat, Header>, blocks: seq<Block>) {
    forall a :: a in after && (a !in before || after[a] != before[a]) ==> StartsBlock(blocks, a)
  }

  ghost predicate StartsBlock(blocks: seq<Block>, a: nat) {
    exists i :: 0 <= i < |blocks| && blocks[i].addr == a
  }

  /** Every block of a coarser sequence starts where one of a finer sequence does. */
  ghost predicate Coarser(coarse: seq<Block>, fine: seq<Block>) {
    forall i :: 0 <= i < |coarse| ==> StartsBlock(fine, coarse[i].addr)
  }

  lemma MergingCoarsens(blocks: seq<Block>, i: nat)
    requires i + 1 < |blocks|
    ensures Coarser(Merged(blocks, i), blocks)
  {
    var after := Merged(blocks, i);
    forall k | 0 <= k < |after| ensures StartsBlock(blocks, after[k].addr) {
      assert after[k].addr == blocks[if k <= i then k else k + 1].addr;
    }
  }

  /** A header never overlaps the payload of a block. */
  lemma HeadersMissPayloads(blocks: seq<Block>, from: nat, to: nat, i: nat, j: nat)
    requires Tiles(blocks, from, to) && i < |blocks| && j < |blocks|
    ensures blocks[i].addr + HEADER_SIZE <= blocks[j].Payload() || blocks[j].End() <= blocks[i].addr
  {
    if i < j {
      BlocksAreOrdered(blocks, from, to, i, j);
    } else if j < i {
      BlocksAreOrdered(blocks, from, to, j, i);
    }
  }

  // ----- Heap calls

  /** The heap between two calls. */
  datatype HeapState = HeapState(blocks: seq<Block>, headers: map<nat, Header>, live: map<nat, uint64>)
  {
    ghost predicate Sound() {
      && Tiles(blocks, HEAP_VBASE, HEAP_VBASE + HEAP_SIZE) && Coalesced(blocks)
      && Linked(headers, blocks) && OnlyBlocks(headers, blocks) && Owns(blocks, live)
    }
  }

  datatype HeapCall = Malloc(size: uint64, result: nat) | Free(ptr: nat)

  /** What a call does to the live pointers, and that it writes headers only: of blocks that are there after
      kmalloc, or were there before kfree. */
  ghost predicate Called(h: HeapState, call: HeapCall, h': HeapState) {
    && h.Sound() && h'.Sound()
    && match call
       case Malloc(size, ptr) =>
         if ptr == NULL then h' == h
         else ptr !in h.live && h'.live == h.live[ptr := size] && WritesHeadersOnly(h.headers, h'.headers, h'.blocks)
       case Free(ptr) =>
         && (ptr == NULL || ptr in h.live)
         && h'.live == h.live - {ptr} && WritesHeadersOnly(h.headers, h'.headers, h.blocks)
  }

  // ----- What the heap writes

  function HeaderWordsOf(blocks: seq<Block>): set<nat> {
    set i: nat, w: nat | i < |blocks| && w in WordsOf(blocks[i].addr) :: w
  }

  /** Of all that is mapped nothing is unmapped, and nothing but headers of these blocks is written. */
  ghost predicate Wrote(s: Snapshot, s': Snapshot, blocks: seq<Block>) {
    OnlyWords(s, s', HeaderWordsOf(blocks))
  }

  lemma WroteNothing(s: Snapshot, blocks: seq<Block>)
    ensures Wrote(s, s, blocks)
  {
  }

  lemma WroteOne(s: Snapshot, t: Snapshot, u: Snapshot, blocks: seq<Block>, i: nat)
    requires i < |blocks| && Wrote(s, t, blocks) && OnlyWords(t, u, WordsOf(blocks[i].addr))
    ensures Wrote(s, u, blocks)
  {
    hide OnlyWords, WordsOf;
    OnlyWordsChain(s, t, u, HeaderWordsOf(blocks), WordsOf(blocks[i].addr), HeaderWordsOf(blocks));
  }

  lemma WroteCoarser(s: Snapshot, t: Snapshot, u: Snapshot, blocks: seq<Block>, coarse: seq<Block>)
    requires Wrote(s, t, blocks) && Wrote(t, u, coarse) && Coarser(coarse, blocks)
    ensures Wrote(s, u, blocks)
  {
    hide OnlyWords, WordsOf;
    forall w | w in HeaderWordsOf(coarse) ensures w in HeaderWordsOf(blocks) {
      var i: nat :| i < |coarse| && w in WordsOf(coarse[i].addr);
      assert StartsBlock(blocks, coarse[i].addr);
    }
    OnlyWordsChain(s, t, u, HeaderWordsOf(blocks), HeaderWordsOf(coarse), HeaderWordsOf(blocks));
  }

  ghost predicate OnlyBlocks(headers: map<nat, Header>, blocks: seq<Block>) {
    forall a :: a in headers ==> StartsBlock(blocks, a)
  }

  ghost function Starts(blocks: seq<Block>): set<nat> {
    set i: nat | i < |blocks| :: blocks[i].addr
  }

  /** Headers that no block has any more can be forgotten. */
  lemma ForgetKeeps(before: map<nat, Header>, headers: map<nat, Header>, kept: map<nat, Header>, blocks: seq<Block>,
                    written: seq<Block>)
    requires Linked(headers, blocks) && WritesHeadersOnly(before, headers, written)
    requires kept == map a | a in headers && a in Starts(blocks) :: headers[a]
    ensures Linked(kept, blocks) && OnlyBlocks(kept, blocks) && WritesHeadersOnly(before, kept, written)
  {
    hide WritesHeadersOnly;
    forall i: nat | i < |blocks| ensures HeaderIn(kept, blocks, i) {
      assert HeaderIn(headers, blocks, i);
    }
    assert WritesHeadersOnly(before, kept, written) by { FewerWritten(before, headers, kept, written); }
  }

  lemma FewerWritten(before: map<nat, Header>, headers: map<nat, Header>, kept: map<nat, Header>, written: seq<Block>)
    requires WritesHeadersOnly(before, headers, written)
    requires forall a :: a in kept ==> a in headers && kept[a] == headers[a]
    ensures WritesHeadersOnly(before, kept, written)
  {
  }

  /** Where kmalloc cuts a block there is room for a header that overlaps no other. */
  lemma CutPlace(headers: map<nat, Header>, blocks: seq<Block>, i: nat, s: nat)
    requires i < |blocks| && blocks[i].Fits(s) && Splits(blocks[i], s) && s % MIN_SPLIT_SIZE == 0
    requires Tiles(blocks, HEAP_VBASE, HEAP_VBASE + HEAP_SIZE) && Linked(headers, blocks)
    requires OnlyBlocks(headers, blocks)
    ensures var node, cut, next := blocks[i].addr, blocks[i].Payload() + s, AddrOrNull(blocks, i + 1);
            && HeaderIn(headers, blocks, i) && HeaderPlace(cut) && cut !in headers && cut < TWO_64
            && (forall b :: b in headers ==> HeadersApart(cut, b))
            && s + HEADER_SIZE <= blocks[i].size < TWO_64 && cut != node && cut != next && next != node
            && (next == NULL <==> i + 1 >= |blocks|) && (next == NULL || next in headers)
            && |Allocated(blocks, i, s)| == |blocks| + 1
            && Allocated(blocks, i, s)[i].addr == node && Allocated(blocks, i, s)[i + 1].addr == cut
            && (i + 1 < |blocks| ==> Allocated(blocks, i, s)[i + 2].addr == next)
  {
    assert HeaderIn(headers, blocks, i);
    BlocksAreAligned(blocks, HEAP_VBASE, HEAP_VBASE + HEAP_SIZE, i);
    NextIsLinked(headers, blocks, HEAP_VBASE, HEAP_VBASE + HEAP_SIZE, i + 1);
    var cut := blocks[i].Payload() + s;
    forall b | b in headers ensures HeadersApart(cut, b) && cut != b {
      var k :| 0 <= k < |blocks| && blocks[k].addr == b;
      HeadersMissPayloads(blocks, HEAP_VBASE, HEAP_VBASE + HEAP_SIZE, k, i);
    }
    if i + 1 < |blocks| {
      BlocksAreOrdered(blocks, HEAP_VBASE, HEAP_VBASE + HEAP_SIZE, i, i + 1);
    }
  }

  /** The stores of the splitting branch, one after the other. */
  lemma SplitStores(h0: map<nat, Header>, h1: map<nat, Header>, h2: map<nat, Header>, h3: map<nat, Header>,
                    h4: map<nat, Header>, blocks: seq<Block>, i: nat, s: nat)
    requires i < |blocks| && blocks[i].Fits(s) && Splits(blocks[i], s) && HeaderIn(h0, blocks, i)
    requires var node, cut, next := blocks[i].addr, blocks[i].Payload() + s, AddrOrNull(blocks, i + 1);
             && cut != node && cut != next && next != node && (next == NULL || next in h0)
             && h1 == h0[cut := Header(blocks[i].size - s - HEADER_SIZE, true, node, next)]
             && h2 == (if next == NULL then h1 else h1[next := h1[next].(prev := cut)])
             && h3 == h2[node := h2[node].(size := s)] && h4 == h3[node := h3[node].(next := cut)]
    ensures h4[blocks[i].addr := h4[blocks[i].addr].(free := false)] == SplitHeaders(h0, blocks, i, s)
  {
  }

  lemma HeaderInList(headers: map<nat, Header>, blocks: seq<Block>, i: nat)
    requires Linked(headers, blocks) && i < |blocks|
    ensures HeaderIn(headers, blocks, i)
  {
  }

  /** Marking a block writes its header only. */
  lemma MarkWrites(headers: map<nat, Header>, blocks: seq<Block>, i: nat, free: bool)
    requires i < |blocks| && blocks[i].addr in headers
    ensures var a := blocks[i].addr; WritesHeadersOnly(headers, headers[a := headers[a].(free := free)], blocks)
  {
    assert StartsBlock(blocks, blocks[i].addr);
  }

  /** Two neighbours and the block behind them are at three places, and the joined size is a word. */
  lemma MergePlaces(blocks: seq<Block>, i: nat)
    requires Tiles(blocks, HEAP_VBASE, HEAP_VBASE + HEAP_SIZE) && i + 1 < |blocks|
    ensures blocks[i].addr != blocks[i + 1].addr && blocks[i].addr < TWO_64
    ensures blocks[i].size + HEADER_SIZE + blocks[i + 1].size < TWO_64
    ensures AddrOrNull(blocks, i + 2) != blocks[i].addr && AddrOrNull(blocks, i + 2) != blocks[i + 1].addr
  {
    BlocksAreAligned(blocks, HEAP_VBASE, HEAP_VBASE + HEAP_SIZE, i);
    BlocksAreAligned(blocks, HEAP_VBASE, HEAP_VBASE + HEAP_SIZE, i + 1);
    BlocksAreOrdered(blocks, HEAP_VBASE, HEAP_VBASE + HEAP_SIZE, i, i + 1);
    if i + 2 < |blocks| {
      BlocksAreOrdered(blocks, HEAP_VBASE, HEAP_VBASE + HEAP_SIZE, i + 1, i + 2);
      BlocksAreOrdered(blocks, HEAP_VBASE, HEAP_VBASE + HEAP_SIZE, i, i + 2);
    }
  }

  lemma PreviousIsLinked(headers: map<nat, Header>, blocks: seq<Block>, i: nat)
    requires Tiles(blocks, HEAP_VBASE, HEAP_VBASE + HEAP_SIZE) && Linked(headers, blocks) && i < |blocks|
    ensures AddrOrNull(blocks, i - 1) == NULL <==> i == 0
  {
    if i > 0 {
      BlocksAreAligned(blocks, HEAP_VBASE, HEAP_VBASE + HEAP_SIZE, i - 1);
    }
  }

  /** The blocks at the stages of kfree start where blocks did before. */
  lemma ReleaseCoarsens(blocks: seq<Block>, i: nat)
    requires i < |blocks|
    ensures var b1 := blocks[i := blocks[i].(free := true)];
            && Coarser(b1, blocks) && Coarser(MergedForward(b1, i), blocks)
            && i < |MergedForward(b1, i)| && MergedForward(b1, i)[i].addr == blocks[i].addr
  {
    var b1 := blocks[i := blocks[i].(free := true)];
    if MergedForward(b1, i) != b1 { MergingCoarsens(b1, i); }
    assert forall k :: 0 <= k < |blocks| ==> b1[k].addr == blocks[k].addr;
  }

  lemma SlotFilled(before: seq<LazyRegion>, after: seq<LazyRegion>)
    requires FillsFirstSlot(before, LazyRegion(HEAP_VBASE, HEAP_VBASE + HEAP_SIZE, VMM_WRITABLE, true), after)
    requires forall j :: 0 <= j < |before| && before[j].used ==> Elsewhere(before[j])
    ensures HeapRegistered(after)
  {
    var r := LazyRegion(HEAP_VBASE, HEAP_VBASE + HEAP_SIZE, VMM_WRITABLE, true);
    var i: nat :| i < |before| && (forall j :: 0 <= j < i ==> before[j].used) && after == before[i := r];
    assert IsHeapSlot(after, i);
  }

  class Allocator {
    const memory: HeaderMemory
    var freeList: nat
    ghost var blocks: seq<Block>
    /** The live pointers, with the sizes that were asked for. */
    ghost var live: map<nat, uint64>

    /** The headers in memory are those of the blocks, and the blocks are those of a heap. */
    ghost predicate Valid()
      reads this, memory, memory.manager, memory.manager.space, memory.manager.space.frames
      reads memory.manager.space.frames.bitmap, memory.manager.space.mem
    {
      && memory.Valid() && freeList == HEAP_VBASE
      && Tiles(blocks, HEAP_VBASE, HEAP_VBASE + HEAP_SIZE) && Coalesced(blocks)
      && Linked(memory.headers, blocks) && OnlyBlocks(memory.headers, blocks)
      && Owns(blocks, live)
    }

    ghost function State(): HeapState
      reads this, memory
    {
      HeapState(blocks, memory.headers, live)
    }

    ghost function Seen(): Snapshot
      reads memory.manager, memory.manager.space, memory.manager.space.frames
    {
      memory.manager.State()
    }

    lemma CalledInVain(size: uint64)
      requires Valid()
      ensures Called(State(), Malloc(size, NULL), State())
    {
    }

    lemma FreedInVain()
      requires Valid()
      ensures NULL !in live && live - {NULL} == live && Called(State(), Free(NULL), State())
    {
      hide HeaderMemory.Valid, OnlyBlocks;
      LivePointersArePositive(blocks, live, HEAP_VBASE, HEAP_VBASE + HEAP_SIZE);
    }

    /** What n live blocks and the fragments between them can take up at most when a request fails. */
    ghost function WorstCase(request: uint64): nat
      reads this
    {
      UsedBytes(blocks) + 32 * |live| + (|live| + 1) * (RoundUp(request) + 16)
    }

    lemma RefusedMeansFull(request: uint64)
      requires Valid() && forall k :: 0 <= k < |blocks| ==> !blocks[k].Fits(RoundUp(request))
      ensures HEAP_SIZE <= WorstCase(request)
    {
      hide HeaderMemory.Valid, OnlyBlocks, Coalesced, Linked, Owns, RoundUp, UsedBytes, Block.Fits;
      RoundUpHolds(request);
      LiveCount(blocks, live, HEAP_VBASE, HEAP_VBASE + HEAP_SIZE);
      NoFitMeansFull(blocks, HEAP_VBASE, HEAP_VBASE + HEAP_SIZE, RoundUp(request));
    }

    constructor (manager: MemoryManager)
      ensures memory.manager == manager && fresh(memory) && memory.headers == map[] && live == map[]
    {
      memory := new HeaderMemory(manager);
      freeList, blocks, live := NULL, [], map[];
    }

    /** heap_init; false stands for a panic: that there is no slot for another region, or no frame for the page
        of the first header. */
    method Init() returns (ok: bool)
      requires memory.manager.Valid() && memory.manager.Fits(HEAP_VBASE, HEAP_VBASE + HEAP_SIZE)
      requires HeapUsable(Seen()) && memory.headers == map[] && live == map[]
      modifies `freeList, `blocks, memory.manager`lazyRegions
      modifies memory`headers, memory.manager.space`words, memory.manager.space`tree, memory.manager.space`pages
      modifies memory.manager.space`owner, memory.manager.space`tlb, memory.manager.space`psc
      modifies memory.manager.space.frames`free, memory.manager.space.frames`freeFrames
      modifies memory.manager.space.frames`nextSearchIndex, memory.manager.space.frames.bitmap, memory.manager.space.mem
      ensures ok ==> Valid() && Roomy(blocks) && live == map[]
      ensures ok ==> blocks == [Block(0xffff_ffff_9000_0000, 0x100_0000 - 32, true)]
      ensures !ok ==>
                || (forall i :: 0 <= i < MAX_LAZY_REGIONS ==> old(memory.manager.lazyRegions)[i].used)
                || (|old(Seen()).free| < 8 && Seen().free == {})
    {
      hide HeaderMemory.Valid, MemoryManager.Valid, MemoryManager.Fits, MemoryManager.State, OnlyWords;
      ok := RegisterHeap();
      if !ok {
        return;
      }
      freeList := HEAP_VBASE;
      ok := memory.Create(HEAP_VBASE, HEAP_SIZE - HEADER_SIZE, NULL, NULL);
      blocks := [Block(HEAP_VBASE, HEAP_SIZE - HEADER_SIZE, true)];
    }

    method RegisterHeap() returns (ok: bool)
      requires memory.manager.Valid() && memory.manager.Fits(HEAP_VBASE, HEAP_VBASE + HEAP_SIZE)
      requires HeapUsable(Seen()) && memory.headers == map[]
      modifies memory.manager`lazyRegions
      ensures ok ==> memory.Valid() && Seen().free == old(Seen()).free
      ensures !ok ==> forall i :: 0 <= i < MAX_LAZY_REGIONS ==> old(memory.manager.lazyRegions)[i].used
    {
      hide MemoryManager.Valid, MemoryManager.Fits, Step, IsLazy, HeapIsOpen, HeapRegistered, Elsewhere;
      ghost var s := Seen();
      ok := memory.manager.RegisterLazyRegion(HEAP_VBASE, HEAP_VBASE + HEAP_SIZE, VMM_WRITABLE);
      if ok {
        SlotFilled(s.regions, memory.manager.lazyRegions);
        SamePagesStayOpen(s, Seen());
      }
    }

    /** The list starts at the first block. */
    lemma StartsAtBase()
      requires Valid()
      ensures freeList == AddrOrNull(blocks, 0)
    {
      hide HeaderMemory.Valid;
    }

    lemma HeaderAt(i: nat)
      requires Valid() && AddrOrNull(blocks, i) != NULL
      ensures i < |blocks| && HeaderIn(memory.headers, blocks, i)
    {
      hide HeaderMemory.Valid;
    }

    lemma NullIsAtEnd(i: nat)
      requires Valid()
      ensures AddrOrNull(blocks, i) == NULL <==> i >= |blocks|
    {
      hide HeaderMemory.Valid, Linked, OnlyBlocks, Owns, Coalesced;
      if i < |blocks| {
        BlocksAreAligned(blocks, HEAP_VBASE, HEAP_VBASE + HEAP_SIZE, i);
      }
    }

    /** The loop of kmalloc: the first node that fits, or NULL. */
    method FindFit(s: nat) returns (node: nat, ghost i: nat)
      requires Valid()
      modifies memory.manager.space`tlb, memory.manager.space`psc
      ensures Valid() && Seen() == old(Seen())
      ensures i <= |blocks| && node == AddrOrNull(blocks, i)
      ensures forall j :: 0 <= j < i ==> !blocks[j].Fits(s)
      ensures i < |blocks| ==> blocks[i].Fits(s) && node != NULL
    {
      hide HeaderMemory.Valid, MemoryManager.State, Tiles, Coalesced, Owns, Linked, OnlyBlocks;
      node, i := freeList, 0;
      StartsAtBase();
      while node != NULL
        invariant Valid() && Seen() == old(Seen())
        invariant i <= |blocks| && node == AddrOrNull(blocks, i)
        invariant forall j :: 0 <= j < i ==> !blocks[j].Fits(s)
        decreases |blocks| - i
      {
        HeaderAt(i);
        var free := memory.GetFree(node);
        var size := memory.GetSize(node);
        if free && size >= s {
          NullIsAtEnd(i);
          return;
        }
        node := memory.GetNext(node);
        i := i + 1;
      }
      NullIsAtEnd(i);
    }

    /** The splitting branch of kmalloc; node itself is marked as used afterwards. */
    method SplitNode(node: nat, s: nat, ghost i: nat) returns (ok: bool)
      requires memory.Valid() && OnlyBlocks(memory.headers, blocks)
      requires i < |blocks| && blocks[i].Fits(s) && Splits(blocks[i], s) && node == blocks[i].addr
      requires Tiles(blocks, HEAP_VBASE, HEAP_VBASE + HEAP_SIZE) && Linked(memory.headers, blocks)
      requires s % MIN_SPLIT_SIZE == 0
      modifies memory`headers, memory.manager.space`words, memory.manager.space`tree, memory.manager.space`pages
      modifies memory.manager.space`owner, memory.manager.space`tlb, memory.manager.space`psc
      modifies memory.manager.space.frames`free, memory.manager.space.frames`freeFrames
      modifies memory.manager.space.frames`nextSearchIndex, memory.manager.space.frames.bitmap, memory.manager.space.mem
      ensures !ok ==> |old(Seen()).free| < 8 && Seen().free == {}
      ensures AddrOrNull(blocks, i + 1) in old(memory.headers) || AddrOrNull(blocks, i + 1) == NULL
      ensures ok ==> memory.Valid() && node in memory.headers && Wrote(old(Seen()), Seen(), Allocated(blocks, i, s))
      ensures ok ==> memory.headers[node := memory.headers[node].(free := false)]
                     == SplitHeaders(old(memory.headers), blocks, i, s)
    {
      hide HeaderMemory.Valid, Tiles, Linked, OnlyBlocks, HeaderPlace, HeadersApart, SplitHeaders, Wrote, OnlyWords,
        WordsOf, Allocated, Splits, MemoryManager.State, Block.Fits;
      var newNode := node + HEADER_SIZE + s;
      CutPlace(memory.headers, blocks, i, s);
      ghost var h0, s0 := memory.headers, Seen();
      ghost var after := Allocated(blocks, i, s);
      WroteNothing(s0, after);
      var size := memory.GetSize(node);
      var next := memory.GetNext(node);
      ok := memory.Create(newNode, size - s - HEADER_SIZE, node, next);
      if !ok {
        return;
      }
      ghost var h1, s1 := memory.headers, Seen();
      WroteOne(s0, s0, s1, after, i + 1);
      if next != NULL {
        memory.SetPrev(next, newNode);
        WroteOne(s0, s1, Seen(), after, i + 2);
      }
      ghost var h2, s2 := memory.headers, Seen();
      memory.SetSize(node, s);
      ghost var h3, s3 := memory.headers, Seen();
      WroteOne(s0, s2, s3, after, i);
      memory.SetNext(node, newNode);
      WroteOne(s0, s3, Seen(), after, i);
      SplitStores(h0, h1, h2, h3, memory.headers, blocks, i, s);
    }


    /** Takes s bytes from the block at node. */
    method Take(node: nat, s: nat, ghost i: nat) returns (ok: bool)
      requires memory.Valid() && OnlyBlocks(memory.headers, blocks)
      requires i < |blocks| && blocks[i].Fits(s) && node == blocks[i].addr && s % MIN_SPLIT_SIZE == 0
      requires Tiles(blocks, HEAP_VBASE, HEAP_VBASE + HEAP_SIZE) && Linked(memory.headers, blocks)
      modifies memory`headers, memory.manager.space`words, memory.manager.space`tree, memory.manager.space`pages
      modifies memory.manager.space`owner, memory.manager.space`tlb, memory.manager.space`psc
      modifies memory.manager.space.frames`free, memory.manager.space.frames`freeFrames
      modifies memory.manager.space.frames`nextSearchIndex, memory.manager.space.frames.bitmap, memory.manager.space.mem
      ensures !ok ==> Splits(blocks[i], s) && |old(Seen()).free| < 8 && Seen().free == {}
      ensures ok ==> memory.Valid() && Linked(memory.headers, Allocated(blocks, i, s))
      ensures ok ==> WritesHeadersOnly(old(memory.headers), memory.headers, Allocated(blocks, i, s))
      ensures ok ==> Wrote(old(Seen()), Seen(), Allocated(blocks, i, s))
    {
      hide HeaderMemory.Valid, Tiles, Linked, OnlyBlocks, Wrote, OnlyWords, SplitHeaders, WritesHeadersOnly, WordsOf,
        MemoryManager.State;
      HeaderInList(memory.headers, blocks, i);
      ghost var headers0, s0 := memory.headers, Seen();
      ghost var after := Allocated(blocks, i, s);
      WroteNothing(s0, after);
      assert after[i].addr == node;
      var size := memory.GetSize(node);
      if size - s >= HEADER_SIZE + MIN_SPLIT_SIZE {
        ok := SplitNode(node, s, i);
        if !ok {
          return;
        }
        SplitKeepsLinks(headers0, blocks, HEAP_VBASE, HEAP_VBASE + HEAP_SIZE, i, s);
        SplitWrites(headers0, blocks, i, s);
      } else {
        ok := true;
        MarkKeepsLinks(headers0, blocks, HEAP_VBASE, HEAP_VBASE + HEAP_SIZE, i, false);
        MarkWrites(headers0, after, i, false);
      }
      ghost var s1 := Seen();
      memory.SetFree(node, false);
      WroteOne(s0, s1, Seen(), after, i);
    }

    /** Hands the block at node to the caller. */
    method Grant(node: nat, s: nat, size: uint64, ghost i: nat) returns (ok: bool, ptr: nat)
      requires Valid() && i < |blocks| && blocks[i].Fits(s) && node == blocks[i].addr
      requires s == RoundUp(size) && s % MIN_SPLIT_SIZE == 0
      modifies `blocks, `live
      modifies memory`headers, memory.manager.space`words, memory.manager.space`tree, memory.manager.space`pages
      modifies memory.manager.space`owner, memory.manager.space`tlb, memory.manager.space`psc
      modifies memory.manager.space.frames`free, memory.manager.space.frames`freeFrames
      modifies memory.manager.space.frames`nextSearchIndex, memory.manager.space.frames.bitmap, memory.manager.space.mem
      ensures !ok ==> Splits(old(blocks)[i], s) && |old(Seen()).free| < 8 && Seen().free == {}
      ensures ok ==>
                && Valid() && blocks == Allocated(old(blocks), i, s)
                && ptr == old(blocks)[i].Payload() && ptr % 16 == 0 && HEAP_VBASE < ptr
                && ptr !in old(live) && live == old(live)[ptr := size]
                && i < |blocks| && ptr == blocks[i].Payload() && (size <= blocks[i].size <==> size <= TWO_64 - 16)
      ensures ok ==> Called(old(State()), Malloc(size, ptr), State()) && Wrote(old(Seen()), Seen(), blocks)
      ensures ok && old(Roomy(blocks)) ==> (Roomy(blocks) <==> !(s < MIN_SPLIT_SIZE && Splits(old(blocks)[i], s)))
    {
      hide HeaderMemory.Valid, Wrote, WritesHeadersOnly, Linked, OnlyBlocks, Tiles, Coalesced, Owns, RoundUp,
        MemoryManager.State;
      GrantedSize(blocks, HEAP_VBASE, HEAP_VBASE + HEAP_SIZE, i, size);
      ghost var headers0 := memory.headers;
      ok := Take(node, s, i);
      ptr := NULL;
      if !ok {
        return;
      }
      AllocatedIsSound(blocks, HEAP_VBASE, HEAP_VBASE + HEAP_SIZE, i, s);
      OwnsAfterAlloc(blocks, live, HEAP_VBASE, HEAP_VBASE + HEAP_SIZE, i, size);
      BlocksAreAligned(blocks, HEAP_VBASE, HEAP_VBASE + HEAP_SIZE, i);
      if Roomy(blocks) { AllocatedRoomy(blocks, i, s); }
      ptr := node + HEADER_SIZE;
      ghost var headers1 := memory.headers;
      blocks, live := Allocated(blocks, i, s), live[ptr := size];
      memory.Forget(Starts(blocks));
      ForgetKeeps(headers0, headers1, memory.headers, blocks, blocks);
    }

    /** kmalloc; !ok stands for a panic, in the fault of the first store to a new page when no frame is left.
        NULL means that the request was 0 bytes or that no free block fits; otherwise
        block i, the first that fits, is used, and the caller gets a new 16-aligned payload, at
        most 32 bytes larger than the rounded request.  It holds the request exactly when the
        rounding did not wrap around.  It never fails while the heap is larger than what the live
        blocks and the fragments between them take up at worst.  A block without room comes about
        exactly if the rounding wraps to 0 and the block found is split. */
    method Kmalloc(size: uint64) returns (ok: bool, ptr: nat, ghost i: nat)
      requires Valid()
      modifies `blocks, `live
      modifies memory`headers, memory.manager.space`words, memory.manager.space`tree, memory.manager.space`pages
      modifies memory.manager.space`owner, memory.manager.space`tlb, memory.manager.space`psc
      modifies memory.manager.space.frames`free, memory.manager.space.frames`freeFrames
      modifies memory.manager.space.frames`nextSearchIndex, memory.manager.space.frames.bitmap, memory.manager.space.mem
      ensures !ok ==> |old(Seen()).free| < 8 && Seen().free == {}
      ensures ok ==> Valid()
      ensures ok ==>
                (ptr == NULL <==>
                   size == 0 || forall k :: 0 <= k < |old(blocks)| ==> !old(blocks)[k].Fits(RoundUp(size)))
      ensures ok && size > 0 && HEAP_SIZE > old(WorstCase(size)) ==> ptr != NULL
      ensures ok && ptr == NULL ==>
                && live == old(live) && blocks == old(blocks) && memory.headers == old(memory.headers)
                && Seen() == old(Seen())
      ensures ok && ptr != NULL ==>
                && FirstFit(old(blocks), RoundUp(size), i) && blocks == Allocated(old(blocks), i, RoundUp(size))
                && ptr == blocks[i].Payload() && ptr % 16 == 0
                && (size <= blocks[i].size <==> size <= TWO_64 - 16)
                && ptr !in old(live) && live == old(live)[ptr := size]
      ensures ok ==> Called(old(State()), Malloc(size, ptr), State()) && Wrote(old(Seen()), Seen(), blocks)
      ensures ok && old(Roomy(blocks)) ==>
                (Roomy(blocks) <==> !(ptr != NULL && size > TWO_64 - 16 && Splits(old(blocks)[i], 0)))
    {
      hide Valid, Called, Allocated, Roomy, Splits, AlignUp, RoundUp, Block.Fits, WorstCase, Wrote, MemoryManager.State;
      CalledInVain(size);
      WroteNothing(Seen(), blocks);
      if size == 0 {
        return true, NULL, 0;
      }
      AlignIsRoundUp(size);
      RoundUpHolds(size);
      var s := AlignUp(size, MIN_SPLIT_SIZE);
      var node;
      node, i := FindFit(s);
      if node == NULL {
        RefusedMeansFull(size);
        return true, NULL, i;
      }
      ok, ptr := Grant(node, s, size, i);
    }

    /** What a merge stores to. */
    lemma MergeWrites(headers: map<nat, Header>, bs: seq<Block>, i: nat)
      requires i + 1 < |bs| && (AddrOrNull(bs, i + 2) in headers || AddrOrNull(bs, i + 2) == NULL)
      ensures WritesHeadersOnly(headers, MergeHeaders(headers, bs, i), bs)
    {
      assert StartsBlock(bs, bs[i].addr);
      assert i + 2 < |bs| ==> StartsBlock(bs, bs[i + 2].addr);
    }

    /** The first half of coalescing: the block at node absorbs its successor, if that is free. */
    method AbsorbNext(node: nat, ghost bs: seq<Block>, ghost i: nat)
      requires memory.Valid() && Tiles(bs, HEAP_VBASE, HEAP_VBASE + HEAP_SIZE) && Linked(memory.headers, bs)
      requires i < |bs| && node == bs[i].addr
      modifies memory`headers, memory.manager.space`tlb, memory.manager.space`psc, memory.manager.space`words
      modifies memory.manager.space.mem
      ensures memory.Valid() && Linked(memory.headers, MergedForward(bs, i))
      ensures WritesHeadersOnly(old(memory.headers), memory.headers, bs) && Wrote(old(Seen()), Seen(), bs)
    {
      hide HeaderMemory.Valid, Tiles, Linked, StartsBlock, Merged, Wrote, OnlyWords, WordsOf, MemoryManager.State;
      ghost var h0, s0 := memory.headers, Seen();
      WroteNothing(s0, bs);
      HeaderInList(h0, bs, i);
      NextIsLinked(h0, bs, HEAP_VBASE, HEAP_VBASE + HEAP_SIZE, i + 1);
      var next := memory.GetNext(node);
      var nextFree := false;
      if next != NULL {
        HeaderInList(h0, bs, i + 1);
        nextFree := memory.GetFree(next);
      }
      if nextFree {
        NextIsLinked(h0, bs, HEAP_VBASE, HEAP_VBASE + HEAP_SIZE, i + 2);
        MergePlaces(bs, i);
        MergeKeepsLinks(h0, bs, HEAP_VBASE, HEAP_VBASE + HEAP_SIZE, i);
        MergeWrites(h0, bs, i);
        Join(node, next, bs, i);
      }
    }

    /** The stores that join the block at node with its successor, which is at gone. */
    method Join(node: nat, gone: nat, ghost bs: seq<Block>, ghost i: nat)
      requires memory.Valid() && i + 1 < |bs| && node == bs[i].addr && gone == bs[i + 1].addr
      requires HeaderIn(memory.headers, bs, i) && HeaderIn(memory.headers, bs, i + 1)
      requires bs[i].size + HEADER_SIZE + bs[i + 1].size < TWO_64 && node != gone && node < TWO_64
      requires AddrOrNull(bs, i + 2) != node && AddrOrNull(bs, i + 2) != gone
      requires AddrOrNull(bs, i + 2) == NULL <==> i + 2 >= |bs|
      requires AddrOrNull(bs, i + 2) == NULL || AddrOrNull(bs, i + 2) in memory.headers
      modifies memory`headers, memory.manager.space`tlb, memory.manager.space`psc, memory.manager.space`words
      modifies memory.manager.space.mem
      ensures memory.Valid() && memory.headers == MergeHeaders(old(memory.headers), bs, i)
      ensures Wrote(old(Seen()), Seen(), bs)
    {
      hide HeaderMemory.Valid, Wrote, OnlyWords, WordsOf, MemoryManager.State;
      ghost var s0 := Seen();
      WroteNothing(s0, bs);
      var size := memory.GetSize(node);
      var goneSize := memory.GetSize(gone);
      memory.SetSize(node, size + HEADER_SIZE + goneSize);
      ghost var s1 := Seen();
      WroteOne(s0, s0, s1, bs, i);
      var after := memory.GetNext(gone);
      memory.SetNext(node, after);
      ghost var s2 := Seen();
      WroteOne(s0, s1, s2, bs, i);
      if after != NULL {
        memory.SetPrev(after, node);
        WroteOne(s0, s2, Seen(), bs, i + 2);
      }
    }

    /** The second half: the block at node is absorbed by its predecessor, if that is free. */
    method AbsorbIntoPrevious(node: nat, ghost bs: seq<Block>, ghost i: nat)
      requires memory.Valid() && Tiles(bs, HEAP_VBASE, HEAP_VBASE + HEAP_SIZE) && Linked(memory.headers, bs)
      requires i < |bs| && node == bs[i].addr
      modifies memory`headers, memory.manager.space`tlb, memory.manager.space`psc, memory.manager.space`words
      modifies memory.manager.space.mem
      ensures memory.Valid() && Linked(memory.headers, MergedBackward(bs, i))
      ensures WritesHeadersOnly(old(memory.headers), memory.headers, bs) && Wrote(old(Seen()), Seen(), bs)
    {
      hide HeaderMemory.Valid, Tiles, Linked, StartsBlock, Merged, Wrote, OnlyWords, WordsOf, MemoryManager.State;
      ghost var h0, s0 := memory.headers, Seen();
      WroteNothing(s0, bs);
      HeaderInList(h0, bs, i);
      PreviousIsLinked(h0, bs, i);
      var prev := memory.GetPrev(node);
      var prevFree := false;
      if prev != NULL {
        HeaderInList(h0, bs, i - 1);
        prevFree := memory.GetFree(prev);
      }
      if prevFree {
        NextIsLinked(h0, bs, HEAP_VBASE, HEAP_VBASE + HEAP_SIZE, i + 1);
        MergePlaces(bs, i - 1);
        MergeKeepsLinks(h0, bs, HEAP_VBASE, HEAP_VBASE + HEAP_SIZE, i - 1);
        MergeWrites(h0, bs, i - 1);
        Join(prev, node, bs, i - 1);
      }
    }

    /** kfree of a live pointer, or of NULL, which does nothing.  The block of the pointer is
        given back and merged with its free neighbours.  It never faults. */
    method Kfree(ptr: nat) returns (ghost i: nat)
      requires Valid() && (ptr == NULL || ptr in live)
      modifies `blocks, `live
      modifies memory`headers, memory.manager.space`tlb, memory.manager.space`psc, memory.manager.space`words
      modifies memory.manager.space.mem
      ensures Valid() && live == old(live) - {ptr}
      ensures ptr == NULL ==>
                blocks == old(blocks) && memory.headers == old(memory.headers) && Seen() == old(Seen())
      ensures ptr != NULL ==>
                && i < |old(blocks)| && !old(blocks)[i].free && old(blocks)[i].Payload() == ptr
                && blocks == Released(old(blocks), i)
      ensures old(Roomy(blocks)) ==> Roomy(blocks)
      ensures Called(old(State()), Free(ptr), State()) && Wrote(old(Seen()), Seen(), old(blocks))
    {
      hide HeaderMemory.Valid, Wrote, WritesHeadersOnly, Linked, OnlyBlocks, Tiles, Coalesced, Released,
        MemoryManager.State;
      WroteNothing(Seen(), blocks);
      if ptr == NULL {
        FreedInVain();
        return 0;
      }
      ghost var b :| IsUsed(blocks, b) && b.Payload() == ptr;
      i :| i < |blocks| && blocks[i] == b;
      ghost var headers0 := memory.headers;
      GiveBack(ptr - HEADER_SIZE, i);
      ReleasedIsSound(blocks, HEAP_VBASE, HEAP_VBASE + HEAP_SIZE, i);
      OwnsAfterRelease(blocks, live, HEAP_VBASE, HEAP_VBASE + HEAP_SIZE, i);
      if Roomy(blocks) { ReleasedRoomy(blocks, i); }
      ghost var blocks0, headers1 := blocks, memory.headers;
      blocks, live := Released(blocks, i), live - {ptr};
      memory.Forget(Starts(blocks));
      ForgetKeeps(headers0, headers1, memory.headers, blocks, blocks0);
    }

    /** The body of kfree on the list. */
    method GiveBack(node: nat, ghost i: nat)
      requires memory.Valid() && Tiles(blocks, HEAP_VBASE, HEAP_VBASE + HEAP_SIZE) && Linked(memory.headers, blocks)
      requires Coalesced(blocks) && i < |blocks| && !blocks[i].free && blocks[i].addr == node
      modifies memory`headers, memory.manager.space`tlb, memory.manager.space`psc, memory.manager.space`words
      modifies memory.manager.space.mem
      ensures memory.Valid() && Linked(memory.headers, Released(blocks, i))
      ensures WritesHeadersOnly(old(memory.headers), memory.headers, blocks) && Wrote(old(Seen()), Seen(), blocks)
    {
      hide HeaderIn, Linked, WritesHeadersOnly, MergedForward, MergedBackward, Tiles, Coalesced, FreePair,
        HeaderMemory.Valid, Wrote, OnlyWords, WordsOf, Coarser, MemoryManager.State;
      HeaderInList(memory.headers, blocks, i);
      ghost var b1 := blocks[i := blocks[i].(free := true)];
      ghost var b2 := MergedForward(b1, i);
      MarkKeepsLinks(memory.headers, blocks, HEAP_VBASE, HEAP_VBASE + HEAP_SIZE, i, true);
      MarkKeepsPairs(blocks, HEAP_VBASE, HEAP_VBASE + HEAP_SIZE, i);
      ForwardIsSound(b1, HEAP_VBASE, HEAP_VBASE + HEAP_SIZE, i);
      ReleaseCoarsens(blocks, i);
      ghost var h0, s0 := memory.headers, Seen();
      WroteNothing(s0, blocks);
      memory.SetFree(node, true);
      ghost var s1 := Seen();
      WroteOne(s0, s0, s1, blocks, i);
      AbsorbNext(node, b1, i);
      ghost var h2, s2 := memory.headers, Seen();
      WroteCoarser(s0, s1, s2, blocks, b1);
      AbsorbIntoPrevious(node, b2, i);
      WroteCoarser(s0, s2, Seen(), blocks, b2);
      ReleaseWrites(h0, h2, memory.headers, blocks, i);
    }

    /** Gives back every live pointer, in the order given. */
    method FreeAll(ptrs: seq<nat>)
      requires Valid() && forall p :: p in live <==> p in ptrs
      requires forall j, k :: 0 <= j < k < |ptrs| ==> ptrs[j] != ptrs[k]
      modifies `blocks, `live
      modifies memory`headers, memory.manager.space`tlb, memory.manager.space`psc, memory.manager.space`words
      modifies memory.manager.space.mem
      ensures Valid() && live == map[]
      ensures blocks == [Block(HEAP_VBASE, HEAP_SIZE - HEADER_SIZE, true)]
    {
      hide HeaderMemory.Valid, OnlyBlocks, Wrote, Called, Released;
      for k := 0 to |ptrs|
        invariant Valid()
        invariant forall p :: p in live <==> p in ptrs[k..]
      {
        assert ptrs[k..] == [ptrs[k]] + ptrs[k + 1..];
        var _ := Kfree(ptrs[k]);
      }
      NothingLiveMeansAllFree(blocks, live);
      AllFreeIsOneBlock(blocks, HEAP_VBASE, HEAP_VBASE + HEAP_SIZE);
    }
  }

  /** The three kinds of stores of kfree, put together. */
  lemma ReleaseWrites(h0: map<nat, Header>, h2: map<nat, Header>, h3: map<nat, Header>, blocks: seq<Block>, i: nat)
    requires i < |blocks| && blocks[i].addr in h0
    requires var b1, node := blocks[i := blocks[i].(free := true)], blocks[i].addr;
             && WritesHeadersOnly(h0[node := h0[node].(free := true)], h2, b1)
             && i < |MergedForward(b1, i)| && WritesHeadersOnly(h2, h3, MergedForward(b1, i))
    ensures WritesHeadersOnly(h0, h3, blocks)
  {
    var b1 := blocks[i := blocks[i].(free := true)];
    var b2 := MergedForward(b1, i);
    if b2 != b1 { MergingCoarsens(b1, i); }
    assert forall a :: StartsBlock(b2, a) ==> StartsBlock(b1, a);
    assert forall k :: 0 <= k < |blocks| ==> b1[k].addr == blocks[k].addr;
    assert StartsBlock(blocks, blocks[i].addr);
  }

  /** The smallest block of all: on a fresh heap a request for all of memory is granted no byte. */
  method WrappedRequest(heap: Allocator) returns (ptr: nat)
    requires heap.Valid() && heap.live == map[] && |heap.Seen().free| >= 8
    requires heap.blocks == [Block(HEAP_VBASE, HEAP_SIZE - HEADER_SIZE, true)]
    modifies heap`blocks, heap`live
    modifies heap.memory`headers, heap.memory.manager.space`words, heap.memory.manager.space`tree
    modifies heap.memory.manager.space`pages, heap.memory.manager.space`owner, heap.memory.manager.space`tlb
    modifies heap.memory.manager.space`psc, heap.memory.manager.space.frames`free
    modifies heap.memory.manager.space.frames`freeFrames, heap.memory.manager.space.frames`nextSearchIndex
    modifies heap.memory.manager.space.frames.bitmap, heap.memory.manager.space.mem
    ensures heap.Valid() && ptr == HEAP_VBASE + HEADER_SIZE
    ensures heap.live == map[ptr := TWO_64 - 1] && !Roomy(heap.blocks) && heap.blocks[0].size == 0
  {
    hide Allocator.Valid, Called, Wrote, MemoryManager.State, RoundUp, Roomy, Allocated;
    RoundUpHolds(TWO_64 - 1);
    SmallestBlock(heap.blocks);
    ghost var i;
    var ok;
    ok, ptr, i := heap.Kmalloc(TWO_64 - 1);
  }

  lemma SmallestBlock(blocks: seq<Block>)
    requires blocks == [Block(HEAP_VBASE, HEAP_SIZE - HEADER_SIZE, true)]
    ensures blocks[0].Fits(0) && Splits(blocks[0], 0) && Roomy(blocks)
    ensures Allocated(blocks, 0, 0)[0] == Block(HEAP_VBASE, 0, false)
  {
  }

  lemma NothingLiveMeansAllFree(blocks: seq<Block>, live: map<nat, uint64>)
    requires Owns(blocks, live) && live == map[]
    ensures forall i :: 0 <= i < |blocks| ==> blocks[i].free
  {
    forall i | 0 <= i < |blocks| ensures blocks[i].free {
      assert IsUsed(blocks, blocks[i]) ==> Granted(blocks[i], live);
    }
  }

  lemma LivePointersArePositive(blocks: seq<Block>, live: map<nat, uint64>, from: nat, to: nat)
    requires Tiles(blocks, from, to) && Owns(blocks, live)
    ensures forall ptr :: ptr in live ==> ptr >= HEADER_SIZE
  {
  }

  /** What kfree and kmalloc write never falls into the payload of a block. */
  lemma PayloadsUntouched(before: map<nat, Header>, after: map<nat, Header>, blocks: seq<Block>, from: nat, to: nat,
                          b: Block, a: nat)
    requires Tiles(blocks, from, to) && WritesHeadersOnly(before, after, blocks) && b in blocks
    requires a in after && (a !in before || after[a] != before[a])
    ensures a + HEADER_SIZE <= b.Payload() || b.End() <= a
  {
    var i :| 0 <= i < |blocks| && blocks[i].addr == a;
    var j :| 0 <= j < |blocks| && blocks[j] == b;
    HeadersMissPayloads(blocks, from, to, i, j);
  }

  /** The payloads of two blocks never overlap. */
  lemma PayloadsDisjoint(blocks: seq<Block>, from: nat, to: nat, b: Block, c: Block)
    requires Tiles(blocks, from, to) && b in blocks && c in blocks && b != c
    ensures b.End() <= c.addr || c.End() <= b.addr
  {
    var i :| 0 <= i < |blocks| && blocks[i] == b;
    var j :| 0 <= j < |blocks| && blocks[j] == c;
    if i < j {
      BlocksAreOrdered(blocks, from, to, i, j);
    } else {
      BlocksAreOrdered(blocks, from, to, j, i);
    }
  }

  lemma SplitWrites(headers: map<nat, Header>, blocks: seq<Block>, i: nat, s: nat)
    requires i < |blocks| && blocks[i].Fits(s) && Splits(blocks[i], s)
    requires AddrOrNull(blocks, i + 1) in headers || AddrOrNull(blocks, i + 1) == NULL
    ensures WritesHeadersOnly(headers, SplitHeaders(headers, blocks, i, s), Allocated(blocks, i, s))
  {
    var after := Allocated(blocks, i, s);
    assert after[i].addr == blocks[i].addr && after[i + 1].addr == blocks[i].Payload() + s;
    assert i + 1 < |blocks| ==> after[i + 2].addr == blocks[i + 1].addr;
  }

  /** Setting the free flag of block i. */
  lemma MarkKeepsLinks(headers: map<nat, Header>, blocks: seq<Block>, from: nat, to: nat, i: nat, free: bool)
    requires Tiles(blocks, from, to) && Linked(headers, blocks) && i < |blocks| && blocks[i].addr in headers
    ensures Linked(headers[blocks[i].addr := headers[blocks[i].addr].(free := free)],
                   blocks[i := blocks[i].(free := free)])
  {
    var after := blocks[i := blocks[i].(free := free)];
    DistinctAddresses(blocks, from, to, i);
    var headers' := headers[blocks[i].addr := headers[blocks[i].addr].(free := free)];
    forall k: nat | k < |after| ensures HeaderIn(headers', after, k) {
      assert HeaderIn(headers, blocks, k);
    }
  }

  /** The address of the next block, if there is one, holds its header. */
  lemma NextIsLinked(headers: map<nat, Header>, blocks: seq<Block>, from: nat, to: nat, i: nat)
    requires 0 < from && Tiles(blocks, from, to) && Linked(headers, blocks) && 0 < i
    ensures AddrOrNull(blocks, i) == NULL <==> i >= |blocks|
    ensures AddrOrNull(blocks, i) == NULL || AddrOrNull(blocks, i) in headers
  {
    if i < |blocks| {
      BlocksAreOrdered(blocks, from, to, i - 1, i);
      assert HeaderIn(headers, blocks, i);
    }
  }
}
