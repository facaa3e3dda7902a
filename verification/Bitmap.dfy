/** kernel/lib/bitmap.c: a bit array packed into bytes, and the cyclic search for a clear bit. */
module Bitmap {
  import opened Words

  type byte = bv8

  /** The byte with only bit i set: `1U << i`. */
  function Mask(i: nat): byte
    requires i < 8
  {
    (1 as byte) << i
  }

  predicate Holds(bytes: seq<byte>, bit: nat)
    requires bit / 8 < |bytes|
  {
    bytes[bit / 8] & Mask(bit % 8) != 0
  }

  /** Byte b with bit i set or reset. */
  function Marked(b: byte, i: nat, on: bool): byte
    requires i < 8
  {
    if on then b | Mask(i) else b & !Mask(i)
  }

  /** The one byte store that sets or resets a bit of a bitmap that begins at index start. */
  function WithBit(bytes: seq<byte>, start: nat, bit: nat, on: bool): (r: seq<byte>)
    requires start + bit / 8 < |bytes|
    ensures |r| == |bytes|
  {
    bytes[start + bit / 8 := Marked(bytes[start + bit / 8], bit % 8, on)]
  }

  /** free is the set of the clear bits among the first n. */
  ghost predicate Records(bytes: seq<byte>, n: nat, free: set<nat>)
    requires n <= 8 * |bytes|
  {
    && (forall f | f in free :: f < n)
    && (forall f: nat {:trigger Holds(bytes, f)} :: f < n ==> (f in free <==> !Holds(bytes, f)))
  }

  /** How many steps a cyclic scan of n positions needs from start to bit. */
  function CyclicDistance(start: nat, bit: nat, n: nat): (d: nat)
    requires start < n && bit < n
  {
    if start <= bit then bit - start else bit + n - start
  }

  lemma MaskBits(b: byte, i: nat, j: nat)
    requires i < 8 && j < 8
    ensures (b | Mask(i)) & Mask(j) != 0 <==> i == j || b & Mask(j) != 0
    ensures (b & !Mask(i)) & Mask(j) != 0 <==> i != j && b & Mask(j) != 0
  {
    MaskValues();
    if i == j {
      assert (b | Mask(i)) & Mask(i) == Mask(i);
    } else {
      assert Mask(i) & Mask(j) == 0;
      assert (b | Mask(i)) & Mask(j) == b & Mask(j);
      assert (b & !Mask(i)) & Mask(j) == b & Mask(j);
    }
  }

  lemma MaskValues()
    ensures Mask(0) == 1 && Mask(1) == 2 && Mask(2) == 4 && Mask(3) == 8
    ensures Mask(4) == 16 && Mask(5) == 32 && Mask(6) == 64 && Mask(7) == 128
  {
  }

  lemma SplitIndex(a: nat, b: nat)
    ensures a == b <==> a / 8 == b / 8 && a % 8 == b % 8
  {
  }

  /** The effect of one byte store on every bit. */
  lemma StoreByte(before: seq<byte>, after: seq<byte>, bit: nat, k: nat, on: bool)
    requires bit / 8 < |before| && k / 8 < |before|
    requires after == WithBit(before, 0, bit, on)
    ensures Holds(after, k) <==> if k == bit then on else Holds(before, k)
  {
    SplitIndex(k, bit);
    if k / 8 == bit / 8 {
      MaskBits(before[bit / 8], bit % 8, k % 8);
      if k == bit { MaskNonzero(before[bit / 8], bit % 8); }
    }
  }

  lemma MaskNonzero(b: byte, i: nat)
    requires i < 8
    ensures (b & !Mask(i)) & Mask(i) == 0
  {
    assert (b & !Mask(i)) & Mask(i) == b & (!Mask(i) & Mask(i));
  }

  method Set(bitmap: array<byte>, bit: nat)
    requires bit / 8 < bitmap.Length
    modifies bitmap
    ensures forall k: nat :: k / 8 < bitmap.Length ==>
              (Holds(bitmap[..], k) <==> k == bit || old(Holds(bitmap[..], k)))
    ensures bitmap[..] == WithBit(old(bitmap[..]), 0, bit, true)
  {
    ghost var before := bitmap[..];
    bitmap[bit / 8] := bitmap[bit / 8] | Mask(bit % 8);
    forall k: nat | k / 8 < bitmap.Length
      ensures Holds(bitmap[..], k) <==> k == bit || Holds(before, k)
    {
      StoreByte(before, bitmap[..], bit, k, true);
    }
  }

  method Reset(bitmap: array<byte>, bit: nat)
    requires bit / 8 < bitmap.Length
    modifies bitmap
    ensures forall k: nat :: k / 8 < bitmap.Length ==>
              (Holds(bitmap[..], k) <==> k != bit && old(Holds(bitmap[..], k)))
    ensures bitmap[..] == WithBit(old(bitmap[..]), 0, bit, false)
  {
    ghost var before := bitmap[..];
    bitmap[bit / 8] := bitmap[bit / 8] & !Mask(bit % 8);
    forall k: nat | k / 8 < bitmap.Length
      ensures Holds(bitmap[..], k) <==> k != bit && Holds(before, k)
    {
      StoreByte(before, bitmap[..], bit, k, false);
    }
  }

  method Test(bitmap: array<byte>, bit: nat) returns (isSet: bool)
    requires bit / 8 < bitmap.Length
    ensures isSet <==> Holds(bitmap[..], bit)
  {
    isSet := bitmap[bit / 8] & Mask(bit % 8) != 0;
  }

  lemma WrapOnce(x: nat, n: nat)
    requires x < 2 * n
    ensures x % n == if x < n then x else x - n
  {
    if x < n {
      DivModUnique(x, n, 0, x);
    } else {
      DivModUnique(x, n, 1, x - n);
    }
  }

  /** Scans cyclically from startHint (taken modulo bitCount) and returns the first clear bit
      in scan order, or bitCount exactly when there is none. */
  method FindFirstClear(bitmap: array<byte>, bitCount: nat, startHint: nat) returns (r: nat)
    requires bitCount <= 8 * bitmap.Length
    ensures r <= bitCount
    ensures r == bitCount <==> forall k: nat :: k < bitCount ==> Holds(bitmap[..], k)
    ensures r < bitCount ==> !Holds(bitmap[..], r)
    ensures r < bitCount ==>
              forall k: nat :: k < bitCount && !Holds(bitmap[..], k) ==>
                CyclicDistance(startHint % bitCount, r, bitCount)
                <= CyclicDistance(startHint % bitCount, k, bitCount)
  {
    if bitCount == 0 {
      return 0;
    }
    var start := startHint % bitCount;
    ghost var b := bitmap[..];
    for offset := 0 to bitCount
      invariant forall k: nat :: k < bitCount && !Holds(b, k) ==> offset <= CyclicDistance(start, k, bitCount)
    {
      WrapOnce(start + offset, bitCount);
      var bit := (start + offset) % bitCount;
      assert CyclicDistance(start, bit, bitCount) == offset;
      var held := Test(bitmap, bit);
      if !held {
        return bit;
      }
    }
    assert forall k: nat | k < bitCount :: CyclicDistance(start, k, bitCount) < bitCount;
    return bitCount;
  }
}
