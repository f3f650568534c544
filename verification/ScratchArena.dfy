/** The scratch allocator of fossilize.cpp: blocks that are only ever filled from the front. */
module ScratchArena {
  import opened Words

  const MINIMUM_BLOCK: nat := 64 * 1024

  /** x & ~m, bit by bit. */
  function Clear(x: nat, m: nat): nat {
    if x == 0 then 0 else 2 * Clear(x / 2, m / 2) + (if m % 2 == 1 then 0 else x % 2)
  }

  lemma {:induction false} ClearIsRest(x: nat, m: nat)
    ensures Clear(x, m) + And(x, m) == x
  {
    if x > 0 {
      ClearIsRest(x / 2, m / 2);
      AndZero(x / 2, m / 2);
      assert m % 2 == 0 || m % 2 == 1;
    }
  }

  lemma AndZero(x: nat, m: nat)
    ensures m == 0 ==> And(x, m) == 0
  {
  }

  function AlignUp(offset: nat, alignment: nat): nat
    requires alignment > 0
  {
    Clear(offset + alignment - 1, alignment - 1)
  }

  /** The mask form gives the first multiple of a power of two that is not below the offset. */
  lemma AlignUpIsNext(offset: nat, alignment: nat)
    requires PowerOfTwo(alignment) && alignment > 0
    ensures AlignUp(offset, alignment) % alignment == 0
    ensures offset <= AlignUp(offset, alignment) < offset + alignment
  {
    var k: nat :| alignment == Pow2(k);
    var x := offset + alignment - 1;
    ClearIsRest(x, alignment - 1);
    MaskIsLap(x, k);
    LapRest(x, alignment);
    assert AlignUp(offset, alignment) == x - Lap(x, alignment);
  }

  lemma LapRest(x: nat, n: nat)
    requires n > 0
    ensures Lap(x, n) <= x && (x - Lap(x, n)) % n == 0
  {
    QuotientRest(x, n);
    ProductIsNatural(Quotient(x, n), n);
    RemainderIs(x - Lap(x, n), n, Quotient(x, n), 0);
  }

  lemma ProductIsNatural(q: nat, n: nat)
    ensures q * n >= 0
  {
  }

  datatype Block = Block(size: nat, offset: nat)

  /** A piece handed out: which block it is in, and where. */
  datatype Piece = Piece(block: nat, offset: nat, size: nat, alignment: nat)

  function Footprint(blocks: seq<Block>): nat {
    if blocks == [] then 0 else Footprint(blocks[..|blocks| - 1]) + blocks[|blocks| - 1].size
  }

  /** The footprint is the sum of the block sizes. */
  lemma {:induction false} FootprintAdds(a: seq<Block>, b: seq<Block>)
    ensures Footprint(a + b) == Footprint(a) + Footprint(b)
    ensures forall block: Block :: Footprint([block]) == block.size
    decreases |b|
  {
    if b == [] {
      assert a + b == a;
    } else {
      assert (a + b)[..|a + b| - 1] == a + b[..|b| - 1];
      FootprintAdds(a, b[..|b| - 1]);
    }
    forall block: Block
      ensures Footprint([block]) == block.size
    {
      assert [block][..0] == [];
    }
  }

  predicate InBounds(blocks: seq<Block>, p: Piece) {
    && p.block < |blocks| && p.offset + p.size <= blocks[p.block].offset
    && p.alignment > 0 && p.offset % p.alignment == 0
  }

  /** No byte belongs to both pieces. */
  predicate Disjoint(p: Piece, q: Piece) {
    p.block != q.block || p.offset + p.size <= q.offset || q.offset + q.size <= p.offset
  }

  predicate WellFormed(blocks: seq<Block>, live: seq<Piece>) {
    && (forall b :: 0 <= b < |blocks| ==> blocks[b].offset <= blocks[b].size)
    && (forall i :: 0 <= i < |live| ==> InBounds(blocks, live[i]))
    && forall i, j :: 0 <= i < j < |live| ==> Disjoint(live[i], live[j])
  }

  class ScratchAllocator {
    var blocks: seq<Block>
    var peakHistorySize: nat
    ghost var Live: seq<Piece>     // handed out since the last reset
    ghost var Largest: nat         // the largest footprint there has ever been

    ghost predicate Valid()
      reads this
    {
      WellFormed(blocks, Live) && Largest == Max(peakHistorySize, Footprint(blocks))
    }

    constructor ()
      ensures Valid() && Live == [] && Largest == 0
    {
      blocks, peakHistorySize, Live, Largest := [], 0, [], 0;
    }

    method AddBlock(minimumSize: nat)
      requires Valid()
      modifies this
      ensures Valid() && Live == old(Live) && peakHistorySize == old(peakHistorySize)
      ensures blocks == old(blocks) + [Block(Max(minimumSize, MINIMUM_BLOCK), 0)]
      ensures Largest == Max(old(Largest), Footprint(blocks))
    {
      var size := if minimumSize < MINIMUM_BLOCK then MINIMUM_BLOCK else minimumSize;
      blocks := blocks + [Block(size, 0)];
      Largest := Max(Largest, Footprint(blocks));
    }

    /** Whether there is a block, and the last one has room. */
    ghost predicate Fits(size: nat, alignment: nat)
      requires alignment > 0
      reads this
    {
      blocks != [] && AlignUp(blocks[|blocks| - 1].offset, alignment) + size <= blocks[|blocks| - 1].size
    }

    /** Takes the piece from the last block if it fits. */
    method TakeFromLast(size: nat, alignment: nat) returns (ok: bool, ret: Piece)
      requires Valid() && PowerOfTwo(alignment) && alignment > 0 && blocks != []
      modifies this
      ensures Valid() && ok == old(Fits(size, alignment))
      ensures ok <==> AlignUp(old(blocks[|blocks| - 1].offset), alignment) + size <= old(blocks[|blocks| - 1].size)
      ensures ok ==> Live == old(Live) + [ret] && |blocks| == old(|blocks|) && Footprint(blocks) == old(Footprint(blocks))
      ensures ok ==> peakHistorySize == old(peakHistorySize) && Largest == old(Largest)
      ensures ok ==> ret == Piece(|blocks| - 1, AlignUp(old(blocks[|blocks| - 1].offset), alignment), size, alignment)
      ensures !ok ==> unchanged(this)
    {
      var last := |blocks| - 1;
      var offset := AlignUp(blocks[last].offset, alignment);
      ok, ret := false, Piece(last, offset, size, alignment);
      if offset + size <= blocks[last].size {
        AlignUpIsNext(blocks[last].offset, alignment);
        PieceFits(blocks, Live, ret);
        SameFootprint(blocks, last, offset + size);
        blocks := blocks[last := Block(blocks[last].size, offset + size)];
        Live := Live + [ret];
        ok := true;
      }
    }

    /** The retry after adding a block always succeeds, so it is the only one. */
    method AllocateRaw(size: nat, alignment: nat) returns (ret: Piece)
      requires Valid() && PowerOfTwo(alignment) && alignment > 0
      modifies this
      ensures Valid() && Live == old(Live) + [ret]
      ensures ret.size == size && ret.alignment == alignment && ret.block == |blocks| - 1
      ensures Largest == Max(old(Largest), Footprint(blocks)) && peakHistorySize == old(peakHistorySize)
      ensures if old(Fits(size, alignment)) then |blocks| == old(|blocks|) && ret.offset == AlignUp(old(blocks[|blocks| - 1].offset), alignment)
              else |blocks| == old(|blocks|) + 1 && ret.offset == 0
      decreases if Fits(size, alignment) then 0 else 1
    {
      AlignZero(alignment);
      if |blocks| == 0 {
        AddBlock(size + alignment);
      }
      var ok, piece := TakeFromLast(size, alignment);
      if ok {
        return piece;
      }
      AddBlock(size + alignment);
      ret := AllocateRaw(size, alignment);
    }

    method Reset()
      requires Valid()
      modifies this
      ensures Valid() && Live == [] && Largest == old(Largest)
      ensures |blocks| == if old(blocks) == [] then 0 else 1
      ensures blocks != [] ==> blocks[0] == Block(old(blocks)[0].size, 0)
    {
      FirstIsPart(blocks);
      var peak := GetPeakMemoryConsumption();
      if peak > peakHistorySize {
        peakHistorySize := peak;
      }
      if |blocks| > 0 {
        if |blocks| > 1 {
          blocks := blocks[..1];
        }
        blocks := blocks[0 := Block(blocks[0].size, 0)];
        assert blocks[..0] == [];
      }
      Live := [];
    }

    /** What is reported is the largest footprint there has ever been. */
    method GetPeakMemoryConsumption() returns (peak: nat)
      requires Valid()
      ensures peak == Largest && Footprint(blocks) <= peak
    {
      var currentSize := 0;
      for i := 0 to |blocks|
        invariant currentSize == Footprint(blocks[..i])
      {
        assert blocks[..i + 1][..i] == blocks[..i];
        currentSize := currentSize + blocks[i].size;
      }
      assert blocks[..|blocks|] == blocks;
      peak := if peakHistorySize > currentSize then peakHistorySize else currentSize;
    }
  }

  function Max(a: nat, b: nat): nat {
    if a > b then a else b
  }

  lemma AlignZero(alignment: nat)
    requires PowerOfTwo(alignment) && alignment > 0
    ensures AlignUp(0, alignment) == 0
  {
    AlignUpIsNext(0, alignment);
    var r := AlignUp(0, alignment);
    assert r % alignment == 0 && r < alignment;
    RemainderIs(r, alignment, 0, r);
  }

  /** A piece behind everything in the last block stays clear of all others. */
  lemma PieceFits(blocks: seq<Block>, live: seq<Piece>, p: Piece)
    requires WellFormed(blocks, live) && blocks != [] && p.block == |blocks| - 1
    requires blocks[p.block].offset <= p.offset && p.offset + p.size <= blocks[p.block].size
    requires p.alignment > 0 && p.offset % p.alignment == 0
    ensures WellFormed(blocks[p.block := Block(blocks[p.block].size, p.offset + p.size)], live + [p])
  {
    var blocks' := blocks[p.block := Block(blocks[p.block].size, p.offset + p.size)];
    forall i | 0 <= i < |live|
      ensures InBounds(blocks', live[i]) && Disjoint(live[i], p)
    {
      assert InBounds(blocks, live[i]);
    }
  }

  lemma SameFootprint(blocks: seq<Block>, at: nat, offset: nat)
    requires at < |blocks|
    ensures Footprint(blocks[at := Block(blocks[at].size, offset)]) == Footprint(blocks)
    decreases |blocks|
  {
    var blocks' := blocks[at := Block(blocks[at].size, offset)];
    if at == |blocks| - 1 {
      assert blocks'[..at] == blocks[..at];
    } else {
      SameFootprint(blocks[..|blocks| - 1], at, offset);
      assert blocks'[..|blocks| - 1] == blocks[..|blocks| - 1][at := Block(blocks[at].size, offset)];
    }
  }

  lemma {:induction false} FirstIsPart(blocks: seq<Block>)
    ensures blocks != [] ==> blocks[0].size <= Footprint(blocks)
  {
    if |blocks| > 1 {
      FirstIsPart(blocks[..|blocks| - 1]);
    }
  }
}
