/** The block-sparse storage IQTData of itensor/itdata/iqtdata.h.

    Only the blocks a tensor's quantum numbers allow are stored, back to back, in one
    buffer `data`. The directory `offsets` lists, in increasing composite block index,
    each stored block with the buffer offset of its first element. A composite block
    index encodes one block coordinate per Index of the IndexSet in mixed radix, the
    radices being the Indices' block counts (module MixedRadix). */
module IQTDataModel {
  import opened IndexModel
  import opened MixedRadix

  /** BlockOffset: a composite block index and where that block starts in `data`. */
  datatype BlockOffset = BlockOffset(block: nat, offset: nat)

  /** What getBlock/getElt return: a null pointer, a position in `data`, or the failure of
      one of the checked build's checks. */
  datatype Ptr = Null | At(offset: nat) | RankMismatch | OutOfRange

  /** An IQIndexSet: every Index carries a non-empty descriptor that accounts for its dim. */
  predicate IsQNIndexSet(inds: seq<IndexValue>)
  {
    forall i :: 0 <= i < |inds| ==> QNConsistent(inds[i]) && NBlock(inds[i]) > 0
  }

  /** nindex() of each Index: the radices of the composite block index. */
  function BlockCounts(inds: seq<IndexValue>): (n: seq<nat>)
    ensures |n| == |inds|
    ensures forall i :: 0 <= i < |inds| ==> n[i] == NBlock(inds[i])
  {
    seq(|inds|, i requires 0 <= i < |inds| => NBlock(inds[i]))
  }

  lemma BlockCountsPositive(inds: seq<IndexValue>)
    requires IsQNIndexSet(inds)
    ensures Positive(BlockCounts(inds))
  {
  }

  /** The extents of the block with coordinates d (IndexDim): block d[i] of Index i. */
  function BlockSizesAt(inds: seq<IndexValue>, d: seq<nat>): (s: seq<nat>)
    requires IsQNIndexSet(inds) && InRange(d, BlockCounts(inds))
  {
    seq(|d|, i requires 0 <= i < |d| => BlockSize0(inds[i], d[i]))
  }

  /** Number of elements of the block with composite index blk. */
  function BlockLen(inds: seq<IndexValue>, blk: nat): nat
    requires IsQNIndexSet(inds)
  {
    BlockCountsPositive(inds);
    Prod(BlockSizesAt(inds, Decode(blk, BlockCounts(inds))))
  }

  /** Block indices strictly increase along the directory. */
  predicate Ascending(offs: seq<BlockOffset>)
  {
    forall j, k :: 0 <= j < k < |offs| ==> offs[j].block < offs[k].block
  }

  /** The directory invariant any construction establishes: ascending block indices, every
      block index a valid composite index, every block inside a buffer of length len. */
  ghost predicate ValidDirectory(inds: seq<IndexValue>, offs: seq<BlockOffset>, len: nat)
  {
    && IsQNIndexSet(inds)
    && Ascending(offs)
    && forall k :: 0 <= k < |offs| ==>
         offs[k].block < Prod(BlockCounts(inds)) &&
         offs[k].offset + BlockLen(inds, offs[k].block) <= len
  }

  /** The offset recorded for block blk, if the directory lists it. */
  function Lookup(offs: seq<BlockOffset>, blk: int): (r: Option<nat>)
    ensures r.None? <==> forall k :: 0 <= k < |offs| ==> offs[k].block != blk
    ensures r.Some? ==> exists k :: 0 <= k < |offs| && offs[k].block == blk && offs[k].offset == r.value
  {
    if |offs| == 0 then None
    else if offs[0].block == blk then Some(offs[0].offset)
    else
      var r := Lookup(offs[1..], blk);
      assert forall k :: 1 <= k < |offs| ==> offs[1..][k - 1] == offs[k];
      r
  }

  /** In an ascending directory the recorded offset of a listed block is its entry's. */
  lemma {:induction false} LookupAt(offs: seq<BlockOffset>, k: nat)
    requires Ascending(offs) && k < |offs|
    ensures Lookup(offs, offs[k].block) == Some(offs[k].offset)
  {
    if k > 0 {
      assert offs[1..][k - 1] == offs[k];
      LookupAt(offs[1..], k - 1);
    }
  }

  /** A listed block of in-range coordinates d lies inside the buffer. */
  lemma BlockInBounds(inds: seq<IndexValue>, offs: seq<BlockOffset>, len: nat, d: seq<nat>)
    requires ValidDirectory(inds, offs, len)
    requires InRange(d, BlockCounts(inds))
    requires Lookup(offs, Horner(d, BlockCounts(inds))).Some?
    ensures Lookup(offs, Horner(d, BlockCounts(inds))).value + Prod(BlockSizesAt(inds, d)) <= len
  {
    var n := BlockCounts(inds);
    var blk := Horner(d, n);
    var k :| 0 <= k < |offs| && offs[k].block == blk && offs[k].offset == Lookup(offs, blk).value;
    BlockCountsPositive(inds);
    DecodeHorner(d, n);
    assert BlockLen(inds, blk) == Prod(BlockSizesAt(inds, d));
  }

  /** An element whose in-block coordinates e lie inside block d lies inside the buffer. */
  lemma EltInBounds(inds: seq<IndexValue>, offs: seq<BlockOffset>, len: nat, d: seq<nat>, e: seq<nat>)
    requires ValidDirectory(inds, offs, len)
    requires InRange(d, BlockCounts(inds))
    requires InRange(e, BlockSizesAt(inds, d))
    requires Lookup(offs, Horner(d, BlockCounts(inds))).Some?
    ensures Lookup(offs, Horner(d, BlockCounts(inds))).value + Strided(e, BlockSizesAt(inds, d)) < len
  {
    var s := BlockSizesAt(inds, d);
    BlockInBounds(inds, offs, len, d);
    StridedBound(e, s);
    assert s[..|e|] == s;
  }

  /** The (block, in-block) coordinates of one 0-based element coordinate per Index. */
  function EltBlocks(inds: seq<IndexValue>, ind: seq<nat>): (b: seq<nat>)
    requires IsQNIndexSet(inds) && |ind| == |inds|
    requires forall i :: 0 <= i < |ind| ==> ind[i] < inds[i].dim
    ensures InRange(b, BlockCounts(inds))
  {
    seq(|ind|, i requires 0 <= i < |ind| => Locate(inds[i].blocks.value, ind[i]).0)
  }

  function EltOffsets(inds: seq<IndexValue>, ind: seq<nat>): (e: seq<nat>)
    requires IsQNIndexSet(inds) && |ind| == |inds|
    requires forall i :: 0 <= i < |ind| ==> ind[i] < inds[i].dim
    ensures InRange(e, BlockSizesAt(inds, EltBlocks(inds, ind)))
  {
    seq(|ind|, i requires 0 <= i < |ind| => Locate(inds[i].blocks.value, ind[i]).1)
  }

  class IQTData {
    var offsets: seq<BlockOffset>
    var data: array<real>

    /** IQTData(): no blocks, an empty buffer. */
    constructor ()
      ensures offsets == [] && data.Length == 0 && fresh(data)
      ensures !IsTruthy()
    {
      offsets := [];
      data := new real[0];
    }

    ghost predicate Valid(inds: seq<IndexValue>)
      reads this
    {
      ValidDirectory(inds, offsets, data.Length)
    }

    /** operator bool: the buffer is non-empty. */
    function IsTruthy(): (b: bool)
      reads this
      ensures b <==> data[..] != []
    {
      data.Length != 0
    }

    /** offsetOf: binary search of the ascending directory; -1 when the block is absent. */
    method OffsetOf(blkind: int) returns (r: int)
      requires Ascending(offsets)
      ensures Lookup(offsets, blkind).None? ==> r == -1
      ensures Lookup(offsets, blkind).Some? ==> r == Lookup(offsets, blkind).value
    {
      var lo, hi := 0, |offsets|;
      while lo < hi
        invariant 0 <= lo <= hi <= |offsets|
        invariant forall k :: 0 <= k < lo ==> offsets[k].block < blkind
        invariant forall k :: hi <= k < |offsets| ==> offsets[k].block >= blkind
      {
        var mid := (lo + hi) / 2;
        if offsets[mid].block < blkind {
          lo := mid + 1;
        } else {
          hi := mid;
        }
      }
      if lo < |offsets| && offsets[lo].block == blkind {
        LookupAt(offsets, lo);
        return offsets[lo].offset;
      }
      return -1;
    }

    /** getBlock: composite index in Horner form, then a directory lookup. */
    method GetBlock(inds: seq<IndexValue>, blockInd: seq<nat>) returns (p: Ptr)
      requires Ascending(offsets)
      ensures |blockInd| == 0 ==> p == At(0)
      ensures |blockInd| != 0 && |blockInd| != |inds| ==> p == RankMismatch
      ensures |blockInd| != 0 && |blockInd| == |inds| ==>
                match Lookup(offsets, Horner(blockInd, BlockCounts(inds)))
                case None => p == Null
                case Some(boff) => p == At(boff)
      ensures Valid(inds) && InRange(blockInd, BlockCounts(inds)) && |blockInd| != 0 && p.At? ==>
                p.offset + Prod(BlockSizesAt(inds, blockInd)) <= data.Length
    {
      var r := |blockInd|;
      if r == 0 {
        return At(0);
      }
      if |inds| != r {
        return RankMismatch;
      }
      ghost var n := BlockCounts(inds);
      var ii := 0;
      var i := r - 1;
      while i > 0
        invariant 0 <= i <= r - 1
        invariant ii == n[i] * Horner(blockInd[i + 1..], n[i + 1..])
      {
        assert blockInd[i..][1..] == blockInd[i + 1..] && n[i..][1..] == n[i + 1..];
        ii := ii + blockInd[i];
        ii := ii * NBlock(inds[i - 1]);
        i := i - 1;
      }
      assert blockInd[0..] == blockInd && n[0..] == n;
      ii := ii + blockInd[0];
      assert ii == Horner(blockInd, n);
      var boff := OffsetOf(ii);
      if boff >= 0 {
        p := At(boff);
        if Valid(inds) && InRange(blockInd, n) {
          BlockInBounds(inds, offsets, data.Length, blockInd);
        }
      } else {
        p := Null;
      }
    }

    /** getElt: split each element coordinate into (block, in-block) coordinates, build
        the composite block index and the in-block offset with running strides, look the
        block up, and check the position against the buffer. */
    method GetElt(inds: seq<IndexValue>, ind: seq<nat>) returns (p: Ptr)
      requires Ascending(offsets) && IsQNIndexSet(inds)
      requires forall i :: 0 <= i < |ind| && i < |inds| ==> ind[i] < inds[i].dim
      ensures |ind| == 0 ==> p == At(0)
      ensures |ind| != 0 && |ind| != |inds| ==> p == RankMismatch
      ensures |ind| != 0 && |ind| == |inds| ==>
                var b := EltBlocks(inds, ind);
                var eoff := Strided(EltOffsets(inds, ind), BlockSizesAt(inds, b));
                match Lookup(offsets, Horner(b, BlockCounts(inds)))
                case None => p == Null
                case Some(boff) => p == if boff + eoff < data.Length then At(boff + eoff) else OutOfRange
      ensures Valid(inds) ==> p != OutOfRange
    {
      var r := |ind|;
      if r == 0 {
        return At(0);
      }
      if |inds| != r {
        return RankMismatch;
      }
      ghost var blocks := EltBlocks(inds, ind);
      var bind, eoff := CompositeCoordinates(inds, ind);
      var boff := OffsetOf(bind);
      if boff >= 0 {
        if Valid(inds) {
          EltInBounds(inds, offsets, data.Length, blocks, EltOffsets(inds, ind));
        }
        if boff + eoff >= data.Length {
          return OutOfRange;
        }
        return At(boff + eoff);
      }
      return Null;
    }

    /** ApplyIT: replace every element e by f(e), in place. */
    method Apply(f: real -> real)
      modifies data
      ensures forall k :: 0 <= k < data.Length ==> data[k] == f(old(data[k]))
      ensures unchanged(this)
    {
      for k := 0 to data.Length
        invariant forall j :: 0 <= j < k ==> data[j] == f(old(data[j]))
        invariant forall j :: k <= j < data.Length ==> data[j] == old(data[j])
      {
        data[k] := f(data[k]);
      }
    }

    /** VisitIT: feed every element, times the scale factor, to the visitor in buffer order;
        the visitor's state is threaded through the calls. Nothing is changed. */
    method Visit<S>(f: (S, real) -> S, s0: S, scaleFac: real) returns (s: S)
      ensures s == Fold(f, s0, Scaled(data[..], scaleFac))
    {
      ghost var scaled := Scaled(data[..], scaleFac);
      s := s0;
      for k := 0 to data.Length
        invariant s == Fold(f, s0, scaled[..k])
      {
        var x := data[k] * scaleFac;
        assert x == scaled[k];
        assert scaled[..k + 1] == scaled[..k] + [x];
        s := f(s, x);
      }
      assert scaled[..data.Length] == scaled;
    }

    /** GenerateIT<Real>: overwrite the buffer in order with the generator's successive
        values (gen(k) is the value of the k-th call). */
    method Generate(gen: nat -> real)
      modifies data
      ensures forall k :: 0 <= k < data.Length ==> data[k] == gen(k)
      ensures unchanged(this)
    {
      for k := 0 to data.Length
        invariant forall j :: 0 <= j < k ==> data[j] == gen(j)
      {
        data[k] := gen(k);
      }
    }

    /** GenerateIT<Cplx>: complex generation into real storage always fails. */
    method GenerateComplex() returns (r: Result<()>)
      ensures r == Err(UnsupportedComplex)
    {
      r := Err(UnsupportedComplex);
    }

    /** CheckComplex: this storage is real. */
    function CheckComplex(): (isComplex: bool)
      ensures !isComplex
    {
      false
    }
  }

  /** The loop of getElt: split each coordinate, and accumulate the composite block index
      and the in-block offset with running strides. */
  method CompositeCoordinates(inds: seq<IndexValue>, ind: seq<nat>) returns (bind: nat, eoff: nat)
    requires IsQNIndexSet(inds) && |ind| == |inds|
    requires forall i :: 0 <= i < |ind| ==> ind[i] < inds[i].dim
    ensures bind == Horner(EltBlocks(inds, ind), BlockCounts(inds))
    ensures eoff == Strided(EltOffsets(inds, ind), BlockSizesAt(inds, EltBlocks(inds, ind)))
  {
    ghost var n := BlockCounts(inds);
    ghost var blocks := EltBlocks(inds, ind);
    ghost var elts := EltOffsets(inds, ind);
    ghost var sizes := BlockSizesAt(inds, blocks);
    var bstr, estr := 1, 1;
    bind, eoff := 0, 0;
    var i := 0;
    while i < |ind|
      invariant 0 <= i <= |ind|
      invariant bind == Strided(blocks[..i], n) && bstr == Prod(n[..i])
      invariant eoff == Strided(elts[..i], sizes) && estr == Prod(sizes[..i])
    {
      var I := inds[i];
      var blockSub, eltSub := SplitCoordinate(I, ind[i]);
      StrideStep(blocks, n, i);
      StrideStep(elts, sizes, i);
      bind := bind + blockSub * bstr;
      bstr := bstr * NBlock(I);
      eoff := eoff + eltSub * estr;
      estr := estr * BlockSize0(I, blockSub);
      i := i + 1;
    }
    assert blocks[..i] == blocks && elts[..i] == elts;
    StridedIsHorner(blocks, n);
  }

  /** The in-loop split of getElt: subtract block sizes from the 0-based coordinate c until
      it falls inside the current block. */
  method SplitCoordinate(I: IndexValue, c: nat) returns (blockSub: nat, eltSub: nat)
    requires QNConsistent(I) && c < I.dim
    ensures (blockSub, eltSub) == Locate(I.blocks.value, c)
    ensures blockSub < NBlock(I) && eltSub < BlockSize0(I, blockSub)
  {
    ghost var qs := I.blocks.value;
    blockSub, eltSub := 0, c;
    while eltSub >= BlockSize0(I, blockSub)
      invariant 0 <= blockSub < NBlock(I)
      invariant c == SumSizes(qs[..blockSub]) + eltSub
      invariant eltSub < SumSizes(qs[blockSub..])
      decreases NBlock(I) - blockSub
    {
      assert qs[blockSub..][1..] == qs[blockSub + 1..];
      SumSizesAppend(qs[..blockSub], [qs[blockSub]]);
      assert qs[..blockSub + 1] == qs[..blockSub] + [qs[blockSub]];
      eltSub := eltSub - BlockSize0(I, blockSub);
      blockSub := blockSub + 1;
    }
    LocateUnique(qs, c, blockSub, eltSub);
  }

  /** Each element times the scale factor. */
  function Scaled(xs: seq<real>, scaleFac: real): (ys: seq<real>)
    ensures |ys| == |xs|
    ensures forall i :: 0 <= i < |xs| ==> ys[i] == xs[i] * scaleFac
  {
    seq(|xs|, i requires 0 <= i < |xs| => xs[i] * scaleFac)
  }

  /** The visitor state after feeding it xs from left to right. */
  function Fold<S>(f: (S, real) -> S, s0: S, xs: seq<real>): S
  {
    if |xs| == 0 then s0 else f(Fold(f, s0, xs[..|xs| - 1]), xs[|xs| - 1])
  }
}
