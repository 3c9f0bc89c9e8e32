/** The bytes of memory under the heap: which stretches lie apart from every live block,
    and what it means for a change to leave every live block's bytes alone. */
module HeapBytes {
  import opened HeapLayout
  import opened HeapSpec
  import opened HeapHeaders

  /** [lo, hi) meets no byte after any live block's header. */
  ghost predicate Apart(runs: seq<Run>, lo: int, hi: int) {
    forall i, k | 0 <= i < |runs| && 0 <= k < |runs[i].blocks| ::
      hi <= runs[i].blocks[k].Body() || runs[i].blocks[k].End() <= lo
  }

  ghost predicate KeepsBlock(b: Block, m0: seq<byte>, m1: seq<byte>)
    requires |m0| == |m1|
  {
    forall x | b.Body() <= x < b.End() && 0 <= x < |m0| :: m0[x] == m1[x]
  }

  /** No byte of any of the blocks differs between the two memories. */
  ghost predicate KeepsAll(runs: seq<Run>, m0: seq<byte>, m1: seq<byte>) {
    |m0| == |m1| &&
    forall i, k | 0 <= i < |runs| && 0 <= k < |runs[i].blocks| :: KeepsBlock(runs[i].blocks[k], m0, m1)
  }

  /** The byte at x lies in a mapped page. */
  predicate Readable(mapped: set<int>, x: int) {
    x - x % PAGE in mapped
  }

  ghost predicate KeepsReadableOf(b: Block, mapped: set<int>, m0: seq<byte>, m1: seq<byte>)
    requires |m0| == |m1|
  {
    forall x | b.Body() <= x < b.End() && 0 <= x < |m0| && Readable(mapped, x) :: m0[x] == m1[x]
  }

  /** No byte of any of the blocks that can still be read differs between the two memories. */
  ghost predicate KeepsReadable(runs: seq<Run>, mapped: set<int>, m0: seq<byte>, m1: seq<byte>) {
    |m0| == |m1| &&
    forall i, k | 0 <= i < |runs| && 0 <= k < |runs[i].blocks| :: KeepsReadableOf(runs[i].blocks[k], mapped, m0, m1)
  }

  /** The memories differ at most in [lo, hi). */
  ghost predicate OnlyWithin(m0: seq<byte>, m1: seq<byte>, lo: int, hi: int) {
    |m0| == |m1| && forall x | 0 <= x < |m0| && !(lo <= x < hi) :: m0[x] == m1[x]
  }

  /** The alignment offset stored just before the pointer of b. */
  ghost predicate OffsetOk(b: Block, m: seq<byte>) {
    && 0 <= b.Ptr() - ALIGN_INFO && b.Ptr() <= |m|
    && m[b.Ptr() - 2] == b.Delta() + ALIGN_INFO
    && m[b.Ptr() - 1] == 0
  }

  ghost predicate OffsetsOk(runs: seq<Run>, m: seq<byte>) {
    forall i, k | 0 <= i < |runs| && 0 <= k < |runs[i].blocks| :: OffsetOk(runs[i].blocks[k], m)
  }

  /** The pointer before alignment, read back from the stored offset. */
  function Unaligned(p: int, m: seq<byte>): (v: int)
    requires ALIGN_INFO <= p <= |m|
  {
    var delta := m[p - 2] as int + 256 * m[p - 1] as int;
    if delta < ALIGNMENT + ALIGN_INFO then p - delta else p
  }

  /** An offset word of up to five is taken back from the pointer; a larger one is no offset, and the pointer stays. */
  lemma OffsetRead(p: int, m: seq<byte>, delta: nat)
    requires 2 <= p <= |m| && m[p - 2] == delta % 256 && m[p - 1] == delta / 256
    ensures Unaligned(p, m) == if delta <= 5 then p - delta else p
  {
  }

  /** From the pointer, the stored offset leads back to the header of the block. */
  lemma UnalignFindsHeader(b: Block, m: seq<byte>)
    requires BlockOk(b) && 0 <= b.addr && OffsetOk(b, m)
    ensures ALIGN_INFO <= b.Ptr() <= |m|
    ensures Unaligned(b.Ptr(), m) - MINOR == b.addr
  {
  }

  lemma KeepsStep(runs: seq<Run>, m0: seq<byte>, m1: seq<byte>, m2: seq<byte>, lo: int, hi: int)
    requires KeepsAll(runs, m0, m1) && Apart(runs, lo, hi) && OnlyWithin(m1, m2, lo, hi)
    ensures KeepsAll(runs, m0, m2)
  {
  }

  lemma KeepsOffsets(runs: seq<Run>, m0: seq<byte>, m1: seq<byte>, lo: int, hi: int)
    requires RunsOk(runs, lo, hi) && OffsetsOk(runs, m0) && KeepsAll(runs, m0, m1)
    ensures OffsetsOk(runs, m1)
  {
  }

  /** A stretch inside run i that avoids run i's blocks avoids them all. */
  lemma ApartInRun(runs: seq<Run>, i: int, a: int, z: int, lo: int, hi: int)
    requires RunsOk(runs, lo, hi) && 0 <= i < |runs|
    requires runs[i].addr <= a <= z <= runs[i].End()
    requires forall k | 0 <= k < |runs[i].blocks| :: z <= runs[i].blocks[k].Body() || runs[i].blocks[k].End() <= a
    ensures Apart(runs, a, z)
  {
    forall j, k | 0 <= j < |runs| && 0 <= k < |runs[j].blocks| && j != i
      ensures z <= runs[j].blocks[k].Body() || runs[j].blocks[k].End() <= a
    {
      assert RunOk(runs[j]) && RunOk(runs[i]);
      BlockInside(runs[j], k);
    }
  }

  lemma MajorApart(runs: seq<Run>, i: int, lo: int, hi: int)
    requires RunsOk(runs, lo, hi) && 0 <= i < |runs|
    ensures Apart(runs, runs[i].addr, runs[i].addr + MAJOR)
    ensures lo <= runs[i].addr && runs[i].addr + MAJOR <= hi
  {
    var r := runs[i];
    assert RunOk(r);
    forall k | 0 <= k < |r.blocks|
      ensures r.addr + MAJOR <= r.blocks[k].Body()
    {
      BlockInside(r, k);
    }
    ApartInRun(runs, i, r.addr, r.addr + MAJOR, lo, hi);
  }

  lemma MinorApart(runs: seq<Run>, i: int, k: int, lo: int, hi: int)
    requires RunsOk(runs, lo, hi) && 0 <= i < |runs| && 0 <= k < |runs[i].blocks|
    ensures Apart(runs, runs[i].blocks[k].addr, runs[i].blocks[k].Body())
    ensures lo <= runs[i].blocks[k].addr && runs[i].blocks[k].Body() <= hi
  {
    var r := runs[i];
    var b := r.blocks[k];
    assert RunOk(r);
    BlockInside(r, k);
    forall l | 0 <= l < |r.blocks|
      ensures b.Body() <= r.blocks[l].Body() || r.blocks[l].End() <= b.addr
    {
      if l < k { BlocksApart(r, l, k); }
      if k < l { BlocksApart(r, k, l); assert BlockOk(b); }
    }
    ApartInRun(runs, i, b.addr, b.Body(), lo, hi);
  }

  /** Everything a placement writes for the new block lies in the gap. */
  lemma NewBlockApart(runs: seq<Run>, i: int, k: int, b: Block, lo: int, hi: int)
    requires RunsOk(runs, lo, hi) && 0 <= i < |runs| && Fits(runs[i], k, b)
    ensures Apart(runs, b.addr, b.End())
    ensures lo <= b.addr && b.End() <= hi
  {
    var r := runs[i];
    assert RunOk(r);
    assert r.GapStart(k) <= r.GapEnd(k);
    if k > 0 { BlockInside(r, k - 1); }
    if k < |r.blocks| { BlockInside(r, k); }
    forall l | 0 <= l < |r.blocks|
      ensures b.End() <= r.blocks[l].Body() || r.blocks[l].End() <= b.addr
    {
      GapApart(r, k, l);
    }
    ApartInRun(runs, i, b.addr, b.End(), lo, hi);
  }

  lemma ApartSubrange(runs: seq<Run>, lo: int, hi: int, a: int, z: int)
    requires Apart(runs, lo, hi) && lo <= a && z <= hi
    ensures Apart(runs, a, z)
  {
  }

  /** Pages above every run hold no block. */
  lemma BeyondApart(runs: seq<Run>, lo: int, end: int, a: int, z: int)
    requires RunsOk(runs, lo, end) && end <= a
    ensures Apart(runs, a, z)
  {
    forall j, k | 0 <= j < |runs| && 0 <= k < |runs[j].blocks|
      ensures runs[j].blocks[k].End() <= a
    {
      assert RunOk(runs[j]);
      BlockInside(runs[j], k);
    }
  }

  /** The offsets of the runs with a block put in. */
  lemma PlacedOffsets(runs: seq<Run>, i: int, k: int, b: Block, m: seq<byte>)
    requires 0 <= i < |runs| && 0 <= k <= |runs[i].blocks|
    requires OffsetsOk(runs, m) && OffsetOk(b, m)
    ensures OffsetsOk(runs[i := runs[i].Insert(k, b)], m)
  {
  }
}
