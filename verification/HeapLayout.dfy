/** The layout of the kernel heap: page runs ("majors"), the blocks ("minors") inside
    them in address order, and the gaps between the blocks. */
module HeapLayout {
  // sizeof(struct liballoc_major) and sizeof(struct liballoc_minor) on LP64
  const MAJOR := 40
  const MINOR := 40
  const PAGE := 0x1000
  const MIN_PAGES := 16
  const ALIGNMENT := 4
  const ALIGN_INFO := 2
  const PAD := ALIGNMENT + ALIGN_INFO
  const UINT32 := 0x1_0000_0000

  /** One allocated block: its header at addr, then size bytes, of which req were asked for. */
  datatype Block = Block(addr: int, size: int, req: int) {
    function Body(): (v: int) { addr + MINOR }

    function End(): (v: int) { addr + MINOR + size }

    /** The bytes skipped to reach the next multiple of ALIGNMENT. */
    function Delta(): (v: int) {
      if (Body() + ALIGN_INFO) % ALIGNMENT == 0 then 0 else ALIGNMENT - (Body() + ALIGN_INFO) % ALIGNMENT
    }

    /** The pointer the caller gets. */
    function Ptr(): (v: int) { Body() + ALIGN_INFO + Delta() }
  }

  /** One run of pages with the blocks it holds. Gap k lies before block k; gap |blocks| is the tail. */
  datatype Run = Run(addr: int, pages: int, blocks: seq<Block>) {
    function Size(): (v: int) { pages * PAGE }

    function End(): (v: int) { addr + Size() }

    function Usage(): (v: int) { MAJOR + InUse(blocks) + MINOR * |blocks| }

    function Free(): (v: int) { Size() - Usage() }

    function GapStart(k: int): (v: int)
      requires 0 <= k <= |blocks|
    {
      if k == 0 then addr + MAJOR else blocks[k - 1].End()
    }

    function GapEnd(k: int): (v: int)
      requires 0 <= k <= |blocks|
    {
      if k == |blocks| then End() else blocks[k].addr
    }

    function Gap(k: int): (v: int)
      requires 0 <= k <= |blocks|
    {
      GapEnd(k) - GapStart(k)
    }

    function Insert(k: int, b: Block): (q: Run)
      requires 0 <= k <= |blocks|
    {
      Run(addr, pages, blocks[..k] + [b] + blocks[k..])
    }

    function Remove(k: int): (q: Run)
      requires 0 <= k < |blocks|
    {
      Run(addr, pages, blocks[..k] + blocks[k + 1..])
    }
  }

  function InUse(bs: seq<Block>): (v: int)
  {
    if bs == [] then 0 else bs[0].size + InUse(bs[1..])
  }

  predicate BlockOk(b: Block) {
    0 <= b.req && b.req + PAD <= b.size
  }

  /** Blocks are in address order, apart, after the run's header and inside its pages. */
  ghost predicate RunOk(r: Run) {
    && 1 <= r.pages
    && (forall k | 0 <= k < |r.blocks| :: BlockOk(r.blocks[k]))
    && (forall k | 0 <= k <= |r.blocks| :: r.GapStart(k) <= r.GapEnd(k))
  }

  // ---------- pointers ----------

  /** The pointer handed out is a multiple of four; its stored offset and the requested bytes fit in the block. */
  lemma PointerFits(b: Block)
    requires BlockOk(b)
    ensures b.Ptr() % ALIGNMENT == 0
    ensures b.Body() + ALIGN_INFO <= b.Ptr() < b.Body() + PAD
    ensures b.Ptr() + b.req <= b.End()
  {
  }

  // ---------- sums ----------

  lemma {:induction false} InUseConcat(a: seq<Block>, b: seq<Block>)
    ensures InUse(a + b) == InUse(a) + InUse(b)
  {
    if a == [] {
      assert a + b == b;
    } else {
      InUseConcat(a[1..], b);
      assert (a + b)[1..] == a[1..] + b;
    }
  }

  lemma InsertInUse(r: Run, k: int, b: Block)
    requires 0 <= k <= |r.blocks|
    ensures InUse(r.Insert(k, b).blocks) == InUse(r.blocks) + b.size
    ensures r.Insert(k, b).Free() == r.Free() - b.size - MINOR
  {
    var bs := r.blocks;
    assert bs == bs[..k] + bs[k..];
    InUseConcat(bs[..k], bs[k..]);
    InUseConcat(bs[..k] + [b], bs[k..]);
    InUseConcat(bs[..k], [b]);
    assert InUse([b]) == b.size;
  }

  lemma RemoveInUse(r: Run, k: int)
    requires 0 <= k < |r.blocks|
    ensures r.Remove(k).Insert(k, r.blocks[k]) == r
    ensures InUse(r.Remove(k).blocks) == InUse(r.blocks) - r.blocks[k].size
    ensures r.Remove(k).Free() == r.Free() + r.blocks[k].size + MINOR
  {
    assert r.Remove(k).Insert(k, r.blocks[k]).blocks == r.blocks;
    InsertInUse(r.Remove(k), k, r.blocks[k]);
  }

  lemma RemoveInsert(r: Run, k: int, b: Block)
    requires 0 <= k <= |r.blocks|
    ensures r.Insert(k, b).Remove(k) == r
  {
  }

  // ---------- conservation ----------

  /** The bytes in the first n gaps. */
  function GapSum(r: Run, n: int): (v: int)
    requires 0 <= n <= |r.blocks| + 1
  {
    if n == 0 then 0 else GapSum(r, n - 1) + r.Gap(n - 1)
  }

  lemma {:induction false} GapSumPrefix(r: Run, n: int)
    requires 0 <= n <= |r.blocks|
    ensures GapSum(r, n) + MAJOR + InUse(r.blocks[..n]) + MINOR * n
            == (if n == 0 then r.addr + MAJOR else r.blocks[n - 1].End()) - r.addr
  {
    if n == 0 {
    } else {
      GapSumPrefix(r, n - 1);
      InUseConcat(r.blocks[..n - 1], [r.blocks[n - 1]]);
      assert r.blocks[..n - 1] + [r.blocks[n - 1]] == r.blocks[..n];
      assert InUse([r.blocks[n - 1]]) == r.blocks[n - 1].size;
    }
  }

  /** size - usage is exactly the bytes in the gaps. */
  lemma FreeIsGapSum(r: Run)
    ensures r.Free() == GapSum(r, |r.blocks| + 1)
  {
    GapSumPrefix(r, |r.blocks|);
    assert r.blocks[..|r.blocks|] == r.blocks;
  }

  lemma {:induction false} GapWithinSum(r: Run, k: int, n: int)
    requires RunOk(r) && 0 <= k < n <= |r.blocks| + 1
    ensures 0 <= r.Gap(k) <= GapSum(r, n)
  {
    assert r.GapStart(k) <= r.GapEnd(k);
    GapSumNonNegative(r, n - 1);
    assert r.GapStart(n - 1) <= r.GapEnd(n - 1);
    if k < n - 1 {
      GapWithinSum(r, k, n - 1);
    }
  }

  lemma {:induction false} GapSumNonNegative(r: Run, n: int)
    requires RunOk(r) && 0 <= n <= |r.blocks| + 1
    ensures 0 <= GapSum(r, n)
  {
    if n > 0 {
      GapSumNonNegative(r, n - 1);
      assert r.GapStart(n - 1) <= r.GapEnd(n - 1);
    }
  }

  /** A run whose free total is too small has no gap that is large enough: skipping it loses nothing. */
  lemma SkipIsSound(r: Run, k: int)
    requires RunOk(r) && 0 <= k <= |r.blocks|
    ensures 0 <= r.Gap(k) <= r.Free()
  {
    FreeIsGapSum(r);
    GapWithinSum(r, k, |r.blocks| + 1);
  }

  // ---------- order inside a run ----------

  lemma {:induction false} BlocksApart(r: Run, k: int, l: int)
    requires RunOk(r) && 0 <= k < l < |r.blocks|
    ensures r.blocks[k].End() <= r.blocks[l].addr
  {
    assert r.GapStart(l) <= r.GapEnd(l);
    if k < l - 1 {
      BlocksApart(r, k, l - 1);
      assert BlockOk(r.blocks[l - 1]);
    }
  }

  lemma BlockInside(r: Run, k: int)
    requires RunOk(r) && 0 <= k < |r.blocks|
    ensures r.addr + MAJOR <= r.blocks[k].addr
    ensures r.blocks[k].Body() + PAD <= r.blocks[k].End() <= r.End()
  {
    assert r.GapStart(0) <= r.GapEnd(0);
    assert r.GapStart(|r.blocks|) <= r.GapEnd(|r.blocks|);
    assert BlockOk(r.blocks[k]) && BlockOk(r.blocks[0]);
    if k > 0 { BlocksApart(r, 0, k); }
    if k < |r.blocks| - 1 { BlocksApart(r, k, |r.blocks| - 1); }
    assert BlockOk(r.blocks[|r.blocks| - 1]);
  }

  /** Gap k is apart from every block of its run. */
  lemma GapApart(r: Run, k: int, l: int)
    requires RunOk(r) && 0 <= k <= |r.blocks| && 0 <= l < |r.blocks|
    ensures if l < k then r.blocks[l].End() <= r.GapStart(k) else r.GapEnd(k) <= r.blocks[l].addr
    ensures r.addr + MAJOR <= r.GapStart(k) <= r.GapEnd(k) <= r.End()
  {
    assert r.GapStart(k) <= r.GapEnd(k);
    if l < k - 1 { BlocksApart(r, l, k - 1); }
    if k < l { BlocksApart(r, k, l); }
    if k > 0 { BlockInside(r, k - 1); }
    if k < |r.blocks| { BlockInside(r, k); }
    assert BlockOk(r.blocks[l]);
    if k > 0 { assert BlockOk(r.blocks[k - 1]); }
    if k < |r.blocks| { assert BlockOk(r.blocks[k]); }
  }

  // ---------- placing and removing keep a run well formed ----------

  lemma InsertOk(r: Run, k: int, b: Block)
    requires RunOk(r) && 0 <= k <= |r.blocks| && BlockOk(b)
    requires b.addr == r.GapStart(k) && b.End() <= r.GapEnd(k)
    ensures RunOk(r.Insert(k, b))
  {
    var q := r.Insert(k, b);
    forall j | 0 <= j <= |q.blocks|
      ensures q.GapStart(j) <= q.GapEnd(j)
    {
      if j < k {
        assert r.GapStart(j) <= r.GapEnd(j);
      } else if j > k + 1 {
        assert r.GapStart(j - 1) <= r.GapEnd(j - 1);
      }
    }
  }

  lemma RemoveOk(r: Run, k: int)
    requires RunOk(r) && 0 <= k < |r.blocks|
    ensures RunOk(r.Remove(k))
  {
    var q := r.Remove(k);
    assert r.GapStart(k) <= r.GapEnd(k) && r.GapStart(k + 1) <= r.GapEnd(k + 1);
    assert BlockOk(r.blocks[k]);
    forall j | 0 <= j <= |q.blocks|
      ensures q.GapStart(j) <= q.GapEnd(j)
    {
      if j < k {
        assert r.GapStart(j) <= r.GapEnd(j);
      } else if j > k {
        assert r.GapStart(j + 1) <= r.GapEnd(j + 1);
      }
    }
  }
}
