/** Callers of the heap: what a second free, an undone allocation and a free in front of another run come to. */
module HeapClients {
  import opened HeapLayout
  import opened HeapSpec
  import opened HeapHeaders
  import opened HeapBytes
  import opened HeapTheorems
  import opened HeapRep
  import opened HeapSupport
  import opened HeapRuns
  import opened KernelHeap

  /** Freeing a block twice: as long as its run is still there, or, in a heap that is still valid, the first page of it,
      which stays mapped, the second free only counts an error. */
  method FreeTwice(heap: Heap, p: int, ghost i: int, ghost k: int)
    requires heap.Valid() && IsBlock(heap.View(), i, k)
    requires p == heap.runs[i].blocks[k].Ptr()
    requires |heap.runs[i].blocks| > 1 || (!Followed(heap.View(), i) && p <= heap.runs[i].addr + PAGE)
    modifies heap, heap.mem
    ensures heap.Valid()
    ensures -1 <= old(heap.bet) < |old(heap.runs)| && heap.View() == Rejected(FreeBlock(old(heap.View()), i, k), DEAD)
  {
    hide Represents, KeepsAll, NoneEmpty, FreeBlock, Rejected, Unaligned, Ok, Live, Followed, OffsetOk;
    ghost var h, m0, b := heap.View(), heap.mem[..], heap.runs[i].blocks[k];
    ValidFacts(h, heap.memRoot, heap.bestBet, heap.majors, heap.minors, m0);
    LiveHeader(h, heap.memRoot, heap.bestBet, heap.majors, heap.minors, m0, i, k);
    LiveHere(h.runs, i, k);
    assert BlockAt(heap.runs, i, k, b.addr);
    heap.Free(p);
    BlockOfOk(h, i, k);
    UnalignFindsHeader(b, heap.mem[..]);
    heap.Free(p);
  }

  lemma BlockOfOk(h: HeapState, i: int, k: int)
    requires Ok(h) && IsBlock(h, i, k)
    ensures BlockOk(h.runs[i].blocks[k]) && 0 <= h.runs[i].blocks[k].addr
  {
    hide TotalInUse, TotalSize, Paged;
    assert RunOk(h.runs[i]);
    BlockInside(h.runs[i], k);
  }

  /** Allocating and freeing at once leaves the runs, the root, the counters and the end of the heap as they were.
      Only a request beyond 32 bits that gets pages leaves nothing to free in a valid heap. */
  method AllocateThenFree(heap: Heap, req: int, avail: nat) returns (p: int)
    requires heap.Valid() && Sized(req)
    modifies heap, heap.mem
    ensures heap.Valid() <==> !Overfills(old(heap.View()), req, avail)
    ensures heap.Valid() && p != 0 ==>
              && heap.runs == old(heap.runs) && heap.memRoot == old(heap.memRoot) && heap.heapEnd == old(heap.heapEnd)
              && heap.inuse == old(heap.inuse) && heap.taken == old(heap.taken) && heap.warnings == old(heap.warnings)
    ensures KeepsAll(old(heap.runs), old(heap.mem[..]), heap.mem[..])
  {
    hide Represents, KeepsAll, NoneEmpty, FreeBlock, Rejected, Unaligned, Ok, Live, HeapSpec.AllocateSized, Sound;
    hide PagesRefused;
    ghost var h, m0 := heap.View(), heap.mem[..];
    ValidFacts(h, heap.memRoot, heap.bestBet, heap.majors, heap.minors, m0);
    BetIsRun(h, heap.memRoot, heap.bestBet, heap.majors, heap.minors, m0);
    p := heap.AllocateSized(req, avail);
    if p != 0 && Request(req) {
      ghost var i, k := FittingUndone(h, req, avail);
      ghost var m1 := heap.mem[..];
      LiveHeader(heap.View(), heap.memRoot, heap.bestBet, heap.majors, heap.minors, m1, i, k);
      assert BlockAt(heap.runs, i, k, heap.runs[i].blocks[k].addr);
      heap.Free(p);
      BetIsRun(heap.View(), heap.memRoot, heap.bestBet, heap.majors, heap.minors, heap.mem[..]);
      KeepsTrans(h.runs, h.runs, m0, m1, heap.mem[..]);
    } else if p != 0 {
      OversizeNeverServed(h, req, avail);
    }
  }

  lemma OversizeNeverServed(h: HeapState, req: int, avail: nat)
    requires Ok(h) && Sized(req) && !Request(req)
    ensures -1 <= h.bet < |h.runs| && (HeapSpec.AllocateSized(h, req, avail).1 != 0 ==> Overfills(h, req, avail))
  {
    hide Sound, HeapSpec.AllocateSized, PagesRefused;
    OkRuns(h);
    var base := OversizeOutcome(h, req, avail);
  }

  /** What a caller writes through its pointer is still there after the block has been moved to a larger one. */
  method WriteThenGrow(heap: Heap, p: int, x: int, v: byte, size: int, avail: nat, ghost i: int, ghost k: int)
    returns (q: int, fault: bool)
    requires heap.Valid() && IsBlock(heap.View(), i, k) && p == heap.runs[i].blocks[k].Ptr()
    requires 0 <= x < heap.runs[i].blocks[k].req < size && Sized(size)
    modifies heap, heap.mem
    ensures heap.Valid() <==> !ReallocateBreaks(old(heap.View()), i, k, size, avail)
    ensures heap.Valid() && !fault && q != 0 ==> 0 <= q + x < heap.mem.Length && heap.mem[q + x] == v
    ensures heap.Valid() ==>
              forall c | Live(old(heap.runs), c) && c != old(heap.runs)[i].blocks[k] ::
                KeepsBlock(c, old(heap.mem[..]), heap.mem[..])
  {
    hide Represents, KeepsBlock, Live, NoneEmpty, Unaligned, Ok, HeapSpec.Reallocate, ReallocateBreaks, KeepsAll;
    hide Overfills, HeapSpec.Allocate;
    ghost var b, m0 := heap.runs[i].blocks[k], heap.mem[..];
    heap.WritePayload(p, x, v, i, k);
    ghost var h, m1 := heap.View(), heap.mem[..];
    LiveHeader(h, heap.memRoot, heap.bestBet, heap.majors, heap.minors, m1, i, k);
    assert BlockAt(heap.runs, i, k, b.addr);
    forall j, l | BlockAt(heap.runs, j, l, b.addr)
      ensures j == i && l == k
    {
      OneBlockAt(h, heap.memRoot, heap.bestBet, heap.majors, heap.minors, m1, i, k, j, l);
    }
    q, fault := heap.Reallocate(p, size, avail);
    if heap.Valid() {
      heap.ValidIsOk();
      KeptTwice(h.runs, b, m0, m1, heap.mem[..]);
    }
  }

  lemma KeptTwice(runs: seq<Run>, b: Block, m0: seq<byte>, m1: seq<byte>, m2: seq<byte>)
    requires |m0| == |m1| && (forall c | Live(runs, c) && c != b :: KeepsBlock(c, m0, m1))
    requires OthersKept(runs, b, m1, m2)
    ensures forall c | Live(runs, c) && c != b :: KeepsBlock(c, m0, m2)
  {
    hide Live;
    forall c | Live(runs, c) && c != b
      ensures KeepsBlock(c, m0, m2)
    {
      assert KeepsBlock(c, m0, m1) && KeepsBlock(c, m1, m2);
    }
  }

  /** Two allocations that take a run each, and a free of the first: the heap's root then points to a header that is
      gone, in a page that is not mapped, although the second caller still holds its pointer. */
  method FreeCutsNeighbour(ram: array<byte>) returns (heap: Heap, q: int)
    requires ram.Length == 0x100000
    modifies ram
    ensures !heap.Valid()
    ensures |heap.runs| == 1 && |heap.runs[0].blocks| == 1 && heap.runs[0].blocks[0].Ptr() == q
    ensures heap.memRoot == heap.runs[0].addr && heap.memRoot !in heap.majors && heap.memRoot !in heap.mapped
  {
    hide Represents, KeepsAll, Ok, HeapSpec.Allocate, FullRun, Unaligned;
    heap := new Heap(0x1000, 0x100000, ram);
    ghost var h0 := heap.View();
    FreshOk(h0);
    AllocateFullRun(h0);
    var p := heap.Allocate(65000, 100);
    ghost var h1 := heap.View();
    AllocateFullRun(h1);
    q := heap.Allocate(65000, 100);
    ghost var h2 := heap.View();
    LiveHeader(h2, heap.memRoot, heap.bestBet, heap.majors, heap.minors, heap.mem[..], 0, 0);
    assert BlockAt(heap.runs, 0, 0, heap.runs[0].blocks[0].addr);
    assert heap.runs[1].addr == heap.runs[0].End();
    heap.Free(p);
    FreedFirst(h2);
  }

  lemma FreedFirst(h: HeapState)
    requires |h.runs| == 2 && |h.runs[0].blocks| == 1 && -1 <= h.bet < 2
    ensures FreeBlock(h, 0, 0).runs == [h.runs[1]]
  {
    assert Without(TakeOut(h, 0, 0).runs, 0) == [h.runs[1]];
  }
}
