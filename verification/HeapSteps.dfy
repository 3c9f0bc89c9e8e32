/** The methods of the heap are the events of its histories. */
module HeapSteps {
  import opened HeapLayout
  import opened HeapSpec
  import opened HeapInvariants
  import opened HeapHeaders
  import opened HeapBytes
  import opened HeapTheorems
  import opened HeapRep
  import opened HeapSupport
  import opened HeapRuns
  import opened HeapHistory
  import opened KernelHeap

  lemma KeptCarries(h: HeapState, m: seq<byte>, m': seq<byte>, b: Block)
    requires Ok(h) && |m| == |m'| == h.max && Live(h.runs, b) && KeepsBlock(b, m, m')
    ensures CarriesOver(b, m, b, m')
  {
    hide Ok, Live;
    LiveBounds(h, b);
  }

  lemma LiveKept(runs: seq<Run>, m: seq<byte>, m': seq<byte>, b: Block)
    requires KeepsAll(runs, m, m') && Live(runs, b)
    ensures |m| == |m'| && KeepsBlock(b, m, m')
  {
  }

  /** A call that moves no block and keeps all bytes of the blocks before, or of those after it. */
  lemma KeepingIsStep(h: HeapState, m: seq<byte>, c: Call, h': HeapState, m': seq<byte>)
    requires Ok(h) && -1 <= h.bet < |h.runs| && Enabled(h, c) && !c.CallReallocate? && |m| == |m'| == h.max
    requires KeepsAll(h.runs, m, m') || (Ok(h') ==> KeepsAll(h'.runs, m, m'))
    ensures BytesStep(h, m, c, h', m')
  {
    hide Ok, Live, Enabled, KeepsAll, CarriesOver;
    if Ok(h') {
      forall b, b' | Follows(h, c, h', b, b')
        ensures CarriesOver(b, m, b', m')
      {
        LiveKept(if KeepsAll(h.runs, m, m') then h.runs else h'.runs, m, m', b);
        KeptCarries(h, m, m', b);
      }
    }
  }

  method AllocateStep(heap: Heap, req: int, avail: nat, ghost held: set<int>) returns (p: int, ghost held': set<int>)
    requires heap.Valid() && (Sized(req) || req + PAD == SIZE_T)
    modifies heap, heap.mem
    ensures EventStep(old(heap.View()), held, old(heap.mem[..]), Calls(CallAllocate(req, avail)),
                      heap.View(), held', heap.mem[..])
    ensures Ok(heap.View()) ==> heap.Valid()
  {
    hide Represents, KeepsAll, Ok, HeapSpec.Allocate, NoneEmpty, BytesStep;
    ghost var h, m, c := heap.View(), heap.mem[..], CallAllocate(req, avail);
    ValidFacts(h, heap.memRoot, heap.bestBet, heap.majors, heap.minors, m);
    RepFacts(h, heap.memRoot, heap.bestBet, heap.majors, heap.minors, m);
    p := heap.Allocate(req, avail);
    held' := Held(h, c, held);
    AllocateOkIff(h, req, avail);
    KeepingIsStep(h, m, c, heap.View(), heap.mem[..]);
  }

  /** Free of a null pointer and of a pointer whose header has lost the magic number. */
  method FreeOtherStep(heap: Heap, p: int, ghost held: set<int>) returns (ghost c: Call)
    requires heap.Valid()
    requires p != 0 ==> ALIGN_INFO <= p <= heap.mem.Length && heap.HeaderOf(p) in heap.minors
    requires p != 0 ==> heap.minors[heap.HeaderOf(p)].magic != MAGIC
    modifies heap, heap.mem
    ensures heap.Valid() && (c == CallFreeNull || c.CallStale?)
    ensures EventStep(old(heap.View()), held, old(heap.mem[..]), Calls(c), heap.View(), held, heap.mem[..])
  {
    hide Represents, KeepsAll, Ok, NoneEmpty, BytesStep;
    ghost var h, m := heap.View(), heap.mem[..];
    ValidFacts(h, heap.memRoot, heap.bestBet, heap.majors, heap.minors, m);
    RepFacts(h, heap.memRoot, heap.bestBet, heap.majors, heap.minors, m);
    c := if p == 0 then CallFreeNull else CallStale(heap.minors[heap.HeaderOf(p)].magic);
    heap.Free(p);
    KeepingIsStep(h, m, c, heap.View(), heap.mem[..]);
  }

  method FreeStep(heap: Heap, p: int, ghost i: int, ghost k: int, ghost held: set<int>) returns (ghost held': set<int>)
    requires heap.Valid() && IsBlock(heap.View(), i, k) && p == heap.runs[i].blocks[k].Ptr()
    modifies heap, heap.mem
    ensures EventStep(old(heap.View()), held, old(heap.mem[..]), Calls(CallFree(i, k)),
                      heap.View(), held', heap.mem[..])
    ensures Ok(heap.View()) ==> heap.Valid()
  {
    hide Represents, KeepsAll, Ok, NoneEmpty, BytesStep, FreeBlock, CutsNeighbour, Unaligned;
    ghost var h, m, c := heap.View(), heap.mem[..], CallFree(i, k);
    ValidFacts(h, heap.memRoot, heap.bestBet, heap.majors, heap.minors, m);
    RepFacts(h, heap.memRoot, heap.bestBet, heap.majors, heap.minors, m);
    LiveHeader(h, heap.memRoot, heap.bestBet, heap.majors, heap.minors, m, i, k);
    assert BlockAt(heap.runs, i, k, heap.runs[i].blocks[k].addr);
    FreeBlockOkIff(h, i, k);
    heap.Free(p);
    held' := Held(h, c, held);
    KeepingIsStep(h, m, c, heap.View(), heap.mem[..]);
  }

  /** Reallocation of a live block, unless the inner allocation leaves the heap ill formed, where the method ends. */
  method ReallocateStep(heap: Heap, p: int, size: int, avail: nat, ghost i: int, ghost k: int, ghost held: set<int>)
    returns (q: int, fault: bool, ghost held': set<int>)
    requires heap.Valid() && IsBlock(heap.View(), i, k) && p == heap.runs[i].blocks[k].Ptr() && Sized(size)
    modifies heap, heap.mem
    ensures !old(Overfilling(heap.View(), CallReallocate(i, k, size, avail))) ==>
              EventStep(old(heap.View()), held, old(heap.mem[..]), Calls(CallReallocate(i, k, size, avail)),
                        heap.View(), held', heap.mem[..])
    ensures Ok(heap.View()) ==> heap.Valid()
  {
    hide Represents, KeepsAll, Ok, NoneEmpty, BytesStep, Unaligned, HeapSpec.Reallocate, Moved, ReallocateBreaks;
    hide HeapSpec.Allocate, PagesRefused;
    ghost var h, m, c := heap.View(), heap.mem[..], CallReallocate(i, k, size, avail);
    ValidFacts(h, heap.memRoot, heap.bestBet, heap.majors, heap.minors, m);
    RepFacts(h, heap.memRoot, heap.bestBet, heap.majors, heap.minors, m);
    LiveHeader(h, heap.memRoot, heap.bestBet, heap.majors, heap.minors, m, i, k);
    assert BlockAt(heap.runs, i, k, heap.runs[i].blocks[k].addr);
    forall j, l | BlockAt(heap.runs, j, l, heap.runs[i].blocks[k].addr)
      ensures j == i && l == k
    {
      OneBlockAt(h, heap.memRoot, heap.bestBet, heap.majors, heap.minors, m, i, k, j, l);
    }
    q, fault := heap.Reallocate(p, size, avail);
    held' := {};
    MovedIsOk(h, i, k, p, size, avail, m, heap.View(), q, fault, heap.mem[..]);
    if !Overfilling(h, c) {
      held' := Held(h, c, held);
      MovedIsStep(h, i, k, p, size, avail, m, heap.View(), q, fault, heap.mem[..]);
    }
  }

  lemma MovedIsOk(h: HeapState, i: int, k: int, p: int, size: int, avail: nat, m: seq<byte>,
                  h': HeapState, q: int, fault: bool, m': seq<byte>)
    requires Moved(h, i, k, p, size, avail, m, h', q, fault, m')
    ensures -1 <= h.bet < |h.runs| && IsBlock(h, i, k) && (Ok(h') <==> !ReallocateBreaks(h, i, k, size, avail))
  {
  }

  lemma MovedIsStep(h: HeapState, i: int, k: int, p: int, size: int, avail: nat, m: seq<byte>,
                    h': HeapState, q: int, fault: bool, m': seq<byte>)
    requires Ok(h) && IsBlock(h, i, k) && p == h.runs[i].blocks[k].Ptr() && Sized(size) && |m| == |m'| == h.max
    requires h'.max == h.max
    requires Moved(h, i, k, p, size, avail, m, h', q, fault, m')
    requires !Overfilling(h, CallReallocate(i, k, size, avail))
    ensures -1 <= h.bet < |h.runs|
    ensures (h', q, fault) == HeapSpec.Reallocate(h, i, k, size, avail)
    ensures BytesStep(h, m, CallReallocate(i, k, size, avail), h', m')
  {
    hide Ok, Live, KeepsAll, HeapSpec.Reallocate, ReallocateBreaks, CarriesOver, OthersKept, Copied, Overfills;
    var b, c := h.runs[i].blocks[k], CallReallocate(i, k, size, avail);
    LiveHere(h.runs, i, k);
    if Ok(h') {
      forall d, d' | Follows(h, c, h', d, d')
        ensures CarriesOver(d, m, d', m')
      {
        if d != b {
          OtherKept(h.runs, b, m, m', d);
          KeptCarries(h, m, m', d);
        } else {
          MovedCarries(h, i, k, p, size, avail, m, h', q, fault, m', d');
        }
      }
    }
  }

  lemma OtherKept(runs: seq<Run>, b: Block, m: seq<byte>, m': seq<byte>, d: Block)
    requires OthersKept(runs, b, m, m') && Live(runs, d) && d != b
    ensures |m| == |m'| && KeepsBlock(d, m, m')
  {
  }

  /** The block reallocated carries its bytes to the block at the pointer returned. */
  lemma MovedCarries(h: HeapState, i: int, k: int, p: int, size: int, avail: nat, m: seq<byte>,
                     h': HeapState, q: int, fault: bool, m': seq<byte>, b': Block)
    requires Ok(h) && Ok(h') && IsBlock(h, i, k) && p == h.runs[i].blocks[k].Ptr() && |m| == |m'| == h.max == h'.max
    requires Moved(h, i, k, p, size, avail, m, h', q, fault, m') && -1 <= h.bet < |h.runs|
    requires (h', q, fault) == HeapSpec.Reallocate(h, i, k, size, avail) && !fault
    requires Live(h'.runs, b') && b'.Ptr() == q && 0 <= size
    ensures CarriesOver(h.runs[i].blocks[k], m, b', m')
  {
    hide Ok, Live, KeepsAll, ReallocateBreaks, OthersKept, FreeBlock, HeapSpec.Allocate, Overfills;
    var b := h.runs[i].blocks[k];
    LiveHere(h.runs, i, k);
    LiveBounds(h, b);
    LiveBounds(h', b');
    if 0 < size <= b.req { LiveKept(h.runs, m, m', b); }
  }

  /** A caller's write through the pointer of its live block. */
  method WriteStep(heap: Heap, p: int, x: int, v: byte, ghost i: int, ghost k: int, ghost held: set<int>)
    requires heap.Valid() && IsBlock(heap.View(), i, k) && p == heap.runs[i].blocks[k].Ptr()
    requires 0 <= x < heap.runs[i].blocks[k].req
    modifies heap.mem
    ensures heap.Valid()
    ensures EventStep(old(heap.View()), held, old(heap.mem[..]), Writes(old(heap.runs)[i].blocks[k], x, v),
                      heap.View(), held, heap.mem[..])
  {
    hide Represents, NoneEmpty, Live;
    LiveHere(heap.runs, i, k);
    heap.WritePayload(p, x, v, i, k);
  }
}
