/** The value-level steps behind the methods of the heap: freeing, moving and shrinking blocks. */
module HeapSupport {
  import opened HeapLayout
  import opened HeapSpec
  import opened HeapInvariants
  import opened HeapHeaders
  import opened HeapBytes
  import opened HeapTheorems
  import opened HeapSizes
  import opened HeapRep

  /** The outcome of reallocating live block k of run i: the heap and the pointer are as specified; and when the heap
      is still well formed, a moved block holds the old contents, an unmoved one keeps them, and every other live
      block keeps its bytes. An inner allocation that leaves the heap ill formed ends the model's run before the copy.
      */
  ghost predicate Moved(h: HeapState, i: int, k: int, p: int, size: int, avail: nat, m0: seq<byte>,
                        g: HeapState, ptr: int, fault: bool, m1: seq<byte>)
  {
    && -1 <= h.bet < |h.runs| && IsBlock(h, i, k)
    && (if h.runs[i].blocks[k].req < size && Overfills(h, size, avail) then
          fault && ptr != 0 && (g, ptr) == HeapSpec.Allocate(h, size, avail)
        else (g, ptr, fault) == HeapSpec.Reallocate(h, i, k, size, avail))
    && (Ok(g) <==> !ReallocateBreaks(h, i, k, size, avail))
    && (Ok(g) && !fault && ptr != 0 && h.runs[i].blocks[k].req < size ==>
          Copied(m0, p, m1, ptr, h.runs[i].blocks[k].req))
    && (0 < size <= h.runs[i].blocks[k].req ==> KeepsAll(h.runs, m0, m1))
    && (Ok(g) ==> OthersKept(h.runs, h.runs[i].blocks[k], m0, m1))
  }

  /** A recorded request fits its 32-bit field. As the int it is read as, it is 0 exactly when it is 0, it is itself
      below 2^31, and it compares with a size as itself. */
  lemma RecordedRequest(h: HeapState, i: int, k: int)
    requires Ok(h) && IsBlock(h, i, k)
    ensures var req := h.runs[i].blocks[k].req; var n := ToInt32(req);
            0 <= req < UINT32 && (n == 0 <==> req == 0) && (req < 0x8000_0000 ==> n == req) && n % UINT32 == req
  {
    hide TotalInUse, TotalSize, Paged;
    assert RunOk(h.runs[i]) && BlockOk(h.runs[i].blocks[k]);
    BlockInside(h.runs[i], k);
  }

  /** A block whose request reads as a negative number is never copied: two blocks of 2^31 bytes do not fit. */
  lemma LargeNeverMoves(h: HeapState, g: HeapState, b: Block, nb: Block, p: int, size: int)
    requires Ok(g) && Live(h.runs, b) && Adds(h.runs, g.runs, p, size, nb) && b.req < size
    ensures b.req < 0x8000_0000
  {
    hide TotalInUse, TotalSize, Paged, Live;
    assert Live(g.runs, b) && Live(g.runs, nb) && b != nb;
    LiveApart(g.runs, g.start, g.end, b, nb);
    LiveApart(g.runs, g.start, g.end, nb, b);
    LiveOk(g.runs, g.start, g.end, b);
    LiveOk(g.runs, g.start, g.end, nb);
  }

  lemma RejectedRuns(h: HeapState, magic: int)
    ensures Rejected(h, magic).runs == h.runs && Rejected(h, magic).mapped == h.mapped
  {
  }

  /** What the inner allocation of a growing reallocation comes to, unless it overfills the heap: the block to be moved
      is still there, and the heap after the free is well formed exactly when nothing breaks it. */
  lemma InnerAllocation(h: HeapState, i: int, k: int, size: int, avail: nat) returns (nb: Block)
    requires Ok(h) && IsBlock(h, i, k) && h.runs[i].blocks[k].req < size && Sized(size) && size != 0
    ensures -1 <= h.bet < |h.runs|
    ensures var (g, p) := HeapSpec.Allocate(h, size, avail); var b := h.runs[i].blocks[k];
            if Overfills(h, size, avail) then !Ok(g) && p != 0 && ReallocateBreaks(h, i, k, size, avail)
            else
              && -1 <= g.bet < |g.runs| && Ok(g) && 0 <= i < |g.runs|
              && IsBlock(g, i, Follow(g.runs[i], k, b)) && g.runs[i].blocks[Follow(g.runs[i], k, b)] == b
              && (p == 0 ==> g.runs == h.runs) && (p != 0 ==> Request(size) && Adds(h.runs, g.runs, p, size, nb))
              && (p == 0 && 0 < b.req ==> !ReallocateBreaks(h, i, k, size, avail))
              && (p != 0 || 0 == b.req ==> (ReallocateBreaks(h, i, k, size, avail) <==> CutsNeighbour(g, i)))
  {
    hide HeapSpec.AllocateSized, HasRoom, PagesRefused, CutsNeighbour, Live, GrowthCuts, Sound, HeapSpec.Allocate;
    OkRuns(h);
    AllocateIsSized(h, size, avail);
    LivePointer(h, i, k);
    nb := NewBlock(0, size);
    var g := HeapSpec.AllocateSized(h, size, avail).0;
    if Request(size) {
      FollowFinds(h, i, k, size, avail);
      nb := FittingAdds(h, size, avail);
      GrowthCutsIff(h, i, k, size, avail);
    } else {
      var base := OversizeOutcome(h, size, avail);
      if PagesRefused(h, size, avail) {
        OkRuns(g);
        GrowthCutsIff(h, i, k, size, avail);
      }
    }
  }

  lemma MovedOk(h: HeapState, i: int, k: int, size: int, avail: nat)
    requires Ok(h) && IsBlock(h, i, k) && h.runs[i].blocks[k].req < size && Sized(size) && size != 0
    ensures -1 <= h.bet < |h.runs|
    ensures if Overfills(h, size, avail) then !Ok(HeapSpec.Allocate(h, size, avail).0)
            else Ok(HeapSpec.Reallocate(h, i, k, size, avail).0) <==> !ReallocateBreaks(h, i, k, size, avail)
  {
    hide Ok, HeapSpec.AllocateSized, HasRoom, PagesRefused, CutsNeighbour, FreeBlock, Live, Loses, Replaces, GrowthCuts;
    var inner := InnerAllocation(h, i, k, size, avail);
    var nb := GrowReplaces(h, i, k, size, avail);
  }

  lemma ShrinkRep(h: HeapState, root: int, best: int, mj: map<int, Major>, mn: map<int, Minor>, m: seq<byte>,
                  m1: seq<byte>, i: int, k: int, req: int)
    requires Represents(h, root, best, mj, mn, m) && IsBlock(h, i, k) && 0 <= req <= h.runs[i].blocks[k].req
    requires NoneEmpty(h.runs) && |m1| == |m| && KeepsAll(h.runs, m, m1)
    ensures MinorsAgree(mn, h.runs[i])
    ensures var a := h.runs[i].blocks[k].addr;
            Represents(SetReq(h, i, k, req), root, best, mj, mn[a := mn[a].(req := req)], m1)
            && NoneEmpty(SetReq(h, i, k, req).runs)
  {
    hide Apart, TotalInUse, TotalSize, InUse, KeepsAll, OffsetOk;
    var r := h.runs[i];
    var q := Shrunk(r, k, req);
    SetReqOk(h, i, k, req);
    RunIsOk(h.runs, i, h.start, h.end);
    ShrunkOk(r, k, req);
    ShrinkAgrees(mn, h.runs, i, k, req, h.start, h.end);
    assert mj[r.addr] == MajorAt(h.runs, i);
    MajorReplaced(mj, h.runs, i, q, h.start, h.end);
    assert mj[q.addr := mj[q.addr].(usage := q.Usage(), first := BlockAddr(q, 0))] == mj;
    KeepsOffsets(h.runs, m, m1, h.start, h.end);
    ShrunkOffsets(h.runs, i, k, req, m1);
    SameAddresses(h.runs, i, q, 0);
    SameAddresses(h.runs, i, q, h.bet);
  }

  lemma ShrunkOffsets(runs: seq<Run>, i: int, k: int, req: int, m: seq<byte>)
    requires 0 <= i < |runs| && 0 <= k < |runs[i].blocks| && OffsetsOk(runs, m)
    ensures OffsetsOk(runs[i := Shrunk(runs[i], k, req)], m)
  {
  }

  /** The n bytes from q in m1 are the n bytes from p in m0. */
  ghost predicate Copied(m0: seq<byte>, p: int, m1: seq<byte>, q: int, n: int) {
    0 <= p && p + n <= |m0| && 0 <= q && q + n <= |m1| && forall y | q <= y < q + n :: m1[y] == m0[y - q + p]
  }

  /** Every live block but b keeps its bytes. */
  ghost predicate OthersKept(runs: seq<Run>, b: Block, m0: seq<byte>, m1: seq<byte>) {
    |m0| == |m1| && forall c | Live(runs, c) && c != b :: KeepsBlock(c, m0, m1)
  }

  lemma OthersFromAll(runs: seq<Run>, b: Block, m0: seq<byte>, m1: seq<byte>)
    requires KeepsAll(runs, m0, m1)
    ensures OthersKept(runs, b, m0, m1)
  {
  }

  lemma OnlyWithinMore(m0: seq<byte>, m1: seq<byte>, lo: int, hi: int, hi': int)
    requires OnlyWithin(m0, m1, lo, hi) && hi <= hi'
    ensures OnlyWithin(m0, m1, lo, hi')
  {
  }

  lemma NewBlockInside(h: HeapState, g: HeapState, b: Block, nb: Block, ptr: int, size: int)
    requires Ok(h) && Ok(g) && Live(h.runs, b) && Adds(h.runs, g.runs, ptr, size, nb) && b.req < size
    ensures Live(g.runs, nb) && Live(g.runs, b) && nb != b && 0 < nb.addr
    ensures 0 <= b.req && nb.Body() <= ptr && 0 <= b.Body() <= b.Ptr()
    ensures ptr + size <= nb.End() <= g.max && nb.Ptr() == ptr && b.Ptr() + b.req <= b.End() <= g.max
    ensures ptr + b.req <= b.Ptr() || b.Ptr() + b.req <= ptr
  {
    hide TotalInUse, TotalSize;
    assert Live(g.runs, b) && Live(g.runs, nb);
    LiveApart(g.runs, g.start, g.end, b, nb);
    LiveApart(g.runs, g.start, g.end, nb, b);
    LiveOk(g.runs, g.start, g.end, b);
    LiveOk(g.runs, g.start, g.end, nb);
    PointerFits(b);
    PointerFits(nb);
  }

  lemma OthersThroughFree(rs: seq<Run>, gs: seq<Run>, fs: seq<Run>, b: Block, m0: seq<byte>, m1: seq<byte>,
                          m3: seq<byte>)
    requires gs == rs && Loses(gs, fs, b) && KeepsAll(rs, m0, m1) && KeepsAll(fs, m1, m3)
    ensures OthersKept(rs, b, m0, m3)
  {
  }

  lemma CopyThroughFree(rs: seq<Run>, gs: seq<Run>, fs: seq<Run>, b: Block, nb: Block,
                        m0: seq<byte>, m1: seq<byte>, m2: seq<byte>, m3: seq<byte>, p: int, ptr: int, n: int, size: int)
    requires Live(rs, b) && Adds(rs, gs, ptr, size, nb) && Loses(gs, fs, b)
    requires KeepsAll(rs, m0, m1) && KeepsAll(fs, m2, m3)
    requires OthersKept(gs, nb, m1, m2) && Copied(m1, p, m2, ptr, n)
    requires p == b.Ptr() && n == b.req < size && BlockOk(b)
    ensures Copied(m0, p, m3, ptr, n) && OthersKept(rs, b, m0, m3)
  {
  }

  /** Block k of run i has its header at a. */
  ghost predicate BlockAt(runs: seq<Run>, i: int, k: int, a: int) {
    0 <= i < |runs| && 0 <= k < |runs[i].blocks| && runs[i].blocks[k].addr == a
  }

  lemma NotMagic(h: HeapState, root: int, best: int, mj: map<int, Major>, mn: map<int, Minor>, m: seq<byte>, a: int)
    requires Represents(h, root, best, mj, mn, m) && a in mn && mn[a].magic != MAGIC
    ensures forall i, k :: !BlockAt(h.runs, i, k, a)
  {
    forall i, k | BlockAt(h.runs, i, k, a)
      ensures false
    {
      ReadMinor(h, root, best, mj, mn, m, i, k);
    }
  }

  lemma MagicBlock(h: HeapState, root: int, best: int, mj: map<int, Major>, mn: map<int, Minor>, m: seq<byte>, a: int)
    returns (i: int, k: int)
    requires Represents(h, root, best, mj, mn, m) && a in mn && mn[a].magic == MAGIC
    ensures IsBlock(h, i, k) && BlockAt(h.runs, i, k, a) && IsLive(h.runs, a)
    ensures forall j, l | BlockAt(h.runs, j, l, a) :: j == i && l == k
  {
    hide OffsetsOk, TotalInUse, TotalSize, MajorsAgree, AllMinorsAgree;
    assert IsLive(h.runs, a);
    i :| 0 <= i < |h.runs| && InRun(h.runs[i], a);
    k :| 0 <= k < |h.runs[i].blocks| && h.runs[i].blocks[k].addr == a;
    forall j, l | BlockAt(h.runs, j, l, a)
      ensures j == i && l == k
    {
      SameBlock(h.runs, i, k, j, l, h.start, h.end);
    }
  }

  lemma OneBlockAt(h: HeapState, root: int, best: int, mj: map<int, Major>, mn: map<int, Minor>, m: seq<byte>,
                   i: int, k: int, j: int, l: int)
    requires Represents(h, root, best, mj, mn, m) && IsBlock(h, i, k) && BlockAt(h.runs, j, l, h.runs[i].blocks[k].addr)
    ensures j == i && l == k
  {
    hide TotalInUse, TotalSize, MajorsAgree, AllMinorsAgree, OffsetsOk, MagicIsLive;
    SameBlock(h.runs, i, k, j, l, h.start, h.end);
  }

  lemma FreeSteps(h: HeapState, i: int, k: int)
    requires Ok(h) && IsBlock(h, i, k)
    ensures -1 <= h.bet < |h.runs|
    ensures var g := TakeOut(h, i, k);
            0 <= i < |g.runs| && -1 <= g.bet < |g.runs| && |h.runs[i].blocks| == |g.runs[i].blocks| + 1
            && g.runs[i].addr == h.runs[i].addr && g.runs[i].End() == h.runs[i].End()
            && FreeBlock(h, i, k) == (if g.runs[i].blocks == [] then DropRun(g, i) else HeapSpec.Rebet(g, i))
            && (CutsNeighbour(h, i) <==> g.runs[i].blocks == [] && Followed(g, i))
            && |g.runs| == |h.runs| && forall j | 0 <= j < |h.runs| :: g.runs[j].addr == h.runs[j].addr
    ensures NoneEmpty(FreeBlock(h, i, k).runs) && (Ok(FreeBlock(h, i, k)) <==> !CutsNeighbour(h, i))
  {
    hide InUse, UnmappedPages, TotalInUse, TotalSize, ToInt32, RunsOk, Paged, Followed;
    FreeBlockOkIff(h, i, k);
    FollowedAfter(h, i, k);
    var g := TakeOut(h, i, k);
    var f := FreeBlock(h, i, k);
    if g.runs[i].blocks == [] {
      assert forall j | 0 <= j < |f.runs| :: f.runs[j] == h.runs[if j < i then j else j + 1];
    }
  }

  /** What stays allocated keeps its bytes through both stages of a free, as far as it can still be read. */
  lemma KeepsLive(h: HeapState, i: int, k: int, m0: seq<byte>, m1: seq<byte>, m2: seq<byte>)
    requires -1 <= h.bet < |h.runs| && IsBlock(h, i, k) && KeepsAll(h.runs, m0, m1)
    ensures var g := TakeOut(h, i, k);
            && KeepsAll(g.runs, m0, m1) && KeepsReadable(g.runs, g.mapped, m0, m1)
            && var f := DropRun(g, i);
               KeepsReadable(f.runs, f.mapped, m1, m2) ==> KeepsReadable(f.runs, f.mapped, m0, m2)
  {
    hide UnmappedPages;
    var g := TakeOut(h, i, k);
    forall j, l | 0 <= j < |g.runs| && 0 <= l < |g.runs[j].blocks|
      ensures KeepsBlock(g.runs[j].blocks[l], m0, m1)
    {
      assert g.runs[j].blocks[l] == h.runs[j].blocks[if j == i && k <= l then l + 1 else l];
    }
    var f := DropRun(g, i);
    if KeepsReadable(f.runs, f.mapped, m1, m2) {
      forall j, l | 0 <= j < |f.runs| && 0 <= l < |f.runs[j].blocks|
        ensures KeepsReadableOf(f.runs[j].blocks[l], f.mapped, m0, m2)
      {
        assert f.runs[j].blocks[l] == g.runs[if j < i then j else j + 1].blocks[l];
        assert KeepsReadableOf(f.runs[j].blocks[l], f.mapped, m1, m2);
      }
    }
  }

  /** What the unmapping of run i takes along: the headers represent the heap after it exactly when no run begins where
      run i ends; a run that does loses its header and its first page. */
  lemma DropOutcome(h: HeapState, root: int, best: int, mj: map<int, Major>, mn: map<int, Minor>,
                    m: seq<byte>, m1: seq<byte>, m2: seq<byte>, i: int)
    requires Represents(h, root, best, mj, mn, m) && 0 <= i < |h.runs| && h.runs[i].blocks == []
    requires |m1| == |m| && KeepsAll(h.runs, m, m1) && OnlyWithin(m1, m2, h.runs[i].addr + PAGE, h.runs[i].End() + PAGE)
    ensures forall j | 0 <= j < |h.runs| :: h.runs[j].addr in mj
    ensures var lo, hi := h.runs[i].addr + PAGE, h.runs[i].End() + PAGE; var g := DropRun(h, i);
            var mj1 := Overwrite(UnlinkMajor(mj, h.runs, i), lo, hi);
            && (!Followed(h, i) <==> Represents(g, if i == 0 then RunAddr(h.runs, 1) else root,
                                                if h.bet == i then 0 else best, mj1, Overwrite(mn, lo, hi), m2))
            && KeepsReadable(g.runs, g.mapped, m, m2)
            && (forall j | 0 <= j < |h.runs| && h.runs[j].addr == h.runs[i].End() ::
                  h.runs[j].addr !in mj1 && h.runs[j].addr !in g.mapped)
  {
    hide TotalInUse, TotalSize, InUse, RunsOk, UnmappedPages, Paged, OffsetsOk, AllMinorsAgree, MagicIsLive, KeepsAll;
    hide KeepsReadable, MajorsAgree, OnlyWithin, Followed;
    RepFacts(h, root, best, mj, mn, m);
    RunIsOk(h.runs, i, h.start, h.end);
    LossKeepsReadable(h, i, m, m1, m2);
    DropRunSoundIff(h, i);
    if !Followed(h, i) {
      KeepsSize(h.runs, m, m1);
      WithinSize(m1, m2, h.runs[i].addr + PAGE, h.runs[i].End() + PAGE);
      ReadableIsAll(DropRun(h, i), m, m2);
      DropRep(h, root, best, mj, mn, m, m2, i);
    }
    forall j | 0 <= j < |h.runs| && h.runs[j].addr == h.runs[i].End()
      ensures h.runs[j].addr in UnmappedPages(h.runs[i])
    {
      UnmapMeets(h, i, j);
    }
  }

  /** The runs, with everything behind the header of run i taken for one block. */
  function Whole(runs: seq<Run>, i: int): (ws: seq<Run>)
    requires 0 <= i < |runs|
  {
    var r := runs[i];
    runs[i := Run(r.addr, r.pages, [Block(r.addr + MAJOR - MINOR, r.Size() - MAJOR, 0)])]
  }

  /** The header of another run lies apart from all of run i. */
  lemma WholeApart(h: HeapState, i: int, j: int)
    requires Sound(h) && 0 <= i < |h.runs| && 0 <= j < |h.runs| && i != j
    ensures Apart(Whole(h.runs, i), h.runs[j].addr, h.runs[j].addr + MAJOR)
  {
    hide TotalInUse, TotalSize, Paged;
    assert RunOk(h.runs[i]) && RunOk(h.runs[j]);
    MajorApart(h.runs, j, h.start, h.end);
  }

  lemma WholeKeeps(runs: seq<Run>, i: int, m0: seq<byte>, m1: seq<byte>)
    requires 0 <= i < |runs| && runs[i].blocks == [] && KeepsAll(Whole(runs, i), m0, m1)
    ensures KeepsAll(runs, m0, m1)
    ensures forall x | runs[i].addr + MAJOR <= x < runs[i].End() && 0 <= x < |m0| :: m1[x] == m0[x]
  {
    var ws := Whole(runs, i);
    assert KeepsBlock(ws[i].blocks[0], m0, m1);
    forall j, k | 0 <= j < |runs| && 0 <= k < |runs[j].blocks|
      ensures KeepsBlock(runs[j].blocks[k], m0, m1)
    {
      assert runs[j].blocks[k] == ws[j].blocks[k];
    }
  }

  /** Behind the header, the page at a is as it was. */
  ghost predicate FirstPageKept(a: int, m0: seq<byte>, m1: seq<byte>) {
    |m0| == |m1| && forall x | a + MAJOR <= x < a + PAGE && 0 <= x < |m0| :: m1[x] == m0[x]
  }

  lemma DropBytes(h: HeapState, i: int, m0: seq<byte>, m1: seq<byte>, m2: seq<byte>)
    requires Sound(h) && 0 <= i < |h.runs| && h.runs[i].blocks == [] && KeepsAll(Whole(h.runs, i), m0, m1)
    requires OnlyWithin(m1, m2, h.runs[i].addr + PAGE, h.runs[i].End() + PAGE)
    ensures |m1| == |m0| && KeepsAll(h.runs, m0, m1) && FirstPageKept(h.runs[i].addr, m0, m2)
  {
    hide TotalInUse, TotalSize, Paged, KeepsAll, Whole;
    assert RunOk(h.runs[i]);
    WholeKeeps(h.runs, i, m0, m1);
    KeepsSize(h.runs, m0, m1);
  }

  /** A freed block in the first page of its run can still be recognised through its pointer. */
  lemma DeadOffsetStays(h: HeapState, root: int, best: int, mj: map<int, Major>, mn: map<int, Minor>,
                        m0: seq<byte>, m1: seq<byte>, m2: seq<byte>, i: int, k: int)
    requires Represents(h, root, best, mj, mn, m0) && IsBlock(h, i, k) && KeepsAll(h.runs, m0, m1) && |m2| == |m1|
    ensures var b, a := h.runs[i].blocks[k], h.runs[i].addr;
            && OffsetOk(b, m1) && (b.Ptr() <= a + PAGE ==> b.addr + MINOR <= a + PAGE)
            && (b.Ptr() <= a + PAGE && FirstPageKept(a, m1, m2) ==> OffsetOk(b, m2))
  {
    hide TotalInUse, TotalSize, Paged, MajorsAgree, AllMinorsAgree, MagicIsLive;
    var b := h.runs[i].blocks[k];
    assert RunOk(h.runs[i]) && OffsetOk(b, m0) && KeepsBlock(b, m0, m1);
    BlockInside(h.runs[i], k);
    PointerFits(b);
  }

  lemma DropRoot(h: HeapState, root: int, best: int, mj: map<int, Major>, mn: map<int, Minor>, m: seq<byte>, i: int)
    requires Represents(h, root, best, mj, mn, m) && 0 <= i < |h.runs|
    ensures RunAddr(DropRun(h, i).runs, 0) == (if i == 0 then RunAddr(h.runs, 1) else root)
  {
  }

  lemma KeepsSize(runs: seq<Run>, m0: seq<byte>, m1: seq<byte>)
    requires KeepsAll(runs, m0, m1)
    ensures |m0| == |m1|
  {
  }

  lemma AllIsReadable(runs: seq<Run>, mapped: set<int>, m0: seq<byte>, m1: seq<byte>)
    requires KeepsAll(runs, m0, m1)
    ensures KeepsReadable(runs, mapped, m0, m1)
  {
  }

  lemma RebetRuns(h: HeapState, i: int)
    requires -1 <= h.bet < |h.runs| && 0 <= i < |h.runs|
    ensures HeapSpec.Rebet(h, i).runs == h.runs && HeapSpec.Rebet(h, i).mapped == h.mapped
  {
  }

  lemma WithinSize(m0: seq<byte>, m1: seq<byte>, lo: int, hi: int)
    requires OnlyWithin(m0, m1, lo, hi)
    ensures |m0| == |m1|
  {
  }

  lemma UnmappedIs(r: Run)
    ensures UnmappedPages(r) == Pages(r.addr + PAGE, r.pages)
  {
  }

  lemma WarningsRep(h: HeapState, root: int, best: int, mj: map<int, Major>, mn: map<int, Minor>, m: seq<byte>)
    requires Represents(h, root, best, mj, mn, m)
    ensures forall w, e, o :: Represents(h.(warnings := w, errors := e, overruns := o), root, best, mj, mn, m)
  {
  }

  lemma DropFacts(h: HeapState, root: int, best: int, mj: map<int, Major>, mn: map<int, Minor>, m: seq<byte>, i: int)
    requires Represents(h, root, best, mj, mn, m) && 0 <= i < |h.runs|
    ensures mj.Keys >= {h.runs[i].addr} && mj[h.runs[i].addr] == MajorAt(h.runs, i) && 0 < h.runs[i].addr
    ensures 0 < i ==> MajorHeader(h, mj, m, i - 1) && h.runs[i - 1].addr != h.runs[i].addr
    ensures i + 1 < |h.runs| ==> MajorHeader(h, mj, m, i + 1) && h.runs[i + 1].addr != h.runs[i].addr
    ensures root == h.runs[i].addr <==> i == 0
    ensures best == h.runs[i].addr <==> h.bet == i
    ensures 0 <= h.runs[i].pages && KeepsAll(h.runs, m, m)
  {
    hide MagicIsLive, OffsetsOk, TotalInUse, TotalSize, AllMinorsAgree, Apart, RunsOk, MajorsAgree, RunOk;
    IsMajorHeader(h, root, best, mj, mn, m, i);
    RunIsOk(h.runs, i, h.start, h.end);
    if i > 0 {
      IsMajorHeader(h, root, best, mj, mn, m, i - 1);
      RunsDistinct(h.runs, i - 1, i, h.start, h.end);
      RunsDistinct(h.runs, 0, i, h.start, h.end);
    }
    if i + 1 < |h.runs| {
      IsMajorHeader(h, root, best, mj, mn, m, i + 1);
      RunsDistinct(h.runs, i + 1, i, h.start, h.end);
    }
    if h.bet != -1 && h.bet != i { RunsDistinct(h.runs, h.bet, i, h.start, h.end); }
  }

  ghost predicate MajorHeader(h: HeapState, mj: map<int, Major>, m: seq<byte>, i: int)
    requires 0 <= i < |h.runs|
  {
    var a := h.runs[i].addr;
    0 < a && a + MAJOR <= |m| && Apart(h.runs, a, a + MAJOR) && a in mj
  }

  lemma SmallBlockOk(a: int)
    ensures BlockOk(Block(a, PAD, 0))
  {
  }

  lemma OnlyMinor(mn: map<int, Minor>, r: Run)
    requires |r.blocks| == 1 && r.blocks[0].addr in mn
    requires mn[r.blocks[0].addr] == Minor(0, 0, r.addr, MAGIC, r.blocks[0].size, r.blocks[0].req)
    ensures MinorsAgree(mn, r)
  {
  }

  lemma TakeCosts(h: HeapState, req: int, avail: nat)
    ensures var n := FreshPages(req + PAD);
            && (Take(h, n, avail).1 <==> !PagesRefused(h, req, avail))
            && if Take(h, n, avail).1 then n <= avail && Take(h, n, avail).0.runs == h.runs + [Run(h.end, n, [])]
               else Take(h, n, avail).0.runs == h.runs
  {
    hide FreshPages;
  }

  lemma KeepsSame(runs: seq<Run>, m: seq<byte>)
    ensures KeepsAll(runs, m, m)
  {
  }

  lemma NothingToKeep(m0: seq<byte>, m1: seq<byte>)
    requires |m0| == |m1|
    ensures KeepsAll([], m0, m1)
  {
  }

  lemma ValidFacts(h: HeapState, root: int, best: int, mj: map<int, Major>, mn: map<int, Minor>, m: seq<byte>)
    requires Represents(h, root, best, mj, mn, m) && NoneEmpty(h.runs)
    ensures Ok(h) && Sound(h) && KeepsAll(h.runs, m, m)
    ensures root == 0 <==> h.runs == []
    ensures -1 <= h.bet < |h.runs|
  {
  }

  lemma EmptyFirst(h: HeapState, root: int, best: int, mj: map<int, Major>, mn: map<int, Minor>, m: seq<byte>, i: int)
    requires Represents(h, root, best, mj, mn, m) && 0 <= i < |h.runs|
    ensures BlockAddr(h.runs[i], 0) == 0 <==> h.runs[i].blocks == []
  {
    if h.runs[i].blocks != [] { ReadMinor(h, root, best, mj, mn, m, i, 0); }
  }

  /** A gap that fits, with none before it that does, is where the block goes. */
  lemma PlacedAtFirst(h: HeapState, i: int, k: int, req: int)
    requires 0 <= i < |h.runs| && 0 <= k <= |h.runs[i].blocks| && 0 <= req
    requires RunOk(h.runs[i]) && 0 < h.runs[i].addr
    requires forall l | 0 <= l < k :: h.runs[i].Gap(l) < req + PAD + MINOR
    ensures req + PAD + MINOR <= h.runs[i].Gap(k) ==>
              && FirstGap(h.runs[i], 0, req + PAD + MINOR) == k && HasGap(h.runs[i], req + PAD + MINOR)
              && CanPlace(h, i, k, req) && Place(h, i, k, req).1 > 0
  {
    if req + PAD + MINOR <= h.runs[i].Gap(k) {
      FirstGapIs(h.runs[i], k, 0, req + PAD + MINOR);
      PointerNotNull(h.runs[i], k, req);
    }
  }

  lemma {:induction false} PagesGrow(a: int, m: int, n: int)
    requires 0 <= m <= n
    ensures Pages(a, m) <= Pages(a, n)
  {
    if m < n { PagesGrow(a, m, n - 1); }
  }

  lemma NoPages(a: int)
    ensures Pages(a, 0) == {}
  {
  }

  /** The last of the first m pages, of n. */
  lemma LastPage(a: int, m: int, n: int)
    requires 0 < m <= n
    ensures Pages(a, m) == Pages(a, m - 1) + {a + (m - 1) * PAGE} && a + (m - 1) * PAGE !in Pages(a, m - 1)
    ensures Pages(a, m) <= Pages(a, n)
  {
    PagesMembers(a, m - 1, a + (m - 1) * PAGE);
    PagesGrow(a, m, n);
  }

  lemma UnlinkMarksDead(h: HeapState, root: int, best: int, mj: map<int, Major>, mn: map<int, Minor>, m: seq<byte>,
                        i: int, k: int)
    requires Represents(h, root, best, mj, mn, m) && IsBlock(h, i, k)
    ensures forall j | 0 <= j < |h.runs[i].blocks| :: h.runs[i].blocks[j].addr in mn
    ensures var a := h.runs[i].blocks[k].addr; var u := Unlink(mn, h.runs[i], k); a in u && u[a].magic == DEAD
  {
  }
}
