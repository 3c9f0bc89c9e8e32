/** What a call comes to for requests of every size, those beyond 32 bits among them. */
module HeapSizes {
  import opened HeapLayout
  import opened HeapSpec
  import opened HeapInvariants
  import opened HeapTheorems

  // ---------- allocation ----------

  /** The outcomes of an allocation. A request within 32 bits uses an existing gap whenever there is one, and then the
      first on the walk; else it is refused when the pages are; else it heads a new last run. A request beyond 32 bits
      never finds a gap; it is refused when the pages left of it are, and else placed blindly, in an ill-formed heap,
      unless the heap had no run and is refused a second. Only the best bet depends on how the walk went. */
  lemma AllocateOutcome(h: HeapState, req: int, avail: nat) returns (i: int, k: int, bet: int, base: HeapState)
    requires Ok(h) && Sized(req)
    ensures Request(req) ==>
              && -1 <= bet <= |h.runs| && 0 <= i <= |h.runs|
              && var t := AllocateSized(h, req, avail); var taken := Take(h, FreshPages(req + PAD), avail).0;
                 if HasRoom(h.runs, req + PAD + MINOR) then
                   CanPlace(h, i, k, req) && LandsIn(h, i, req + PAD + MINOR) && t == Place(h.(bet := bet), i, k, req)
                   && t.1 != 0
                 else if PagesRefused(h, req, avail) then t == (taken.(bet := bet), 0) && taken.runs == h.runs
                 else i == |h.runs| && k == 0 && taken.runs == h.runs + [Run(h.end, FreshPages(req + PAD), [])]
                      && t == Place(taken.(bet := bet), i, 0, req) && t.1 != 0
    ensures !Request(req) ==>
              && !HasRoom(h.runs, req + PAD + MINOR)
              && var (g, p) := AllocateSized(h, req, avail); var n := FreshPages(req + PAD);
                 if PagesRefused(h, req, avail) then p == 0 && g.runs == h.runs && Ok(g)
                 else if p == 0 then
                   h.runs == [] && g.runs == [Run(h.end, n, [])]
                   && n <= avail && PagesRefused(Take(h, n, avail).0, req, avail - n)
                 else Base(h, base, req) && (g, p) == PlaceBlind(base, |base.runs| - 1, req) && !Sound(g)
  {
    hide AllocateSized, FreshPages, HasRoom, LandsIn, Sound, Place, PlaceBlind, Take, PagesRefused;
    i, k, bet, base := 0, 0, -1, h;
    if Request(req) {
      i, k, bet := FittingOutcome(h, req, avail);
    } else {
      base := OversizeOutcome(h, req, avail);
    }
  }

  /** An allocation that returns a pointer adds exactly one live block, at that pointer and apart from all others, and
      the padded size to the bytes in use; one that returns NULL changes no live block. NULL comes exactly when
      nothing fits and the pages are refused, for the first run or for the second that a request beyond 32 bits asks
      of a heap without runs. Within 32 bits the block has the bytes asked for. */
  lemma AllocateAdds(h: HeapState, req: int, avail: nat) returns (b: Block)
    requires Ok(h) && Sized(req)
    ensures var (g, p) := AllocateSized(h, req, avail); var n := FreshPages(req + PAD);
            && (p == 0 <==> !HasRoom(h.runs, req + PAD + MINOR)
                            && (PagesRefused(h, req, avail)
                                || (!Request(req) && h.runs == [] && n <= avail
                                    && PagesRefused(Take(h, n, avail).0, req, avail - n))))
            && (forall c :: Live(g.runs, c) <==> Live(h.runs, c) || (p != 0 && c == b))
            && g.inuse == h.inuse + (if p == 0 then 0 else req + PAD)
            && (p != 0 ==> b.Ptr() == p && !Live(h.runs, b) && (Request(req) ==> b == NewBlock(b.addr, req)))
    ensures forall c | AllocateSized(h, req, avail).1 != 0 && Live(h.runs, c) ::
              c.End() <= b.addr || (Request(req) && b.End() <= c.addr)
  {
    hide AllocateSized, FreshPages, HasRoom, Take, PagesRefused, Live;
    if Request(req) {
      b := FittingAdds(h, req, avail);
    } else {
      b := OversizeAdds(h, req, avail);
    }
  }

  lemma LiveBelow(runs: seq<Run>, lo: int, hi: int, c: Block)
    requires RunsOk(runs, lo, hi) && Live(runs, c)
    ensures c.addr < c.End() <= hi
  {
    var j :| 0 <= j < |runs| && LiveIn(runs[j], c);
    var l :| 0 <= l < |runs[j].blocks| && runs[j].blocks[l] == c;
    assert RunOk(runs[j]);
    BlockInside(runs[j], l);
  }

  lemma BaseLive(h: HeapState, base: HeapState, req: int, c: Block)
    requires Base(h, base, req)
    ensures Live(base.runs, c) <==> Live(h.runs, c)
  {
    hide Live, Sound, FreshPages;
    var i := |base.runs| - 1;
    assert base.runs == base.runs[..i] + [base.runs[i]];
    AppendLive(base.runs[..i], base.runs[i], c);
    if h.runs == [] {
      assert [base.runs[0]] == [] + [base.runs[0]];
      AppendLive([], base.runs[0], c);
    }
  }

  lemma OversizeAdds(h: HeapState, req: int, avail: nat) returns (b: Block)
    requires Ok(h) && Sized(req) && !Request(req)
    ensures var (g, p) := AllocateSized(h, req, avail); var n := FreshPages(req + PAD);
            && !HasRoom(h.runs, req + PAD + MINOR)
            && (p == 0 <==> PagesRefused(h, req, avail)
                            || (h.runs == [] && n <= avail && PagesRefused(Take(h, n, avail).0, req, avail - n)))
            && (forall c :: Live(g.runs, c) <==> Live(h.runs, c) || (p != 0 && c == b))
            && g.inuse == h.inuse + (if p == 0 then 0 else req + PAD)
            && (p != 0 ==> b.Ptr() == p && !Live(h.runs, b))
    ensures forall c | AllocateSized(h, req, avail).1 != 0 && Live(h.runs, c) :: c.End() <= b.addr
  {
    hide AllocateSized, FreshPages, HasRoom, Take, PagesRefused, Live, Sound;
    OkRuns(h);
    var base := OversizeOutcome(h, req, avail);
    var (g, p) := AllocateSized(h, req, avail);
    b := Block(0, 0, 0);
    if p == 0 {
      if !PagesRefused(h, req, avail) {
        var first := Run(h.end, FreshPages(req + PAD), []);
        assert [first] == [] + [first];
        forall c ensures Live(g.runs, c) <==> Live(h.runs, c) { AppendLive([], first, c); }
      }
    } else {
      var i := |base.runs| - 1;
      b := g.runs[i].blocks[0];
      BlindLive(h, base, req);
    }
  }

  lemma BlindLive(h: HeapState, base: HeapState, req: int)
    requires Ok(h) && Base(h, base, req)
    ensures var i := |base.runs| - 1; var g := PlaceBlind(base, i, req).0; var b := g.runs[i].blocks[0];
            && (forall c :: Live(g.runs, c) <==> Live(h.runs, c) || c == b)
            && !Live(h.runs, b) && (forall c | Live(h.runs, c) :: c.End() <= b.addr)
  {
    hide Live, FreshPages, TotalInUse, TotalSize, Paged;
    var i := |base.runs| - 1;
    var g := PlaceBlind(base, i, req).0;
    var b := g.runs[i].blocks[0];
    assert base.runs[i].Insert(0, b).blocks == [b];
    forall c
      ensures Live(g.runs, c) <==> Live(h.runs, c) || c == b
      ensures Live(h.runs, c) ==> c.End() <= b.addr && c != b
    {
      InsertLive(base.runs, i, 0, b, c);
      BaseLive(h, base, req, c);
      if Live(h.runs, c) {
        LiveBelow(h.runs, h.start, h.end, c);
        if h.runs != [] { assert base.runs[i].addr == h.end; } else { NothingLive(h.runs, c); }
      }
    }
  }

  lemma NothingLive(runs: seq<Run>, c: Block)
    requires runs == []
    ensures !Live(runs, c)
  {
  }

  /** Freeing the block an allocation has just placed cuts off no run. It restores the runs, l_allocated and heapEnd
      exactly when the request fits 32 bits or the heap had a run before, and l_inuse exactly when the padded size
      fits 32 bits; only the best bet may differ besides. */
  lemma FreeUndoesAllocate(h: HeapState, req: int, avail: nat) returns (i: int, k: int)
    requires Ok(h) && Sized(req) && AllocateSized(h, req, avail).1 != 0
    ensures var (g, p) := AllocateSized(h, req, avail);
            && IsBlock(g, i, k) && g.runs[i].blocks[k].Ptr() == p && -1 <= g.bet < |g.runs| && !CutsNeighbour(g, i)
            && var f := FreeBlock(g, i, k);
               && (f.runs == h.runs <==> Request(req) || h.runs != [])
               && (f.taken == h.taken && f.end == h.end <==> Request(req) || h.runs != [])
               && (f.inuse == h.inuse <==> req + PAD < UINT32)
               && f.warnings == h.warnings && f.errors == h.errors && f.overruns == h.overruns
  {
    hide AllocateSized, FreshPages, Take, PagesRefused, Sound, FreeBlock, CutsNeighbour, PlaceBlind;
    if Request(req) {
      i, k := FittingUndone(h, req, avail);
    } else {
      var base := OversizeOutcome(h, req, avail);
      i, k := |base.runs| - 1, 0;
      BlindUndone(h, base, req);
    }
  }

  lemma BlindUndone(h: HeapState, base: HeapState, req: int)
    requires Ok(h) && Sized(req) && !Request(req) && Base(h, base, req)
    ensures var i := |base.runs| - 1; var (g, p) := PlaceBlind(base, i, req);
            && IsBlock(g, i, 0) && g.runs[i].blocks[0].Ptr() == p && -1 <= g.bet < |g.runs| && !CutsNeighbour(g, i)
            && var f := FreeBlock(g, i, 0);
               && (f.runs == h.runs <==> h.runs != [])
               && (f.taken == h.taken && f.end == h.end <==> h.runs != [])
               && (f.inuse == h.inuse <==> req + PAD < UINT32)
               && f.warnings == h.warnings && f.errors == h.errors && f.overruns == h.overruns
  {
    hide FreshPages, TotalInUse, TotalSize, Paged, UnmappedPages, ToInt32, RunsOk, RunOk, CutsNeighbour, InUse;
    var i := |base.runs| - 1;
    var g := PlaceBlind(base, i, req).0;
    var t := TakeOut(g, i, 0);
    assert t.runs[i].blocks == [];
    assert Without(t.runs, i) == base.runs[..i];
    NothingBehindLast(base, g, i);
    BaseCounts(h, base, req);
  }

  lemma NothingBehindLast(base: HeapState, g: HeapState, i: int)
    requires Sound(base) && i == |base.runs| - 1 && 0 <= i && |g.runs| == |base.runs|
    requires forall j | 0 <= j < |g.runs| ::
               g.runs[j].addr == base.runs[j].addr && g.runs[j].End() == base.runs[j].End()
    ensures !CutsNeighbour(g, i)
  {
    hide TotalInUse, TotalSize, Paged;
    assert RunOk(base.runs[i]);
  }

  /** The run and the bytes that the first of two new runs leaves in the counts. */
  lemma BaseCounts(h: HeapState, base: HeapState, req: int)
    requires Ok(h) && Base(h, base, req)
    ensures var r := base.runs[|base.runs| - 1];
            base.taken - r.Size() == h.taken && r.addr == h.end && r.End() == base.end <==> h.runs != []
    ensures base.runs[|base.runs| - 1].End() == base.end
  {
    hide TotalInUse, Paged, FreshPages;
    var i := |base.runs| - 1;
    if h.runs == [] {
      assert base.runs == [Run(h.end, FreshPages(req + PAD), [])] + [base.runs[i]];
      TotalsAppend([Run(h.end, FreshPages(req + PAD), [])], base.runs[i]);
      assert RunOk(base.runs[0]);
    }
  }

  // ---------- reallocation ----------

  /** A free of a block in another run does not mend it. */
  lemma FreeStaysSpoilt(g: HeapState, i: int, k: int, j: int)
    requires -1 <= g.bet < |g.runs| && IsBlock(g, i, k) && Spoilt(g, j) && i != j
    ensures !Sound(FreeBlock(g, i, k))
  {
    hide UnmappedPages, ToInt32, TotalSize, Paged, RunOk, Sound;
    var t := TakeOut(g, i, k);
    RemoveInUse(g.runs[i], k);
    TotalsUpdate(g.runs, i, g.runs[i].Remove(k));
    assert Spoilt(t, j);
    if t.runs[i].blocks == [] {
      TotalsDrop(t.runs, i);
      assert InUse([]) == 0;
      SpoiltIsUnsound(DropRun(t, i), if j < i then j else j - 1);
    } else {
      SpoiltIsUnsound(HeapSpec.Rebet(t, i), j);
    }
  }

  /** A growth too large for 32 bits that gets its pages leaves the heap ill formed, also after the old block is
      freed. */
  lemma OversizeGrowth(h: HeapState, i: int, k: int, size: int, avail: nat)
    requires Ok(h) && IsBlock(h, i, k) && Sized(size) && h.runs[i].blocks[k].req < size && Overfills(h, size, avail)
    ensures -1 <= h.bet < |h.runs|
    ensures var (g, q, fault) := Reallocate(h, i, k, size, avail); !Sound(g) && q != 0 && !fault
  {
    hide TotalInUse, TotalSize, Paged, RunsOk, FreshPages, AllocateSized, FreeBlock, PagesRefused, Sound, PlaceBlind;
    OkRuns(h);
    LivePointer(h, i, k);
    var base := OversizeOutcome(h, size, avail);
    var j := |base.runs| - 1;
    var g := PlaceBlind(base, j, size).0;
    BlindShape(base, j, size);
    BlindSpoils(base, j, size);
    assert base.runs[..j][i] == h.runs[i];
    FreeStaysSpoilt(g, i, k, j);
  }

  lemma BlindShape(base: HeapState, j: int, size: int)
    requires Sound(base) && 0 <= j < |base.runs|
    ensures var g := PlaceBlind(base, j, size).0;
            && -1 <= g.bet < |g.runs| == |base.runs|
            && forall l | 0 <= l < |g.runs| && l != j :: g.runs[l] == base.runs[l]
  {
  }

  /** A growth that is refused its pages, of whatever size: no run changes but by the free of the old block, and that
      comes only when there is nothing to copy. */
  lemma RefusedGrowth(h: HeapState, i: int, k: int, size: int, avail: nat)
    requires Ok(h) && IsBlock(h, i, k) && Sized(size) && !Request(size) && h.runs[i].blocks[k].req < size
    requires PagesRefused(h, size, avail)
    ensures -1 <= h.bet < |h.runs|
    ensures var (g, q, fault) := Reallocate(h, i, k, size, avail); var b := h.runs[i].blocks[k];
            && q == 0 && (fault <==> 0 < b.req) && (Ok(g) <==> !GrowthCuts(h, i, k, size, avail))
            && if fault then g.runs == h.runs else Loses(h.runs, g.runs, b)
  {
    hide TotalInUse, TotalSize, Paged, RunsOk, FreshPages, AllocateSized, FreeBlock, PagesRefused, Loses, Followed;
    hide Sound;
    hide LandsIn, HasRoom;
    var base := OversizeOutcome(h, size, avail);
    LivePointer(h, i, k);
    OkRuns(h);
    var g := AllocateSized(h, size, avail).0;
    OkRuns(g);
    FreeLoses(g, i, k);
    FreeBlockOkIff(g, i, k);
    GrowthCutsIff(h, i, k, size, avail);
  }

  /** Growing, of whatever size: it goes through a null pointer exactly when the inner allocation is refused and there
      is something to copy. Else, refused, it frees the old block, and within 32 bits a fresh block, apart from every
      old one, takes the old one's place. The heap stays well formed exactly when the old block's run is not given up
      in front of another and the size fits 32 bits or is refused: all told from the heap before. */
  lemma GrowReplaces(h: HeapState, i: int, k: int, size: int, avail: nat) returns (nb: Block)
    requires Ok(h) && IsBlock(h, i, k) && h.runs[i].blocks[k].req < size && Sized(size) && size != 0
    ensures var (g, q, fault) := Reallocate(h, i, k, size, avail); var b := h.runs[i].blocks[k];
            var refused := !HasRoom(h.runs, size + PAD + MINOR) && PagesRefused(h, size, avail);
            && (Ok(g) <==> !ReallocateBreaks(h, i, k, size, avail))
            && (fault <==> 0 < b.req && refused)
            && (fault ==> g.runs == h.runs)
            && (refused && b.req == 0 ==> q == 0 && Loses(h.runs, g.runs, b))
            && (!refused ==> q != 0)
            && (!refused && Request(size) ==>
                  && nb.Ptr() == q && nb.req == size && !Live(h.runs, nb) && Replaces(h.runs, g.runs, b, nb))
  {
    hide HasRoom, PagesRefused, Sound, NoneEmpty, GrowthCuts, Live, AllocateSized, FreeBlock, Reallocate, Loses;
    hide Replaces;
    nb := NewBlock(0, size);
    LivePointer(h, i, k);
    if Request(size) {
      nb := FittingGrowth(h, i, k, size, avail);
    } else {
      var base := OversizeOutcome(h, size, avail);
      if PagesRefused(h, size, avail) {
        RefusedGrowth(h, i, k, size, avail);
      } else {
        OversizeGrowth(h, i, k, size, avail);
      }
    }
  }
}
