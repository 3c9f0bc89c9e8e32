/** Every heap operation keeps the heap well formed. */
module HeapInvariants {
  import opened HeapLayout
  import opened HeapSpec

  // ---------- sums over runs ----------

  lemma {:induction false} TotalsUpdate(runs: seq<Run>, i: int, r: Run)
    requires 0 <= i < |runs|
    ensures TotalInUse(runs[i := r]) == TotalInUse(runs) - InUse(runs[i].blocks) + InUse(r.blocks)
    ensures TotalSize(runs[i := r]) == TotalSize(runs) - runs[i].Size() + r.Size()
  {
    if i == 0 {
      assert runs[0 := r][1..] == runs[1..];
    } else {
      TotalsUpdate(runs[1..], i - 1, r);
      assert runs[i := r][1..] == runs[1..][i - 1 := r];
    }
  }

  lemma {:induction false} TotalsAppend(runs: seq<Run>, r: Run)
    ensures TotalInUse(runs + [r]) == TotalInUse(runs) + InUse(r.blocks)
    ensures TotalSize(runs + [r]) == TotalSize(runs) + r.Size()
  {
    if runs == [] {
      assert runs + [r] == [r];
    } else {
      TotalsAppend(runs[1..], r);
      assert (runs + [r])[1..] == runs[1..] + [r];
    }
  }

  lemma {:induction false} TotalsDrop(runs: seq<Run>, i: int)
    requires 0 <= i < |runs|
    ensures TotalInUse(Without(runs, i)) == TotalInUse(runs) - InUse(runs[i].blocks)
    ensures TotalSize(Without(runs, i)) == TotalSize(runs) - runs[i].Size()
  {
    if i == 0 {
      assert Without(runs, 0) == runs[1..];
    } else {
      TotalsDrop(runs[1..], i - 1);
      assert Without(runs, i)[1..] == Without(runs[1..], i - 1);
    }
  }

  /** Disjoint runs between lo and hi cannot hold more bytes than lie there. */
  lemma {:induction false} TotalSizeFits(runs: seq<Run>, lo: int, hi: int)
    requires RunsOk(runs, lo, hi) && lo <= hi
    ensures TotalSize(runs) <= hi - lo
  {
    if runs != [] {
      var rest := runs[1..];
      assert RunOk(runs[0]);
      assert forall i | 0 <= i < |rest| :: rest[i] == runs[i + 1];
      TotalSizeFits(rest, runs[0].End(), hi);
    }
  }

  // ---------- pages ----------

  lemma {:induction false} PagesMembers(a: int, n: int, x: int)
    ensures x in Pages(a, n) <==> a <= x < a + n * PAGE && (x - a) % PAGE == 0
  {
    if n > 0 {
      PagesMembers(a, n - 1, x);
      if a + (n - 1) * PAGE <= x < a + n * PAGE && (x - a) % PAGE == 0 {
        assert (x - a - (n - 1) * PAGE) % PAGE == 0;
      }
    }
  }

  /** A new run has room for the request it was taken for exactly when the size sum does not wrap. */
  lemma FreshFits(size: int)
    requires 0 <= size < SIZE_T
    ensures size + MAJOR + MINOR <= FreshPages(size) * PAGE <==> size + MAJOR + MINOR < UINT32
  {
  }

  // ---------- the parts keep a heap sound ----------

  lemma RunsReplace(runs: seq<Run>, i: int, r: Run, lo: int, hi: int)
    requires RunsOk(runs, lo, hi) && 0 <= i < |runs|
    requires RunOk(r) && r.addr == runs[i].addr && r.pages == runs[i].pages
    ensures RunsOk(runs[i := r], lo, hi)
  {
  }

  lemma RunsDrop(runs: seq<Run>, i: int, lo: int, hi: int)
    requires RunsOk(runs, lo, hi) && 0 <= i < |runs|
    ensures RunsOk(Without(runs, i), lo, hi)
    ensures runs[i].End() == hi ==> RunsOk(Without(runs, i), lo, runs[i].addr)
  {
    var q := Without(runs, i);
    assert forall j | 0 <= j < |q| :: q[j] == if j < i then runs[j] else runs[j + 1];
    if i + 1 < |runs| {
      assert RunOk(runs[i + 1]);
    }
  }

  lemma PutSound(h: HeapState, i: int, k: int, req: int)
    requires Sound(h) && 0 <= req && 0 <= i < |h.runs| && 0 <= k <= |h.runs[i].blocks|
    requires req + PAD + MINOR <= h.runs[i].Gap(k)
    ensures Sound(Put(h, i, k, req))
    ensures NoneEmpty(h.runs[..i]) && NoneEmpty(h.runs[i + 1..]) ==> Ok(Put(h, i, k, req))
  {
    hide TotalInUse, TotalSize, InUse, RunsOk, RunOk, Paged, NoneEmpty;
    var r, b := h.runs[i], NewBlock(h.runs[i].GapStart(k), req);
    assert RunOk(r) by { RunOfSound(h, i); }
    InsertOk(r, k, b);
    InsertInUse(r, k, b);
    TotalsUpdate(h.runs, i, r.Insert(k, b));
    RunsReplace(h.runs, i, r.Insert(k, b), h.start, h.end);
    PagedReplace(h.runs, i, r.Insert(k, b), h.start, h.end, h.mapped);
    NoneEmptyReplace(h.runs, i, r.Insert(k, b));
  }

  lemma RunOfSound(h: HeapState, i: int)
    requires RunsOk(h.runs, h.start, h.end) && 0 <= i < |h.runs|
    ensures RunOk(h.runs[i])
  {
  }

  lemma PagedReplace(runs: seq<Run>, i: int, r: Run, start: int, end: int, mapped: set<int>)
    requires Paged(runs, start, end, mapped) && 0 <= i < |runs| && r.addr == runs[i].addr && r.pages == runs[i].pages
    ensures Paged(runs[i := r], start, end, mapped)
  {
  }

  lemma NoneEmptyReplace(runs: seq<Run>, i: int, r: Run)
    requires 0 <= i < |runs| && r.blocks != []
    ensures NoneEmpty(runs[..i]) && NoneEmpty(runs[i + 1..]) ==> NoneEmpty(runs[i := r])
  {
    assert forall j | i < j < |runs| :: runs[j] == runs[i + 1..][j - i - 1];
    assert forall j | 0 <= j < i :: runs[j] == runs[..i][j];
  }

  lemma EmptyRunOk(a: int, n: int)
    requires MIN_PAGES <= n
    ensures RunOk(Run(a, n, [])) && InUse(Run(a, n, []).blocks) == 0
  {
  }

  lemma TakePaged(h: HeapState, n: int, avail: nat)
    requires Paged(h.runs, h.start, h.end, h.mapped) && 0 <= n
    ensures var g := Take(h, n, avail).0; Paged(g.runs, g.start, g.end, g.mapped)
  {
    hide Pages;
    var g := Take(h, n, avail).0;
    forall i | 0 <= i < |g.runs|
      ensures g.runs[i].addr % PAGE == 0 && Pages(g.runs[i].addr, g.runs[i].pages) <= g.mapped
    {
      assert i == |h.runs| || g.runs[i] == h.runs[i];
    }
  }

  lemma TakeSound(h: HeapState, n: int, avail: nat)
    requires Sound(h) && MIN_PAGES <= n
    ensures Sound(Take(h, n, avail).0)
    ensures Take(h, n, avail).0.runs == h.runs || Take(h, n, avail).1
  {
    hide Pages, Paged, TotalInUse, TotalSize, InUse;
    EmptyRunOk(h.end, n);
    TotalsAppend(h.runs, Run(h.end, n, []));
    TakePaged(h, n, avail);
  }

  lemma PointerNotNull(r: Run, k: int, req: int)
    requires RunOk(r) && 0 <= k <= |r.blocks| && 0 <= req && 0 < r.addr
    ensures 0 < NewBlock(r.GapStart(k), req).Ptr()
  {
    if k > 0 { BlockInside(r, k - 1); }
    PointerFits(NewBlock(r.GapStart(k), req));
  }

  // ---------- the operations ----------

  /** The first block goes into the new, empty last run. */
  lemma PutInNewRun(h: HeapState, g: HeapState, n: int, req: int)
    requires Ok(h) && Sound(g) && Request(req)
    requires g.runs == h.runs + [Run(h.end, n, [])] && n == FreshPages(req + PAD)
    ensures Ok(Put(g, |h.runs|, 0, req))
  {
    FreshFits(req + PAD);
    assert g.runs[..|h.runs|] == h.runs && g.runs[|h.runs| + 1..] == [];
    PutSound(g, |h.runs|, 0, req);
  }

  /** For a request that fits 32 bits, the first block of an empty run goes where any block of it would. */
  lemma BlindIsPlace(h: HeapState, i: int, req: int)
    requires 0 <= i < |h.runs| && h.runs[i].blocks == [] && Request(req)
    ensures PlaceBlind(h, i, req) == Place(h, i, 0, req)
  {
    var b := NewBlock(h.runs[i].GapStart(0), req);
    assert h.runs[i].Insert(0, b).blocks == [b];
  }

  lemma GrowOk(h: HeapState, req: int, avail: nat)
    requires Ok(h) && Request(req) && h.runs != []
    ensures Ok(Grow(h, req, avail).0)
  {
    hide Paged, TotalInUse, TotalSize, InUse, Place;
    var n := FreshPages(req + PAD);
    FreshFits(req + PAD);
    TakeSound(h, n, avail);
    var (g, ok) := Take(h, n, avail);
    if ok {
      BlindIsPlace(g, |h.runs|, req);
      PlaceInNewRun(h, g, n, req);
      PlaceInNewRun(h, g.(bet := Better(g.runs, g.bet, |h.runs|)), n, req);
    }
  }

  lemma PlaceInNewRun(h: HeapState, g: HeapState, n: int, req: int)
    requires Ok(h) && Sound(g) && Request(req)
    requires g.runs == h.runs + [Run(h.end, n, [])] && n == FreshPages(req + PAD)
    ensures Ok(Place(g, |h.runs|, 0, req).0)
  {
    PutInNewRun(h, g, n, req);
  }

  /** The walk over a heap whose one run is new ends there. */
  lemma FirstRunWalk(g: HeapState, req: int, avail: nat)
    requires |g.runs| == 1 && g.runs[0].blocks == [] && g.bet == -1
    requires 0 <= req && req + PAD + MINOR <= g.runs[0].Free()
    ensures WalkRuns(g, req, avail) == Place(g.(bet := 0), 0, 0, req)
  {
  }

  lemma FirstRun(h: HeapState, req: int, avail: nat)
    requires Ok(h) && h.runs == [] && Request(req) && Take(h, FreshPages(req + PAD), avail).1
    ensures var n := FreshPages(req + PAD); var g := Take(h, n, avail).0;
            && Sound(g) && g.runs == [Run(h.end, n, [])] && g.bet == -1 && n <= avail
            && AllocateSized(h, req, avail) == Place(g.(bet := 0), 0, 0, req)
  {
    hide Paged, TotalInUse, TotalSize, Place, WalkRuns, FreshPages, RunsOk;
    var n := FreshPages(req + PAD);
    FreshFits(req + PAD);
    TakeSound(h, n, avail);
    assert h.runs + [Run(h.end, n, [])] == [Run(h.end, n, [])];
    FirstRunWalk(Take(h, n, avail).0, req, avail - n);
  }

  lemma AllocateSizedOk(h: HeapState, req: int, avail: nat)
    requires Ok(h) && Request(req)
    ensures Ok(AllocateSized(h, req, avail).0) && NoneEmpty(AllocateSized(h, req, avail).0.runs)
  {
    hide Grow, RunsOk, TotalInUse, TotalSize, Search, FirstGap, Paged, Take, FreshPages;
    var need := req + PAD + MINOR;
    if h.runs == [] {
      var n := FreshPages(req + PAD);
      TakeSound(h, n, avail);
      var (g, ok) := Take(h, n, avail);
      if ok {
        FirstRun(h, req, avail);
        PlaceInNewRun(h, g.(bet := 0), n, req);
      }
    } else {
      var s := StartsAtBet(h, need);
      match Search(h.runs, if s then h.bet else 0, s, h.bet, need)
      case Found(i, bet) =>
        PutSound(h.(bet := bet), i, FirstGap(h.runs[i], 0, need), req);
      case Missing(bet) =>
        GrowOk(h.(bet := bet), req, avail);
    }
  }

  lemma TakeOutSound(h: HeapState, i: int, k: int)
    requires Sound(h) && 0 <= i < |h.runs| && 0 <= k < |h.runs[i].blocks|
    ensures Sound(TakeOut(h, i, k))
  {
    var r := h.runs[i].Remove(k);
    RemoveOk(h.runs[i], k);
    RemoveInUse(h.runs[i], k);
    TotalsUpdate(h.runs, i, r);
    RunsReplace(h.runs, i, r, h.start, h.end);
  }

  /** The unmapping of run i reaches run j exactly when run j begins where run i ends. */
  lemma UnmapMeets(h: HeapState, i: int, j: int)
    requires RunsOk(h.runs, h.start, h.end) && Paged(h.runs, h.start, h.end, h.mapped)
    requires 0 <= i < |h.runs| && 0 <= j < |h.runs| && i != j
    ensures Pages(h.runs[j].addr, h.runs[j].pages) <= h.mapped - UnmappedPages(h.runs[i])
            <==> h.runs[j].addr != h.runs[i].End()
    ensures h.runs[j].addr == h.runs[i].End() ==> h.runs[j].addr in UnmappedPages(h.runs[i])
  {
    var r, q := h.runs[i], h.runs[j];
    assert RunOk(r) && RunOk(q);
    PagesMembers(q.addr, q.pages, q.addr);
    PagesMembers(r.addr + PAGE, r.pages, q.addr);
    if q.addr != r.End() {
      forall x | x in Pages(q.addr, q.pages)
        ensures x !in UnmappedPages(r)
      {
        PagesMembers(q.addr, q.pages, x);
        PagesMembers(r.addr + PAGE, r.pages, x);
      }
    } else {
      assert (q.addr - (r.addr + PAGE)) % PAGE == 0;
    }
  }

  lemma DropPagedIff(h: HeapState, i: int)
    requires RunsOk(h.runs, h.start, h.end) && Paged(h.runs, h.start, h.end, h.mapped) && 0 <= i < |h.runs|
    ensures var g := DropRun(h, i); Paged(g.runs, g.start, g.end, g.mapped) <==> !Followed(h, i)
  {
    hide Pages, UnmappedPages;
    var g := DropRun(h, i);
    forall j | 0 <= j < |h.runs| && j != i
      ensures Pages(h.runs[j].addr, h.runs[j].pages) <= g.mapped <==> h.runs[j].addr != h.runs[i].End()
    {
      UnmapMeets(h, i, j);
    }
    assert forall j | 0 <= j < |g.runs| :: g.runs[j] == h.runs[if j < i then j else j + 1];
    if j :| 0 <= j < |h.runs| && h.runs[j].addr == h.runs[i].End() {
      assert RunOk(h.runs[i]) && j != i;
      assert g.runs[if j < i then j else j - 1] == h.runs[j];
    }
  }

  /** Giving up an empty run keeps the heap sound exactly when no other run begins right behind it. */
  lemma DropRunSoundIff(h: HeapState, i: int)
    requires Sound(h) && 0 <= i < |h.runs| && h.runs[i].blocks == []
    ensures Sound(DropRun(h, i)) <==> !Followed(h, i)
    ensures NoneEmpty(h.runs[..i]) && NoneEmpty(h.runs[i + 1..]) ==> NoneEmpty(DropRun(h, i).runs)
  {
    hide UnmappedPages, TotalInUse, TotalSize, Paged, Followed;
    assert RunOk(h.runs[i]) && InUse([]) == 0;
    TotalsDrop(h.runs, i);
    RunsDrop(h.runs, i, h.start, h.end);
    DropPagedIff(h, i);
    var g := DropRun(h, i);
    assert forall j | 0 <= j < |g.runs| :: g.runs[j] == if j < i then h.runs[..i][j] else h.runs[i + 1..][j - i];
  }

  /** liballoc_free unmaps (p, p + n pages] where [p, p + n pages) is meant. A free leaves the heap well formed, all
      its runs' pages mapped, exactly when it does not give up a run with another run right behind it. */
  lemma FreeBlockOkIff(h: HeapState, i: int, k: int)
    requires Ok(h) && IsBlock(h, i, k)
    ensures Ok(FreeBlock(h, i, k)) <==> !CutsNeighbour(h, i)
  {
    hide InUse, UnmappedPages, TotalInUse, TotalSize, ToInt32, RunsOk, Paged, Followed;
    TakeOutSound(h, i, k);
    var g := TakeOut(h, i, k);
    assert g.runs[..i] == h.runs[..i] && g.runs[i + 1..] == h.runs[i + 1..];
    assert |g.runs[i].blocks| == |h.runs[i].blocks| - 1;
    if g.runs[i].blocks == [] {
      DropRunSoundIff(g, i);
      FollowedAfter(h, i, k);
    }
  }

  lemma FollowedAfter(h: HeapState, i: int, k: int)
    requires IsBlock(h, i, k)
    ensures Followed(TakeOut(h, i, k), i) <==> Followed(h, i)
  {
    var g := TakeOut(h, i, k);
    assert forall j | 0 <= j < |h.runs| :: g.runs[j].addr == h.runs[j].addr && g.runs[j].End() == h.runs[j].End();
  }

  lemma ShrunkOk(r: Run, k: int, req: int)
    requires RunOk(r) && 0 <= k < |r.blocks| && 0 <= req <= r.blocks[k].req
    ensures RunOk(Shrunk(r, k, req)) && InUse(Shrunk(r, k, req).blocks) == InUse(r.blocks)
  {
    var b := r.blocks[k].(req := req);
    assert BlockOk(r.blocks[k]);
    assert r.Remove(k).Insert(k, b).blocks == Shrunk(r, k, req).blocks;
    RemoveInUse(r, k);
    InsertInUse(r.Remove(k), k, b);
    RemoveOk(r, k);
    assert r.GapStart(k) <= r.GapEnd(k) && r.GapStart(k + 1) <= r.GapEnd(k + 1);
    InsertBack(r, k, b);
  }

  /** Putting a block of the same place and size back keeps every gap. */
  lemma InsertBack(r: Run, k: int, b: Block)
    requires RunOk(r) && 0 <= k < |r.blocks| && BlockOk(b)
    requires b.addr == r.blocks[k].addr && b.size == r.blocks[k].size
    ensures RunOk(r.Remove(k).Insert(k, b))
  {
    var q := r.Remove(k).Insert(k, b);
    forall j | 0 <= j <= |q.blocks|
      ensures q.GapStart(j) <= q.GapEnd(j)
    {
      assert r.GapStart(j) <= r.GapEnd(j);
    }
  }

  lemma SetReqOk(h: HeapState, i: int, k: int, req: int)
    requires Ok(h) && 0 <= i < |h.runs| && 0 <= k < |h.runs[i].blocks|
    requires 0 <= req <= h.runs[i].blocks[k].req
    ensures Ok(SetReq(h, i, k, req))
  {
    var q := Shrunk(h.runs[i], k, req);
    ShrunkOk(h.runs[i], k, req);
    TotalsUpdate(h.runs, i, q);
    RunsReplace(h.runs, i, q, h.start, h.end);
  }
}
