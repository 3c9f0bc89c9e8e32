/** Whole runs of the heap: every sequence of calls, from a heap that has just been set up. */
module HeapRuns {
  import opened HeapLayout
  import opened HeapSpec
  import opened HeapInvariants
  import opened HeapTheorems
  import opened HeapSizes

  /** A call. Live blocks are named by run and position; avail is what the frame allocator has left at the call. A stale
      call frees or reallocates a pointer whose header, still to be read, has another word than the magic number. */
  datatype Call =
    | CallAllocate(req: int, avail: nat)
    | CallFreeNull
    | CallFree(i: int, k: int)
    | CallStale(magic: int)
    | CallReallocate(i: int, k: int, size: int, avail: nat)

  /** What the source asks of its callers: a size that fits, and pointers that lead to a header. */
  ghost predicate Enabled(h: HeapState, c: Call) {
    match c
    case CallAllocate(req, avail) => Sized(req) || req + PAD == SIZE_T
    case CallFreeNull => true
    case CallFree(i, k) => IsBlock(h, i, k)
    case CallStale(magic) => magic != MAGIC
    case CallReallocate(i, k, size, avail) => IsBlock(h, i, k) && Sized(size)
  }

  function Perform(h: HeapState, c: Call): (t: (HeapState, int))
    requires -1 <= h.bet < |h.runs| && Enabled(h, c)
  {
    match c
    case CallAllocate(req, avail) => Allocate(h, req, avail)
    case CallFreeNull => (h.(warnings := h.warnings + 1), 0)
    case CallFree(i, k) => (FreeBlock(h, i, k), 0)
    case CallStale(magic) => (Rejected(h, magic), 0)
    case CallReallocate(i, k, size, avail) => var (g, q, fault) := Reallocate(h, i, k, size, avail); (g, q)
  }

  /** The pointers the callers hold after a call, given those they held before. */
  ghost function Held(h: HeapState, c: Call, held: set<int>): (xs: set<int>)
    requires -1 <= h.bet < |h.runs| && Enabled(h, c)
  {
    var p := Perform(h, c).1;
    match c
    case CallAllocate(_, _) => if p == 0 then held else held + {p}
    case CallFreeNull => held
    case CallStale(_) => held
    case CallFree(i, k) => held - {h.runs[i].blocks[k].Ptr()}
    case CallReallocate(i, k, size, avail) =>
      if Reallocate(h, i, k, size, avail).2 then held
      else held - {h.runs[i].blocks[k].Ptr()} + (if p == 0 then {} else {p})
  }

  ghost function Fresh(start: int, max: int): (g: HeapState) {
    HeapState([], -1, start, start, max, 0, 0, 0, 0, 0, {})
  }

  /** hs and held are the heaps and the held pointers along the calls cs. */
  ghost predicate Behaviour(hs: seq<HeapState>, held: seq<set<int>>, cs: seq<Call>) {
    && |hs| == |held| == |cs| + 1
    && 0 < hs[0].start <= hs[0].max < UINT32 && hs[0].start % PAGE == 0
    && hs[0] == Fresh(hs[0].start, hs[0].max) && held[0] == {}
    && forall t | 0 <= t < |cs| :: Transition(hs[t], held[t], cs[t], hs[t + 1], held[t + 1])
  }

  ghost predicate Transition(h: HeapState, held: set<int>, c: Call, h': HeapState, held': set<int>) {
    -1 <= h.bet < |h.runs| && Enabled(h, c) && h' == Perform(h, c).0 && held' == Held(h, c, held)
  }

  /** The held pointers are exactly the pointers of the live blocks. */
  ghost predicate HoldsLive(h: HeapState, held: set<int>) {
    forall p :: p in held <==> exists b :: Live(h.runs, b) && b.Ptr() == p
  }

  lemma PtrIdentifies(runs: seq<Run>, lo: int, hi: int, b: Block, c: Block)
    requires RunsOk(runs, lo, hi) && Live(runs, b) && Live(runs, c) && b.Ptr() == c.Ptr()
    ensures b == c
  {
    LiveOk(runs, lo, hi, b);
    LiveOk(runs, lo, hi, c);
    PointerFits(b);
    PointerFits(c);
    if b != c { LiveApart(runs, lo, hi, b, c); }
  }

  lemma AddsHeld(h: HeapState, g: HeapState, held: set<int>, p: int, req: int, b: Block)
    requires HoldsLive(h, held) && Adds(h.runs, g.runs, p, req, b)
    ensures HoldsLive(g, held + {p})
  {
  }

  lemma LosesHeld(h: HeapState, g: HeapState, held: set<int>, b: Block)
    requires RunsOk(h.runs, h.start, h.end) && Live(h.runs, b)
    requires HoldsLive(h, held) && Loses(h.runs, g.runs, b)
    ensures HoldsLive(g, held - {b.Ptr()})
  {
    hide Live, RunsOk;
    forall x
      ensures x in held - {b.Ptr()} <==> exists c :: Live(g.runs, c) && c.Ptr() == x
    {
      if x in held && x != b.Ptr() {
        var c :| Live(h.runs, c) && c.Ptr() == x;
        assert Live(g.runs, c);
      }
      if c :| Live(g.runs, c) && c.Ptr() == x {
        assert Live(h.runs, c) && c != b;
        if c.Ptr() == b.Ptr() { PtrIdentifies(h.runs, h.start, h.end, b, c); }
      }
    }
  }

  lemma ReplacesHeld(h: HeapState, g: HeapState, held: set<int>, b: Block, nb: Block)
    requires RunsOk(h.runs, h.start, h.end) && Live(h.runs, b)
    requires HoldsLive(h, held) && Replaces(h.runs, g.runs, b, nb)
    ensures HoldsLive(g, held - {b.Ptr()} + {nb.Ptr()})
  {
    hide Live, RunsOk;
    forall x
      ensures x in held - {b.Ptr()} + {nb.Ptr()} <==> exists c :: Live(g.runs, c) && c.Ptr() == x
    {
      if x == nb.Ptr() { assert Live(g.runs, nb); }
      if x in held && x != b.Ptr() {
        var c :| Live(h.runs, c) && c.Ptr() == x;
        assert Live(g.runs, c);
      }
      if c :| Live(g.runs, c) && c.Ptr() == x {
        if c != nb && c.Ptr() == b.Ptr() { PtrIdentifies(h.runs, h.start, h.end, b, c); }
      }
    }
  }

  lemma SameHeld(h: HeapState, g: HeapState, held: set<int>)
    requires HoldsLive(h, held) && g.runs == h.runs
    ensures HoldsLive(g, held)
  {
  }

  /** The heap and the request that an allocation really works with. */
  function Served(h: HeapState, req: int): (t: (HeapState, int)) {
    if (req + PAD) % SIZE_T == 0 then (h.(warnings := h.warnings + 1), 1) else (h, req)
  }

  lemma ServedOk(h: HeapState, req: int)
    requires Ok(h) && (Request(req) || req + PAD == SIZE_T)
    ensures var (g, r) := Served(h, req); Ok(g) && g.runs == h.runs && g.mapped == h.mapped && Request(r)
    ensures -1 <= h.bet < |h.runs|
    ensures forall avail: nat ::
              Allocate(h, req, avail) == AllocateSized(Served(h, req).0, Served(h, req).1, avail)
  {
  }

  lemma AllocateBounds(h: HeapState, req: int, avail: nat)
    requires -1 <= h.bet < |h.runs|
    ensures AllocateSized(h, req, avail).0.start == h.start && AllocateSized(h, req, avail).0.max == h.max
  {
  }

  lemma FreeBounds(h: HeapState, i: int, k: int)
    requires -1 <= h.bet < |h.runs| && IsBlock(h, i, k)
    ensures FreeBlock(h, i, k).start == h.start && FreeBlock(h, i, k).max == h.max
  {
  }

  lemma BoundsStay(h: HeapState, c: Call)
    requires -1 <= h.bet < |h.runs| && Enabled(h, c)
    ensures Perform(h, c).0.start == h.start && Perform(h, c).0.max == h.max
  {
    hide AllocateSized, FreeBlock;
    match c
    case CallAllocate(req, avail) =>
      AllocateBounds(h, req, avail);
      AllocateBounds(h.(warnings := h.warnings + 1), 1, avail);
    case CallFreeNull =>
    case CallStale(_) =>
    case CallFree(i, k) =>
      FreeBounds(h, i, k);
    case CallReallocate(i, k, size, avail) =>
      var b := h.runs[i].blocks[k];
      FreeBounds(h, i, k);
      AllocateBounds(h, size, avail);
      var g := AllocateSized(h, size, avail).0;
      if -1 <= g.bet < |g.runs| && 0 <= i < |g.runs| && IsBlock(g, i, Follow(g.runs[i], k, b)) {
        FreeBounds(g, i, Follow(g.runs[i], k, b));
      }
  }

  /** The call asks for more than fits 32 bits and gets pages. */
  ghost predicate Overfilling(h: HeapState, c: Call)
    requires -1 <= h.bet < |h.runs| && Enabled(h, c)
  {
    match c
    case CallAllocate(req, avail) => req + PAD != SIZE_T && Overfills(h, req, avail)
    case CallReallocate(i, k, size, avail) => h.runs[i].blocks[k].req < size && Overfills(h, size, avail)
    case _ => false
  }

  /** The call overfills, or gives up a run with another run right behind it. */
  ghost predicate Breaks(h: HeapState, c: Call)
    requires -1 <= h.bet < |h.runs| && Enabled(h, c)
  {
    match c
    case CallAllocate(req, avail) => Overfilling(h, c)
    case CallFreeNull => false
    case CallStale(_) => false
    case CallFree(i, k) => CutsNeighbour(h, i)
    case CallReallocate(i, k, size, avail) => ReallocateBreaks(h, i, k, size, avail)
  }

  /** One call keeps the heap well formed, with the pages of all runs mapped, exactly when it does not give up a run
      right in front of another, nor put a block larger than 32 bits can say into a run of what is left of its size.
      All of that is told from the heap before. Unless it does the latter, it keeps the held pointers exactly the live
      ones. */
  lemma CallKeepsIff(h: HeapState, held: set<int>, c: Call, h': HeapState, held': set<int>)
    requires Ok(h) && HoldsLive(h, held) && Transition(h, held, c, h', held')
    ensures Ok(h') <==> !Breaks(h, c)
    ensures !Breaks(h, c) || !Overfilling(h, c) ==> HoldsLive(h', held')
    ensures h'.start == h.start && h'.max == h.max
  {
    hide TotalInUse, TotalSize, RunsOk, AllocateSized, FreeBlock, HasRoom, Live, HoldsLive, Reallocate, Adds, Loses;
    hide Replaces, SetReq, CutsNeighbour, PagesRefused;
    OkRuns(h);
    BoundsStay(h, c);
    match c
    case CallAllocate(req, avail) =>
      if Request(req) || req + PAD == SIZE_T {
        var (g, r) := Served(h, req);
        ServedOk(h, req);
        var b := FittingAdds(g, r, avail);
        if h'.runs == h.runs { SameHeld(h, h', held); }
        if Allocate(h, req, avail).1 != 0 { AddsHeld(h, h', held, Allocate(h, req, avail).1, r, b); }
      } else {
        var base := OversizeOutcome(h, req, avail);
        if h'.runs == h.runs { SameHeld(h, h', held); }
      }
    case CallFreeNull =>
      SameHeld(h, h', held);
    case CallStale(_) =>
      SameHeld(h, h', held);
    case CallFree(i, k) =>
      LiveHere(h.runs, i, k);
      FreeLoses(h, i, k);
      FreeBlockOkIff(h, i, k);
      LosesHeld(h, h', held, h.runs[i].blocks[k]);
    case CallReallocate(i, k, size, avail) =>
      ReallocateKeeps(h, held, c, h', held');
  }

  lemma ReallocateKeeps(h: HeapState, held: set<int>, c: Call, h': HeapState, held': set<int>)
    requires Ok(h) && HoldsLive(h, held) && Transition(h, held, c, h', held') && c.CallReallocate?
    ensures Ok(h') <==> !Breaks(h, c)
    ensures !Overfilling(h, c) ==> HoldsLive(h', held')
  {
    hide TotalInUse, TotalSize, RunsOk, AllocateSized, FreeBlock, HasRoom, Live, HoldsLive, Adds, Loses, Replaces;
    hide SetReq, Allocate, CutsNeighbour, GrowthCuts, PagesRefused;
    var CallReallocate(i, k, size, avail) := c;
    var b := h.runs[i].blocks[k];
    OkRuns(h);
    LiveHere(h.runs, i, k);
    LivePointer(h, i, k);
    if size == 0 {
      FreeLoses(h, i, k);
      FreeBlockOkIff(h, i, k);
      LosesHeld(h, h', held, b);
      assert held - {b.Ptr()} == held';
    } else if size <= b.req {
      ShrinkReplaces(h, i, k, size);
      ReplacesHeld(h, h', held, b, b.(req := size));
      assert held' == held - {b.Ptr()} + {b.Ptr()};
    } else {
      GrowKeeps(h, held, c, h', held');
    }
  }

  lemma GrowKeeps(h: HeapState, held: set<int>, c: Call, h': HeapState, held': set<int>)
    requires Ok(h) && HoldsLive(h, held) && Transition(h, held, c, h', held') && c.CallReallocate?
    requires h.runs[c.i].blocks[c.k].req < c.size && c.size != 0
    ensures Ok(h') <==> !Breaks(h, c)
    ensures !Overfilling(h, c) ==> HoldsLive(h', held')
  {
    hide TotalInUse, TotalSize, RunsOk, HasRoom, Live, HoldsLive, Loses, Replaces, Reallocate, PagesRefused;
    hide CutsNeighbour, GrowthCuts;
    var CallReallocate(i, k, size, avail) := c;
    var b := h.runs[i].blocks[k];
    OkRuns(h);
    LiveHere(h.runs, i, k);
    LivePointer(h, i, k);
    var nb := GrowReplaces(h, i, k, size, avail);
    if !Request(size) { var base := OversizeOutcome(h, size, avail); }
    var (g, q, fault) := Reallocate(h, i, k, size, avail);
    if Overfills(h, size, avail) {
    } else if fault {
      SameHeld(h, h', held);
    } else if q == 0 {
      LosesHeld(h, h', held, b);
      assert held - {b.Ptr()} == held';
    } else {
      ReplacesHeld(h, h', held, b, nb);
    }
  }

  /** None of the first t calls breaks the heap. */
  ghost predicate Unbroken(hs: seq<HeapState>, cs: seq<Call>, t: nat)
    requires t <= |cs| < |hs|
  {
    forall u | 0 <= u < t :: -1 <= hs[u].bet < |hs[u].runs| && Enabled(hs[u], cs[u]) && !Breaks(hs[u], cs[u])
  }

  /** Along every run, the heap is well formed at every point up to t if and only if none of the calls until then gives
      up a run right in front of another or gets pages for a request too large for 32 bits. Until such a call, the
      callers' pointers are exactly the live blocks', and the bytes in runs fit in the range the heap has claimed. */
  lemma {:induction false} EveryRun(hs: seq<HeapState>, held: seq<set<int>>, cs: seq<Call>, t: nat)
    requires Behaviour(hs, held, cs) && t <= |cs|
    ensures Unbroken(hs, cs, t) <==> forall u | 0 <= u <= t :: Ok(hs[u])
    ensures Unbroken(hs, cs, t) ==>
              && HoldsLive(hs[t], held[t]) && hs[t].start == hs[0].start && hs[t].max == hs[0].max
              && hs[t].taken <= hs[t].end - hs[t].start <= hs[t].max - hs[t].start
  {
    hide HoldsLive, Transition, Breaks, Ok, Perform, Held;
    if t == 0 {
      NothingHeld(hs[0], held[0]);
      FreshOk(hs[0]);
    } else {
      EveryRun(hs, held, cs, t - 1);
      assert Transition(hs[t - 1], held[t - 1], cs[t - 1], hs[t - 1 + 1], held[t - 1 + 1]);
      CanCall(hs[t - 1], held[t - 1], cs[t - 1], hs[t], held[t]);
      assert Unbroken(hs, cs, t) <==> Unbroken(hs, cs, t - 1) && !Breaks(hs[t - 1], cs[t - 1]);
      if Unbroken(hs, cs, t - 1) {
        CallKeepsIff(hs[t - 1], held[t - 1], cs[t - 1], hs[t], held[t]);
      }
    }
    if Ok(hs[t]) { ClaimFits(hs[t]); }
  }

  lemma CanCall(h: HeapState, held: set<int>, c: Call, h': HeapState, held': set<int>)
    requires Transition(h, held, c, h', held')
    ensures -1 <= h.bet < |h.runs| && Enabled(h, c)
  {
  }

  lemma ClaimFits(h: HeapState)
    requires Ok(h)
    ensures h.taken <= h.end - h.start <= h.max - h.start
  {
    TotalSizeFits(h.runs, h.start, h.end);
  }

  /** At every point of every run until such a call: the bytes two callers asked for never meet, lie in the heap's
      range, and begin at a multiple of four. */
  lemma EveryRunKeepsBlocksApart(hs: seq<HeapState>, held: seq<set<int>>, cs: seq<Call>, t: nat, b: Block, c: Block)
    requires Behaviour(hs, held, cs) && t <= |cs| && Unbroken(hs, cs, t)
    requires Live(hs[t].runs, b) && Live(hs[t].runs, c) && b != c
    ensures b.Ptr() in held[t] && c.Ptr() in held[t] && b.Ptr() % ALIGNMENT == 0
    ensures b.Ptr() + b.req <= c.Ptr() || c.Ptr() + c.req <= b.Ptr()
    ensures hs[t].start < b.Ptr() && b.Ptr() + b.req <= hs[t].end
  {
    hide Transition, Live, Unbroken;
    EveryRun(hs, held, cs, t);
    var h := hs[t];
    OkRuns(h);
    LiveApart(h.runs, h.start, h.end, b, c);
    LiveOk(h.runs, h.start, h.end, b);
    LiveOk(h.runs, h.start, h.end, c);
    PointerFits(b);
    PointerFits(c);
  }

  lemma NothingHeld(h: HeapState, held: set<int>)
    requires h.runs == [] && held == {}
    ensures HoldsLive(h, held)
  {
  }

  // ---------- calls that cut a run off ----------

  /** Growing the only block of a run that ends the heap breaks the heap exactly when the new block needs a run of its
      own and gets one: it is that run, with the block just copied, that loses its first page. */
  lemma LastBlockGrowthBreaksIff(h: HeapState, i: int, size: int, avail: nat)
    requires Ok(h) && 0 <= i < |h.runs| && |h.runs[i].blocks| == 1 && h.runs[i].End() == h.end
    requires h.runs[i].blocks[0].req < size && Sized(size)
    ensures -1 <= h.bet < |h.runs|
    ensures ReallocateBreaks(h, i, 0, size, avail)
            <==> !HasRoom(h.runs, size + PAD + MINOR) && !PagesRefused(h, size, avail)
  {
    hide TotalInUse, TotalSize, Paged, HasGap, PagesRefused, FreshPages;
    LivePointer(h, i, 0);
    assert !Followed(h, i) by { assert RunOk(h.runs[i]); }
    if !Request(size) { NoRoomForOversize(h, size); }
    if !HasRoom(h.runs, size + PAD + MINOR) { NoLanding(h, i, size + PAD + MINOR); }
  }

  /** One block of 65000 bytes in a run of 16 pages at a. */
  function FullRun(a: int): (r: Run)
    ensures r.addr == a && r.End() == a + 0x10000 && |r.blocks| == 1
  {
    Run(a, MIN_PAGES, [Block(a + MAJOR, 65006, 65000)])
  }

  /** An allocation of 65000 bytes when no run has room takes a run of 16 pages. */
  lemma AllocateFullRun(h: HeapState)
    requires Ok(h) && (forall i | 0 <= i < |h.runs| :: h.runs[i] == FullRun(h.runs[i].addr)) && h.end + 0x10000 <= h.max
    ensures Enabled(h, CallAllocate(65000, 100)) && Ok(Allocate(h, 65000, 100).0)
    ensures var g := Allocate(h, 65000, 100).0;
            && g.runs == h.runs + [FullRun(h.end)] && g.end == h.end + 0x10000 && g.max == h.max
            && -1 <= g.bet < |g.runs|
            && Allocate(h, 65000, 100).1 == FullRun(h.end).blocks[0].Ptr()
  {
    hide Sound, AllocateSized, HasGap, HasRoom, FreshPages, FullRun, FirstGap;
    FullPages();
    OkRuns(h);
    AllocateIsSized(h, 65000, 100);
    AllocateSizedOk(h, 65000, 100);
    forall i | 0 <= i < |h.runs|
      ensures !HasGap(h.runs[i], 65046)
    {
      FullRunIsFull(h.runs[i]);
    }
    NoRoom(h.runs, 65046);
    var i, k, bet := FittingOutcome(h, 65000, 100);
    FullRunIs(h.end);
  }

  lemma FullPages()
    ensures FreshPages(65006) == MIN_PAGES && Request(65000)
  {
  }

  lemma FullRunIs(a: int)
    ensures Run(a, MIN_PAGES, []).Insert(0, NewBlock(Run(a, MIN_PAGES, []).GapStart(0), 65000)) == FullRun(a)
    ensures NewBlock(Run(a, MIN_PAGES, []).GapStart(0), 65000) == FullRun(a).blocks[0]
  {
  }

  lemma NoRoom(runs: seq<Run>, need: int)
    requires forall i | 0 <= i < |runs| :: !HasGap(runs[i], need)
    ensures !HasRoom(runs, need)
  {
  }

  lemma FullRunIsFull(r: Run)
    requires r == FullRun(r.addr)
    ensures !HasGap(r, 65046)
  {
  }

  /** Two allocations of 65000 bytes and a free of the first: the second block's run has lost its first page. */
  lemma CutsNeighbourHappens() returns (hs: seq<HeapState>, held: seq<set<int>>, cs: seq<Call>)
    ensures Behaviour(hs, held, cs) && |cs| == 3 && cs[2] == CallFree(0, 0)
    ensures Ok(hs[2]) && !Ok(hs[3])
  {
    hide Ok, Allocate, FreeBlock, HoldsLive;
    var c, h0 := CallAllocate(65000, 100), Fresh(0x1000, 0x100000);
    FreshOk(h0);
    AllocateFullRun(h0);
    var h1 := Allocate(h0, 65000, 100).0;
    AllocateFullRun(h1);
    var h2 := Allocate(h1, 65000, 100).0;
    var h3 := FreeBlock(h2, 0, 0);
    hs, cs := [h0, h1, h2, h3], [c, c, CallFree(0, 0)];
    var s1 := Held(h0, c, {});
    var s2 := Held(h1, c, s1);
    held := [{}, s1, s2, Held(h2, CallFree(0, 0), s2)];
    assert h2.runs[1].addr == h2.runs[0].End();
    FreeBlockOkIff(h2, 0, 0);
  }

  /** A first request of 2^32 - 1 bytes is given 16 pages, and leaves the heap ill formed. */
  lemma OversizeHappens() returns (h: HeapState)
    ensures Ok(h) && Enabled(h, CallAllocate(0xFFFF_FFFF, 100)) && -1 <= h.bet < |h.runs|
    ensures FreshPages(0xFFFF_FFFF + PAD) == MIN_PAGES && !Ok(Perform(h, CallAllocate(0xFFFF_FFFF, 100)).0)
  {
    hide AllocateSized;
    h := Fresh(0x1000, 0x100000);
    FreshOk(h);
    AllocateOkIff(h, 0xFFFF_FFFF, 100);
  }

  lemma FreshOk(h: HeapState)
    requires h == Fresh(h.start, h.max) && 0 < h.start <= h.max < UINT32 && h.start % PAGE == 0
    ensures Ok(h)
  {
  }
}
