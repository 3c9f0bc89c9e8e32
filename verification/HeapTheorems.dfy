/** What callers may rely on: which blocks are live after each operation, that they never
    overlap, that an existing gap is always found, and that a free undoes an allocation. */
module HeapTheorems {
  import opened HeapLayout
  import opened HeapSpec
  import opened HeapInvariants

  // ---------- live blocks ----------

  ghost predicate LiveIn(r: Run, b: Block) {
    exists k | 0 <= k < |r.blocks| :: r.blocks[k] == b
  }

  ghost predicate Live(runs: seq<Run>, b: Block) {
    exists i | 0 <= i < |runs| :: LiveIn(runs[i], b)
  }

  /** Two live blocks, headers included, share no byte. */
  lemma LiveApart(runs: seq<Run>, lo: int, hi: int, b: Block, c: Block)
    requires RunsOk(runs, lo, hi) && Live(runs, b) && Live(runs, c) && b != c
    ensures b.End() <= c.addr || c.End() <= b.addr
    ensures lo + MAJOR <= b.addr && b.End() <= hi
  {
    var i :| 0 <= i < |runs| && LiveIn(runs[i], b);
    var k :| 0 <= k < |runs[i].blocks| && runs[i].blocks[k] == b;
    var j :| 0 <= j < |runs| && LiveIn(runs[j], c);
    var l :| 0 <= l < |runs[j].blocks| && runs[j].blocks[l] == c;
    BlockInside(runs[i], k);
    BlockInside(runs[j], l);
    if i == j {
      BlocksApart(runs[i], if k < l then k else l, if k < l then l else k);
    }
  }

  lemma InsertLive(runs: seq<Run>, i: int, k: int, b: Block, c: Block)
    requires 0 <= i < |runs| && 0 <= k <= |runs[i].blocks|
    ensures Live(runs[i := runs[i].Insert(k, b)], c) <==> Live(runs, c) || c == b
  {
    var r := runs[i];
    var q := r.Insert(k, b);
    var runs' := runs[i := q];
    if Live(runs', c) {
      var j :| 0 <= j < |runs'| && LiveIn(runs'[j], c);
      var l :| 0 <= l < |runs'[j].blocks| && runs'[j].blocks[l] == c;
      if j == i && l != k { assert r.blocks[if l < k then l else l - 1] == c; }
      if !(j == i && l == k) { assert LiveIn(runs[j], c); }
    }
    if c == b {
      assert q.blocks[k] == c && LiveIn(runs'[i], c);
    }
    if Live(runs, c) {
      var j :| 0 <= j < |runs| && LiveIn(runs[j], c);
      var l :| 0 <= l < |runs[j].blocks| && runs[j].blocks[l] == c;
      if j == i { assert q.blocks[if l < k then l else l + 1] == c; }
      assert LiveIn(runs'[j], c);
    }
  }

  lemma EmptyRunLive(runs: seq<Run>, i: int, c: Block)
    requires 0 <= i < |runs| && runs[i].blocks == []
    ensures Live(Without(runs, i), c) <==> Live(runs, c)
  {
    var q := Without(runs, i);
    if Live(runs, c) {
      var j :| 0 <= j < |runs| && LiveIn(runs[j], c);
      assert q[if j < i then j else j - 1] == runs[j];
    }
    if Live(q, c) {
      var j :| 0 <= j < |q| && LiveIn(q[j], c);
      assert q[j] == runs[if j < i then j else j + 1];
    }
  }

  // ---------- the search finds what there is ----------

  /** HasGap is about any gap, not only those the walk happens to try. */
  lemma HasGapMeans(r: Run, need: int)
    ensures HasGap(r, need) <==> exists k | 0 <= k <= |r.blocks| :: need <= r.Gap(k)
  {
  }

  /** The walk ends at a run with room exactly when some run it can still reach has room: all of them when it
      began at the best bet, else those from i on. The run it ends at is the first such on its way. */
  lemma {:induction false} SearchFinds(runs: seq<Run>, i: int, started: bool, bet: int, need: int)
    requires 0 <= i < |runs| && -1 <= bet < |runs|
    ensures var o := Search(runs, i, started, bet, need);
            && (o.Found? && i <= o.run ==> forall j | i <= j < o.run :: !HasGap(runs[j], need))
            && (o.Found? && o.run < i ==>
                  started && (forall j | i <= j < |runs| || 0 <= j < o.run :: !HasGap(runs[j], need)))
            && (o.Missing? ==> forall j | (if started then 0 else i) <= j < |runs| :: !HasGap(runs[j], need))
    decreases started, |runs| - i
  {
    var bet' := Better(runs, bet, i);
    if HasGap(runs[i], need) {
    } else if i + 1 < |runs| {
      SearchFinds(runs, i + 1, started, bet', need);
    } else if started {
      SearchFinds(runs, 0, false, bet', need);
    }
  }

  /** Where the walk begins never decides whether a gap is found. */
  lemma StartDoesNotMatter(runs: seq<Run>, start: int, bet: int, bet': int, need: int)
    requires 0 <= start < |runs| && -1 <= bet < |runs| && -1 <= bet' < |runs|
    ensures Search(runs, start, true, bet, need).Found? <==> Search(runs, 0, false, bet', need).Found?
    ensures Search(runs, 0, false, bet', need).Found? <==>
              exists i, k | 0 <= i < |runs| && 0 <= k <= |runs[i].blocks| :: need <= runs[i].Gap(k)
  {
    SearchFinds(runs, start, true, bet, need);
    SearchFinds(runs, 0, false, bet', need);
    forall i | 0 <= i < |runs|
      ensures HasGap(runs[i], need) <==> exists k | 0 <= k <= |runs[i].blocks| :: need <= runs[i].Gap(k)
    {
      HasGapMeans(runs[i], need);
    }
  }

  // ---------- allocation ----------

  lemma AppendLive(runs: seq<Run>, r: Run, c: Block)
    requires r.blocks == []
    ensures Live(runs + [r], c) <==> Live(runs, c)
  {
    assert Without(runs + [r], |runs|) == runs;
    EmptyRunLive(runs + [r], |runs|, c);
  }

  lemma GrowOutcome(h: HeapState, req: int, avail: nat) returns (bet: int)
    requires Ok(h) && Request(req) && h.runs != []
    ensures -1 <= bet <= |h.runs|
    ensures var t := Grow(h, req, avail); var taken := Take(h, FreshPages(req + PAD), avail).0;
            if PagesRefused(h, req, avail) then t == (taken.(bet := bet), 0) && taken.runs == h.runs
            else taken.runs == h.runs + [Run(h.end, FreshPages(req + PAD), [])]
                 && t == Place(taken.(bet := bet), |h.runs|, 0, req) && t.1 != 0
  {
    hide TotalInUse, TotalSize, FreshPages, RunsOk, Paged, PlaceBlind;
    bet := Grow(h, req, avail).0.bet;
    NewRunPointer(h, req, avail);
    if !PagesRefused(h, req, avail) {
      var g := Take(h, FreshPages(req + PAD), avail).0;
      assert g.runs[|h.runs|].blocks == [];
      BlindIsPlace(g, |h.runs|, req);
      bet := if req + PAD + MINOR <= h.runs[|h.runs| - 1].Free() then Better(g.runs, g.bet, |h.runs|) else g.bet;
    }
  }

  lemma TakeKeepsBet(h: HeapState, b: int, n: int, avail: nat, bet: int)
    ensures Take(h.(bet := b), n, avail).0.(bet := bet) == Take(h, n, avail).0.(bet := bet)
  {
  }

  /** The three outcomes: an existing gap whenever there is one; else NULL when the pages are refused;
      else the head of a new last run. Only the best bet depends on how the walk went. */
  lemma FittingOutcome(h: HeapState, req: int, avail: nat) returns (i: int, k: int, bet: int)
    requires Ok(h) && Request(req)
    ensures -1 <= bet <= |h.runs| && 0 <= i <= |h.runs|
    ensures var t := AllocateSized(h, req, avail); var taken := Take(h, FreshPages(req + PAD), avail).0;
            if HasRoom(h.runs, req + PAD + MINOR) then
              CanPlace(h, i, k, req) && LandsIn(h, i, req + PAD + MINOR)
              && k == FirstGap(h.runs[i], 0, req + PAD + MINOR)
              && t == Place(h.(bet := bet), i, k, req) && t.1 != 0
            else if PagesRefused(h, req, avail) then t == (taken.(bet := bet), 0) && taken.runs == h.runs
            else i == |h.runs| && k == 0 && taken.runs == h.runs + [Run(h.end, FreshPages(req + PAD), [])]
                 && t == Place(taken.(bet := bet), i, 0, req) && t.1 != 0
  {
    hide TotalInUse, TotalSize, FreshPages, RunsOk, Grow, Take, Place, Search, FirstGap, Paged;
    var need := req + PAD + MINOR;
    i, k := |h.runs|, 0;
    if h.runs == [] {
      bet := if PagesRefused(h, req, avail) then h.bet else 0;
      FirstOutcome(h, req, avail);
    } else {
      var s := StartsAtBet(h, need);
      var start := if s then h.bet else 0;
      SearchFinds(h.runs, start, s, h.bet, need);
      match Search(h.runs, start, s, h.bet, need)
      case Found(j, b) =>
        i, k, bet := j, FirstGap(h.runs[j], 0, need), b;
        FoundOutcome(h, i, k, b, req);
      case Missing(b) =>
        bet := GrowOutcome(h.(bet := b), req, avail);
        TakeKeepsBet(h, b, FreshPages(req + PAD), avail, bet);
        TakeRuns(h, b, FreshPages(req + PAD), avail);
    }
  }

  /** The first run of a heap, when there are pages for it. */
  lemma FirstOutcome(h: HeapState, req: int, avail: nat)
    requires Ok(h) && Request(req) && h.runs == []
    ensures var t := AllocateSized(h, req, avail); var n := FreshPages(req + PAD); var taken := Take(h, n, avail).0;
            if PagesRefused(h, req, avail) then t == (taken.(bet := h.bet), 0) && taken.runs == h.runs
            else taken.runs == [Run(h.end, n, [])] && t == Place(taken.(bet := 0), 0, 0, req) && t.1 != 0
  {
    hide TotalInUse, TotalSize, FreshPages, RunsOk, Paged;
    NewRunPointer(h, req, avail);
    if !PagesRefused(h, req, avail) { FirstRun(h, req, avail); }
  }

  lemma TakeRuns(h: HeapState, b: int, n: int, avail: nat)
    ensures Take(h.(bet := b), n, avail).0.runs == Take(h, n, avail).0.runs
  {
  }

  lemma FoundOutcome(h: HeapState, i: int, k: int, bet: int, req: int)
    requires Ok(h) && 0 <= req && 0 <= i < |h.runs| && 0 <= k <= |h.runs[i].blocks|
    requires req + PAD + MINOR <= h.runs[i].Gap(k)
    ensures CanPlace(h, i, k, req) && Place(h.(bet := bet), i, k, req).1 != 0
  {
    PointerNotNull(h.runs[i], k, req);
  }

  lemma NewRunPointer(h: HeapState, req: int, avail: nat)
    requires Ok(h) && Request(req)
    ensures 0 < NewBlock(Run(h.end, FreshPages(req + PAD), []).GapStart(0), req).Ptr()
  {
  }

  // ---------- requests too large for 32 bits ----------

  /** No gap of a well-formed heap can hold a request that is too large for 32 bits. */
  lemma NoRoomForOversize(h: HeapState, req: int)
    requires Sound(h) && !Request(req) && 0 <= req
    ensures forall i | 0 <= i < |h.runs| ::
              h.runs[i].Free() < req + PAD + MINOR && !HasGap(h.runs[i], req + PAD + MINOR)
  {
    hide TotalInUse, TotalSize, Paged, FirstGap;
    forall i | 0 <= i < |h.runs|
      ensures h.runs[i].Free() < req + PAD + MINOR && !HasGap(h.runs[i], req + PAD + MINOR)
    {
      var r := h.runs[i];
      assert RunOk(r);
      InUseNonNegative(r.blocks);
      if HasGap(r, req + PAD + MINOR) { SkipIsSound(r, FirstGap(r, 0, req + PAD + MINOR)); }
    }
  }

  lemma {:induction false} InUseNonNegative(bs: seq<Block>)
    requires forall k | 0 <= k < |bs| :: BlockOk(bs[k])
    ensures 0 <= InUse(bs)
  {
    if bs != [] { InUseNonNegative(bs[1..]); }
  }

  /** Run j has a block past its end, or the count of bytes in use is not that of the blocks. */
  ghost predicate Spoilt(g: HeapState, j: int) {
    0 <= j < |g.runs| && (!RunOk(g.runs[j]) || g.inuse != TotalInUse(g.runs))
  }

  lemma SpoiltIsUnsound(g: HeapState, j: int)
    requires Spoilt(g, j)
    ensures !Sound(g)
  {
  }

  /** The block of such a request, put into a run without a look at its size, ends beyond the run, or is charged to the
      heap for more bytes than its header has. */
  lemma BlindSpoils(h: HeapState, i: int, req: int)
    requires Sound(h) && 0 <= i < |h.runs| && h.runs[i].blocks == [] && 0 <= req && !Request(req)
    ensures Spoilt(PlaceBlind(h, i, req).0, i)
  {
    hide TotalSize, Paged;
    var g := PlaceBlind(h, i, req).0;
    TotalsUpdate(h.runs, i, g.runs[i]);
    assert InUse(h.runs[i].blocks) == 0 && InUse(g.runs[i].blocks) == g.runs[i].blocks[0].size;
    assert RunOk(h.runs[i]);
    if RunOk(g.runs[i]) { assert g.runs[i].GapStart(1) <= g.runs[i].GapEnd(1); }
  }

  lemma OversizeGrows(h: HeapState, req: int, avail: nat) returns (bet: int)
    requires Sound(h) && h.runs != [] && !Request(req) && 0 <= req
    ensures -1 <= bet < |h.runs|
    ensures var n := FreshPages(req + PAD); var t := WalkRuns(h, req, avail);
            var taken := Take(h.(bet := bet), n, avail).0;
            && Sound(taken) && -1 <= taken.bet < |taken.runs|
            && if PagesRefused(h, req, avail) then t == (taken, 0) && taken.runs == h.runs
               else taken.runs == h.runs + [Run(h.end, n, [])] && t == PlaceBlind(taken, |h.runs|, req) && !Sound(t.0)
  {
    hide TotalInUse, TotalSize, Paged, RunsOk, Search, FreshPages, PlaceBlind, HasGap;
    var need := req + PAD + MINOR;
    var s := StartsAtBet(h, need);
    var start := if s then h.bet else 0;
    NoRoomForOversize(h, req);
    SearchFinds(h.runs, start, s, h.bet, need);
    bet := Search(h.runs, start, s, h.bet, need).bet;
    var g := Take(h.(bet := bet), FreshPages(req + PAD), avail).0;
    TakeSound(h.(bet := bet), FreshPages(req + PAD), avail);
    if !PagesRefused(h, req, avail) {
      BlindSpoils(g, |h.runs|, req);
      SpoiltIsUnsound(PlaceBlind(g, |h.runs|, req).0, |h.runs|);
    }
  }

  /** An allocation leaves the heap well formed if and only if the request fits 32 bits, or wraps round to the one that
      is served as one byte, or the page source refuses the pages that remain of it in 32-bit arithmetic. */
  lemma AllocateOkIff(h: HeapState, req: int, avail: nat)
    requires Ok(h) && (Sized(req) || req + PAD == SIZE_T)
    ensures -1 <= h.bet < |h.runs|
    ensures Ok(Allocate(h, req, avail).0) <==> Request(req) || req + PAD == SIZE_T || PagesRefused(h, req, avail)
  {
    hide TotalInUse, TotalSize, Paged, RunsOk, WalkRuns, FreshPages, AllocateSized;
    if req + PAD == SIZE_T {
      AllocateSizedOk(h.(warnings := h.warnings + 1), 1, avail);
    } else if Request(req) {
      AllocateSizedOk(h, req, avail);
    } else {
      var base := OversizeOutcome(h, req, avail);
    }
  }

  /** The heap in which the block of such a request is placed blindly: h with one more run, or with two when it had
      none, the last of them empty. */
  ghost predicate Base(h: HeapState, base: HeapState, req: int) {
    var n, i := FreshPages(req + PAD), |base.runs| - 1;
    && Sound(base) && 0 <= i && base.runs[i] == Run(base.end - n * PAGE, n, []) && base.inuse == h.inuse
    && base.warnings == h.warnings && base.errors == h.errors && base.overruns == h.overruns
    && base.runs[..i] == (if h.runs == [] then [Run(h.end, n, [])] else h.runs)
    && (h.runs != [] ==> base.end == h.end + n * PAGE && base.taken == h.taken + n * PAGE)
  }

  /** The outcomes for a request too large for 32 bits: refused, it changes no run; else it is placed blindly in a new
      run, the last; or a heap without runs takes one, is refused the second, and keeps the first, empty. */
  lemma OversizeOutcome(h: HeapState, req: int, avail: nat) returns (base: HeapState)
    requires Ok(h) && Sized(req) && !Request(req)
    ensures !HasRoom(h.runs, req + PAD + MINOR)
    ensures var (g, p) := AllocateSized(h, req, avail); var n := FreshPages(req + PAD);
            && (Ok(g) <==> PagesRefused(h, req, avail))
            && (PagesRefused(h, req, avail) ==>
                  p == 0 && g.runs == h.runs && g.inuse == h.inuse && g.taken == h.taken)
            && (!PagesRefused(h, req, avail) ==>
                  && n <= avail
                  && (p == 0 <==> h.runs == [] && PagesRefused(Take(h, n, avail).0, req, avail - n))
                  && if p == 0 then g.runs == [Run(h.end, n, [])] && g.inuse == h.inuse
                     else Base(h, base, req) && (g, p) == PlaceBlind(base, |base.runs| - 1, req) && !Sound(g))
  {
    hide TotalInUse, TotalSize, Paged, RunsOk, WalkRuns, FreshPages, HasGap, PlaceBlind;
    NoRoomForOversize(h, req);
    var n := FreshPages(req + PAD);
    base := h;
    if h.runs != [] {
      var bet := OversizeGrows(h, req, avail);
      base := Take(h.(bet := bet), n, avail).0;
      if !PagesRefused(h, req, avail) { BlindPointer(base, |base.runs| - 1, req); }
    } else {
      TakeSound(h, n, avail);
      if !PagesRefused(h, req, avail) {
        var g := Take(h, n, avail).0;
        assert g.runs == [Run(h.end, n, [])];
        var bet := OversizeGrows(g, req, avail - n);
        base := Take(g.(bet := bet), n, avail - n).0;
        if PagesRefused(g, req, avail - n) {
          assert AllocateSized(h, req, avail).0.runs[0].blocks == [];
        } else {
          BlindPointer(base, |base.runs| - 1, req);
        }
      }
    }
  }

  lemma BlindPointer(h: HeapState, i: int, req: int)
    requires Sound(h) && 0 <= i < |h.runs|
    ensures PlaceBlind(h, i, req).1 > 0
  {
    hide TotalInUse, TotalSize, Paged;
    assert RunOk(h.runs[i]);
  }

  /** The live blocks after are those before and b, which holds req bytes at p. */
  ghost predicate Adds(runs: seq<Run>, runs': seq<Run>, p: int, req: int, b: Block) {
    && b == NewBlock(b.addr, req) && b.Ptr() == p && !Live(runs, b)
    && forall c :: Live(runs', c) <==> Live(runs, c) || c == b
  }

  /** The room a placement takes is apart from every live block. */
  lemma RoomApart(h: HeapState, i: int, k: int, req: int, c: Block)
    requires Sound(h) && CanPlace(h, i, k, req) && Live(h.runs, c)
    ensures var b := NewBlock(h.runs[i].GapStart(k), req); c.End() <= b.addr || b.End() <= c.addr
    ensures c != NewBlock(h.runs[i].GapStart(k), req)
  {
    hide TotalInUse, TotalSize;
    var b := NewBlock(h.runs[i].GapStart(k), req);
    PutSound(h, i, k, req);
    InsertLive(h.runs, i, k, b, c);
    InsertLive(h.runs, i, k, b, b);
    var j :| 0 <= j < |h.runs| && LiveIn(h.runs[j], c);
    var l :| 0 <= l < |h.runs[j].blocks| && h.runs[j].blocks[l] == c;
    assert BlockOk(c) by { assert RunOk(h.runs[j]); }
    if j == i {
      GapApart(h.runs[i], k, l);
    } else {
      assert RunOk(h.runs[j]) && RunOk(h.runs[i]);
      BlockInside(h.runs[j], l);
      assert h.runs[i].GapStart(k) <= h.runs[i].GapEnd(k);
      GapInside(h.runs[i], k);
    }
  }

  lemma GapInside(r: Run, k: int)
    requires RunOk(r) && 0 <= k <= |r.blocks|
    ensures r.addr + MAJOR <= r.GapStart(k) <= r.GapEnd(k) <= r.End()
  {
    assert r.GapStart(k) <= r.GapEnd(k);
    if k > 0 { BlockInside(r, k - 1); }
    if k < |r.blocks| { BlockInside(r, k); }
    assert r.GapStart(0) <= r.GapEnd(0) && r.GapStart(|r.blocks|) <= r.GapEnd(|r.blocks|);
  }

  lemma PutAdds(h: HeapState, i: int, k: int, req: int, rs: seq<Run>)
    requires Sound(h) && CanPlace(h, i, k, req)
    requires forall c :: Live(rs, c) <==> Live(h.runs, c)
    ensures Adds(rs, Put(h, i, k, req).runs, Place(h, i, k, req).1, req, NewBlock(h.runs[i].GapStart(k), req))
  {
    hide Sound, TotalInUse, TotalSize, RunsOk, Live;
    var b := NewBlock(h.runs[i].GapStart(k), req);
    forall c
      ensures Live(Put(h, i, k, req).runs, c) <==> Live(rs, c) || c == b
    {
      InsertLive(h.runs, i, k, b, c);
    }
    if Live(h.runs, b) { RoomApart(h, i, k, req, b); }
  }

  /** An allocation that succeeds adds exactly one live block, apart from all others; one that returns NULL
      changes no block, and does so exactly when nothing fits and the pages are refused. */
  lemma FittingAdds(h: HeapState, req: int, avail: nat) returns (b: Block)
    requires Ok(h) && Request(req)
    ensures var (g, p) := AllocateSized(h, req, avail);
            && Ok(g)
            && (p == 0 <==> !HasRoom(h.runs, req + PAD + MINOR) && PagesRefused(h, req, avail))
            && (p == 0 ==> g.runs == h.runs && g.inuse == h.inuse && g.taken == h.taken)
            && (p != 0 ==> Adds(h.runs, g.runs, p, req, b) && g.inuse == h.inuse + req + PAD)
    ensures forall c | AllocateSized(h, req, avail).1 != 0 && Live(h.runs, c) :: c.End() <= b.addr || b.End() <= c.addr
  {
    hide TotalInUse, TotalSize, FreshPages, RunsOk, AllocateSized, HasRoom, Live, InUse;
    AllocateSizedOk(h, req, avail);
    var i, k, bet := FittingOutcome(h, req, avail);
    var (g, p) := AllocateSized(h, req, avail);
    b := NewBlock(0, req);
    if p != 0 {
      var h1 := if i < |h.runs| then h else Take(h, FreshPages(req + PAD), avail).0;
      if i == |h.runs| {
        TakenRoom(h, req, avail);
        forall c
          ensures Live(h1.runs, c) <==> Live(h.runs, c)
        {
          AppendLive(h.runs, Run(h.end, FreshPages(req + PAD), []), c);
        }
      }
      b := NewBlock(h1.runs[i].GapStart(k), req);
      PutAdds(h1, i, k, req, h.runs);
      forall c | Live(h.runs, c)
        ensures c.End() <= b.addr || b.End() <= c.addr
      {
        RoomApart(h1, i, k, req, c);
      }
    }
  }

  lemma TakenRoom(h: HeapState, req: int, avail: nat)
    requires Ok(h) && Request(req) && !PagesRefused(h, req, avail)
    ensures var g := Take(h, FreshPages(req + PAD), avail).0;
            && g.runs == h.runs + [Run(h.end, FreshPages(req + PAD), [])] && Sound(g) && CanPlace(g, |h.runs|, 0, req)
  {
    FreshFits(req + PAD);
    TakeSound(h, FreshPages(req + PAD), avail);
  }

  // ---------- freeing ----------

  lemma LiveOk(runs: seq<Run>, lo: int, hi: int, c: Block)
    requires RunsOk(runs, lo, hi) && Live(runs, c)
    ensures BlockOk(c)
  {
  }

  /** A free takes exactly its block away. */
  lemma FreeRemoves(h: HeapState, i: int, k: int, c: Block)
    requires Ok(h) && IsBlock(h, i, k)
    ensures Live(FreeBlock(h, i, k).runs, c) <==> Live(h.runs, c) && c != h.runs[i].blocks[k]
    ensures FreeBlock(h, i, k).inuse == h.inuse - h.runs[i].blocks[k].size
  {
    hide TotalInUse, TotalSize, Live, InUse, ToInt32, UnmappedPages, Paged;
    TakeOutSound(h, i, k);
    var g := TakeOut(h, i, k);
    var b := h.runs[i].blocks[k];
    RemoveInUse(h.runs[i], k);
    InsertLive(g.runs, i, k, b, c);
    assert g.runs[i := g.runs[i].Insert(k, b)] == h.runs;
    NotLiveAfter(h, i, k);
    if g.runs[i].blocks == [] { EmptyRunLive(g.runs, i, c); }
  }

  lemma NotLiveAfter(h: HeapState, i: int, k: int)
    requires Sound(h) && IsBlock(h, i, k)
    ensures !Live(TakeOut(h, i, k).runs, h.runs[i].blocks[k])
  {
    hide TotalInUse, TotalSize;
    var g := TakeOut(h, i, k);
    var b := h.runs[i].blocks[k];
    if Live(g.runs, b) {
      var j :| 0 <= j < |g.runs| && LiveIn(g.runs[j], b);
      var l :| 0 <= l < |g.runs[j].blocks| && g.runs[j].blocks[l] == b;
      var l' := if j == i && l >= k then l + 1 else l;
      assert h.runs[j].blocks[l'] == b;
      SameBlock(h.runs, i, k, j, l', h.start, h.end);
    }
  }

  lemma SameBlock(runs: seq<Run>, i: int, k: int, j: int, l: int, lo: int, hi: int)
    requires RunsOk(runs, lo, hi) && 0 <= i < |runs| && 0 <= k < |runs[i].blocks|
    requires 0 <= j < |runs| && 0 <= l < |runs[j].blocks| && runs[j].blocks[l].addr == runs[i].blocks[k].addr
    ensures i == j && k == l
  {
    assert RunOk(runs[i]) && RunOk(runs[j]);
    BlockInside(runs[i], k);
    BlockInside(runs[j], l);
    assert BlockOk(runs[i].blocks[k]) && BlockOk(runs[j].blocks[l]);
    if i == j && k != l {
      BlocksApart(runs[i], if k < l then k else l, if k < l then l else k);
    }
  }

  /** Freeing the block an allocation has just placed restores the runs and every number that describes them;
      only the best bet may differ. */
  lemma FittingUndone(h: HeapState, req: int, avail: nat) returns (i: int, k: int)
    requires Ok(h) && Request(req) && AllocateSized(h, req, avail).1 != 0
    ensures var (g, p) := AllocateSized(h, req, avail);
            && IsBlock(g, i, k) && g.runs[i].blocks[k].Ptr() == p && -1 <= g.bet < |g.runs|
            && var f := FreeBlock(g, i, k);
               f.runs == h.runs && f.inuse == h.inuse && f.taken == h.taken && f.end == h.end
               && f.warnings == h.warnings && f.errors == h.errors && f.overruns == h.overruns
    ensures !CutsNeighbour(AllocateSized(h, req, avail).0, i)
  {
    hide TotalInUse, TotalSize, FreshPages, RunsOk, AllocateSized, HasRoom, InUse, ToInt32, UnmappedPages, Paged;
    var bet;
    AllocateSizedOk(h, req, avail);
    i, k, bet := FittingOutcome(h, req, avail);
    var h1 := if i < |h.runs| then h else Take(h, FreshPages(req + PAD), avail).0;
    if i == |h.runs| { TakenRoom(h, req, avail); }
    PutThenTakeOut(h1.(bet := bet), i, k, req);
    if i == |h.runs| { assert Without(h1.runs, i) == h.runs; }
    UndoneIsSafe(h, h1.(bet := bet), i, k, req);
  }

  /** The block just placed is not alone in its run, or its run is the last. */
  lemma UndoneIsSafe(h: HeapState, h1: HeapState, i: int, k: int, req: int)
    requires Ok(h) && CanPlace(h1, i, k, req) && Ok(Put(h1, i, k, req))
    requires (i < |h.runs| && h1.runs == h.runs) || i == |h1.runs| - 1
    ensures !CutsNeighbour(Put(h1, i, k, req), i)
  {
    hide TotalInUse, TotalSize, InUse, Paged;
    var g := Put(h1, i, k, req);
    assert RunOk(g.runs[i]);
  }

  lemma PutThenTakeOut(h: HeapState, i: int, k: int, req: int)
    requires 0 <= i < |h.runs| && 0 <= k <= |h.runs[i].blocks|
    ensures var g := Put(h, i, k, req);
            && IsBlock(g, i, k) && g.runs[i].blocks[k] == NewBlock(h.runs[i].GapStart(k), req) && TakeOut(g, i, k) == h
  {
    var b := NewBlock(h.runs[i].GapStart(k), req);
    RemoveInsert(h.runs[i], k, b);
    assert Put(h, i, k, req).runs[i := h.runs[i]] == h.runs;
  }

  // ---------- pages ----------

  /** The page a given-up run began with stays mapped although no run owns it. */
  lemma FirstPageLeaks(h: HeapState, i: int)
    requires Ok(h) && 0 <= i < |h.runs| && |h.runs[i].blocks| == 1
    ensures h.runs[i].addr in FreeBlock(h, i, 0).mapped
  {
    hide TotalInUse, TotalSize, InUse, ToInt32;
    var r := h.runs[i];
    assert RunOk(r);
    assert TakeOut(h, i, 0).runs[i].blocks == [];
    PagesMembers(r.addr, r.pages, r.addr);
    PagesMembers(r.addr + PAGE, r.pages, r.addr);
  }

  // ---------- reallocation ----------

  /** After an allocation, the block that was block k of run i is where Follow says. */
  lemma FollowFinds(h: HeapState, i: int, k: int, req: int, avail: nat)
    requires Ok(h) && IsBlock(h, i, k) && Request(req)
    ensures var g := AllocateSized(h, req, avail).0; var b := h.runs[i].blocks[k];
            && -1 <= g.bet < |g.runs| && 0 <= i < |g.runs|
            && IsBlock(g, i, Follow(g.runs[i], k, b)) && g.runs[i].blocks[Follow(g.runs[i], k, b)] == b
  {
    hide TotalInUse, TotalSize, FreshPages, RunsOk, AllocateSized, HasRoom, InUse, Live;
    AllocateSizedOk(h, req, avail);
    var i2, k2, bet := FittingOutcome(h, req, avail);
    var g := AllocateSized(h, req, avail).0;
    if i2 == i && AllocateSized(h, req, avail).1 != 0 {
      var r := h.runs[i];
      var nb := NewBlock(r.GapStart(k2), req);
      assert g.runs[i] == r.Insert(k2, nb);
      if k == k2 {
        LiveHere(h.runs, i, k);
        RoomApart(h, i, k2, req, r.blocks[k]);
      }
    }
  }

  lemma LiveHere(runs: seq<Run>, i: int, k: int)
    requires 0 <= i < |runs| && 0 <= k < |runs[i].blocks|
    ensures Live(runs, runs[i].blocks[k])
  {
  }

  lemma AllocateIsSized(h: HeapState, req: int, avail: nat)
    requires Ok(h) && Sized(req)
    ensures Allocate(h, req, avail) == AllocateSized(h, req, avail)
  {
  }

  /** The live blocks after are those before with b gone and nb come in its place. */
  ghost predicate Replaces(runs: seq<Run>, runs': seq<Run>, b: Block, nb: Block) {
    forall c :: Live(runs', c) <==> (Live(runs, c) && c != b) || c == nb
  }

  ghost predicate Loses(runs: seq<Run>, runs': seq<Run>, b: Block) {
    forall c :: Live(runs', c) <==> Live(runs, c) && c != b
  }

  lemma FreeLoses(h: HeapState, i: int, k: int)
    requires Ok(h) && IsBlock(h, i, k)
    ensures Loses(h.runs, FreeBlock(h, i, k).runs, h.runs[i].blocks[k])
  {
    hide RunsOk, TotalInUse, TotalSize, FreeBlock, Live;
    forall c
      ensures Live(FreeBlock(h, i, k).runs, c) <==> Live(h.runs, c) && c != h.runs[i].blocks[k]
    {
      FreeRemoves(h, i, k, c);
    }
  }

  /** Shrinking keeps the block where it is; only its recorded request changes. */
  lemma ShrinkReplaces(h: HeapState, i: int, k: int, req: int)
    requires Ok(h) && IsBlock(h, i, k) && 0 <= req <= h.runs[i].blocks[k].req
    ensures Ok(SetReq(h, i, k, req))
    ensures Replaces(h.runs, SetReq(h, i, k, req).runs, h.runs[i].blocks[k], h.runs[i].blocks[k].(req := req))
    ensures h.runs[i].blocks[k].(req := req).Ptr() == h.runs[i].blocks[k].Ptr()
  {
    hide TotalInUse, TotalSize, InUse, Live;
    var b, nb := h.runs[i].blocks[k], h.runs[i].blocks[k].(req := req);
    SetReqOk(h, i, k, req);
    var t := TakeOut(h, i, k);
    assert t.runs[i].Insert(k, nb) == Shrunk(h.runs[i], k, req);
    assert t.runs[i := t.runs[i].Insert(k, nb)] == SetReq(h, i, k, req).runs;
    assert t.runs[i := t.runs[i].Insert(k, b)] == h.runs by { RemoveInUse(h.runs[i], k); }
    NotLiveAfter(h, i, k);
    forall c
      ensures Live(SetReq(h, i, k, req).runs, c) <==> (Live(h.runs, c) && c != b) || c == nb
    {
      InsertLive(t.runs, i, k, nb, c);
      InsertLive(t.runs, i, k, b, c);
    }
  }

  /** The walk ends at one run at most. */
  lemma LandsOnce(h: HeapState, i: int, j: int, need: int)
    requires -1 <= h.bet < |h.runs| && 0 <= i < |h.runs| && 0 <= j < |h.runs|
    requires LandsIn(h, i, need) && LandsIn(h, j, need)
    ensures i == j
  {
    hide HasGap;
    var start := if StartsAtBet(h, need) then h.bet else 0;
    assert Before(start, i, j) || Before(start, j, i) || i == j;
  }

  /** Where the runs of a heap end decides what follows them. */
  lemma SameFollowed(h: HeapState, g: HeapState, i: int)
    requires 0 <= i < |h.runs| <= |g.runs| <= |h.runs| + 1
    requires forall j | 0 <= j < |h.runs| :: g.runs[j].addr == h.runs[j].addr && g.runs[j].End() == h.runs[j].End()
    ensures Followed(g, i) <==> Followed(h, i) || (|g.runs| > |h.runs| && g.runs[|h.runs|].addr == h.runs[i].End())
  {
    if j :| 0 <= j < |h.runs| && h.runs[j].addr == h.runs[i].End() { assert g.runs[j].addr == g.runs[i].End(); }
    if j :| 0 <= j < |g.runs| && g.runs[j].addr == g.runs[i].End() {
      if j < |h.runs| { assert h.runs[j].addr == h.runs[i].End(); }
    }
  }

  lemma PlaceRuns(h: HeapState, i: int, k: int, req: int)
    requires 0 <= i < |h.runs| && 0 <= k <= |h.runs[i].blocks|
    ensures var g := Place(h, i, k, req).0;
            && |g.runs| == |h.runs|
            && forall j | 0 <= j < |h.runs| ::
                 && g.runs[j].addr == h.runs[j].addr && g.runs[j].End() == h.runs[j].End()
                 && |g.runs[j].blocks| == |h.runs[j].blocks| + if j == i then 1 else 0
  {
  }

  /** What the heap before a growing reallocation says about the heap in which the old block is given back. */
  lemma GrowthCutsIff(h: HeapState, i: int, k: int, size: int, avail: nat)
    requires Ok(h) && IsBlock(h, i, k) && Sized(size) && !Overfills(h, size, avail)
    ensures -1 <= h.bet < |h.runs| && 0 <= i < |AllocateSized(h, size, avail).0.runs|
    ensures var need := size + PAD + MINOR;
            if !HasRoom(h.runs, need) && PagesRefused(h, size, avail) && 0 < h.runs[i].blocks[k].req then
              !GrowthCuts(h, i, k, size, avail)
            else
              GrowthCuts(h, i, k, size, avail) <==> CutsNeighbour(AllocateSized(h, size, avail).0, i)
  {
    hide TotalInUse, TotalSize, FreshPages, RunsOk, AllocateSized, InUse, Paged, Followed, PagesRefused, LandsIn, Place;
    hide HasGap;
    var need := size + PAD + MINOR;
    var g := AllocateSized(h, size, avail).0;
    LivePointer(h, i, k);
    if !Request(size) {
      var base := OversizeOutcome(h, size, avail);
      SameFollowed(h, g, i);
      NoLanding(h, i, need);
      return;
    }
    AllocateSizedOk(h, size, avail);
    var i2, k2, bet := FittingOutcome(h, size, avail);
    if HasRoom(h.runs, need) {
      PlaceRuns(h.(bet := bet), i2, k2, size);
      SameFollowed(h, g, i);
      if LandsIn(h, i, need) { LandsOnce(h, i, i2, need); }
    } else if PagesRefused(h, size, avail) {
      SameFollowed(h, g, i);
      NoLanding(h, i, need);
    } else {
      var taken := Take(h, FreshPages(size + PAD), avail).0;
      PlaceRuns(taken.(bet := bet), i2, 0, size);
      assert taken.runs[|h.runs|].addr == h.end;
      SameFollowed(h, g, i);
      NoLanding(h, i, need);
    }
  }

  lemma NoLanding(h: HeapState, i: int, need: int)
    requires -1 <= h.bet < |h.runs| && 0 <= i < |h.runs| && !HasRoom(h.runs, need)
    ensures !LandsIn(h, i, need)
  {
  }

  /** Growing fails through a null pointer exactly when the inner allocation is refused and there is something to copy;
      otherwise a fresh block, apart from every old one, takes the old block's place, and the heap stays well formed
      exactly when giving the old block back cuts no neighbour. */
  lemma FittingGrowth(h: HeapState, i: int, k: int, size: int, avail: nat) returns (nb: Block)
    requires Ok(h) && IsBlock(h, i, k) && h.runs[i].blocks[k].req < size && Request(size)
    ensures var (g, q, fault) := Reallocate(h, i, k, size, avail); var b := h.runs[i].blocks[k];
            var refused := !HasRoom(h.runs, size + PAD + MINOR) && PagesRefused(h, size, avail);
            && (Ok(g) <==> !GrowthCuts(h, i, k, size, avail))
            && (fault <==> 0 < b.req && refused)
            && (fault ==> g.runs == h.runs)
            && (refused && b.req == 0 ==> q == 0 && Loses(h.runs, g.runs, b))
            && (!refused ==>
                  && q != 0 && nb.Ptr() == q && nb.req == size
                  && !Live(h.runs, nb) && Replaces(h.runs, g.runs, b, nb))
  {
    hide TotalInUse, TotalSize, FreshPages, RunsOk, AllocateSized, HasRoom, InUse, Live, FreeBlock, Sound, NoneEmpty;
    hide CutsNeighbour, GrowthCuts;
    var b := h.runs[i].blocks[k];
    OkRuns(h);
    assert 0 <= b.req by { LiveHere(h.runs, i, k); LiveOk(h.runs, h.start, h.end, b); }
    AllocateIsSized(h, size, avail);
    nb := FittingAdds(h, size, avail);
    FollowFinds(h, i, k, size, avail);
    LiveHere(h.runs, i, k);
    var (g, q) := AllocateSized(h, size, avail);
    FreeLoses(g, i, Follow(g.runs[i], k, b));
    FreeBlockOkIff(g, i, Follow(g.runs[i], k, b));
    GrowthCutsIff(h, i, k, size, avail);
  }

  lemma LivePointer(h: HeapState, i: int, k: int)
    requires Ok(h) && IsBlock(h, i, k)
    ensures 0 < h.runs[i].blocks[k].Ptr() && 0 <= h.runs[i].blocks[k].req
  {
    hide TotalInUse, TotalSize;
    assert RunOk(h.runs[i]);
    BlockInside(h.runs[i], k);
    PointerFits(h.runs[i].blocks[k]);
  }

  lemma OkRuns(h: HeapState)
    requires Ok(h)
    ensures RunsOk(h.runs, h.start, h.end) && -1 <= h.bet < |h.runs|
  {
  }
}
