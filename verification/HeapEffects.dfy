/** What each call changes, field by field, with the numbers of the source: pages, padding, headers, the best bet. */
module HeapEffects {
  import opened HeapLayout
  import opened HeapSpec
  import opened HeapInvariants
  import opened HeapTheorems
  import opened HeapSizes

  // ---------- pages for a new run ----------

  /** n is the least number of pages, 16 at least, that hold the size with both headers, as 32 bits count it. */
  ghost predicate LeastPages(n: int, size: int) {
    && 16 <= n && (size + 80) % 0x1_0000_0000 <= n * 4096
    && forall m | 16 <= m && (size + 80) % 0x1_0000_0000 <= m * 4096 :: n <= m
  }

  lemma FreshPagesLeast(size: int)
    requires 0 <= size
    ensures LeastPages(FreshPages(size), size)
  {
    var t := (size + 80) % 0x1_0000_0000;
    assert ((size % UINT32 + MAJOR) % UINT32 + MINOR) % UINT32 == t;
    forall m | 16 <= m && t <= m * 4096
      ensures FreshPages(size) <= m
    {
    }
  }

  /** The pages a are those mapped before and the n from the address on. */
  ghost predicate GainsMapped(mapped: set<int>, mapped': set<int>, from: int, n: int) {
    forall a :: a in mapped' <==> a in mapped || (from <= a < from + n * 4096 && (a - from) % 4096 == 0)
  }

  lemma PagesGained(mapped: set<int>, from: int, n: int)
    ensures GainsMapped(mapped, mapped + Pages(from, n), from, n)
  {
    forall a
      ensures a in Pages(from, n) <==> from <= a < from + n * 4096 && (a - from) % 4096 == 0
    {
      PagesMembers(from, n, a);
    }
  }

  // ---------- Allocate ----------

  /** Where the walk over the runs begins: at the best bet when that has more free bytes than needed, else at the root.
      From there it goes round once. */
  ghost function Start(h: HeapState, need: int): (i: int)
    requires -1 <= h.bet < |h.runs|
  {
    if h.bet != -1 && h.runs[h.bet].Size() - h.runs[h.bet].Usage() > need then h.bet else 0
  }

  /** Gap k of run i is where need bytes go: the first such gap of the first run on the walk that has one. */
  ghost predicate FirstRoom(h: HeapState, need: int, i: int, k: int)
    requires -1 <= h.bet < |h.runs|
  {
    && 0 <= i < |h.runs| && 0 <= k <= |h.runs[i].blocks| && need <= h.runs[i].Gap(k)
    && (forall l | 0 <= l < k :: h.runs[i].Gap(l) < need)
    && forall j, l | 0 <= j < |h.runs| && Before(Start(h, need), j, i) && 0 <= l <= |h.runs[j].blocks| ::
         h.runs[j].Gap(l) < need
  }

  ghost predicate NoRoomAnywhere(h: HeapState, need: int) {
    forall j, l | 0 <= j < |h.runs| && 0 <= l <= |h.runs[j].blocks| :: h.runs[j].Gap(l) < need
  }

  lemma RoomIs(h: HeapState, need: int)
    ensures NoRoomAnywhere(h, need) <==> !HasRoom(h.runs, need)
  {
    hide HasGap;
    forall j | 0 <= j < |h.runs|
      ensures HasGap(h.runs[j], need) <==> exists l | 0 <= l <= |h.runs[j].blocks| :: need <= h.runs[j].Gap(l)
    {
      HasGapMeans(h.runs[j], need);
    }
  }

  /** Where the walk finds room is the first room on it. */
  lemma LandsFirst(h: HeapState, i: int, need: int)
    requires -1 <= h.bet < |h.runs| && 0 <= i < |h.runs| && LandsIn(h, i, need)
    ensures FirstRoom(h, need, i, FirstGap(h.runs[i], 0, need))
  {
    hide HasGap;
    HasGapMeans(h.runs[i], need);
    GapIsThere(h.runs[i], need);
    forall j, l | 0 <= j < |h.runs| && Before(Start(h, need), j, i) && 0 <= l <= |h.runs[j].blocks|
      ensures h.runs[j].Gap(l) < need
    {
      HasGapMeans(h.runs[j], need);
    }
  }

  lemma GapIsThere(r: Run, need: int)
    requires HasGap(r, need)
    ensures FirstGap(r, 0, need) <= |r.blocks|
  {
  }

  /** What an allocation within 32 bits changes, field by field; the best bet is left to BestBetAfterAllocate. The
      block of req + 6 bytes begins right behind the one before it, or behind the 40 bytes of its run's header. A
      refusal counts a warning, and one for want of frames leaves the pages mapped that there were frames for. */
  lemma AllocateEffect(h: HeapState, req: int, avail: nat) returns (n: int, i: int, k: int, b: Block)
    requires Ok(h) && 0 <= req < 0x1_0000_0000 - 86
    ensures -1 <= h.bet < |h.runs| && LeastPages(n, req + 6)
    ensures var (g, p) := Allocate(h, req, avail); var need := req + 46;
            if !NoRoomAnywhere(h, need) then
              && FirstRoom(h, need, i, k)
              && var r := h.runs[i];
                 && b == Block(if k == 0 then r.addr + 40 else r.blocks[k - 1].addr + 40 + r.blocks[k - 1].size,
                               req + 6, req)
                 && p == b.Ptr()
                 && g == h.(runs := h.runs[i := Run(r.addr, r.pages, r.blocks[..k] + [b] + r.blocks[k..])],
                            inuse := h.inuse + req + 6, bet := g.bet)
            else if h.end + n * 4096 > h.max then p == 0 && g == h.(warnings := h.warnings + 1, bet := g.bet)
            else if avail < n then
              && p == 0 && GainsMapped(h.mapped, g.mapped, h.end, avail)
              && g == h.(warnings := h.warnings + 1, end := h.end + avail * 4096, mapped := g.mapped, bet := g.bet)
            else
              && b == Block(h.end + 40, req + 6, req) && p == b.Ptr() && GainsMapped(h.mapped, g.mapped, h.end, n)
              && g == h.(runs := h.runs + [Run(h.end, n, [b])], inuse := h.inuse + req + 6, taken := h.taken + n * 4096,
                         end := h.end + n * 4096, mapped := g.mapped, bet := g.bet)
  {
    hide Ok, FreshPages, HasRoom, LandsIn, FirstRoom, AllocateSized, LeastPages, NoRoomAnywhere, FirstGap, PagesRefused;
    hide Place, Take, GainsMapped, HeapSpec.Allocate;
    OkRuns(h);
    AllocateIsSized(h, req, avail);
    n := FreshPages(req + 6);
    FreshPagesLeast(req + 6);
    RoomIs(h, req + 46);
    var bet;
    i, k, bet := FittingOutcome(h, req, avail);
    b := NewBlock(h.end + 40, req);
    TakeEffect(h, req, avail, bet);
    if HasRoom(h.runs, req + 46) {
      LandsFirst(h, i, req + 46);
      b := NewBlock(h.runs[i].GapStart(k), req);
      PlaceEffect(h.(bet := bet), i, k, req);
    } else if !PagesRefused(h, req, avail) {
      NewRunEffect(h, Take(h, n, avail).0.(bet := bet), n, req);
    }
  }

  lemma PlaceEffect(h: HeapState, i: int, k: int, req: int)
    requires 0 <= i < |h.runs| && 0 <= k <= |h.runs[i].blocks|
    ensures var r := h.runs[i];
            var a := if k == 0 then r.addr + 40 else r.blocks[k - 1].addr + 40 + r.blocks[k - 1].size;
            var b := Block(a, req + 6, req);
            && b == NewBlock(r.GapStart(k), req)
            && Place(h, i, k, req) ==
                 (h.(runs := h.runs[i := Run(r.addr, r.pages, r.blocks[..k] + [b] + r.blocks[k..])],
                     inuse := h.inuse + req + 6), b.Ptr())
  {
  }

  lemma NewRunEffect(h: HeapState, g: HeapState, n: int, req: int)
    requires g.runs == h.runs + [Run(h.end, n, [])]
    ensures var b := Block(h.end + 40, req + 6, req);
            b == NewBlock(h.end + 40, req)
            && Place(g, |h.runs|, 0, req) ==
                 (g.(runs := h.runs + [Run(h.end, n, [b])], inuse := g.inuse + req + 6), b.Ptr())
  {
    var b := NewBlock(h.end + 40, req);
    PlaceEffect(g, |h.runs|, 0, req);
    assert [] + [b] + [] == [b];
    assert (h.runs + [Run(h.end, n, [])])[|h.runs| := Run(h.end, n, [b])] == h.runs + [Run(h.end, n, [b])];
  }

  /** Asking the page source for the pages of a run, whatever the best bet. */
  lemma TakeEffect(h: HeapState, req: int, avail: nat, bet: int)
    ensures var n := FreshPages(req + PAD); var g := Take(h, n, avail).0.(bet := bet);
            && (PagesRefused(h, req, avail) <==> h.end + n * 4096 > h.max || avail < n)
            && if h.end + n * 4096 > h.max then g == h.(warnings := h.warnings + 1, bet := bet)
               else if avail < n then
                 && GainsMapped(h.mapped, g.mapped, h.end, avail)
                 && g == h.(warnings := h.warnings + 1, end := h.end + avail * 4096, mapped := g.mapped, bet := bet)
               else
                 && GainsMapped(h.mapped, g.mapped, h.end, n)
                 && g == h.(runs := h.runs + [Run(h.end, n, [])], taken := h.taken + n * 4096, end := h.end + n * 4096,
                            mapped := g.mapped, bet := bet)
  {
    hide FreshPages, GainsMapped, Pages;
    PagesGained(h.mapped, h.end, avail);
    PagesGained(h.mapped, h.end, FreshPages(req + PAD));
  }

  /** The pointer of a block is the first multiple of four that leaves two bytes behind its header. */
  lemma PointerIs(b: Block)
    ensures b.Ptr() % 4 == 0 && b.addr + 42 <= b.Ptr() < b.addr + 46 && b.Delta() == b.Ptr() - (b.addr + 42)
  {
  }

  // ---------- the best bet after an allocation ----------

  /** On a walk from start on, run j has been looked at when run upto has; all runs have when upto is -1. */
  predicate Looked(start: int, upto: int, j: int) {
    upto == -1 || j == upto || Before(start, j, upto)
  }

  /** bet' is the best bet of one who knew bet and has walked up to run upto: it has the most free bytes of all runs
      looked at, and is the first of these, with bet before all. */
  ghost predicate BestOf(runs: seq<Run>, bet: int, start: int, upto: int, bet': int)
    requires -1 <= bet < |runs|
  {
    && -1 <= bet' < |runs|
    && var most := if bet' == -1 then 0 else runs[bet'].Size() - runs[bet'].Usage();
       var first := if bet == -1 then 0 else runs[bet].Size() - runs[bet].Usage();
       && (forall j | 0 <= j < |runs| && Looked(start, upto, j) :: runs[j].Size() - runs[j].Usage() <= most)
       && first <= most
       && (bet' != bet ==>
             && bet' != -1 && Looked(start, upto, bet') && first < most
             && forall j | 0 <= j < |runs| && Looked(start, upto, j) && Before(start, j, bet') ::
                  runs[j].Size() - runs[j].Usage() < most)
  }

  ghost function Upto(n: int, started: bool, o: Outcome): (i: int) {
    if o.Found? then o.run else if started then -1 else n
  }

  lemma {:induction false} SearchBest(runs: seq<Run>, i: int, started: bool, bet: int, need: int)
    requires 0 <= i < |runs| && -1 <= bet < |runs|
    ensures var o := Search(runs, i, started, bet, need); BestOf(runs, bet, i, Upto(|runs|, started, o), o.bet)
    decreases started, |runs| - i
  {
    hide HasGap, BestOf;
    var o := Search(runs, i, started, bet, need);
    var bet' := Better(runs, bet, i);
    SearchFinds(runs, i, started, bet, need);
    if HasGap(runs[i], need) {
      BestHere(runs, i, bet);
    } else if i + 1 < |runs| {
      SearchBest(runs, i + 1, started, bet', need);
      BestStep(runs, i, bet, i + 1, Upto(|runs|, started, o), Upto(|runs|, started, o), o.bet);
    } else if started {
      SearchBest(runs, 0, false, bet', need);
      BestStep(runs, i, bet, 0, Upto(|runs|, false, o), Upto(|runs|, started, o), o.bet);
    } else {
      BestHere(runs, i, bet);
      BestLast(runs, i, bet, o.bet);
    }
  }

  lemma BestHere(runs: seq<Run>, i: int, bet: int)
    requires 0 <= i < |runs| && -1 <= bet < |runs|
    ensures BestOf(runs, bet, i, i, Better(runs, bet, i))
  {
  }

  lemma BestLast(runs: seq<Run>, i: int, bet: int, bet': int)
    requires i == |runs| - 1 && -1 <= bet < |runs| && 0 <= i && BestOf(runs, bet, i, i, bet')
    ensures BestOf(runs, bet, i, |runs|, bet')
  {
  }

  /** Looking at run i first, and then at the rest of the walk. */
  lemma BestStep(runs: seq<Run>, i: int, bet: int, next: int, upto: int, upto': int, bet': int)
    requires 0 <= i < |runs| && -1 <= bet < |runs| && BestOf(runs, Better(runs, bet, i), next, upto, bet')
    requires next == if i + 1 < |runs| then i + 1 else 0
    requires upto' == upto || (upto == |runs| && upto' == -1 && next == 0)
    requires upto != i && -1 <= upto <= |runs| && (upto == -1 ==> upto' == -1)
    requires next == 0 && upto == |runs| ==> upto' == -1
    ensures BestOf(runs, bet, i, upto', bet')
  {
  }

  /** The best bet after an allocation of need - 46 bytes that came to g and p, in a heap with runs. The walk has
      looked at the runs up to the first with room, or at all of them; and at the run just taken, after all others,
      when the last one had enough free bytes, though no gap. */
  ghost predicate BestAfter(h: HeapState, need: int, g: HeapState, p: int)
    requires -1 <= h.bet < |h.runs| && h.runs != []
  {
    var last := |h.runs|;
    if !NoRoomAnywhere(h, need) then
      exists i, k :: FirstRoom(h, need, i, k) && BestOf(h.runs, h.bet, Start(h, need), i, g.bet)
    else if p == 0 || h.runs[last - 1].Size() - h.runs[last - 1].Usage() < need then
      BestOf(h.runs, h.bet, Start(h, need), -1, g.bet)
    else
      exists bet | -1 <= bet < last ::
        && BestOf(h.runs, h.bet, Start(h, need), -1, bet)
        && var most := if bet == -1 then 0 else h.runs[bet].Size() - h.runs[bet].Usage();
           g.bet == if most < (g.end - h.end) - 40 then last else bet
  }

  /** The best bet after an allocation within 32 bits, told from the heap before. A heap's first run is looked at,
      too. */
  lemma BestBetAfterAllocate(h: HeapState, req: int, avail: nat)
    requires Ok(h) && 0 <= req < 0x1_0000_0000 - 86
    ensures -1 <= h.bet < |h.runs|
    ensures var (g, p) := Allocate(h, req, avail);
            if h.runs == [] then g.bet == if p == 0 then -1 else 0 else BestAfter(h, req + 46, g, p)
  {
    hide Ok, AllocateSized, BestAfter;
    OkRuns(h);
    AllocateIsSized(h, req, avail);
    if h.runs == [] {
      FirstBest(h, req, avail);
    } else {
      WalkBest(h, req, avail);
    }
  }

  lemma WalkBest(h: HeapState, req: int, avail: nat)
    requires Ok(h) && Request(req) && h.runs != []
    ensures -1 <= h.bet < |h.runs| && var (g, p) := AllocateSized(h, req, avail); BestAfter(h, req + 46, g, p)
  {
    hide Ok, FirstRoom, NoRoomAnywhere, FirstGap, HasGap, BestOf, Search, Grow, Place;
    OkRuns(h);
    var need := req + 46;
    var o := Search(h.runs, Start(h, need), StartsAtBet(h, need), h.bet, need);
    SearchBest(h.runs, Start(h, need), StartsAtBet(h, need), h.bet, need);
    if o.Found? {
      FoundFirst(h, need, o.run);
      GapIsThere(h.runs[o.run], need);
      PlaceBet(h.(bet := o.bet), o.run, FirstGap(h.runs[o.run], 0, need), req);
      assert FirstRoom(h, need, o.run, FirstGap(h.runs[o.run], 0, need));
    } else {
      NoneFound(h, need, o);
      BetIsFree(h, o.bet);
      GrowBest(h.(bet := o.bet), req, avail);
    }
  }

  lemma BetIsFree(h: HeapState, bet: int)
    requires Ok(h) && -1 <= bet < |h.runs|
    ensures Ok(h.(bet := bet))
  {
  }

  lemma FirstBest(h: HeapState, req: int, avail: nat)
    requires Ok(h) && h.runs == [] && Request(req)
    ensures h.bet == -1 && AllocateSized(h, req, avail).0.bet == if AllocateSized(h, req, avail).1 == 0 then -1 else 0
  {
    hide FreshPages, TotalInUse, TotalSize, Paged, WalkRuns;
    FirstOutcome(h, req, avail);
  }

  lemma FoundFirst(h: HeapState, need: int, i: int)
    requires -1 <= h.bet < |h.runs| && 0 <= i < |h.runs| && HasGap(h.runs[i], need)
    requires var o := Search(h.runs, Start(h, need), StartsAtBet(h, need), h.bet, need); o.Found? && o.run == i
    ensures FirstRoom(h, need, i, FirstGap(h.runs[i], 0, need)) && !NoRoomAnywhere(h, need)
  {
    hide HasGap, Search;
    SearchFinds(h.runs, Start(h, need), StartsAtBet(h, need), h.bet, need);
    LandsFirst(h, i, need);
  }

  lemma PlaceBet(h: HeapState, i: int, k: int, req: int)
    requires 0 <= i < |h.runs| && 0 <= k <= |h.runs[i].blocks|
    ensures Place(h, i, k, req).0.bet == h.bet
  {
  }

  lemma NoneFound(h: HeapState, need: int, o: Outcome)
    requires -1 <= h.bet < |h.runs| && h.runs != []
    requires o == Search(h.runs, Start(h, need), StartsAtBet(h, need), h.bet, need) && o.Missing?
    ensures NoRoomAnywhere(h, need) && BestOf(h.runs, h.bet, Start(h, need), -1, o.bet)
  {
    hide HasGap, Search, BestOf, NoRoomAnywhere;
    var s := StartsAtBet(h, need);
    SearchFinds(h.runs, Start(h, need), s, h.bet, need);
    SearchBest(h.runs, Start(h, need), s, h.bet, need);
    RoomIs(h, need);
    if !s { WholeWalk(h.runs, h.bet, o.bet); }
  }

  lemma WholeWalk(runs: seq<Run>, bet: int, bet': int)
    requires -1 <= bet < |runs| && BestOf(runs, bet, 0, |runs|, bet')
    ensures BestOf(runs, bet, 0, -1, bet')
  {
  }

  lemma GrowBest(h: HeapState, req: int, avail: nat)
    requires Ok(h) && Request(req) && h.runs != []
    ensures var (g, p) := Grow(h, req, avail); var last := |h.runs|;
            if p == 0 || h.runs[last - 1].Free() < req + 46 then g.bet == h.bet
            else g.bet == if BetFree(h.runs, h.bet) < (g.end - h.end) - 40 then last else h.bet
  {
    hide FreshPages, TotalInUse, TotalSize, Paged, RunsOk;
    var bet := GrowOutcome(h, req, avail);
  }

  // ---------- Free ----------

  /** How the source reads a number as a 32-bit int. */
  function AsInt(x: int): (n: int) {
    if x % 0x1_0000_0000 < 0x8000_0000 then x % 0x1_0000_0000 else x % 0x1_0000_0000 - 0x1_0000_0000
  }

  /** What a free changes, field by field. While its run keeps a block: the run, the bytes in use, and perhaps the
      best bet, which becomes this run exactly when there was another and this one now has more free bytes, both read
      as ints; a tie keeps the old one. With the run's last block the run goes: its size, the end of the heap when
      that was the run's, the best bet when it was the run, and the pages from the second on up to the one past its
      end. */
  lemma FreeEffect(h: HeapState, i: int, k: int)
    requires Ok(h) && IsBlock(h, i, k)
    ensures -1 <= h.bet < |h.runs|
    ensures var f := FreeBlock(h, i, k); var r, b := h.runs[i], h.runs[i].blocks[k];
            var r' := Run(r.addr, r.pages, r.blocks[..k] + r.blocks[k + 1..]);
            if |r.blocks| > 1 then
              && f == h.(runs := h.runs[i := r'], inuse := h.inuse - b.size, bet := f.bet)
              && f.bet == if h.bet != -1
                             && AsInt(r'.Size() - r'.Usage()) > AsInt(f.runs[h.bet].Size() - f.runs[h.bet].Usage())
                          then i else h.bet
            else
              && f == h.(runs := h.runs[..i] + h.runs[i + 1..], inuse := h.inuse - b.size,
                         taken := h.taken - r.pages * 4096,
                         end := if r.addr + r.pages * 4096 == h.end then r.addr else h.end,
                         bet := f.bet, mapped := f.mapped)
              && f.bet == (if h.bet == i then -1 else if i < h.bet then h.bet - 1 else h.bet)
              && forall a :: a in f.mapped <==>
                   a in h.mapped && !(r.addr < a <= r.addr + r.pages * 4096 && (a - r.addr) % 4096 == 0)
  {
    hide TotalInUse, TotalSize, Paged, Pages, RunsOk, InUse;
    var r := h.runs[i];
    var t := TakeOut(h, i, k);
    if |r.blocks| == 1 {
      assert t.runs[..i] == h.runs[..i] && t.runs[i + 1..] == h.runs[i + 1..];
      var second := r.addr + PAGE;
      forall a
        ensures a in Pages(second, r.pages) <==> r.addr < a <= r.addr + r.pages * 4096 && (a - r.addr) % 4096 == 0
      {
        PagesMembers(second, r.pages, a);
        SamePageOffset(a, r.addr);
      }
    }
  }

  lemma SamePageOffset(a: int, b: int)
    ensures (a - (b + PAGE)) % PAGE == 0 <==> (a - b) % 4096 == 0
    ensures (a - b) % 4096 == 0 && a > b ==> a >= b + 4096
    ensures (a - b) % 4096 == 0 && a < b + PAGE ==> a <= b
  {
  }

  /** In a heap of at most 2 GiB, the best bet after a free that leaves its run with a block is the old one or that run,
      whichever has more free bytes then, and the old one when they have the same. */
  lemma BestBetAfterFree(h: HeapState, i: int, k: int)
    requires Ok(h) && IsBlock(h, i, k) && |h.runs[i].blocks| > 1 && h.bet != -1 && h.max - h.start <= 0x8000_0000
    ensures -1 <= h.bet < |h.runs| == |FreeBlock(h, i, k).runs| && 0 <= FreeBlock(h, i, k).bet < |h.runs|
    ensures var f := FreeBlock(h, i, k);
            var here, there, best := f.runs[i].Free(), f.runs[h.bet].Free(), f.runs[f.bet].Free();
            && (f.bet == h.bet || f.bet == i) && best >= here && best >= there && (here <= there ==> f.bet == h.bet)
  {
    hide TotalInUse, TotalSize, Paged, InUse, RunOk;
    FreeEffect(h, i, k);
    var f := FreeBlock(h, i, k);
    TakeOutSound(h, i, k);
    SmallTotals(TakeOut(h, i, k), i);
    SmallTotals(TakeOut(h, i, k), h.bet);
  }

  lemma SmallTotals(h: HeapState, i: int)
    requires RunsOk(h.runs, h.start, h.end) && h.end <= h.max && h.max - h.start <= 0x8000_0000 && 0 <= i < |h.runs|
    ensures 0 <= h.runs[i].Free() < 0x8000_0000 && AsInt(h.runs[i].Free()) == h.runs[i].Free()
  {
    assert RunOk(h.runs[i]);
    SkipIsSound(h.runs[i], 0);
    InUseNonNegative(h.runs[i].blocks);
  }

  // ---------- Reallocate ----------

  /** A shrinking reallocation, or one to the size there is, keeps the pointer and records the size asked for, and
      changes nothing else. */
  lemma ShrinkRecords(h: HeapState, i: int, k: int, size: int, avail: nat)
    requires Ok(h) && IsBlock(h, i, k) && 0 < size <= h.runs[i].blocks[k].req
    ensures -1 <= h.bet < |h.runs|
    ensures var (g, q, fault) := Reallocate(h, i, k, size, avail); var b := h.runs[i].blocks[k];
            && !fault && q == b.Ptr() && Ok(g) && g == h.(runs := g.runs)
            && IsBlock(g, i, k) && g.runs[i].blocks[k] == b.(req := size)
            && Replaces(h.runs, g.runs, b, b.(req := size))
  {
    hide Ok, Live, Replaces;
    OkRuns(h);
    ShrinkReplaces(h, i, k, size);
  }

  /** A reallocation to nothing is a free, and answers NULL. */
  lemma ZeroIsFree(h: HeapState, i: int, k: int, avail: nat)
    requires Ok(h) && IsBlock(h, i, k)
    ensures -1 <= h.bet < |h.runs|
    ensures var (g, q, fault) := Reallocate(h, i, k, 0, avail);
            !fault && q == 0 && g == FreeBlock(h, i, k) && Loses(h.runs, g.runs, h.runs[i].blocks[k])
  {
    hide Ok, Live, Loses, FreeBlock;
    OkRuns(h);
    FreeLoses(h, i, k);
  }

  /** Shrunk to s, a block is not grown in place: a reallocation to more than s comes back with another pointer, or with
      none, whatever was asked for first. */
  lemma ShrinkIsKept(h: HeapState, i: int, k: int, s: int, t: int, avail: nat, avail': nat)
    requires Ok(h) && IsBlock(h, i, k) && 0 < s <= h.runs[i].blocks[k].req && s < t && Sized(t)
    ensures -1 <= h.bet < |h.runs|
    ensures var (g, q, _) := Reallocate(h, i, k, s, avail);
            && -1 <= g.bet < |g.runs| && IsBlock(g, i, k)
            && var (g', q', fault) := Reallocate(g, i, k, t, avail'); q' != q && (q' == 0 ==> fault)
  {
    hide Ok, Live, Replaces, AllocateSized, FreeBlock, GrowthCuts, HasRoom, PagesRefused, Sound;
    ShrinkRecords(h, i, k, s, avail);
    var (g, q, _) := Reallocate(h, i, k, s, avail);
    var b := g.runs[i].blocks[k];
    OkRuns(g);
    LiveHere(g.runs, i, k);
    AllocateIsSized(g, t, avail');
    var c := AllocateAdds(g, t, avail');
    var nb := GrowReplaces(g, i, k, t, avail');
    if AllocateSized(g, t, avail').1 != 0 { OtherPointer(g, b, c, t); }
    LivePointer(g, i, k);
  }

  /** A block apart from b has another pointer. */
  lemma OtherPointer(g: HeapState, b: Block, c: Block, t: int)
    requires Ok(g) && Live(g.runs, b) && 0 <= t
    requires b.End() <= c.addr || (c == NewBlock(c.addr, t) && c.End() <= b.addr)
    ensures c.Ptr() != b.Ptr()
  {
    hide TotalInUse, TotalSize, Paged, Live;
    LiveOk(g.runs, g.start, g.end, b);
    PointerFits(b);
    if c.End() <= b.addr && c == NewBlock(c.addr, t) { PointerFits(c); }
  }

  // ---------- calls of other kinds ----------

  /** A pointer to a header without the magic number counts an error, and an overrun exactly when the header's lowest
      byte is that of the magic number, 0xc001c0de: two or three matching bytes have that one among them. */
  lemma RejectedCounts(h: HeapState, magic: int)
    ensures Rejected(h, magic) ==
            h.(errors := h.errors + 1, overruns := if magic % 0x100 == 0xde then h.overruns + 1 else h.overruns)
    ensures MAGIC == 0xc001c0de && DEAD == 0xdeaddead && Rejected(h, DEAD) == h.(errors := h.errors + 1)
  {
    LowBytes(magic);
  }

  lemma LowBytes(x: int)
    ensures (x % 0x1_0000) % 0x100 == x % 0x100 && (x % 0x100_0000) % 0x100 == x % 0x100
  {
    SameLowByte(x, x % 0x1_0000, 0x100 * (x / 0x1_0000));
    SameLowByte(x, x % 0x100_0000, 0x1_0000 * (x / 0x100_0000));
  }

  lemma SameLowByte(x: int, y: int, q: int)
    requires x == 0x100 * q + y
    ensures x % 0x100 == y % 0x100
  {
  }

  /** The request of 2^64 - 6 bytes, which the padding wraps round to nothing, counts a warning and is served as one
      byte. */
  lemma WrappedIsOneByte(h: HeapState, avail: nat)
    requires -1 <= h.bet < |h.runs|
    ensures Allocate(h, 0x1_0000_0000_0000_0000 - 6, avail) == Allocate(h.(warnings := h.warnings + 1), 1, avail)
  {
  }

  /** The block of a request beyond 32 bits that gets pages: right behind the header of the last run, with what is
      left of its sizes in 32 bits, while the heap is charged for all of it. */
  lemma OversizeEffect(base: HeapState, req: int)
    requires base.runs != [] && base.runs[|base.runs| - 1].blocks == []
    ensures var i, r := |base.runs| - 1, base.runs[|base.runs| - 1];
            var b := Block(r.addr + 40, (req + 6) % 0x1_0000_0000, req % 0x1_0000_0000);
            PlaceBlind(base, i, req) == (base.(runs := base.runs[i := Run(r.addr, r.pages, [b])],
                                               inuse := base.inuse + req + 6), b.Ptr())
  {
  }
}
