/** When the heap's fields, headers and bytes represent an abstract heap, and how each
    group of writes carries that over to the abstract heap after it. */
module HeapRep {
  import opened HeapLayout
  import opened HeapSpec
  import opened HeapInvariants
  import opened HeapHeaders
  import opened HeapBytes
  import opened HeapTheorems

  ghost predicate Represents(h: HeapState, root: int, best: int, mj: map<int, Major>, mn: map<int, Minor>,
                             m: seq<byte>) {
    && Sound(h)
    && |m| == h.max
    && root == RunAddr(h.runs, 0)
    && best == RunAddr(h.runs, h.bet)
    && MajorsAgree(mj, h.runs)
    && AllMinorsAgree(mn, h.runs)
    && MagicIsLive(mn, h.runs)
    && OffsetsOk(h.runs, m)
  }

  lemma RepFacts(h: HeapState, root: int, best: int, mj: map<int, Major>, mn: map<int, Minor>, m: seq<byte>)
    requires Represents(h, root, best, mj, mn, m)
    ensures Sound(h) && |m| == h.max && 0 < h.start <= h.end <= h.max && RunsOk(h.runs, h.start, h.end)
    ensures forall i | 0 <= i < |h.runs| :: h.runs[i].addr in mj
    ensures MajorsAgree(mj, h.runs) && KeepsAll(h.runs, m, m)
  {
  }

  /** The headers of the pages from the end of the heap up to e are in nobody's way. */
  lemma BeyondAgrees(mj: map<int, Major>, mn: map<int, Minor>, runs: seq<Run>, start: int, end: int, e: int)
    requires RunsOk(runs, start, end) && MajorsAgree(mj, runs) && AllMinorsAgree(mn, runs) && MagicIsLive(mn, runs)
    ensures MajorsAgree(Overwrite(mj, end, e), runs)
    ensures AllMinorsAgree(Overwrite(mn, end, e), runs) && MagicIsLive(Overwrite(mn, end, e), runs)
  {
    OutsideAgrees(mj, mn, runs, end, e, start, end);
  }

  /** Taking the first run: when it succeeds the list is that run, with the header just written. */
  lemma RootRep(h: HeapState, root: int, best: int, mj: map<int, Major>, mn: map<int, Minor>, m: seq<byte>,
                m1: seq<byte>, n: int, avail: nat)
    requires Represents(h, root, best, mj, mn, m) && h.runs == [] && MIN_PAGES <= n && |m1| == |m|
    ensures var t := Take(h, n, avail); var mj0 := Overwrite(mj, h.end, t.0.end);
            Represents(t.0, if t.1 then h.end else 0, best, if t.1 then mj0[h.end := FreshMajor(n)] else mj0,
                       Overwrite(mn, h.end, t.0.end), m1)
  {
    hide Paged;
    var e := Take(h, n, avail).0.end;
    TakeSound(h, n, avail);
    BeyondAgrees(mj, mn, h.runs, h.start, h.end, e);
    FirstMajorAgrees(Overwrite(mj, h.end, e), h.end, n);
    EmptyRunMinors(Overwrite(mn, h.end, e), h.runs, h.end, n);
  }

  /** The two headers written when a run is appended hold no block's bytes, and the last one survives the mapping. */
  lemma NextApart(h: HeapState, mj: map<int, Major>, n: int, avail: nat)
    requires Sound(h) && h.runs != [] && MIN_PAGES <= n && MajorsAgree(mj, h.runs)
    ensures var last := h.runs[|h.runs| - 1];
            && Apart(h.runs, last.addr, last.addr + MAJOR) && 0 <= last.addr && last.addr + MAJOR <= h.end
            && last.addr in Overwrite(mj, h.end, Take(h, n, avail).0.end)
    ensures Apart(h.runs, h.end, h.end + MAJOR)
    ensures Take(h, n, avail).1 ==> h.end + MAJOR <= h.max && h.end != h.runs[|h.runs| - 1].addr
  {
    hide Paged;
    MajorApart(h.runs, |h.runs| - 1, h.start, h.end);
    BeyondApart(h.runs, h.start, h.end, h.end, h.end + MAJOR);
  }

  lemma NextRep(h: HeapState, root: int, best: int, mj: map<int, Major>, mn: map<int, Minor>, m: seq<byte>,
                m1: seq<byte>, n: int, avail: nat)
    requires Represents(h, root, best, mj, mn, m) && h.runs != [] && MIN_PAGES <= n && KeepsAll(h.runs, m, m1)
    ensures var t := Take(h, n, avail); var mj0 := Overwrite(mj, h.end, t.0.end);
            && h.runs[|h.runs| - 1].addr in mj0
            && Represents(t.0, root, best, if t.1 then AppendMajor(mj0, h.runs, h.end, n) else mj0,
                          Overwrite(mn, h.end, t.0.end), m1)
  {
    hide Paged;
    var e := Take(h, n, avail).0.end;
    TakeSound(h, n, avail);
    BeyondAgrees(mj, mn, h.runs, h.start, h.end, e);
    AppendAgrees(Overwrite(mj, h.end, e), h.runs, h.end, n, h.start);
    EmptyRunMinors(Overwrite(mn, h.end, e), h.runs, h.end, n);
    KeepsOffsets(h.runs, m, m1, h.start, h.end);
  }

  // ---------- placing a block ----------

  /** The major's header after a placement at gap k. */
  function Charged(mj: map<int, Major>, r: Run, k: int, b: Block): (ms: map<int, Major>)
    requires r.addr in mj
  {
    var h := mj[r.addr];
    mj[r.addr := h.(usage := h.usage + b.size + MINOR, first := if k == 0 then b.addr else h.first)]
  }

  lemma RunIsOk(runs: seq<Run>, i: int, lo: int, hi: int)
    requires RunsOk(runs, lo, hi) && 0 <= i < |runs|
    ensures RunOk(runs[i])
  {
  }

  /** What a placement may write to, and what it reads. */
  lemma PlaceFacts(h: HeapState, root: int, best: int, mj: map<int, Major>, mn: map<int, Minor>, m: seq<byte>, i: int,
                   k: int, req: int)
    requires Represents(h, root, best, mj, mn, m) && CanPlace(h, i, k, req)
    ensures var r := h.runs[i]; var b := NewBlock(r.GapStart(k), req); var mn0 := Overwrite(mn, b.addr, b.End());
            && BlockOk(b) && r.addr in mj && mj[r.addr] == MajorAt(h.runs, i)
            && 0 <= r.addr && r.addr + MAJOR <= |m| && Apart(h.runs, r.addr, r.addr + MAJOR)
            && 0 <= b.addr && b.End() <= |m| && Apart(h.runs, b.addr, b.End())
            && mj[r.addr].first == BlockAddr(r, 0) && MinorsAgree(mn0, r)
    ensures 0 < k ==> Neighbour(h, mn, m, i, k - 1, h.runs[i].GapStart(k), req)
    ensures k < |h.runs[i].blocks| ==> Neighbour(h, mn, m, i, k, h.runs[i].GapStart(k), req)
    ensures 0 < k < |h.runs[i].blocks| ==> h.runs[i].blocks[k - 1].addr != h.runs[i].blocks[k].addr
    ensures KeepsAll(h.runs, m, m)
  {
    hide OffsetsOk, MagicIsLive, AllMinorsAgree, TotalInUse, TotalSize, Neighbour, Apart, RunsOk, MinorsAgree;
    var r := h.runs[i];
    var b := NewBlock(r.GapStart(k), req);
    RunIsOk(h.runs, i, h.start, h.end);
    assert Fits(r, k, b);
    assert mj[r.addr] == MajorAt(h.runs, i);
    MajorApart(h.runs, i, h.start, h.end);
    NewBlockApart(h.runs, i, k, b, h.start, h.end);
    PlacedAgrees(mn, h.runs, i, k, b, h.start, h.end);
    if k > 0 { IsNeighbour(h, root, best, mj, mn, m, i, k, k - 1, req); }
    if k < |r.blocks| { IsNeighbour(h, root, best, mj, mn, m, i, k, k, req); }
    if 0 < k < |r.blocks| { BlocksDistinct(r, k - 1, k); }
  }

  /** What the first block of an empty run, whatever its size, writes to. */
  lemma BlindFacts(h: HeapState, root: int, best: int, mj: map<int, Major>, mn: map<int, Minor>, m: seq<byte>, i: int)
    requires Represents(h, root, best, mj, mn, m) && 0 <= i < |h.runs| && h.runs[i].blocks == []
    ensures var r := h.runs[i]; var a := r.addr + MAJOR;
            && 0 < r.addr && r.addr in mj && mj[r.addr] == MajorAt(h.runs, i) && a + MINOR + PAD <= |m|
            && Apart(h.runs, r.addr, a) && Apart(h.runs, a, a + MINOR) && Apart(h.runs, a + MINOR, a + MINOR + PAD)
    ensures KeepsAll(h.runs, m, m)
  {
    hide OffsetsOk, MagicIsLive, AllMinorsAgree, TotalInUse, TotalSize, Apart, MinorsAgree, Paged;
    var r := h.runs[i];
    assert RunOk(r) && mj[r.addr] == MajorAt(h.runs, i);
    MajorApart(h.runs, i, h.start, h.end);
    ApartInRun(h.runs, i, r.addr + MAJOR, r.addr + MAJOR + MINOR, h.start, h.end);
    ApartInRun(h.runs, i, r.addr + MAJOR + MINOR, r.addr + MAJOR + MINOR + PAD, h.start, h.end);
  }

  /** The run's usage with the block placed still fits its 32-bit field. */
  lemma UsageFits(h: HeapState, i: int, k: int, req: int)
    requires Sound(h) && CanPlace(h, i, k, req)
    ensures Request(req) && 0 <= h.runs[i].Usage() && h.runs[i].Usage() + req + PAD + MINOR < UINT32
  {
    hide TotalInUse, TotalSize, Paged;
    assert RunOk(h.runs[i]);
    SkipIsSound(h.runs[i], k);
    InUseNonNegative(h.runs[i].blocks);
  }

  /** Block l's header lies in memory, away from every block's bytes, and survives a placement at a. */
  ghost predicate Neighbour(h: HeapState, mn: map<int, Minor>, m: seq<byte>, i: int, l: int, a: int, req: int)
    requires 0 <= i < |h.runs| && 0 <= l < |h.runs[i].blocks|
  {
    var x := h.runs[i].blocks[l].addr;
    && 0 <= x && x + MINOR <= |m| && Apart(h.runs, x, x + MINOR) && x != a
    && x in mn && mn[x] == MinorAt(h.runs[i], l)
    && x in Overwrite(mn, a, NewBlock(a, req).End())
  }

  lemma IsNeighbour(h: HeapState, root: int, best: int, mj: map<int, Major>, mn: map<int, Minor>, m: seq<byte>, i: int,
                    k: int, l: int, req: int)
    requires Represents(h, root, best, mj, mn, m) && CanPlace(h, i, k, req) && 0 <= l < |h.runs[i].blocks|
    ensures Neighbour(h, mn, m, i, l, h.runs[i].GapStart(k), req)
  {
    var r := h.runs[i];
    var b := NewBlock(r.GapStart(k), req);
    assert RunOk(r) && Fits(r, k, b) && MinorsAgree(mn, r);
    MinorApart(h.runs, i, l, h.start, h.end);
    GapIsNoBlock(r, k, b, l);
    OverwriteKeepsRun(mn, r, k, b);
    assert mn[r.blocks[l].addr] == MinorAt(r, l);
  }

  /** The three header writes of CASE 4.2 come in another order; the headers end up the same. */
  lemma BetweenWrites(mn: map<int, Minor>, r: Run, k: int, b: Block)
    requires 0 < k < |r.blocks|
    requires r.blocks[k - 1].addr in mn && r.blocks[k].addr in mn
    requires r.blocks[k - 1].addr != r.blocks[k].addr && b.addr != r.blocks[k].addr && b.addr != r.blocks[k - 1].addr
    ensures var min, next := r.blocks[k - 1].addr, r.blocks[k].addr;
            var m1 := mn[b.addr := Minor(min, next, r.addr, MAGIC, b.size, b.req)];
            var m2 := m1[next := m1[next].(prev := b.addr)];
            m2[min := m2[min].(next := b.addr)] == LinkIn(mn, r, k, b)
  {
  }

  lemma PlaceRep(h: HeapState, root: int, best: int, mj: map<int, Major>, mn: map<int, Minor>, m: seq<byte>,
                 m1: seq<byte>, i: int, k: int, req: int)
    requires Represents(h, root, best, mj, mn, m) && CanPlace(h, i, k, req)
    requires |m1| == |m| && KeepsAll(h.runs, m, m1) && OffsetOk(NewBlock(h.runs[i].GapStart(k), req), m1)
    ensures var r := h.runs[i]; var b := NewBlock(r.GapStart(k), req); var mn0 := Overwrite(mn, b.addr, b.End());
            && r.addr in mj && MinorsAgree(mn0, r)
            && Represents(Put(h, i, k, req), root, best, Charged(mj, r, k, b), LinkIn(mn0, r, k, b), m1)
  {
    hide Apart, TotalInUse, TotalSize, InUse, KeepsAll, OffsetOk;
    var r := h.runs[i];
    var b := NewBlock(r.GapStart(k), req);
    var q := r.Insert(k, b);
    assert Fits(r, k, b);
    PutSound(h, i, k, req);
    InsertInUse(r, k, b);
    assert mj[r.addr] == MajorAt(h.runs, i);
    MajorReplaced(mj, h.runs, i, q, h.start, h.end);
    assert Charged(mj, r, k, b) == mj[q.addr := mj[q.addr].(usage := q.Usage(), first := BlockAddr(q, 0))];
    PlacedAgrees(mn, h.runs, i, k, b, h.start, h.end);
    KeepsOffsets(h.runs, m, m1, h.start, h.end);
    PlacedOffsets(h.runs, i, k, b, m1);
    SameAddresses(h.runs, i, q, 0);
    SameAddresses(h.runs, i, q, h.bet);
  }

  /** The header writes for the first block of an empty run, in 32-bit fields that suffice. */
  lemma BlindWrites(mj: map<int, Major>, mn: map<int, Minor>, runs: seq<Run>, i: int, req: int)
    requires 0 <= i < |runs| && runs[i].blocks == [] && runs[i].addr in mj && mj[runs[i].addr] == MajorAt(runs, i)
    requires Request(req) && 0 <= runs[i].Usage() && runs[i].Usage() + req + PAD + MINOR < UINT32
    ensures var maj := runs[i].addr; var a, size := maj + MAJOR, req + PAD; var b := NewBlock(a, req);
            && a == runs[i].GapStart(0)
            && mj[maj := mj[maj].(first := a, usage := (mj[maj].usage + size + MINOR) % UINT32)]
               == Charged(mj, runs[i], 0, b)
            && mn[a := Minor(0, 0, maj, MAGIC, size % UINT32, req % UINT32)] == LinkIn(mn, runs[i], 0, b)
  {
  }

  /** The first block of an empty run, when it fits there. */
  lemma BlindRep(h: HeapState, root: int, best: int, mj: map<int, Major>, mn: map<int, Minor>,
                 m: seq<byte>, m1: seq<byte>, i: int, req: int)
    requires Represents(h, root, best, mj, mn, m) && CanPlace(h, i, 0, req) && h.runs[i].blocks == []
    requires |m1| == |m| && KeepsAll(h.runs, m, m1) && OffsetOk(Block(h.runs[i].addr + MAJOR, PAD, 0), m1)
    ensures var maj := h.runs[i].addr; var a, size := maj + MAJOR, req + PAD;
            && maj in mj && PlaceBlind(h, i, req) == Place(h, i, 0, req)
            && Represents(PlaceBlind(h, i, req).0, root, best,
                          mj[maj := mj[maj].(first := a, usage := (mj[maj].usage + size + MINOR) % UINT32)],
                          Overwrite(mn, a, a + MINOR + size)[a := Minor(0, 0, maj, MAGIC, size % UINT32, req % UINT32)],
                          m1)
  {
    hide Represents, KeepsAll, Apart, MinorsAgree, InUse, Sound, Overwrite, Neighbour, PlaceBlind, Put;
    RepFacts(h, root, best, mj, mn, m);
    UsageFits(h, i, 0, req);
    PlaceFacts(h, root, best, mj, mn, m, i, 0, req);
    var a := h.runs[i].addr + MAJOR;
    BlindWrites(mj, Overwrite(mn, a, a + MINOR + req + PAD), h.runs, i, req);
    PlaceRep(h, root, best, mj, mn, m, m1, i, 0, req);
    BlindIsPlace(h, i, req);
  }

  // ---------- reading headers ----------

  lemma ReadMajor(h: HeapState, root: int, best: int, mj: map<int, Major>, mn: map<int, Minor>, m: seq<byte>, i: int)
    requires Represents(h, root, best, mj, mn, m) && 0 <= i < |h.runs|
    ensures RunOk(h.runs[i]) && h.start <= h.runs[i].addr && 0 < h.start
    ensures h.runs[i].addr in mj && mj[h.runs[i].addr] == MajorAt(h.runs, i)
    ensures i + 1 < |h.runs| ==> 0 < h.runs[i + 1].addr
  {
  }

  lemma ReadMinor(h: HeapState, root: int, best: int, mj: map<int, Major>, mn: map<int, Minor>, m: seq<byte>, i: int,
                  k: int)
    requires Represents(h, root, best, mj, mn, m) && 0 <= i < |h.runs| && 0 <= k < |h.runs[i].blocks|
    ensures var a := h.runs[i].blocks[k].addr; 0 < a && a in mn && mn[a] == MinorAt(h.runs[i], k)
    ensures k + 1 < |h.runs[i].blocks| ==> 0 < h.runs[i].blocks[k + 1].addr
  {
    hide MagicIsLive, OffsetsOk, TotalInUse, TotalSize, MajorsAgree;
    assert MinorsAgree(mn, h.runs[i]) && RunOk(h.runs[i]);
    assert mn[h.runs[i].blocks[k].addr] == MinorAt(h.runs[i], k);
    BlockInside(h.runs[i], k);
    if k + 1 < |h.runs[i].blocks| { BlockInside(h.runs[i], k + 1); }
  }

  lemma {:induction false} FirstGapIs(r: Run, k: int, j: int, need: int)
    requires 0 <= j <= k <= |r.blocks| + 1
    requires forall l | j <= l < k :: r.Gap(l) < need
    requires k <= |r.blocks| ==> need <= r.Gap(k)
    ensures FirstGap(r, j, need) == k
    decreases k - j
  {
  }

  // ---------- the best bet ----------

  lemma BetRep(h: HeapState, root: int, best: int, mj: map<int, Major>, mn: map<int, Minor>, m: seq<byte>, i: int)
    requires Represents(h, root, best, mj, mn, m) && 0 <= i < |h.runs|
    ensures Represents(h.(bet := i), root, h.runs[i].addr, mj, mn, m)
  {
  }

  lemma BetIsRun(h: HeapState, root: int, best: int, mj: map<int, Major>, mn: map<int, Minor>, m: seq<byte>)
    requires Represents(h, root, best, mj, mn, m)
    ensures best == 0 <==> h.bet == -1
    ensures best != 0 ==> best in mj && mj[best].size - mj[best].usage == BetFree(h.runs, h.bet)
    ensures best != 0 ==> best == h.runs[h.bet].addr
    ensures root == 0 <==> h.runs == []
    ensures root == RunAddr(h.runs, 0) && -1 <= h.bet < |h.runs|
  {
    hide MagicIsLive, OffsetsOk, TotalInUse, TotalSize, AllMinorsAgree;
    if h.bet != -1 { assert mj[h.runs[h.bet].addr] == MajorAt(h.runs, h.bet); }
  }

  lemma KeepsTrans(rs0: seq<Run>, rs1: seq<Run>, m0: seq<byte>, m1: seq<byte>, m2: seq<byte>)
    requires rs0 <= rs1 && KeepsAll(rs0, m0, m1) && KeepsAll(rs1, m1, m2)
    ensures KeepsAll(rs0, m0, m2)
  {
  }

  // ---------- the walk over the runs ----------

  /** The walk is about to look at run i of h, with only the best bet changed so far. */
  ghost predicate Walking(h: HeapState, g: HeapState, i: int, started: bool, req: int, avail: nat, target: (HeapState,
                          int)) {
    && g == h.(bet := g.bet) && -1 <= g.bet < |h.runs| && 0 <= i < |h.runs|
    && target == Conclude(h, Search(h.runs, i, started, g.bet, req + PAD + MINOR), req, avail)
  }

  /** The walk is about to look at the run just taken. */
  ghost predicate AtNewRun(h: HeapState, g: HeapState, i: int, req: int, target: (HeapState, int)) {
    && i == |h.runs| && |g.runs| == i + 1 && h.runs <= g.runs && -1 <= g.bet < |g.runs|
    && g.runs[i].blocks == [] && req + PAD + MINOR <= g.runs[i].Free()
    && target == Place(g.(bet := Better(g.runs, g.bet, i)), i, 0, req)
  }

  /** Run i had no room: the walk goes on, starts over at the root, or asks for a new run. */
  ghost predicate Missed(h: HeapState, g: HeapState, i: int, started: bool, req: int, avail: nat, target: (HeapState,
                         int)) {
    && g == h.(bet := g.bet) && -1 <= g.bet < |h.runs| && 0 <= i < |h.runs|
    && if i + 1 < |h.runs| then Walking(h, g, i + 1, started, req, avail, target)
       else if started then Walking(h, g, 0, false, req, avail, target)
       else target == Grow(g, req, avail)
  }

  lemma WalkStep(h: HeapState, g: HeapState, i: int, started: bool, req: int, avail: nat, target: (HeapState, int))
    requires Walking(h, g, i, started, req, avail, target) && Sound(h) && 0 <= req
    ensures var need := req + PAD + MINOR; var g' := g.(bet := Better(h.runs, g.bet, i));
            if HasGap(h.runs[i], need) then target == Place(g', i, FirstGap(h.runs[i], 0, need), req)
            else Missed(h, g', i, started, req, avail, target)
    ensures h.runs[i].Free() < req + PAD + MINOR ==> !HasGap(h.runs[i], req + PAD + MINOR)
    ensures !Request(req) ==> h.runs[i].Free() < req + PAD + MINOR
    ensures g.runs == h.runs && -1 <= g.bet < |h.runs|
  {
    hide TotalInUse, TotalSize, Place, Grow, Paged;
    assert RunOk(h.runs[i]);
    if !Request(req) { NoRoomForOversize(h, req); }
    if HasGap(h.runs[i], req + PAD + MINOR) {
      SkipIsSound(h.runs[i], FirstGap(h.runs[i], 0, req + PAD + MINOR));
    }
  }

  lemma WalkStart(h: HeapState, req: int, avail: nat)
    requires -1 <= h.bet < |h.runs| && h.runs != []
    ensures var s := StartsAtBet(h, req + PAD + MINOR);
            Walking(h, h, if s then h.bet else 0, s, req, avail, WalkRuns(h, req, avail))
  {
  }

  /** A run has just been taken: the walk looks at it next, or places the block in it at once. */
  ghost predicate AfterGrow(h: HeapState, g: HeapState, i: int, req: int, target: (HeapState, int)) {
    && 0 < i == |h.runs| && |g.runs| == i + 1 && h.runs <= g.runs && -1 <= g.bet < |g.runs| && g.runs[i].blocks == []
    && (Request(req) ==> req + PAD + MINOR <= g.runs[i].Free())
    && if req + PAD + MINOR <= h.runs[i - 1].Free() then
         req + PAD + MINOR <= g.runs[i].Free() && target == Place(g.(bet := Better(g.runs, g.bet, i)), i, 0, req)
       else target == PlaceBlind(g, i, req)
  }

  lemma AfterGrowLooks(h: HeapState, g: HeapState, i: int, req: int, target: (HeapState, int))
    requires AfterGrow(h, g, i, req, target)
    ensures 0 < i == |h.runs| == |g.runs| - 1 && g.runs[i].blocks == [] && h.runs <= g.runs
    ensures Request(req) ==> req + PAD + MINOR <= g.runs[i].Free()
    ensures if req + PAD + MINOR <= h.runs[i - 1].Free() then AtNewRun(h, g, i, req, target)
            else target == PlaceBlind(g, i, req)
  {
  }

  lemma NewRunStep(h: HeapState, g: HeapState, i: int, req: int, target: (HeapState, int))
    requires AtNewRun(h, g, i, req, target)
    ensures target == Place(g.(bet := Better(g.runs, g.bet, i)), i, 0, req)
    ensures FirstGap(g.runs[i], 0, req + PAD + MINOR) == 0 && HasGap(g.runs[i], req + PAD + MINOR)
    ensures g.runs[i].blocks == [] && req + PAD + MINOR <= g.runs[i].Free() && h.runs <= g.runs
  {
  }

  /** The end of the walk: with no room anywhere, the heap takes a run. */
  lemma GrowSteps(h: HeapState, req: int, avail: nat)
    requires Sound(h) && 0 <= req && h.runs != []
    ensures var (g, ok) := Take(h, FreshPages(req + PAD), avail); var t := Grow(h, req, avail);
            && -1 <= g.bet < |g.runs| && g.bet == h.bet && BetFree(g.runs, g.bet) == BetFree(h.runs, h.bet)
            && if ok then AfterGrow(h, g, |h.runs|, req, t) && g.runs[|h.runs|].addr == h.end else t == (g, 0)
    ensures 0 < h.end
  {
    hide Place, PlaceBlind, FreshPages, TotalInUse, TotalSize, Paged, RunsOk;
    if Request(req) { FreshFits(req + PAD); } else { NoRoomForOversize(h, req); }
  }

  // ---------- taking a block out ----------

  /** The major's header after block k is freed. */
  function Refunded(mj: map<int, Major>, r: Run, k: int): (ms: map<int, Major>)
    requires r.addr in mj && 0 <= k < |r.blocks|
  {
    var h := mj[r.addr];
    mj[r.addr := h.(usage := h.usage - (r.blocks[k].size + MINOR),
                    first := if k == 0 then BlockAddr(r, 1) else h.first)]
  }

  /** Block l's header can be written: it lies in memory, away from every block's bytes, and reads as it should. */
  ghost predicate BlockHeader(h: HeapState, mn: map<int, Minor>, m: seq<byte>, i: int, l: int)
    requires IsBlock(h, i, l)
  {
    var x := h.runs[i].blocks[l].addr;
    && 0 < x && x + MINOR <= |m| && Apart(h.runs, x, x + MINOR)
    && x in mn && mn[x] == MinorAt(h.runs[i], l)
  }

  lemma IsBlockHeader(h: HeapState, root: int, best: int, mj: map<int, Major>, mn: map<int, Minor>, m: seq<byte>,
                      i: int, l: int)
    requires Represents(h, root, best, mj, mn, m) && IsBlock(h, i, l)
    ensures BlockHeader(h, mn, m, i, l)
  {
    hide MagicIsLive, OffsetsOk, TotalInUse, TotalSize, MajorsAgree;
    MinorApart(h.runs, i, l, h.start, h.end);
    ReadMinor(h, root, best, mj, mn, m, i, l);
  }

  lemma IsMajorHeader(h: HeapState, root: int, best: int, mj: map<int, Major>, mn: map<int, Minor>, m: seq<byte>,
                      i: int)
    requires Represents(h, root, best, mj, mn, m) && 0 <= i < |h.runs|
    ensures var a := h.runs[i].addr;
            0 < a && a + MAJOR <= |m| && Apart(h.runs, a, a + MAJOR) && a in mj && mj[a] == MajorAt(h.runs, i)
  {
    hide MagicIsLive, OffsetsOk, TotalInUse, TotalSize, AllMinorsAgree;
    MajorApart(h.runs, i, h.start, h.end);
    ReadMajor(h, root, best, mj, mn, m, i);
  }

  lemma FreeFacts(h: HeapState, root: int, best: int, mj: map<int, Major>, mn: map<int, Minor>, m: seq<byte>, i: int,
                  k: int)
    requires Represents(h, root, best, mj, mn, m) && IsBlock(h, i, k)
    ensures BlockHeader(h, mn, m, i, k)
    ensures 0 < k ==> BlockHeader(h, mn, m, i, k - 1) && h.runs[i].blocks[k - 1].addr != h.runs[i].blocks[k].addr
    ensures k + 1 < |h.runs[i].blocks| ==> BlockHeader(h, mn, m, i, k + 1)
                                           && h.runs[i].blocks[k + 1].addr != h.runs[i].blocks[k].addr
    ensures 0 < k && k + 1 < |h.runs[i].blocks| ==> h.runs[i].blocks[k + 1].addr != h.runs[i].blocks[k - 1].addr
    ensures var a := h.runs[i].addr;
            0 < a && a + MAJOR <= |m| && Apart(h.runs, a, a + MAJOR) && a in mj && mj[a] == MajorAt(h.runs, i)
    ensures forall j | 0 <= j < |h.runs[i].blocks| :: h.runs[i].blocks[j].addr in mn
    ensures KeepsAll(h.runs, m, m)
  {
    hide MagicIsLive, OffsetsOk, TotalInUse, TotalSize, MajorsAgree, BlockHeader, Apart;
    var r := h.runs[i];
    RunIsOk(h.runs, i, h.start, h.end);
    assert MinorsAgree(mn, r);
    IsBlockHeader(h, root, best, mj, mn, m, i, k);
    IsMajorHeader(h, root, best, mj, mn, m, i);
    if k > 0 { IsBlockHeader(h, root, best, mj, mn, m, i, k - 1); BlocksDistinct(r, k - 1, k); }
    if k + 1 < |r.blocks| { IsBlockHeader(h, root, best, mj, mn, m, i, k + 1); BlocksDistinct(r, k + 1, k); }
    if 0 < k && k + 1 < |r.blocks| { BlocksDistinct(r, k - 1, k + 1); }
  }

  lemma RemovedOffsets(runs: seq<Run>, i: int, k: int, m: seq<byte>)
    requires 0 <= i < |runs| && 0 <= k < |runs[i].blocks| && OffsetsOk(runs, m)
    ensures OffsetsOk(runs[i := runs[i].Remove(k)], m)
  {
  }

  lemma TakeOutRep(h: HeapState, root: int, best: int, mj: map<int, Major>, mn: map<int, Minor>, m: seq<byte>,
                   m1: seq<byte>, i: int, k: int)
    requires Represents(h, root, best, mj, mn, m) && IsBlock(h, i, k)
    requires |m1| == |m| && KeepsAll(h.runs, m, m1)
    ensures var r := h.runs[i];
            && r.addr in mj && (forall j | 0 <= j < |r.blocks| :: r.blocks[j].addr in mn)
            && Represents(TakeOut(h, i, k), root, best, Refunded(mj, r, k), Unlink(mn, r, k), m1)
  {
    hide Apart, TotalInUse, TotalSize, InUse, KeepsAll, OffsetOk;
    var r := h.runs[i];
    var q := r.Remove(k);
    TakeOutSound(h, i, k);
    RemoveInUse(r, k);
    assert mj[r.addr] == MajorAt(h.runs, i);
    MajorReplaced(mj, h.runs, i, q, h.start, h.end);
    assert Refunded(mj, r, k) == mj[q.addr := mj[q.addr].(usage := q.Usage(), first := BlockAddr(q, 0))];
    UnlinkedAgrees(mn, h.runs, i, k, h.start, h.end);
    KeepsOffsets(h.runs, m, m1, h.start, h.end);
    RemovedOffsets(h.runs, i, k, m1);
    SameAddresses(h.runs, i, q, 0);
    SameAddresses(h.runs, i, q, h.bet);
  }

  // ---------- dropping an empty run ----------

  lemma DroppedOffsets(runs: seq<Run>, i: int, m: seq<byte>)
    requires 0 <= i < |runs| && OffsetsOk(runs, m)
    ensures OffsetsOk(Without(runs, i), m)
  {
  }

  /** The unmapping of run i, one page too high, reaches none of the other runs when none begins where it ends. */
  lemma DropOutside(h: HeapState, i: int)
    requires Sound(h) && 0 <= i < |h.runs| && !Followed(h, i)
    ensures Outside(Without(h.runs, i), h.runs[i].addr + PAGE, h.runs[i].End() + PAGE)
  {
    hide TotalInUse, TotalSize, InUse;
    var q := Without(h.runs, i);
    forall l | 0 <= l < |q|
      ensures q[l].End() <= h.runs[i].addr + PAGE || h.runs[i].End() + PAGE <= q[l].addr
    {
      var j := if l < i then l else l + 1;
      assert q[l] == h.runs[j] && h.runs[j].addr % PAGE == 0 && h.runs[i].End() % PAGE == 0;
    }
  }

  lemma DropRep(h: HeapState, root: int, best: int, mj: map<int, Major>, mn: map<int, Minor>, m: seq<byte>,
                m1: seq<byte>, i: int)
    requires Represents(h, root, best, mj, mn, m) && 0 <= i < |h.runs| && h.runs[i].blocks == [] && !Followed(h, i)
    requires |m1| == |m| && KeepsAll(Without(h.runs, i), m, m1)
    ensures var lo, hi := h.runs[i].addr + PAGE, h.runs[i].End() + PAGE;
            && (forall j | 0 <= j < |h.runs| :: h.runs[j].addr in mj)
            && Represents(DropRun(h, i), if i == 0 then RunAddr(h.runs, 1) else root, if h.bet == i then 0 else best,
                          Overwrite(UnlinkMajor(mj, h.runs, i), lo, hi), Overwrite(mn, lo, hi), m1)
  {
    hide Apart, TotalInUse, TotalSize, InUse, KeepsAll, OffsetOk, RunsOk, UnmappedPages, Paged, Followed, Outside;
    var q := Without(h.runs, i);
    DropRunSoundIff(h, i);
    DropOutside(h, i);
    RunsDrop(h.runs, i, h.start, h.end);
    UnlinkMajorAgrees(mj, h.runs, i, h.start, h.end);
    DropRunMinors(mn, h.runs, i);
    OutsideAgrees(UnlinkMajor(mj, h.runs, i), mn, q, h.runs[i].addr + PAGE, h.runs[i].End() + PAGE, h.start, h.end);
    DroppedOffsets(h.runs, i, m);
    KeepsOffsets(q, m, m1, h.start, h.end);
  }

  // ---------- what can be read ----------

  /** In a sound heap every byte of every run can be read. */
  lemma RunsReadable(h: HeapState, i: int, x: int)
    requires Sound(h) && 0 <= i < |h.runs| && h.runs[i].addr <= x < h.runs[i].End()
    ensures Readable(h.mapped, x)
  {
    hide TotalInUse, TotalSize, RunsOk;
    var r := h.runs[i];
    assert r.addr % PAGE == 0 && Pages(r.addr, r.pages) <= h.mapped;
    PagesMembers(r.addr, r.pages, x - x % PAGE);
  }

  lemma ReadableIsAll(h: HeapState, m0: seq<byte>, m1: seq<byte>)
    requires Sound(h) && KeepsReadable(h.runs, h.mapped, m0, m1)
    ensures KeepsAll(h.runs, m0, m1)
  {
    hide TotalInUse, TotalSize, Paged, Readable;
    forall i, k | 0 <= i < |h.runs| && 0 <= k < |h.runs[i].blocks|
      ensures KeepsBlock(h.runs[i].blocks[k], m0, m1)
    {
      var b := h.runs[i].blocks[k];
      assert RunOk(h.runs[i]) && KeepsReadableOf(b, h.mapped, m0, m1);
      BlockInside(h.runs[i], k);
      forall x | b.Body() <= x < b.End() && 0 <= x < |m0|
        ensures m0[x] == m1[x]
      {
        RunsReadable(h, i, x);
      }
    }
  }

  /** The pages that go with run i take only bytes along that cannot be read afterwards. */
  lemma LossKeepsReadable(h: HeapState, i: int, m0: seq<byte>, m1: seq<byte>, m2: seq<byte>)
    requires Sound(h) && 0 <= i < |h.runs| && KeepsAll(h.runs, m0, m1)
    requires OnlyWithin(m1, m2, h.runs[i].addr + PAGE, h.runs[i].End() + PAGE)
    ensures KeepsReadable(DropRun(h, i).runs, DropRun(h, i).mapped, m0, m2)
  {
    hide TotalInUse, TotalSize, RunsOk;
    var r, g := h.runs[i], DropRun(h, i);
    forall l, k | 0 <= l < |g.runs| && 0 <= k < |g.runs[l].blocks|
      ensures KeepsReadableOf(g.runs[l].blocks[k], g.mapped, m0, m2)
    {
      var b := g.runs[l].blocks[k];
      assert b == h.runs[if l < i then l else l + 1].blocks[k] && KeepsBlock(b, m0, m1);
      forall x | r.addr + PAGE <= x < r.End() + PAGE
        ensures !Readable(g.mapped, x)
      {
        assert r.addr % PAGE == 0;
        PagesMembers(r.addr + PAGE, r.pages, x - x % PAGE);
      }
    }
  }

  // ---------- bytes of single blocks ----------

  /** Bytes written through the pointer of a live block disturb nothing the heap relies on. */
  lemma PayloadRep(h: HeapState, root: int, best: int, mj: map<int, Major>, mn: map<int, Minor>, m: seq<byte>,
                   m1: seq<byte>, b: Block)
    requires Represents(h, root, best, mj, mn, m) && Live(h.runs, b) && OnlyWithin(m, m1, b.Ptr(), b.End())
    ensures Represents(h, root, best, mj, mn, m1)
    ensures forall c | Live(h.runs, c) && c != b :: KeepsBlock(c, m, m1)
  {
    hide TotalInUse, TotalSize, MajorsAgree, AllMinorsAgree, MagicIsLive, RunsOk;
    LiveOk(h.runs, h.start, h.end, b);
    PointerFits(b);
    forall c | Live(h.runs, c) && c != b
      ensures KeepsBlock(c, m, m1)
    {
      LiveApart(h.runs, h.start, h.end, b, c);
    }
    forall i, k | 0 <= i < |h.runs| && 0 <= k < |h.runs[i].blocks|
      ensures OffsetOk(h.runs[i].blocks[k], m1)
    {
      var c := h.runs[i].blocks[k];
      LiveHere(h.runs, i, k);
      LiveOk(h.runs, h.start, h.end, c);
      PointerFits(c);
      assert OffsetOk(c, m);
      if c != b { assert KeepsBlock(c, m, m1); }
    }
  }

  /** The pointer of a live block leads to its header, which carries the magic number. */
  lemma LiveHeader(h: HeapState, root: int, best: int, mj: map<int, Major>, mn: map<int, Minor>, m: seq<byte>, i: int,
                   k: int)
    requires Represents(h, root, best, mj, mn, m) && IsBlock(h, i, k)
    ensures var b := h.runs[i].blocks[k];
            && ALIGN_INFO <= b.Ptr() <= |m| && b.End() <= |m| && 0 <= b.req
            && b.Ptr() + b.req <= b.End() && b.Body() <= b.Ptr()
            && Unaligned(b.Ptr(), m) - MINOR == b.addr && 0 < b.addr
            && b.addr in mn && mn[b.addr] == MinorAt(h.runs[i], k)
  {
    hide TotalInUse, TotalSize, MajorsAgree, MagicIsLive;
    ReadMinor(h, root, best, mj, mn, m, i, k);
    assert RunOk(h.runs[i]);
    BlockInside(h.runs[i], k);
    PointerFits(h.runs[i].blocks[k]);
    assert OffsetOk(h.runs[i].blocks[k], m);
    UnalignFindsHeader(h.runs[i].blocks[k], m);
  }
}
