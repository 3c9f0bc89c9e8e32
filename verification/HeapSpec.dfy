/** What each heap operation does to the heap, stated on values: which gap an allocation
    takes, when new pages are asked for, and what a free gives back. */
module HeapSpec {
  import opened HeapLayout

  const MAGIC := 0xc001c0de
  const DEAD := 0xdeaddead
  const SIZE_T := 0x1_0000_0000_0000_0000

  /** bet is the index of the best-bet run, or -1. end is one past the last page ever taken and not handed back.
      mapped holds the addresses of the pages the heap has mapped. */
  datatype HeapState = HeapState(
    runs: seq<Run>, bet: int, start: int, end: int, max: int,
    inuse: int, taken: int, warnings: int, errors: int, overruns: int,
    mapped: set<int>)

  // ---------- searching ----------

  /** The first gap from k on that can hold need bytes, or |blocks| + 1. */
  function FirstGap(r: Run, k: int, need: int): (g: int)
    requires 0 <= k <= |r.blocks| + 1
    ensures k <= g <= |r.blocks| + 1
    ensures forall j | k <= j < g :: r.Gap(j) < need
    ensures g <= |r.blocks| ==> need <= r.Gap(g)
    decreases |r.blocks| + 1 - k
  {
    if k > |r.blocks| || need <= r.Gap(k) then k else FirstGap(r, k + 1, need)
  }

  predicate HasGap(r: Run, need: int) {
    FirstGap(r, 0, need) <= |r.blocks|
  }

  function BetFree(runs: seq<Run>, bet: int): (v: int)
    requires -1 <= bet < |runs|
  {
    if bet == -1 then 0 else runs[bet].Free()
  }

  /** The best bet after run i has been looked at. */
  function Better(runs: seq<Run>, bet: int, i: int): (v: int)
    requires -1 <= bet < |runs| && 0 <= i < |runs|
  {
    if BetFree(runs, bet) < runs[i].Free() then i else bet
  }

  datatype Outcome = Found(run: int, bet: int) | Missing(bet: int)

  /** The walk over the runs from run i, going back to the root once when it began at the best bet. */
  function Search(runs: seq<Run>, i: int, started: bool, bet: int, need: int): (o: Outcome)
    requires 0 <= i < |runs| && -1 <= bet < |runs|
    ensures -1 <= o.bet < |runs|
    ensures o.Found? ==> 0 <= o.run < |runs| && HasGap(runs[o.run], need)
    decreases started, |runs| - i
  {
    var bet' := Better(runs, bet, i);
    if HasGap(runs[i], need) then Found(i, bet')
    else if i + 1 < |runs| then Search(runs, i + 1, started, bet', need)
    else if started then Search(runs, 0, false, bet', need)
    else Missing(bet')
  }

  predicate StartsAtBet(h: HeapState, need: int)
    requires -1 <= h.bet < |h.runs|
  {
    h.bet != -1 && need < h.runs[h.bet].Free()
  }

  // ---------- pages ----------

  /** The pages in [a, a + n pages). */
  function Pages(a: int, n: int): (xs: set<int>)
    decreases n
  {
    if n <= 0 then {} else Pages(a, n - 1) + {a + (n - 1) * PAGE}
  }

  /** How many pages a new run gets, in 32-bit arithmetic. */
  function FreshPages(size: int): (n: int)
    ensures MIN_PAGES <= n
  {
    var st := ((size % UINT32 + MAJOR) % UINT32 + MINOR) % UINT32;
    var n := if st % PAGE == 0 then st / PAGE else st / PAGE + 1;
    if n < MIN_PAGES then MIN_PAGES else n
  }

  /** Taking n pages for a new, still empty run when the frame allocator has avail frames left. When it runs dry
      part way, the pages already mapped stay taken although no run owns them. */
  function Take(h: HeapState, n: int, avail: nat): (t: (HeapState, bool)) {
    if h.end + n * PAGE > h.max then (h.(warnings := h.warnings + 1), false)
    else if avail < n then
      (h.(warnings := h.warnings + 1, end := h.end + avail * PAGE, mapped := h.mapped + Pages(h.end, avail)), false)
    else
      (h.(runs := h.runs + [Run(h.end, n, [])], end := h.end + n * PAGE,
          mapped := h.mapped + Pages(h.end, n), taken := h.taken + n * PAGE), true)
  }

  // ---------- allocation ----------

  /** A request whose padded size, with both headers, still fits the 32-bit size argument of allocate_new_page. */
  predicate Request(req: int) {
    0 <= req && req + PAD + MAJOR + MINOR < UINT32
  }

  /** A request whose padded size, with the block's header, does not wrap round in 64 bits. */
  predicate Sized(req: int) {
    0 <= req && req + PAD + MINOR < SIZE_T
  }

  /** The block for req bytes that goes at address a. */
  function NewBlock(a: int, req: int): (b: Block) { Block(a, req + PAD, req) }

  function Put(h: HeapState, i: int, k: int, req: int): (g: HeapState)
    requires 0 <= i < |h.runs| && 0 <= k <= |h.runs[i].blocks|
  {
    var b := NewBlock(h.runs[i].GapStart(k), req);
    h.(runs := h.runs[i := h.runs[i].Insert(k, b)], inuse := h.inuse + b.size)
  }

  function Place(h: HeapState, i: int, k: int, req: int): (t: (HeapState, int))
    requires 0 <= i < |h.runs| && 0 <= k <= |h.runs[i].blocks|
  {
    (Put(h, i, k, req), NewBlock(h.runs[i].GapStart(k), req).Ptr())
  }

  /** The first block of an empty run, put there without a look at the run's size. The header's fields have 32 bits;
      the count of bytes in use has 64. */
  function PlaceBlind(h: HeapState, i: int, req: int): (t: (HeapState, int))
    requires 0 <= i < |h.runs|
  {
    var r := h.runs[i];
    var b := Block(r.GapStart(0), (req + PAD) % UINT32, req % UINT32);
    (h.(runs := h.runs[i := Run(r.addr, r.pages, [b])], inuse := h.inuse + req + PAD), b.Ptr())
  }

  /** No run had room: the heap asks for a new one behind the last and places the block in it. The walk looks at the
      new run, and may make it the best bet, unless it came there straight from a last run whose free total was too
      small. */
  function Grow(h: HeapState, req: int, avail: nat): (t: (HeapState, int))
    requires -1 <= h.bet < |h.runs| && h.runs != []
  {
    var (g, ok) := Take(h, FreshPages(req + PAD), avail);
    var last := |h.runs|;
    if !ok then (g, 0)
    else if req + PAD + MINOR <= h.runs[last - 1].Free() then
      Place(g.(bet := Better(g.runs, g.bet, last)), last, 0, req)
    else PlaceBlind(g, last, req)
  }

  /** What follows the walk over the runs. */
  function Conclude(h: HeapState, o: Outcome, req: int, avail: nat): (t: (HeapState, int))
    requires -1 <= o.bet < |h.runs| && h.runs != []
    requires o.Found? ==> 0 <= o.run < |h.runs| && HasGap(h.runs[o.run], req + PAD + MINOR)
  {
    match o
    case Found(i, bet) => Place(h.(bet := bet), i, FirstGap(h.runs[i], 0, req + PAD + MINOR), req)
    case Missing(bet) => Grow(h.(bet := bet), req, avail)
  }

  /** The walk over the runs, and what follows it. */
  function WalkRuns(h: HeapState, req: int, avail: nat): (t: (HeapState, int))
    requires -1 <= h.bet < |h.runs| && h.runs != []
  {
    var need := req + PAD + MINOR;
    var s := StartsAtBet(h, need);
    Conclude(h, Search(h.runs, if s then h.bet else 0, s, h.bet, need), req, avail)
  }

  /** A heap without runs takes one first, and then walks over it like over any other. */
  function AllocateSized(h: HeapState, req: int, avail: nat): (t: (HeapState, int))
    requires -1 <= h.bet < |h.runs|
  {
    if h.runs != [] then WalkRuns(h, req, avail)
    else
      var (g, ok) := Take(h, FreshPages(req + PAD), avail);
      if ok then WalkRuns(g, req, avail - FreshPages(req + PAD)) else (g, 0)
  }

  /** The one request that the padding wraps round to size zero is served as a request for one byte. */
  function Allocate(h: HeapState, req: int, avail: nat): (t: (HeapState, int))
    requires -1 <= h.bet < |h.runs|
  {
    if (req + PAD) % SIZE_T == 0 then AllocateSized(h.(warnings := h.warnings + 1), 1, avail)
    else AllocateSized(h, req, avail)
  }

  // ---------- freeing ----------

  function ToInt32(x: int): (v: int) {
    if x % UINT32 < 0x8000_0000 then x % UINT32 else x % UINT32 - UINT32
  }

  /** The pages that the unmapping loop touches: one page too high. */
  function UnmappedPages(r: Run): (xs: set<int>) {
    Pages(r.addr + PAGE, r.pages)
  }

  function Without(runs: seq<Run>, i: int): (ss: seq<Run>)
    requires 0 <= i < |runs|
  {
    runs[..i] + runs[i + 1..]
  }

  function DropRun(h: HeapState, i: int): (g: HeapState)
    requires 0 <= i < |h.runs|
  {
    var r := h.runs[i];
    h.(runs := Without(h.runs, i),
       bet := if h.bet == i then -1 else if h.bet > i then h.bet - 1 else h.bet,
       taken := h.taken - r.Size(),
       end := if r.End() == h.end then h.end - r.Size() else h.end,
       mapped := h.mapped - UnmappedPages(r))
  }

  /** The state after block k has left run i, which may now be empty. */
  function TakeOut(h: HeapState, i: int, k: int): (g: HeapState)
    requires 0 <= i < |h.runs| && 0 <= k < |h.runs[i].blocks|
  {
    h.(runs := h.runs[i := h.runs[i].Remove(k)], inuse := h.inuse - h.runs[i].blocks[k].size)
  }

  /** After a free, the run becomes the best bet when it now has more free bytes, compared as signed 32-bit numbers. */
  function Rebet(h: HeapState, i: int): (g: HeapState)
    requires -1 <= h.bet < |h.runs| && 0 <= i < |h.runs|
  {
    if h.bet != -1 && ToInt32(h.runs[i].Free()) > ToInt32(h.runs[h.bet].Free()) then h.(bet := i) else h
  }

  function FreeBlock(h: HeapState, i: int, k: int): (g: HeapState)
    requires -1 <= h.bet < |h.runs|
    requires 0 <= i < |h.runs| && 0 <= k < |h.runs[i].blocks|
  {
    var g := TakeOut(h, i, k);
    if g.runs[i].blocks == [] then DropRun(g, i) else Rebet(g, i)
  }

  /** The record of a pointer whose header does not carry the magic number. */
  function Rejected(h: HeapState, magic: int): (g: HeapState) {
    var overrun := magic % 0x100_0000 == MAGIC % 0x100_0000 || magic % 0x1_0000 == MAGIC % 0x1_0000
                   || magic % 0x100 == MAGIC % 0x100;
    h.(errors := h.errors + 1, overruns := if overrun then h.overruns + 1 else h.overruns)
  }

  // ---------- reallocation ----------

  function Shrunk(r: Run, k: int, req: int): (q: Run)
    requires 0 <= k < |r.blocks|
  {
    Run(r.addr, r.pages, r.blocks[k := r.blocks[k].(req := req)])
  }

  /** Changing only the requested size that block k of run i records. */
  function SetReq(h: HeapState, i: int, k: int, req: int): (g: HeapState)
    requires 0 <= i < |h.runs| && 0 <= k < |h.runs[i].blocks|
  {
    h.(runs := h.runs[i := Shrunk(h.runs[i], k, req)])
  }

  /** Where b, once at k, is in r after at most one block has been put into r. */
  function Follow(r: Run, k: int, b: Block): (v: int) {
    if 0 <= k < |r.blocks| && r.blocks[k] == b then k else k + 1
  }

  /** Reallocation of block k of run i: the new heap, the pointer, and whether the copy went through a null pointer,
      which is where a failed inner allocation ends unless there is nothing to copy. */
  function Reallocate(h: HeapState, i: int, k: int, size: int, avail: nat): (t: (HeapState, int, bool))
    requires -1 <= h.bet < |h.runs| && IsBlock(h, i, k)
  {
    var b := h.runs[i].blocks[k];
    if size == 0 then (FreeBlock(h, i, k), 0, false)
    else if size <= b.req then (SetReq(h, i, k, size), b.Ptr(), false)
    else
      var (g, q) := Allocate(h, size, avail);
      if q == 0 && 0 < b.req then (g, 0, true)
      else if -1 <= g.bet < |g.runs| && 0 <= i < |g.runs| && IsBlock(g, i, Follow(g.runs[i], k, b)) then
        (FreeBlock(g, i, Follow(g.runs[i], k, b)), q, false)
      else (g, q, false)
  }

  // ---------- calls that break the heap, told from the heap before ----------

  /** Some gap of some run can hold need bytes. */
  ghost predicate HasRoom(runs: seq<Run>, need: int) {
    exists i | 0 <= i < |runs| :: HasGap(runs[i], need)
  }

  /** There is no place, or no frame, for the pages of a new run for req bytes. */
  predicate PagesRefused(h: HeapState, req: int, avail: nat) {
    h.end + FreshPages(req + PAD) * PAGE > h.max || avail < FreshPages(req + PAD)
  }

  /** A request too large for 32 bits gets the pages that are left of it in 32-bit arithmetic. */
  predicate Overfills(h: HeapState, req: int, avail: nat) {
    !Request(req) && !PagesRefused(h, req, avail)
  }

  /** On a walk that begins at run start and goes round, run j comes before run i. */
  predicate Before(start: int, j: int, i: int) {
    if start <= i then start <= j < i else start <= j || j < i
  }

  /** Run i is the first with room for need bytes, from the best bet on when that is where the walk begins. */
  ghost predicate LandsIn(h: HeapState, i: int, need: int)
    requires -1 <= h.bet < |h.runs| && 0 <= i < |h.runs|
  {
    var start := if StartsAtBet(h, need) then h.bet else 0;
    HasGap(h.runs[i], need) && forall j | 0 <= j < |h.runs| && Before(start, j, i) :: !HasGap(h.runs[j], need)
  }

  /** A growing reallocation of a block of run i gives up that run right in front of another. The block is the run's
      only one, the new one does not go beside it, and the copy does not go through a null pointer; and a run follows,
      or the new block's own run will. */
  ghost predicate GrowthCuts(h: HeapState, i: int, k: int, size: int, avail: nat)
    requires -1 <= h.bet < |h.runs| && IsBlock(h, i, k)
  {
    var noRoom, refused := !HasRoom(h.runs, size + PAD + MINOR), PagesRefused(h, size, avail);
    && |h.runs[i].blocks| == 1
    && !LandsIn(h, i, size + PAD + MINOR)
    && !(noRoom && refused && 0 < h.runs[i].blocks[k].req)
    && (Followed(h, i) || (h.runs[i].End() == h.end && noRoom && !refused))
  }

  /** A reallocation leaves the heap ill formed. */
  ghost predicate ReallocateBreaks(h: HeapState, i: int, k: int, size: int, avail: nat)
    requires -1 <= h.bet < |h.runs| && IsBlock(h, i, k)
  {
    if size == 0 then CutsNeighbour(h, i)
    else h.runs[i].blocks[k].req < size && (Overfills(h, size, avail) || GrowthCuts(h, i, k, size, avail))
  }

  // ---------- well-formed heaps ----------

  /** Runs are in address order and apart, between lo and hi. */
  ghost predicate RunsOk(runs: seq<Run>, lo: int, hi: int) {
    && (forall i | 0 <= i < |runs| :: RunOk(runs[i]) && lo <= runs[i].addr && runs[i].End() <= hi)
    && (forall i, j | 0 <= i < j < |runs| :: runs[i].End() <= runs[j].addr)
  }

  /** Runs begin on page boundaries, and every page of every run is mapped. */
  ghost predicate Paged(runs: seq<Run>, start: int, end: int, mapped: set<int>) {
    && start % PAGE == 0 && end % PAGE == 0
    && (forall i | 0 <= i < |runs| :: runs[i].addr % PAGE == 0)
    && (forall i | 0 <= i < |runs| :: Pages(runs[i].addr, runs[i].pages) <= mapped)
  }

  ghost predicate NoneEmpty(runs: seq<Run>) {
    forall i | 0 <= i < |runs| :: runs[i].blocks != []
  }

  function TotalInUse(runs: seq<Run>): (v: int) {
    if runs == [] then 0 else InUse(runs[0].blocks) + TotalInUse(runs[1..])
  }

  function TotalSize(runs: seq<Run>): (v: int) {
    if runs == [] then 0 else runs[0].Size() + TotalSize(runs[1..])
  }

  /** Everything but that no run is empty: a run just taken is empty for a moment. */
  ghost predicate Sound(h: HeapState) {
    && 0 < h.start <= h.end <= h.max < UINT32
    && -1 <= h.bet < |h.runs|
    && RunsOk(h.runs, h.start, h.end)
    && Paged(h.runs, h.start, h.end, h.mapped)
    && h.inuse == TotalInUse(h.runs)
    && h.taken == TotalSize(h.runs)
  }

  ghost predicate Ok(h: HeapState) {
    Sound(h) && NoneEmpty(h.runs)
  }

  /** Another run begins exactly where run i ends. */
  ghost predicate Followed(h: HeapState, i: int)
    requires 0 <= i < |h.runs|
  {
    exists j | 0 <= j < |h.runs| :: h.runs[j].addr == h.runs[i].End()
  }

  /** A free of a block of run i empties that run, and the unmapping, one page too high, reaches the next. */
  ghost predicate CutsNeighbour(h: HeapState, i: int)
    requires 0 <= i < |h.runs|
  {
    |h.runs[i].blocks| == 1 && Followed(h, i)
  }

  /** The request fits in gap k of run i. */
  ghost predicate CanPlace(h: HeapState, i: int, k: int, req: int) {
    0 <= req && 0 <= i < |h.runs| && 0 <= k <= |h.runs[i].blocks| && req + PAD + MINOR <= h.runs[i].Gap(k)
  }

  predicate IsBlock(h: HeapState, i: int, k: int) {
    0 <= i < |h.runs| && 0 <= k < |h.runs[i].blocks|
  }
}
