/** Whole runs of the heap with the bytes under it: what a caller has written stays until it frees the block, however
    often the block is moved. */
module HeapHistory {
  import opened HeapLayout
  import opened HeapSpec
  import opened HeapInvariants
  import opened HeapHeaders
  import opened HeapBytes
  import opened HeapTheorems
  import opened HeapRuns

  /** A call of the heap, or a caller's write at offset x of its block. */
  datatype Event =
    | Calls(c: Call)
    | Writes(b: Block, x: int, v: byte)

  // ---------- one event ----------

  /** After call c, the caller of block b of h holds block b' of h' in its place: b itself, unless that is the block
      being reallocated, which continues as the block at the pointer returned. A freed block is not followed, nor one
      whose copy goes through a null pointer. */
  ghost predicate Follows(h: HeapState, c: Call, h': HeapState, b: Block, b': Block)
    requires -1 <= h.bet < |h.runs| && Enabled(h, c)
  {
    && Live(h.runs, b) && Live(h'.runs, b')
    && if c.CallReallocate? && b == h.runs[c.i].blocks[c.k] then
         !Reallocate(h, c.i, c.k, c.size, c.avail).2 && b'.Ptr() == Perform(h, c).1
       else b' == b
  }

  /** The byte at offset x behind the pointer is the same in the two blocks and memories. */
  ghost predicate SameByte(b: Block, m: seq<byte>, b': Block, m': seq<byte>, x: int) {
    0 <= b.Ptr() + x < |m| && 0 <= b'.Ptr() + x < |m'| && m'[b'.Ptr() + x] == m[b.Ptr() + x]
  }

  /** The bytes that both blocks have were carried from the one to the other. */
  ghost predicate CarriesOver(b: Block, m: seq<byte>, b': Block, m': seq<byte>) {
    forall x | 0 <= x < b.req && x < b'.req :: SameByte(b, m, b', m', x)
  }

  /** What a call does to the bytes, unless it breaks the heap. */
  ghost predicate BytesStep(h: HeapState, m: seq<byte>, c: Call, h': HeapState, m': seq<byte>)
    requires -1 <= h.bet < |h.runs| && Enabled(h, c)
  {
    |m'| == |m| && (Ok(h') ==> forall b, b' | Follows(h, c, h', b, b') :: CarriesOver(b, m, b', m'))
  }

  ghost predicate EventStep(h: HeapState, held: set<int>, m: seq<byte>, e: Event,
                            h': HeapState, held': set<int>, m': seq<byte>)
  {
    match e
    case Calls(c) => Transition(h, held, c, h', held') && BytesStep(h, m, c, h', m')
    case Writes(b, x, v) =>
      && h' == h && held' == held && Live(h.runs, b) && 0 <= x < b.req && 0 <= b.Ptr() + x < |m|
      && m' == m[b.Ptr() + x := v]
  }

  // ---------- whole runs ----------

  /** hs, held and ms are the heaps, the held pointers and the bytes along the events es, from a new heap on. */
  ghost predicate History(hs: seq<HeapState>, held: seq<set<int>>, ms: seq<seq<byte>>, es: seq<Event>) {
    && |hs| == |held| == |ms| == |es| + 1
    && 0 < hs[0].start <= hs[0].max < UINT32 && hs[0].start % PAGE == 0
    && hs[0] == Fresh(hs[0].start, hs[0].max) && held[0] == {} && |ms[0]| == hs[0].max
    && forall t | 0 <= t < |es| :: EventStep(hs[t], held[t], ms[t], es[t], hs[t + 1], held[t + 1], ms[t + 1])
  }

  /** The event is not a call that breaks the heap. */
  ghost predicate Mends(h: HeapState, e: Event) {
    e.Calls? ==> -1 <= h.bet < |h.runs| && Enabled(h, e.c) && !Breaks(h, e.c)
  }

  ghost predicate Peaceful(hs: seq<HeapState>, es: seq<Event>, t: nat)
    requires t <= |es| < |hs|
  {
    forall u | 0 <= u < t :: Mends(hs[u], es[u])
  }

  lemma EventKeeps(h: HeapState, held: set<int>, m: seq<byte>, e: Event, h': HeapState, held': set<int>, m': seq<byte>)
    requires Ok(h) && HoldsLive(h, held) && EventStep(h, held, m, e, h', held', m') && Mends(h, e)
    ensures Ok(h') && HoldsLive(h', held') && h'.start == h.start && h'.max == h.max && |m'| == |m|
  {
    hide Ok, HoldsLive, Breaks, Live, Perform, Held;
    if e.Calls? { CallKeepsIff(h, held, e.c, h', held'); }
  }

  /** At every point until a call breaks the heap: it is well formed, and the callers' pointers are those of the live
      blocks. */
  lemma {:induction false} EveryHistory(hs: seq<HeapState>, held: seq<set<int>>, ms: seq<seq<byte>>, es: seq<Event>,
                                        t: nat)
    requires History(hs, held, ms, es) && t <= |es| && Peaceful(hs, es, t)
    ensures Ok(hs[t]) && HoldsLive(hs[t], held[t]) && hs[t].max == hs[0].max && |ms[t]| == hs[0].max
  {
    hide Ok, HoldsLive, EventStep, Mends;
    if t == 0 {
      FreshOk(hs[0]);
      NothingHeld(hs[0], held[0]);
    } else {
      EveryHistory(hs, held, ms, es, t - 1);
      assert EventStep(hs[t - 1], held[t - 1], ms[t - 1], es[t - 1], hs[t - 1 + 1], held[t - 1 + 1], ms[t - 1 + 1]);
      assert Mends(hs[t - 1], es[t - 1]);
      EventKeeps(hs[t - 1], held[t - 1], ms[t - 1], es[t - 1], hs[t], held[t], ms[t]);
    }
  }

  // ---------- contents over whole runs ----------

  /** The event leaves the byte at offset x of the caller's block b, which it continues to hold as b', to the heap. */
  ghost predicate Holds(h: HeapState, e: Event, h': HeapState, b: Block, b': Block, x: int) {
    match e
    case Calls(c) => -1 <= h.bet < |h.runs| && Enabled(h, c) && Follows(h, c, h', b, b')
    case Writes(w, y, v) => b' == b && Live(h.runs, b) && !(w == b && y == x)
  }

  /** The block whose caller is followed from point u to point t is bs[s - u] at point s. At none of the events
      between is the byte at offset x written by the caller, and the block is never smaller than that. */
  ghost predicate Tracks(hs: seq<HeapState>, es: seq<Event>, u: nat, bs: seq<Block>, x: int) {
    && |bs| > 0 && u + |bs| <= |hs| == |es| + 1
    && (forall s | 0 <= s < |bs| :: 0 <= x < bs[s].req)
    && forall s | 0 <= s < |bs| - 1 :: Holds(hs[u + s], es[u + s], hs[u + s + 1], bs[s], bs[s + 1], x)
  }

  /** A caller's write changes no byte of another block, and of its own only the one at its offset. */
  lemma WriteKeeps(h: HeapState, m: seq<byte>, w: Block, y: int, v: byte, b: Block, x: int)
    requires Ok(h) && |m| == h.max && Live(h.runs, w) && Live(h.runs, b) && 0 <= y < w.req && 0 <= x < b.req
    requires !(w == b && y == x)
    ensures 0 <= w.Ptr() + y < |m| && 0 <= b.Ptr() + x < |m| && m[w.Ptr() + y := v][b.Ptr() + x] == m[b.Ptr() + x]
  {
    hide TotalInUse, TotalSize, Paged, Live;
    LiveBounds(h, w);
    LiveBounds(h, b);
    if w != b { LiveApart(h.runs, h.start, h.end, w, b); }
  }

  /** Where the requested bytes of a live block lie. */
  lemma LiveBounds(h: HeapState, b: Block)
    requires Ok(h) && Live(h.runs, b)
    ensures 0 < b.addr && b.Body() <= b.Ptr() && b.Ptr() + b.req <= b.End() <= h.max && 0 <= b.req
  {
    hide TotalInUse, TotalSize, Paged;
    var i :| 0 <= i < |h.runs| && LiveIn(h.runs[i], b);
    var k :| 0 <= k < |h.runs[i].blocks| && h.runs[i].blocks[k] == b;
    assert RunOk(h.runs[i]) && BlockOk(b);
    BlockInside(h.runs[i], k);
    PointerFits(b);
  }

  lemma EventCarries(h: HeapState, held: set<int>, m: seq<byte>, e: Event, h': HeapState, held': set<int>,
                     m': seq<byte>,
                     b: Block, b': Block, x: int)
    requires Ok(h) && Ok(h') && |m| == h.max && EventStep(h, held, m, e, h', held', m')
    requires Holds(h, e, h', b, b', x) && 0 <= x < b.req && x < b'.req
    ensures SameByte(b, m, b', m', x)
  {
    hide Ok, Live, Perform, Held, Reallocate;
    match e
    case Calls(c) =>
      assert CarriesOver(b, m, b', m') && SameByte(b, m, b', m', x);
    case Writes(w, y, v) =>
      WriteKeeps(h, m, w, y, v, b, x);
  }

  /** Until a call breaks the heap, and as long as its caller does not free the block, shrink it below that offset or
      write there, a byte of a block keeps its value, through all calls and writes of all callers, and through every
      reallocation of the block itself. */
  lemma {:induction false} ContentsSurvive(hs: seq<HeapState>, held: seq<set<int>>, ms: seq<seq<byte>>, es: seq<Event>,
                                           u: nat, bs: seq<Block>, x: int)
    requires History(hs, held, ms, es) && Tracks(hs, es, u, bs, x) && Live(hs[u].runs, bs[0])
    requires Peaceful(hs, es, u + |bs| - 1)
    ensures SameByte(bs[0], ms[u], bs[|bs| - 1], ms[u + |bs| - 1], x)
    decreases |bs|
  {
    hide Ok, HoldsLive, EventStep, Mends, Live, Holds;
    var n := |bs| - 1;
    if n == 0 {
      EveryHistory(hs, held, ms, es, u);
      LiveBounds(hs[u], bs[0]);
    } else {
      var s := u + n - 1;
      ContentsSurvive(hs, held, ms, es, u, bs[..n], x);
      EveryHistory(hs, held, ms, es, s);
      EveryHistory(hs, held, ms, es, s + 1);
      assert EventStep(hs[s], held[s], ms[s], es[s], hs[s + 1], held[s + 1], ms[s + 1]);
      assert Holds(hs[u + (n - 1)], es[u + (n - 1)], hs[u + (n - 1) + 1], bs[n - 1], bs[n - 1 + 1], x);
      EventCarries(hs[s], held[s], ms[s], es[s], hs[s + 1], held[s + 1], ms[s + 1], bs[n - 1], bs[n], x);
    }
  }
}
