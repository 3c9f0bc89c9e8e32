/** The frames behind pages and page tables: that each is in use once and marked so, and which are given back. */
module HeapFrames {
  import opened FrameBitmap
  import opened PageMap

  /** The frame behind page p, when it is mapped. */
  ghost function Frame(s: Paging, p: int): (f: int)
    requires Shaped(s) && 0 <= p < PAGES
  {
    PageBase(Lookup(s, p)) / PAGE
  }

  ghost predicate Mapped(s: Paging, p: int)
    requires Shaped(s)
  {
    0 <= p < RECURSIVE * ENTRIES && Lookup(s, p) != 0
  }

  ghost predicate HasTable(s: Paging, d: int)
    requires Shaped(s)
  {
    0 <= d < RECURSIVE && s.dir[d] != 0
  }

  /** A frame in use: one of the n frames, not frame 0, and its bit is set. */
  ghost predicate FrameInUse(ws: seq<Word>, n: int, f: int)
    requires 0 <= n <= BITS * |ws|
  {
    0 < f < n && Test(ws, f)
  }

  /** Every mapped page and every table has a frame in use, and no two of them the same. */
  ghost predicate FramesApart(s: Paging, ws: seq<Word>, n: int)
    requires Shaped(s) && 0 <= n <= BITS * |ws|
  {
    && (forall p | Mapped(s, p) :: FrameInUse(ws, n, Frame(s, p)))
    && (forall d | HasTable(s, d) :: FrameInUse(ws, n, TableFrame(s, d)))
    && (forall p, q | Mapped(s, p) && Mapped(s, q) && p != q :: Frame(s, p) != Frame(s, q))
    && (forall c, d | HasTable(s, c) && HasTable(s, d) && c != d :: TableFrame(s, c) != TableFrame(s, d))
    && (forall p, d | Mapped(s, p) && HasTable(s, d) :: Frame(s, p) != TableFrame(s, d))
  }

  // ---------- mapping ----------

  /** Page p now has frame f, which nobody had; and its table has frame g, if it is new, which nobody had either. */
  ghost predicate GetsFrames(s: Paging, s': Paging, p: int, f: int, g: int)
    requires Shaped(s) && Shaped(s') && 0 <= p < RECURSIVE * ENTRIES
  {
    && (forall q | 0 <= q < PAGES && q != p :: Lookup(s', q) == Lookup(s, q))
    && Lookup(s', p) != 0 && Frame(s', p) == f
    && (forall d | 0 <= d < RECURSIVE && d != p / ENTRIES :: s'.dir[d] == s.dir[d])
    && s'.dir[p / ENTRIES] != 0
    && if s.dir[p / ENTRIES] == 0 then TableFrame(s', p / ENTRIES) == g else s'.dir[p / ENTRIES] == s.dir[p / ENTRIES]
  }

  lemma MapKeepsApart(s: Paging, ws: seq<Word>, n: int, s': Paging, ws': seq<Word>, p: int, f: int, g: int)
    requires Shaped(s) && Shaped(s') && 0 <= n <= BITS * |ws| && |ws'| == |ws| && FramesApart(s, ws, n)
    requires 0 <= p < RECURSIVE * ENTRIES && GetsFrames(s, s', p, f, g)
    requires 0 < f < n && !Test(ws, f)
    requires s.dir[p / ENTRIES] == 0 ==> 0 < g < n && !Test(ws, g) && g != f
    requires forall b | 0 <= b < n :: Test(ws', b) <==> Test(ws, b) || b == f || (s.dir[p / ENTRIES] == 0 && b == g)
    ensures FramesApart(s', ws', n)
  {
    hide Lookup, Test;
    var d := p / ENTRIES;
    forall q | Mapped(s', q)
      ensures q == p || (Mapped(s, q) && Frame(s', q) == Frame(s, q) && FrameInUse(ws, n, Frame(s, q)))
    {
    }
    forall c | HasTable(s', c)
      ensures (c == d && s.dir[d] == 0) || (HasTable(s, c) && TableFrame(s', c) == TableFrame(s, c))
    {
    }
  }

  /** The frame that page p had before, as the first page of a run that was given up still has one, is lost: it is
      marked in use, but no page and no table has it. */
  lemma RemapLosesFrame(s: Paging, ws: seq<Word>, n: int, s': Paging, ws': seq<Word>, p: int, f: int, g: int)
    requires Shaped(s) && Shaped(s') && 0 <= n <= BITS * |ws| && |ws'| == |ws| && FramesApart(s, ws, n)
    requires 0 <= p < RECURSIVE * ENTRIES && Mapped(s, p) && GetsFrames(s, s', p, f, g) && InMap(ws, f) && !Test(ws, f)
    requires forall b | InMap(ws, b) :: Test(ws, b) ==> Test(ws', b)
    ensures FrameInUse(ws', n, Frame(s, p))
    ensures forall q | Mapped(s', q) :: Frame(s', q) != Frame(s, p)
    ensures forall d | HasTable(s', d) :: TableFrame(s', d) != Frame(s, p)
  {
    hide Lookup, Test;
    assert FrameInUse(ws, n, Frame(s, p));
    forall q | Mapped(s', q)
      ensures Frame(s', q) != Frame(s, p)
    {
      if q != p { assert Mapped(s, q); }
    }
    MappedHasTable(s, p);
    forall d | HasTable(s', d)
      ensures TableFrame(s', d) != Frame(s, p)
    {
      assert HasTable(s, d) && TableFrame(s', d) == TableFrame(s, d);
    }
  }

  lemma MappedHasTable(s: Paging, p: int)
    requires Shaped(s) && Mapped(s, p)
    ensures HasTable(s, p / ENTRIES)
  {
    BelowSlot(p);
  }

  /** More bits set take nobody's frame away. */
  lemma MoreBitsKeepApart(s: Paging, ws: seq<Word>, n: int, ws': seq<Word>)
    requires Shaped(s) && 0 <= n <= BITS * |ws| && |ws'| == |ws| && FramesApart(s, ws, n)
    requires forall b | 0 <= b < n :: Test(ws, b) ==> Test(ws', b)
    ensures FramesApart(s, ws', n)
  {
    hide Lookup, Test;
    forall p | Mapped(s, p)
      ensures FrameInUse(ws', n, Frame(s, p))
    {
      assert FrameInUse(ws, n, Frame(s, p));
    }
    forall d | HasTable(s, d)
      ensures FrameInUse(ws', n, TableFrame(s, d))
    {
      assert FrameInUse(ws, n, TableFrame(s, d));
    }
  }

  /** A round of the mapping loop: the page gets the next free frame, and a new table the one after it. */
  lemma RoundKeepsApart(s: Paging, ws: seq<Word>, p: int, flags: nat, image: seq<nat>, lo: int, hi: int)
    requires Shaped(s) && 0 <= lo <= hi <= |ws| && hi <= MAX_WORDS && FramesApart(s, ws, BITS * hi)
    requires 0 <= p < RECURSIVE * ENTRIES
    requires |image| == ENTRIES && forall k | 0 <= k < ENTRIES :: image[k] == 0
    requires var f := FirstFree(ws, lo, hi, false);
             f != 0 && InMap(ws, f) && (s.dir[p / ENTRIES] == 0 ==> FirstFree(Mark(ws, BITS, f), lo, hi, false) != 0)
    ensures var f := FirstFree(ws, lo, hi, false); var w1 := Mark(ws, BITS, f); var g := FirstFree(w1, lo, hi, false);
            && 0 < f && 0 <= g && (s.dir[p / ENTRIES] == 0 ==> InMap(w1, g))
            && FramesApart(MapPage(s, p, Entry(f * PAGE, flags), g * PAGE, image),
                           if s.dir[p / ENTRIES] == 0 then Mark(w1, BITS, g) else w1, BITS * hi)
  {
    hide FramesApart, FirstFree, Mark, Test, Lookup, MapPage, PageBase;
    BelowSlot(p);
    var f := FirstFree(ws, lo, hi, false);
    InMapIs(ws, f);
    var w1 := Mark(ws, BITS, f);
    MarkAddsBits(ws, f);
    var g := FirstFree(w1, lo, hi, false);
    FoundIsClear(ws, lo, hi, false);
    FoundIsClear(w1, lo, hi, false);
    var e := Entry(f * PAGE, flags);
    var s' := MapPage(s, p, e, g * PAGE, image);
    MapReadsBack(s, p, e, g * PAGE, image);
    MapKeepsOthersIff(s, p, e, g * PAGE, image);
    EntryFrame(f, flags);
    MapDirectory(s, p, e, g, image);
    assert GetsFrames(s, s', p, f, g);
    var w2 := w1;
    if s.dir[p / ENTRIES] == 0 {
      InMapIs(w1, g);
      assert InMap(ws, g);
      MarkAddsBits(w1, g);
      w2 := Mark(w1, BITS, g);
    }
    BitsAfter(ws, w1, w2, f, g, s.dir[p / ENTRIES] == 0, BITS * hi);
    MapKeepsApart(s, ws, BITS * hi, s', w2, p, f, g);
  }

  lemma InMapIs(ws: seq<Word>, f: int)
    ensures InMap(ws, f) <==> 0 <= f < BITS * |ws|
  {
  }

  lemma BitsAfter(w0: seq<Word>, w1: seq<Word>, w2: seq<Word>, f: int, g: int, both: bool, n: int)
    requires 0 <= n <= BITS * |w0| && |w0| == |w1| == |w2|
    requires forall b | InMap(w0, b) :: Test(w1, b) <==> b == f || Test(w0, b)
    requires if both then forall b | InMap(w1, b) :: Test(w2, b) <==> b == g || Test(w1, b) else w2 == w1
    ensures forall b | 0 <= b < n :: Test(w2, b) <==> Test(w0, b) || b == f || (both && b == g)
  {
    hide Test;
  }

  lemma EntryFrame(f: int, flags: nat)
    requires 0 <= f < MAX_WORDS * BITS
    ensures PageBase(Entry(f * PAGE, flags)) / PAGE == f
  {
  }

  lemma MapDirectory(s: Paging, p: int, e: nat, g: int, image: seq<nat>)
    requires Shaped(s) && 0 <= p < RECURSIVE * ENTRIES && |image| == ENTRIES && 0 <= g
    requires s.dir[p / ENTRIES] == 0 ==> g < MAX_WORDS * BITS
    ensures var s' := MapPage(s, p, e, g * PAGE, image); var d := p / ENTRIES;
            && (forall c | 0 <= c < RECURSIVE && c != d :: s'.dir[c] == s.dir[c]) && s'.dir[d] != 0
            && if s.dir[d] == 0 then TableFrame(s', d) == g else s'.dir[d] == s.dir[d]
  {
    BelowSlot(p);
    if s.dir[p / ENTRIES] == 0 { FrameOfEntry(g); }
  }

  // ---------- giving back ----------

  /** What a round of the freeing loop gives back: the frame behind page p, or frame 0 when there is none, and the frame
      of the page's table when that goes. */
  ghost function RoundReleases(s: Paging, s': Paging, p: int): (fs: set<int>)
    requires Shaped(s) && Shaped(s') && 0 <= p < PAGES
  {
    {if Lookup(s, p) == 0 then 0 else Frame(s, p)}
    + (if s.dir[p / ENTRIES] != 0 && s'.dir[p / ENTRIES] == 0 then {TableFrame(s, p / ENTRIES)} else {})
  }

  /** The page is gone, and perhaps its table; everything else is as it was. */
  ghost predicate LosesPage(s: Paging, s': Paging, p: int)
    requires Shaped(s) && Shaped(s') && 0 <= p < RECURSIVE * ENTRIES
  {
    && (forall q | 0 <= q < PAGES :: Lookup(s', q) == if q == p then 0 else Lookup(s, q))
    && (forall d | 0 <= d < RECURSIVE :: s'.dir[d] == s.dir[d] || (d == p / ENTRIES && s'.dir[d] == 0))
  }

  ghost predicate ClearsExactly(ws: seq<Word>, ws': seq<Word>, fs: set<int>) {
    |ws'| == |ws| && forall b | InMap(ws, b) :: Test(ws', b) <==> Test(ws, b) && b !in fs
  }

  lemma UnmapKeepsApart(s: Paging, ws: seq<Word>, n: int, s': Paging, ws': seq<Word>, p: int)
    requires Shaped(s) && Shaped(s') && 0 <= n <= BITS * |ws| && FramesApart(s, ws, n)
    requires 0 <= p < RECURSIVE * ENTRIES && LosesPage(s, s', p) && ClearsExactly(ws, ws', RoundReleases(s, s', p))
    ensures FramesApart(s', ws', n)
  {
    hide Lookup, Test;
    forall q | Mapped(s', q)
      ensures Mapped(s, q) && q != p && Frame(s', q) == Frame(s, q) && FrameInUse(ws', n, Frame(s, q))
    {
      assert FrameInUse(ws, n, Frame(s, q)) && Mapped(s, q);
      if Lookup(s, p) != 0 { assert Mapped(s, p); }
      if s.dir[p / ENTRIES] != 0 { BelowSlot(p); assert HasTable(s, p / ENTRIES); }
    }
    forall d | HasTable(s', d)
      ensures HasTable(s, d) && s'.dir[d] == s.dir[d] && FrameInUse(ws', n, TableFrame(s, d))
    {
      assert FrameInUse(ws, n, TableFrame(s, d)) && HasTable(s, d);
      if Lookup(s, p) != 0 { assert Mapped(s, p); }
      if s.dir[p / ENTRIES] != 0 { BelowSlot(p); assert HasTable(s, p / ENTRIES); }
    }
  }

  /** A round of the freeing loop. */
  lemma UnmapOutcome(s: Paging, ws: seq<Word>, p: int, s': Paging, ws': seq<Word>)
    requires Shaped(s) && 0 <= p < RECURSIVE * ENTRIES && InMap(ws, Frame(s, p))
    requires s' == if s.dir[p / ENTRIES] == 0 then s else ErasePage(s, p)
    requires var f, d := if Lookup(s, p) == 0 then 0 else Frame(s, p), p / ENTRIES;
             && InMap(ws, f)
             && if s.dir[d] != 0 && TableEmpty(Paging(s.dir, s.tab[p := 0]), d) then
                  InMap(ws, TableFrame(s, d)) && ws' == Unmark(Unmark(ws, f), TableFrame(s, d))
                else ws' == Unmark(ws, f)
    ensures LosesPage(s, s', p) && ClearsExactly(ws, ws', RoundReleases(s, s', p))
  {
    hide Unmark, Frame, TableFrame, ClearsExactly, TableEmpty, InMap;
    BelowSlot(p);
    if s.dir[p / ENTRIES] != 0 {
      forall q | 0 <= q < PAGES
        ensures Lookup(s', q) == if q == p then 0 else Lookup(s, q)
      {
        EraseClearsOne(s, p, q);
      }
    }
    ClearsTheseTwo(ws, ws', if Lookup(s, p) == 0 then 0 else Frame(s, p),
                   s.dir[p / ENTRIES] != 0 && s'.dir[p / ENTRIES] == 0, TableFrame(s, p / ENTRIES));
  }

  lemma ClearsTheseTwo(ws: seq<Word>, ws': seq<Word>, f: int, both: bool, g: int)
    requires InMap(ws, f) && (both ==> InMap(ws, g))
    requires ws' == if both then Unmark(Unmark(ws, f), g) else Unmark(ws, f)
    ensures ClearsExactly(ws, ws', {f} + if both then {g} else {})
  {
    hide Test;
    forall b | InMap(ws, b)
      ensures Test(Unmark(ws, f), b) <==> b != f && Test(ws, b)
      ensures both ==> (Test(ws', b) <==> b != g && Test(Unmark(ws, f), b))
    {
      UnmarkClearsOne(ws, f, b);
      if both { UnmarkClearsOne(Unmark(ws, f), g, b); }
    }
  }

  /** Frame 0 is given back exactly when the page past the end is not mapped. */
  lemma ZeroReleased(s: Paging, s': Paging, first: int, n: int)
    requires Shaped(s) && Shaped(s') && 0 <= first && 0 <= n && first + n < RECURSIVE * ENTRIES
    requires forall p | Mapped(s, p) :: 0 < Frame(s, p)
    requires forall d | HasTable(s, d) :: 0 < TableFrame(s, d)
    ensures 0 in Releases(s, s', first, n) <==> 0 < n && Lookup(s, first + n) == 0
  {
    hide Lookup, TableFrame, Frame;
    forall q | first < q <= first + n && Lookup(s, q) != 0
      ensures Frame(s, q) != 0
    {
      assert Mapped(s, q);
    }
    forall d | 0 <= d < RECURSIVE && s.dir[d] != 0
      ensures TableFrame(s, d) != 0
    {
      assert HasTable(s, d);
    }
  }

  lemma BelowSlot(p: int)
    requires 0 <= p < RECURSIVE * ENTRIES
    ensures 0 <= p / ENTRIES < RECURSIVE && p < PAGES
  {
  }

  /** What the freeing loop for the n pages from first on gives back, from s to s': the frames behind the mapped pages
      among the next n, those of the tables that went, and frame 0 when the last of these pages is not mapped. */
  ghost function Releases(s: Paging, s': Paging, first: int, n: int): (fs: set<int>)
    requires Shaped(s) && Shaped(s') && 0 <= first && 0 <= n && first + n < PAGES
  {
    (set q | first < q <= first + n && Lookup(s, q) != 0 :: Frame(s, q))
    + (set d | 0 <= d < RECURSIVE && s.dir[d] != 0 && s'.dir[d] == 0 :: TableFrame(s, d))
    + (if 0 < n && Lookup(s, first + n) == 0 then {0} else {})
  }

  lemma ReleasesNothing(s: Paging, first: int)
    requires Shaped(s) && 0 <= first < PAGES
    ensures Releases(s, s, first, 0) == {}
  {
  }

  /** One more round of the loop, at page p, the pages above having been done. */
  lemma ReleasesStep(s: Paging, t: Paging, t': Paging, p: int, n: int)
    requires Shaped(s) && Shaped(t) && Shaped(t') && 0 < p && 0 <= n && p + n < RECURSIVE * ENTRIES
    requires LosesPage(t, t', p) && Lookup(t, p) == Lookup(s, p) && (n > 0 ==> Lookup(s, p) != 0)
    requires forall d | 0 <= d < RECURSIVE :: t.dir[d] == s.dir[d] || t.dir[d] == 0
    ensures Releases(s, t', p - 1, n + 1) == Releases(s, t, p, n) + RoundReleases(t, t', p)
  {
    hide Lookup, TableFrame;
    BelowSlot(p);
    var e := p / ENTRIES;
    var pages, pages' := set q | p < q <= p + n && Lookup(s, q) != 0 :: Frame(s, q),
                         set q | p - 1 < q <= p + n && Lookup(s, q) != 0 :: Frame(s, q);
    assert pages' == pages + (if Lookup(s, p) != 0 then {Frame(s, p)} else {}) by {
      if Lookup(s, p) != 0 { assert Frame(s, p) in pages'; }
    }
    TablesStep(s, t, t', p);
  }

  lemma TablesStep(s: Paging, t: Paging, t': Paging, p: int)
    requires Shaped(s) && Shaped(t) && Shaped(t') && 0 <= p < RECURSIVE * ENTRIES && LosesPage(t, t', p)
    requires forall d | 0 <= d < RECURSIVE :: t.dir[d] == s.dir[d] || t.dir[d] == 0
    ensures var e := p / ENTRIES;
            (set d | 0 <= d < RECURSIVE && s.dir[d] != 0 && t'.dir[d] == 0 :: TableFrame(s, d))
            == (set d | 0 <= d < RECURSIVE && s.dir[d] != 0 && t.dir[d] == 0 :: TableFrame(s, d))
               + (if t.dir[e] != 0 && t'.dir[e] == 0 then {TableFrame(t, e)} else {})
  {
    BelowSlot(p);
    var e := p / ENTRIES;
    var before := set d | 0 <= d < RECURSIVE && s.dir[d] != 0 && t.dir[d] == 0 :: TableFrame(s, d);
    var after := set d | 0 <= d < RECURSIVE && s.dir[d] != 0 && t'.dir[d] == 0 :: TableFrame(s, d);
    forall f
      ensures f in after <==> f in before || (t.dir[e] != 0 && t'.dir[e] == 0 && f == TableFrame(t, e))
    {
      if f in before {
        var d :| 0 <= d < RECURSIVE && s.dir[d] != 0 && t.dir[d] == 0 && TableFrame(s, d) == f;
        assert t'.dir[d] == 0;
      }
      if t.dir[e] != 0 && t'.dir[e] == 0 && f == TableFrame(t, e) { assert s.dir[e] == t.dir[e]; }
    }
  }

  lemma ClearsTwice(w0: seq<Word>, w1: seq<Word>, w2: seq<Word>, fs: set<int>, gs: set<int>)
    requires ClearsExactly(w0, w1, fs) && ClearsExactly(w1, w2, gs)
    ensures ClearsExactly(w0, w2, fs + gs)
  {
    hide Test;
  }
}
