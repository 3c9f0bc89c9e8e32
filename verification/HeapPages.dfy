/** What the heap's page loops do to the page map and the frame bitmap. */
module HeapPages {
  import opened FrameBitmap
  import opened PageMap
  import opened HeapFrames

  /** The pages with an entry, the recursive slot aside. */
  ghost function MappedPages(s: Paging): (xs: set<int>)
    requires Shaped(s)
  {
    set p | 0 <= p < RECURSIVE * ENTRIES && Lookup(s, p) != 0
  }

  /** Frames that the machine has, so that they can be given back to the bitmap. */
  ghost predicate FramesExist(v: Virtual)
    requires v.Valid()
    reads v.pageDirectories, v.pageTables
  {
    AllExist(v.View(), BITS * v.frames.frameCount)
  }

  ghost predicate AllExist(s: Paging, n: int)
    requires Shaped(s)
  {
    && (forall p | Mapped(s, p) :: 0 < Frame(s, p) < n)
    && (forall d | HasTable(s, d) :: 0 < TableFrame(s, d))
  }

  lemma StillExist(s: Paging, s': Paging, page: int, n: int)
    requires Shaped(s) && Shaped(s') && 0 <= page < RECURSIVE * ENTRIES && AllExist(s, n) && LosesPage(s, s', page)
    ensures AllExist(s', n) && MappedPages(s') == MappedPages(s) - {page}
  {
    hide Lookup;
    forall p | Mapped(s', p)
      ensures Mapped(s, p) && Frame(s', p) == Frame(s, p)
    {
    }
    forall d | HasTable(s', d)
      ensures HasTable(s, d) && TableFrame(s', d) == TableFrame(s, d)
    {
    }
  }

  lemma BelowRecursive(p: int)
    ensures 0 <= p < RECURSIVE * ENTRIES <==> 0 <= p < PAGES && p / ENTRIES < RECURSIVE
  {
  }

  /** How many frames the frame allocator can still hand out. */
  ghost function Spare(v: Virtual): (n: nat)
    requires v.Valid()
    reads v.pageDirectories, v.frames.bitmap
  {
    |FreeFrames(v.frames.bitmap[..], v.frames.dmaZoneEnd, v.frames.frameCount)|
  }

  /** Answer 0 means that no frame is left: the zone does not begin at frame 0, or that frame is reserved. */
  ghost predicate ZeroOut(v: Virtual, ws: seq<Word>) {
    0 < v.frames.dmaZoneEnd || (InMap(ws, 0) && Test(ws, 0))
  }

  /** AllocatePage takes one frame, or finds none. */
  lemma NextFrameSpare(v: Virtual, ws: seq<Word>)
    requires v.Valid() && |ws| == v.frames.bitmap.Length && ZeroOut(v, ws)
    ensures var f := v.NextFrame(ws); var lo, hi := v.frames.dmaZoneEnd, v.frames.frameCount;
            && InMap(ws, f) && |Mark(ws, BITS, f)| == |ws| && ZeroOut(v, Mark(ws, BITS, f))
            && (f == 0 <==> |FreeFrames(ws, lo, hi)| == 0)
            && |FreeFrames(Mark(ws, BITS, f), lo, hi)| == |FreeFrames(ws, lo, hi)| - if f == 0 then 0 else 1
  {
    TakesOneFrame(ws, v.frames.dmaZoneEnd, v.frames.frameCount);
    MarkSize(ws, v.NextFrame(ws));
  }

  /** With frame 0 clear at the head of the zone, it is the frame that is found, and answer 0 although it was free. */
  lemma NextFrameIsZero(v: Virtual, ws: seq<Word>)
    requires v.Valid() && |ws| == v.frames.bitmap.Length && !ZeroOut(v, ws)
    ensures v.NextFrame(ws) == 0 && InMap(ws, 0) && |Mark(ws, BITS, 0)| == |ws| && ZeroOut(v, Mark(ws, BITS, 0))
    ensures var lo, hi := v.frames.dmaZoneEnd, v.frames.frameCount;
            FreeFrames(Mark(ws, BITS, 0), lo, hi) == FreeFrames(ws, lo, hi) - {0}
  {
    hide Mark;
    FindsLowest(ws, v.frames.dmaZoneEnd, v.frames.frameCount);
    MarkSize(ws, 0);
    forall b | InMap(ws, b)
      ensures Test(Mark(ws, BITS, 0), b) <==> b == 0 || Test(ws, b)
    {
      MarkSetsOne(ws, 0, b);
    }
  }

  /** Every page and every table has a frame of its own, which is marked as in use. */
  ghost predicate OwnFrames(v: Virtual)
    requires v.Valid()
    reads v.pageDirectories, v.pageTables, v.frames.bitmap
  {
    FramesApart(v.View(), v.frames.bitmap[..], BITS * v.frames.frameCount)
  }

  /** The n pages from first on are mapped, with their tables; every other page and table is as before. */
  ghost predicate GainsPages(s: Paging, s': Paging, first: int, n: int)
    requires Shaped(s) && Shaped(s')
  {
    && (forall q | 0 <= q < PAGES && !(first <= q < first + n) :: Lookup(s', q) == Lookup(s, q))
    && (forall q | first <= q < first + n :: 0 <= q < PAGES && Lookup(s', q) != 0)
    && (forall d | 0 <= d < ENTRIES ::
          s'.dir[d] == 0 <==> s.dir[d] == 0 && !(0 < n && first / ENTRIES <= d <= (first + n - 1) / ENTRIES))
  }

  lemma GainsNone(s: Paging, first: int)
    requires Shaped(s)
    ensures GainsPages(s, s, first, 0)
  {
  }

  lemma GainsOneMore(s: Paging, t: Paging, t': Paging, first: int, m: int)
    requires Shaped(s) && Shaped(t) && Shaped(t') && 0 <= first && 0 <= m && first + m < PAGES
    requires GainsPages(s, t, first, m) && GainsPages(t, t', first + m, 1)
    ensures GainsPages(s, t', first, m + 1)
  {
    hide Lookup;
  }

  lemma GainedPages(s: Paging, s': Paging, first: int, n: nat)
    requires Shaped(s) && Shaped(s') && 0 <= first && first + n <= RECURSIVE * ENTRIES && GainsPages(s, s', first, n)
    ensures MappedPages(s') == MappedPages(s) + Range(first, n)
  {
    hide Lookup;
    forall q
      ensures q in Range(first, n) <==> first <= q < first + n
    {
      InRange(first, n, q);
    }
  }

  lemma {:induction false} InRange(a: int, n: nat, q: int)
    ensures q in Range(a, n) <==> a <= q < a + n
    decreases n
  {
    if n > 0 { InRange(a + 1, n - 1, q); }
  }

  /** The frames one round needs: one for the page, and one for its table when there is none yet. */
  ghost function Needs(dirEntry: nat): (n: nat) {
    if dirEntry == 0 then 2 else 1
  }

  /** One round of liballoc_alloc: a frame, then a mapping. Without a frame, or with frame 0 to be had, nothing is
      mapped; with one for the page but none for the table it needs, the machine halts. image is the memory of the
      frame that a new table would get. */
  method MapOne(v: Virtual, page: nat, flags: nat, image: seq<nat>) returns (got: bool, halted: bool)
    requires v.Valid() && page < RECURSIVE * ENTRIES
    requires |image| == ENTRIES && forall k | 0 <= k < ENTRIES :: image[k] == 0
    modifies v.pageDirectories, v.pageTables, v.frames.bitmap
    ensures v.Valid() && ZeroOut(v, v.frames.bitmap[..])
    ensures got <==> old(ZeroOut(v, v.frames.bitmap[..])) && old(Spare(v)) != 0
    ensures halted <==> got && old(Spare(v)) == 1 && Needs(old(v.pageDirectories[page / ENTRIES])) == 2
    ensures !got || halted ==> v.View() == old(v.View())
    ensures if old(ZeroOut(v, v.frames.bitmap[..])) then !got || halted ==> Spare(v) == 0
            else v.frames.bitmap[..] == Mark(old(v.frames.bitmap[..]), BITS, 0)
    ensures got && !halted ==>
              && GainsPages(old(v.View()), v.View(), page, 1)
              && Lookup(v.View(), page) == Entry(v.NextFrame(old(v.frames.bitmap[..])) * PAGE, flags)
              && Spare(v) == old(Spare(v)) - Needs(old(v.pageDirectories[page / ENTRIES]))
    ensures old(OwnFrames(v)) ==> OwnFrames(v)
  {
    hide FreeFrames, Mark, Test, FramesApart;
    BelowRecursive(page);
    PageAddress(page);
    ghost var s0, w0 := v.View(), v.frames.bitmap[..];
    if ZeroOut(v, w0) { NextFrameSpare(v, w0); } else { NextFrameIsZero(v, w0); }
    var p := v.frames.AllocatePage(false);
    got, halted := p != 0, false;
    if p == 0 {
      MarkedKeepApart(s0, w0, 0, BITS * v.frames.frameCount);
      return;
    }
    ghost var ws := v.frames.bitmap[..];
    NextFrameSpare(v, ws);
    halted := v.MapMemory(p, page * PAGE, flags, image);
    if !halted {
      MapReadsBack(old(v.View()), page, Entry(p, flags), v.NextFrame(ws) * PAGE, image);
      MapKeepsOthersIff(old(v.View()), page, Entry(p, flags), v.NextFrame(ws) * PAGE, image);
      assert Lookup(v.View(), page) == Entry(p, flags);
      if FramesApart(s0, w0, BITS * v.frames.frameCount) {
        RoundKeepsApart(s0, w0, page, flags, image, v.frames.dmaZoneEnd, v.frames.frameCount);
      }
    } else {
      MarkedKeepApart(s0, w0, v.NextFrame(w0), BITS * v.frames.frameCount);
      MarkedKeepApart(s0, ws, 0, BITS * v.frames.frameCount);
    }
  }

  lemma MarkedKeepApart(s: Paging, ws: seq<Word>, f: int, n: int)
    requires Shaped(s) && 0 <= n <= BITS * |ws| && InMap(ws, f)
    ensures |Mark(ws, BITS, f)| == |ws| && (FramesApart(s, ws, n) ==> FramesApart(s, Mark(ws, BITS, f), n))
  {
    hide FramesApart, Mark, Test;
    MarkAddsBits(ws, f);
    if FramesApart(s, ws, n) { MoreBitsKeepApart(s, ws, n, Mark(ws, BITS, f)); }
  }

  lemma PageAddress(page: nat)
    requires page < PAGES
    ensures PageBase(page * PAGE) == page * PAGE && page * PAGE / PAGE == page
    ensures page * PAGE < ADDRESSES && page * PAGE % PAGE == 0
  {
  }

  /** One round of liballoc_free: look the frame up, give it back, erase the mapping. For a page that is not mapped the
      lookup answers 0, and it is frame 0 that is given back; where there is no table the erasing faults. */
  method UnmapOne(v: Virtual, page: nat) returns (fault: bool)
    requires v.Valid() && page < RECURSIVE * ENTRIES && FramesExist(v)
    modifies v.pageDirectories, v.pageTables, v.frames.bitmap
    ensures v.Valid()
    ensures fault <==> old(v.pageDirectories[page / ENTRIES]) == 0
    ensures MappedPages(v.View()) == old(MappedPages(v.View())) - {page}
    ensures LosesPage(old(v.View()), v.View(), page)
    ensures ClearsExactly(old(v.frames.bitmap[..]), v.frames.bitmap[..], RoundReleases(old(v.View()), v.View(), page))
    ensures FramesExist(v) && (old(OwnFrames(v)) ==> OwnFrames(v))
  {
    hide FramesApart, Test, ErasePage, Unmark, LosesPage, ClearsExactly, RoundReleases;
    BelowRecursive(page);
    PageAddress(page);
    ghost var s, ws := v.View(), v.frames.bitmap[..];
    ghost var e := Lookup(s, page);
    var phys, flags := v.RetrieveMapping(page * PAGE);
    FrameAddress(e);
    var aligned := v.frames.FreePage(phys);
    fault := v.EraseMapping(page * PAGE);
    UnmapOutcome(s, ws, page, v.View(), v.frames.bitmap[..]);
    StillExist(s, v.View(), page, BITS * v.frames.frameCount);
    if FramesApart(s, ws, BITS * v.frames.frameCount) {
      UnmapKeepsApart(s, ws, BITS * v.frames.frameCount, v.View(), v.frames.bitmap[..], page);
    }
  }

  lemma FrameAddress(e: nat)
    ensures PageBase(e) % PAGE == 0 && (PageBase(e) + 0) / PAGE == PageBase(e) / PAGE
  {
  }

  lemma LookupHasTable(s: Paging, p: int)
    requires Shaped(s) && 0 <= p < PAGES
    ensures Lookup(s, p) != 0 ==> s.dir[p / ENTRIES] != 0
  {
  }

  /** Page numbers from a, n of them. */
  ghost function Range(a: int, n: nat): (xs: set<int>)
    decreases n
  {
    if n == 0 then {} else Range(a + 1, n - 1) + {a}
  }

  /** The loop of liballoc_free over the page map, for a run of n mapped pages from first on. It faults exactly when
      the page just past the run has no table. Else it unmaps the pages (first, first + n], and gives back exactly the
      frames behind the mapped ones among them, those of the tables that go, and frame 0, reserved so that address 0
      can mean failure, when the page just past the run is not mapped. Pages and tables that had frames of their own
      still do. */
  method UnmapRun(v: Virtual, first: nat, n: nat) returns (fault: bool)
    requires v.Valid() && FramesExist(v) && first + n < RECURSIVE * ENTRIES
    requires forall p | first <= p < first + n :: 0 <= p < PAGES && Lookup(v.View(), p) != 0
    modifies v.pageDirectories, v.pageTables, v.frames.bitmap
    ensures v.Valid() && FramesExist(v) && (old(OwnFrames(v)) ==> OwnFrames(v))
    ensures fault <==> 0 < n && old(v.pageDirectories[(first + n) / ENTRIES]) == 0
    ensures !fault ==>
              && MappedPages(v.View()) == old(MappedPages(v.View())) - Range(first + 1, n)
              && (forall q | 0 <= q < PAGES && !(first < q <= first + n) ::
                    Lookup(v.View(), q) == old(Lookup(v.View(), q)))
              && ClearsExactly(old(v.frames.bitmap[..]), v.frames.bitmap[..],
                               Releases(old(v.View()), v.View(), first, n))
    ensures 0 in Releases(old(v.View()), v.View(), first, n) <==> 0 < n && old(Lookup(v.View(), first + n)) == 0
  {
    hide MappedPages, Test, Lookup, FramesApart, Releases, RoundReleases, ClearsExactly;
    ghost var s, ws := v.View(), v.frames.bitmap[..];
    ReleasesNothing(s, first + n);
    ClearsNothing(ws);
    var i := n;
    fault := false;
    while i > 0
      invariant 0 <= i <= n && v.Valid() && FramesExist(v) && (old(OwnFrames(v)) ==> OwnFrames(v))
      invariant forall q | 0 <= q < PAGES && !(first + i < q <= first + n) :: Lookup(v.View(), q) == Lookup(s, q)
      invariant forall d | 0 <= d < RECURSIVE :: v.View().dir[d] == s.dir[d] || v.View().dir[d] == 0
      invariant MappedPages(v.View()) == old(MappedPages(v.View())) - Range(first + i + 1, n - i)
      invariant ClearsExactly(ws, v.frames.bitmap[..], Releases(s, v.View(), first + i, n - i))
      invariant i == n ==> v.pageDirectories[..] == old(v.pageDirectories[..])
      invariant i < n ==> old(v.pageDirectories[(first + n) / ENTRIES]) != 0
    {
      ghost var t, wt := v.View(), v.frames.bitmap[..];
      LookupHasTable(t, first + i);
      fault := UnmapOne(v, first + i);
      if fault {
        ZeroReleased(s, v.View(), first, n);
        return;
      }
      ReleasesStep(s, t, v.View(), first + i, n - i);
      ClearsTwice(ws, wt, v.frames.bitmap[..], Releases(s, t, first + i, n - i), RoundReleases(t, v.View(), first + i));
      i := i - 1;
    }
    ZeroReleased(s, v.View(), first, n);
  }

  lemma ClearsNothing(ws: seq<Word>)
    ensures ClearsExactly(ws, ws, {})
  {
  }

  // ---------- the loop of liballoc_alloc ----------

  /** The frames that mapping the k pages from first on takes, starting from the given directory: one a page, and one
      for each table that is not there yet. */
  ghost function Demand(dir: seq<nat>, first: nat, k: nat): (n: nat)
    requires |dir| == ENTRIES && first + k <= RECURSIVE * ENTRIES
  {
    if k == 0 then 0
    else
      var d := (first + k - 1) / ENTRIES;
      Demand(dir, first, k - 1) + (if k > 1 && (first + k - 2) / ENTRIES == d then 1 else Needs(dir[d]))
  }

  /** The slots among those of the k pages from first on that have no table. */
  ghost function MissingTables(dir: seq<nat>, first: nat, k: nat): (ds: set<int>)
    requires |dir| == 1024
  {
    set d | 0 <= d < |dir| && dir[d] == 0 && first <= d * 1024 + 1023 && d * 1024 < first + k
  }

  /** What the k pages take is a frame for each of them and one for each table missing. */
  lemma {:induction false} DemandIs(dir: seq<nat>, first: nat, k: nat)
    requires |dir| == 1024 && 0 < k && first + k <= 1023 * 1024
    ensures Demand(dir, first, k) == k + |MissingTables(dir, first, k)|
  {
    var d := (first + k - 1) / ENTRIES;
    if k == 1 {
      assert MissingTables(dir, first, 1) == if dir[d] == 0 then {d} else {};
      assert Demand(dir, first, 1) == Demand(dir, first, 0) + Needs(dir[d]);
    } else {
      DemandIs(dir, first, k - 1);
      var before := MissingTables(dir, first, k - 1);
      if (first + k - 2) / ENTRIES == d || dir[d] != 0 {
        assert MissingTables(dir, first, k) == before;
      } else {
        assert d !in before;
        assert MissingTables(dir, first, k) == before + {d};
      }
    }
  }

  lemma {:induction false} DemandGrows(dir: seq<nat>, first: nat, j: nat, k: nat)
    requires |dir| == ENTRIES && first + k <= RECURSIVE * ENTRIES && j <= k
    ensures Demand(dir, first, j) + (k - j) <= Demand(dir, first, k)
  {
    if j < k { DemandGrows(dir, first, j, k - 1); }
  }

  /** The next page needs what the directory by now says. */
  lemma DemandStep(s: Paging, t: Paging, first: nat, m: nat)
    requires Shaped(s) && Shaped(t) && first + m + 1 <= RECURSIVE * ENTRIES && GainsPages(s, t, first, m)
    ensures Demand(s.dir, first, m + 1) == Demand(s.dir, first, m) + Needs(t.dir[(first + m) / ENTRIES])
    ensures 1 <= Needs(t.dir[(first + m) / ENTRIES]) <= 2
  {
    hide Lookup;
  }

  lemma NothingMapped(dir: seq<nat>, first: nat)
    requires |dir| == ENTRIES && first <= RECURSIVE * ENTRIES
    ensures Range(first, 0) == {} && Demand(dir, first, 0) == 0
  {
  }

  /** The loop of liballoc_alloc over the page map, for n pages from first on, mapped before or not. With frame 0
      clear at the head of the zone, it is refused at once, whatever frames are left. Otherwise it maps all its pages
      if and only if there are frames for them and for the tables they need, else as many as there are frames for; and
      then it halts the machine if and only if one frame is left, which the next page takes and its table lacks. Pages
      and tables that had frames of their own still do, and frame 0 does not mislead the next call. */
  method MapRun(v: Virtual, first: nat, n: nat, flags: nat, image: seq<nat>) returns (m: nat, halted: bool)
    requires v.Valid() && first + n <= RECURSIVE * ENTRIES
    requires |image| == ENTRIES && forall k | 0 <= k < ENTRIES :: image[k] == 0
    modifies v.pageDirectories, v.pageTables, v.frames.bitmap
    ensures v.Valid() && m <= n && (0 < n ==> ZeroOut(v, v.frames.bitmap[..]))
    ensures old(OwnFrames(v)) ==> OwnFrames(v)
    ensures GainsPages(old(v.View()), v.View(), first, m)
    ensures MappedPages(v.View()) == old(MappedPages(v.View())) + Range(first, m)
    ensures m == n <==> n == 0 || (old(ZeroOut(v, v.frames.bitmap[..]))
                                   && Demand(old(v.pageDirectories[..]), first, n) <= old(Spare(v)))
    ensures 0 < n && !old(ZeroOut(v, v.frames.bitmap[..])) ==>
              && m == 0 && !halted && v.View() == old(v.View())
              && v.frames.bitmap[..] == Mark(old(v.frames.bitmap[..]), BITS, 0)
    ensures old(ZeroOut(v, v.frames.bitmap[..])) ==>
              && (m < n ==> Demand(old(v.pageDirectories[..]), first, m) <= old(Spare(v))
                            < Demand(old(v.pageDirectories[..]), first, m + 1))
              && (halted <==> m < n && old(Spare(v)) == Demand(old(v.pageDirectories[..]), first, m) + 1)
              && Spare(v) == if m < n then 0 else old(Spare(v)) - Demand(old(v.pageDirectories[..]), first, n)
  {
    hide MappedPages, Test, Lookup, FreeFrames, Range, Demand, FramesApart, ZeroOut, Mark, GainsPages, Needs;
    NothingMapped(v.pageDirectories[..], first);
    GainsNone(v.View(), first);
    ghost var s0, spare, out := v.View(), Spare(v), ZeroOut(v, v.frames.bitmap[..]);
    m, halted := 0, false;
    while m < n
      invariant m <= n && !halted && v.Valid() && GainsPages(s0, v.View(), first, m)
      invariant if m == 0 then v.frames.bitmap[..] == old(v.frames.bitmap[..]) && v.View() == s0
                else out && ZeroOut(v, v.frames.bitmap[..])
      invariant old(OwnFrames(v)) ==> OwnFrames(v)
      invariant Demand(s0.dir, first, m) <= spare && Spare(v) == spare - Demand(s0.dir, first, m)
    {
      DemandGrows(s0.dir, first, m + 1, n);
      DemandStep(s0, v.View(), first, m);
      ghost var t := v.View();
      var got;
      got, halted := MapOne(v, first + m, flags, image);
      if !got || halted {
        GainedPages(s0, v.View(), first, m);
        return;
      }
      GainsOneMore(s0, t, v.View(), first, m);
      m := m + 1;
    }
    GainedPages(s0, v.View(), first, m);
  }


  // ---------- a free and the allocation after it ----------

  lemma OwnFramesExist(s: Paging, ws: seq<Word>, n: int)
    requires Shaped(s) && 0 <= n <= BITS * |ws| && FramesApart(s, ws, n)
    ensures AllExist(s, n)
  {
    hide Lookup, Test;
    forall p | Mapped(s, p)
      ensures 0 < Frame(s, p) < n
    {
      assert FrameInUse(ws, n, Frame(s, p));
    }
    forall d | HasTable(s, d)
      ensures 0 < TableFrame(s, d)
    {
      assert FrameInUse(ws, n, TableFrame(s, d));
    }
  }

  /** Freeing a run of n mapped pages and taking as many pages in its place, which is where the heap goes on when the
      run was its last. When the zone begins at frame 0 and the page past the run is not mapped, the allocation is
      refused at once, whatever frames are left: the free has given frame 0 back. Otherwise frame 0 does not stand in
      its way. */
  method FreeThenMap(v: Virtual, first: nat, n: nat, flags: nat, image: seq<nat>)
    returns (fault: bool, m: nat, halted: bool, ghost spare: nat)
    requires v.Valid() && FramesExist(v) && 0 < n && first + n < RECURSIVE * ENTRIES
    requires forall p | first <= p < first + n :: 0 <= p < PAGES && Lookup(v.View(), p) != 0
    requires ZeroOut(v, v.frames.bitmap[..])
    requires |image| == ENTRIES && forall k | 0 <= k < ENTRIES :: image[k] == 0
    modifies v.pageDirectories, v.pageTables, v.frames.bitmap
    ensures v.Valid() && (old(OwnFrames(v)) ==> OwnFrames(v))
    ensures fault <==> old(v.pageDirectories[(first + n) / ENTRIES]) == 0
    ensures !fault && v.frames.dmaZoneEnd == 0 && old(Lookup(v.View(), first + n)) == 0 ==> m == 0 && !halted
    ensures !fault && !(v.frames.dmaZoneEnd == 0 && old(Lookup(v.View(), first + n)) == 0) ==>
              (0 < spare ==> 0 < m || halted) && (m < n ==> Spare(v) == 0)
    ensures !fault && 1 < n && v.frames.dmaZoneEnd == 0 && old(Lookup(v.View(), first + n)) == 0 ==> 0 < Spare(v)
  {
    hide Test, Lookup, FramesApart, GainsPages, MappedPages, FreeFrames, Mark, Demand, Releases, ClearsExactly;
    ghost var s, ws := v.View(), v.frames.bitmap[..];
    m, halted, spare := 0, false, 0;
    fault := UnmapRun(v, first, n);
    if fault {
      return;
    }
    ghost var t, wt := v.View(), v.frames.bitmap[..];
    ZeroAfterFree(v, ws, wt, Releases(s, t, first, n));
    spare := Spare(v);
    m, halted := MapRun(v, first, n, flags, image);
    NeedsSomething(t.dir, first);
    if 1 < n && !ZeroOut(v, wt) { FreedIsLeft(s, t, ws, wt, first, n, v.frames.frameCount); }
  }

  lemma ZeroAfterFree(v: Virtual, ws: seq<Word>, ws': seq<Word>, fs: set<int>)
    requires ZeroOut(v, ws) && ClearsExactly(ws, ws', fs) && 0 < |ws|
    ensures ZeroOut(v, ws') <==> 0 < v.frames.dmaZoneEnd || 0 !in fs
  {
  }

  lemma NeedsSomething(dir: seq<nat>, first: nat)
    requires |dir| == ENTRIES && first < RECURSIVE * ENTRIES
    ensures Demand(dir, first, 0) == 0 && 1 <= Demand(dir, first, 1) <= 2
  {
    assert Demand(dir, first, 1) == Demand(dir, first, 0) + Needs(dir[first / ENTRIES]);
  }

  /** The frame of the second page that was freed is still there to be had. */
  lemma FreedIsLeft(s: Paging, t: Paging, ws: seq<Word>, wt: seq<Word>, first: nat, n: nat, words: int)
    requires Shaped(s) && Shaped(t) && 1 < n && first + n < RECURSIVE * ENTRIES && 0 < words <= |ws|
    requires AllExist(s, BITS * words) && ClearsExactly(ws, wt, Releases(s, t, first, n)) && Lookup(s, first + 1) != 0
    ensures |Mark(wt, BITS, 0)| == |ws| && FreeFrames(Mark(wt, BITS, 0), 0, words) != {}
  {
    hide Lookup, Mark;
    assert Mapped(s, first + 1);
    var f := Frame(s, first + 1);
    assert f in Releases(s, t, first, n);
    MarkAddsBits(wt, 0);
    assert InMap(wt, f) && !Test(wt, f);
    assert f in FreeFrames(Mark(wt, BITS, 0), 0, words);
  }

  /** From an empty directory, on a machine whose zone begins at frame 0: a run is mapped, and freed, and then not one
      of its pages can be mapped again, although frames are left. */
  method FreeLeadsToRefusal(v: Virtual, first: nat, n: nat, flags: nat, image: seq<nat>) returns (m: nat)
    requires v.Valid() && (forall d | 0 <= d < ENTRIES :: v.pageDirectories[d] == 0)
    requires v.frames.dmaZoneEnd == 0 && Test(v.frames.bitmap[..], 0)
    requires 1 < n && first + n < RECURSIVE * ENTRIES && (first + n) / ENTRIES == (first + n - 1) / ENTRIES
    requires Demand(v.pageDirectories[..], first, n) <= Spare(v)
    requires |image| == ENTRIES && forall k | 0 <= k < ENTRIES :: image[k] == 0
    modifies v.pageDirectories, v.pageTables, v.frames.bitmap
    ensures v.Valid() && m == 0 && 0 < Spare(v)
  {
    hide Test, FramesApart, MappedPages, FreeFrames, Mark, Demand, Releases, ClearsExactly;
    ghost var s := v.View();
    NobodysFrames(s, v.frames.bitmap[..], BITS * v.frames.frameCount);
    var halted;
    m, halted := MapRun(v, first, n, flags, image);
    OwnFramesExist(v.View(), v.frames.bitmap[..], BITS * v.frames.frameCount);
    var fault;
    ghost var spare;
    fault, m, halted, spare := FreeThenMap(v, first, n, flags, image);
  }

  lemma NobodysFrames(s: Paging, ws: seq<Word>, n: int)
    requires Shaped(s) && 0 <= n <= BITS * |ws| && forall d | 0 <= d < ENTRIES :: s.dir[d] == 0
    ensures FramesApart(s, ws, n) && forall p | 0 <= p < PAGES :: Lookup(s, p) == 0
  {
  }
}
