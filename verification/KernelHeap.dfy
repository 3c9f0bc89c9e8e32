/** The kernel heap as the source has it: linked headers in memory, updated in place. */
module KernelHeap {
  import opened HeapLayout
  import opened HeapSpec
  import opened HeapInvariants
  import opened HeapHeaders
  import opened HeapBytes
  import opened HeapRep
  import opened HeapTheorems
  import opened HeapSupport

  class Heap {
    var memRoot: int
    var bestBet: int
    var taken: int        // l_allocated
    var inuse: int        // l_inuse
    var warnings: int
    var errors: int
    var overruns: int
    const heapStart: int
    var heapEnd: int
    const heapMax: int
    var mapped: set<int>  // the heap's pages in the page tables
    // Memory: the headers at their addresses, and the bytes. A header write leaves its bytes unspecified.
    var majors: map<int, Major>
    var minors: map<int, Minor>
    const mem: array<byte>

    ghost var runs: seq<Run>
    ghost var bet: int

    ghost function View(): (g: HeapState)
      reads this
    {
      HeapState(runs, bet, heapStart, heapEnd, heapMax, inuse, taken, warnings, errors, overruns, mapped)
    }

    /** The fields represent the runs; the last run may be empty. */
    ghost predicate Linked()
      reads this, mem
    {
      Represents(View(), memRoot, bestBet, majors, minors, mem[..])
    }

    ghost predicate Valid()
      reads this, mem
    {
      Linked() && NoneEmpty(runs)
    }

    constructor (start: int, max: int, ram: array<byte>)
      requires 0 < start <= max < UINT32 && start % PAGE == 0 && ram.Length == max
      ensures Valid() && mem == ram
      ensures View() == HeapState([], -1, start, start, max, 0, 0, 0, 0, 0, {})
    {
      heapStart, heapEnd, heapMax := start, start, max;
      mem := ram;
      memRoot, bestBet := 0, 0;
      taken, inuse := 0, 0;
      warnings, errors, overruns := 0, 0, 0;
      mapped, majors, minors := {}, map[], map[];
      runs, bet := [], -1;
    }

    // ---------- memory ----------

    /** A header write: the bytes under it are no longer anyone's data. */
    method StoreMajor(a: int, h: Major, ghost rs: seq<Run>, ghost m0: seq<byte>)
      requires 0 <= a && a + MAJOR <= mem.Length
      requires Apart(rs, a, a + MAJOR) && KeepsAll(rs, m0, mem[..])
      modifies this`majors, mem
      ensures majors == old(majors)[a := h]
      ensures KeepsAll(rs, m0, mem[..])
    {
      majors := majors[a := h];
      Scribble(a, a + MAJOR);
      KeepsStep(rs, m0, old(mem[..]), mem[..], a, a + MAJOR);
    }

    method StoreMinor(a: int, h: Minor, ghost rs: seq<Run>, ghost m0: seq<byte>)
      requires 0 <= a && a + MINOR <= mem.Length
      requires Apart(rs, a, a + MINOR) && KeepsAll(rs, m0, mem[..])
      modifies this`minors, mem
      ensures minors == old(minors)[a := h]
      ensures KeepsAll(rs, m0, mem[..])
    {
      minors := minors[a := h];
      Scribble(a, a + MINOR);
      KeepsStep(rs, m0, old(mem[..]), mem[..], a, a + MINOR);
    }

    method Scribble(lo: int, hi: int)
      requires 0 <= lo <= hi <= mem.Length
      modifies mem
      ensures OnlyWithin(old(mem[..]), mem[..], lo, hi)
    {
      for x := lo to hi
        invariant OnlyWithin(old(mem[..]), mem[..], lo, hi)
      {
        mem[x] := *;
      }
    }

    /** ALIGN: moves past the offset to the next multiple of four and stores how far it moved. */
    method Align(p: int, ghost b: Block, ghost rs: seq<Run>, ghost m0: seq<byte>) returns (q: int)
      requires BlockOk(b) && p == b.Body() && 0 <= b.addr && b.End() <= mem.Length
      requires Apart(rs, b.Body(), b.End()) && KeepsAll(rs, m0, mem[..])
      modifies mem
      ensures q == b.Ptr() && OffsetOk(b, mem[..])
      ensures KeepsAll(rs, m0, mem[..])
    {
      q := p + ALIGN_INFO;
      var delta := q % ALIGNMENT;
      if delta != 0 {
        delta := ALIGNMENT - delta;
        q := q + delta;
      }
      PointerFits(b);
      mem[q - 2] := delta + ALIGN_INFO;
      mem[q - 1] := 0;
      KeepsStep(rs, m0, old(mem[..]), mem[..], b.Body(), b.End());
    }

    // ---------- pages ----------

    /** What was at page a is gone: another frame is there now, or none. */
    method LosePage(a: int)
      requires 0 <= a
      modifies this`majors, this`minors, mem
      ensures majors == Overwrite(old(majors), a, a + PAGE) && minors == Overwrite(old(minors), a, a + PAGE)
      ensures OnlyWithin(old(mem[..]), mem[..], a, a + PAGE)
    {
      majors := Overwrite(majors, a, a + PAGE);
      minors := Overwrite(minors, a, a + PAGE);
      var lo, hi := if a < mem.Length then a else mem.Length, if a + PAGE < mem.Length then a + PAGE else mem.Length;
      Scribble(lo, hi);
    }

    /** Maps pages one by one while the frame allocator, with avail frames left, still gives them. */
    method LiballocAlloc(pages: int, avail: nat) returns (p: int)
      requires 0 <= pages && 0 < heapEnd
      modifies this`heapEnd, this`mapped, this`majors, this`minors, mem
      ensures p == if old(heapEnd) + pages * PAGE > heapMax || avail < pages then 0 else old(heapEnd)
      ensures var n := if old(heapEnd) + pages * PAGE > heapMax then 0 else if avail < pages then avail else pages;
              heapEnd == old(heapEnd) + n * PAGE && mapped == old(mapped) + Pages(old(heapEnd), n)
      ensures majors == Overwrite(old(majors), old(heapEnd), heapEnd)
      ensures minors == Overwrite(old(minors), old(heapEnd), heapEnd)
      ensures OnlyWithin(old(mem[..]), mem[..], old(heapEnd), heapEnd)
    {
      var formerHeapEnd := heapEnd;
      if heapEnd + pages * PAGE > heapMax {
        return 0;
      }
      var i := 0;
      while i < pages
        invariant 0 <= i <= pages && i <= avail
        invariant heapEnd == formerHeapEnd + i * PAGE
        invariant mapped == old(mapped) + Pages(formerHeapEnd, i)
        invariant majors == Overwrite(old(majors), formerHeapEnd, heapEnd)
        invariant minors == Overwrite(old(minors), formerHeapEnd, heapEnd)
        invariant OnlyWithin(old(mem[..]), mem[..], formerHeapEnd, heapEnd)
      {
        if avail == i {
          return 0;
        }
        OverwriteTwice(old(majors), formerHeapEnd, heapEnd, heapEnd + PAGE);
        OverwriteTwice(old(minors), formerHeapEnd, heapEnd, heapEnd + PAGE);
        LosePage(heapEnd);
        mapped := mapped + {heapEnd};
        heapEnd := heapEnd + PAGE;
        i := i + 1;
      }
      p := formerHeapEnd;
    }

    /** liballoc_free: walks down from the page just past the block, so it unmaps (p, p + pages], with whatever was
        there, and gives the addresses back only when the block was the last. */
    method LiballocFree(p: int, pages: int)
      requires 0 <= p && 0 <= pages
      modifies this`heapEnd, this`mapped, this`majors, this`minors, mem
      ensures mapped == old(mapped) - Pages(p + PAGE, pages)
      ensures heapEnd == if p + pages * PAGE == old(heapEnd) then p else old(heapEnd)
      ensures majors == Overwrite(old(majors), p + PAGE, p + PAGE + pages * PAGE)
      ensures minors == Overwrite(old(minors), p + PAGE, p + PAGE + pages * PAGE)
      ensures OnlyWithin(old(mem[..]), mem[..], p + PAGE, p + PAGE + pages * PAGE)
    {
      hide Overwrite, Pages;
      var pageEnd := p + pages * PAGE;
      var i := pageEnd;
      NoPages(p + PAGE);
      OverwriteNone(majors, pageEnd + PAGE);
      OverwriteNone(minors, pageEnd + PAGE);
      ghost var n := pages;
      while i > p
        invariant 0 <= n <= pages && i == p + n * PAGE
        invariant heapEnd == old(heapEnd)
        invariant mapped == old(mapped) - (Pages(p + PAGE, pages) - Pages(p + PAGE, n))
        invariant majors == Overwrite(old(majors), i + PAGE, pageEnd + PAGE)
        invariant minors == Overwrite(old(minors), i + PAGE, pageEnd + PAGE)
        invariant OnlyWithin(old(mem[..]), mem[..], i + PAGE, pageEnd + PAGE)
        decreases i - p
      {
        LastPage(p + PAGE, n, pages);
        OverwriteTwice(old(majors), i, i + PAGE, pageEnd + PAGE);
        OverwriteTwice(old(minors), i, i + PAGE, pageEnd + PAGE);
        mapped := mapped - {i};
        LosePage(i);
        i := i - PAGE;
        n := n - 1;
      }
      if p + pages * PAGE == heapEnd {
        heapEnd := heapEnd - pages * PAGE;
      }
    }

    /** The rounding at the head of allocate_new_page. */
    static method PageCount(size: int) returns (st: int)
      requires 0 <= size
      ensures st == FreshPages(size)
    {
      st := (size % UINT32 + MAJOR) % UINT32;
      st := (st + MINOR) % UINT32;
      if st % PAGE == 0 {
        st := st / PAGE;
      } else {
        st := st / PAGE + 1;
      }
      if st < MIN_PAGES {
        st := MIN_PAGES;
      }
    }

    method AllocateNewPage(size: int, avail: nat) returns (maj: int)
      requires 0 < heapStart <= heapEnd && RunsOk(runs, heapStart, heapEnd) && heapMax == mem.Length
      requires 0 < size
      modifies this`heapEnd, this`mapped, this`taken, this`warnings, this`majors, this`minors, mem
      ensures View() == Take(old(View()), FreshPages(size), avail).0.(runs := runs)
      ensures maj == if Take(old(View()), FreshPages(size), avail).1 then old(heapEnd) else 0
      ensures var mj := Overwrite(old(majors), old(heapEnd), heapEnd);
              majors == if maj == 0 then mj else mj[maj := FreshMajor(FreshPages(size))]
      ensures minors == Overwrite(old(minors), old(heapEnd), heapEnd)
      ensures KeepsAll(runs, old(mem[..]), mem[..])
    {
      hide FreshPages, RunsOk, KeepsAll, Apart, OnlyWithin;
      KeepsSame(runs, mem[..]);
      var st := PageCount(size);
      ghost var end := heapEnd;
      maj := LiballocAlloc(st, avail);
      BeyondApart(runs, heapStart, end, end, heapEnd);
      KeepsStep(runs, old(mem[..]), old(mem[..]), mem[..], end, heapEnd);
      if maj == 0 {
        warnings := warnings + 1;
        return 0;
      }
      BeyondApart(runs, heapStart, maj, maj, maj + MAJOR);
      StoreMajor(maj, Major(0, 0, st, st * PAGE, MAJOR, 0), runs, old(mem[..]));
      taken := taken + st * PAGE;
    }

    /** The first run: it becomes the root. */
    method NewRoot(size: int, avail: nat)
      requires Linked() && runs == []
      requires 0 < size
      modifies this`heapEnd, this`mapped, this`taken, this`warnings, this`majors,
               this`minors, this`memRoot, this`runs, mem
      ensures Linked()
      ensures View() == Take(old(View()), FreshPages(size), avail).0
      ensures memRoot == 0 <==> !Take(old(View()), FreshPages(size), avail).1
    {
      hide Represents, Take, FreshPages, RunsOk, KeepsAll, Overwrite;
      ghost var h, m0 := View(), mem[..];
      RepFacts(h, memRoot, bestBet, majors, minors, m0);
      memRoot := AllocateNewPage(size, avail);
      RootRep(h, old(memRoot), bestBet, old(majors), old(minors), m0, mem[..], FreshPages(size), avail);
      runs := Take(h, FreshPages(size), avail).0.runs;
    }

    /** A new run behind maj, the last in the list. */
    method NewNext(maj: int, size: int, avail: nat) returns (next: int)
      requires Linked() && runs != [] && maj == runs[|runs| - 1].addr
      requires 0 < size
      modifies this`heapEnd, this`mapped, this`taken, this`warnings, this`majors, this`minors, this`runs, mem
      ensures Linked()
      ensures View() == Take(old(View()), FreshPages(size), avail).0
      ensures next == if Take(old(View()), FreshPages(size), avail).1 then old(heapEnd) else 0
      ensures KeepsAll(old(runs), old(mem[..]), mem[..])
    {
      hide Represents, Take, FreshPages, RunsOk, KeepsAll, Apart, Overwrite, MajorsAgree;
      ghost var h, m0 := View(), mem[..];
      RepFacts(h, memRoot, bestBet, majors, minors, m0);
      NextApart(h, majors, FreshPages(size), avail);
      next := AllocateNewPage(size, avail);
      if next != 0 {
        StoreMajor(maj, majors[maj].(next := next), h.runs, m0);
        StoreMajor(next, majors[next].(prev := maj), h.runs, m0);
      }
      NextRep(h, memRoot, bestBet, old(majors), old(minors), m0, mem[..], FreshPages(size), avail);
      runs := Take(h, FreshPages(size), avail).0.runs;
    }

    // ---------- placing a block ----------

    /** The end of every case: charge the block to its run, in 32 bits, and to the heap, and align the pointer. b is a
        block at a, at most as large as the one being placed. */
    method Charge(maj: int, first: int, a: int, size: int, ghost b: Block, ghost rs: seq<Run>, ghost m0: seq<byte>)
      returns (p: int)
      requires maj in majors && 0 <= maj && maj + MAJOR <= mem.Length && Apart(rs, maj, maj + MAJOR)
      requires BlockOk(b) && a == b.addr && 0 <= a && b.End() <= mem.Length && Apart(rs, b.Body(), b.End())
      requires KeepsAll(rs, m0, mem[..])
      modifies this`majors, this`inuse, mem
      ensures var h := old(majors)[maj];
              majors == old(majors)[maj := h.(first := first, usage := (h.usage + size + MINOR) % UINT32)]
      ensures inuse == old(inuse) + size && p == b.Ptr() && OffsetOk(b, mem[..])
      ensures KeepsAll(rs, m0, mem[..])
    {
      hide KeepsAll, Apart, OffsetOk, BlockOk;
      var usage := (majors[maj].usage + size + MINOR) % UINT32;
      StoreMajor(maj, majors[maj].(first := first, usage := usage), rs, m0);
      inuse := inuse + size;
      p := Align(a + MINOR, b, rs, m0);
    }

    /** The same for a block that fits in its gap: the headers then represent the heap with the block placed. */
    method Finish(maj: int, first: int, a: int, size: int, req: int,
                  ghost h: HeapState, ghost m0: seq<byte>, ghost mn: map<int, Minor>, ghost i: int, ghost k: int)
      returns (p: int)
      requires h == View() && Represents(h, memRoot, bestBet, majors, mn, m0)
      requires CanPlace(h, i, k, req) && size == req + PAD && maj == runs[i].addr && a == runs[i].GapStart(k)
      requires MinorsAgree(Overwrite(mn, a, a + MINOR + size), runs[i])
      requires minors == LinkIn(Overwrite(mn, a, a + MINOR + size), runs[i], k, NewBlock(a, req))
      requires maj in majors && first == if k == 0 then a else majors[maj].first
      requires |m0| == mem.Length && KeepsAll(h.runs, m0, mem[..])
      modifies this`majors, this`inuse, this`runs, mem
      ensures Linked() && (View(), p) == Place(h, i, k, req)
      ensures KeepsAll(h.runs, m0, mem[..])
    {
      hide Represents, KeepsAll, Apart, OffsetOk, MinorsAgree, InUse, BlockOk, LinkIn, Overwrite;
      hide RunsOk, MajorsAgree, Sound;
      ghost var b, mj := NewBlock(a, req), majors;
      RepFacts(h, memRoot, bestBet, majors, mn, m0);
      PlaceFacts(h, memRoot, bestBet, majors, mn, m0, i, k, req);
      UsageFits(h, i, k, req);
      ApartSubrange(h.runs, b.addr, b.End(), b.Body(), b.End());
      p := Charge(maj, first, a, size, b, h.runs, m0);
      PlaceRep(h, memRoot, bestBet, mj, mn, m0, mem[..], i, k, req);
      runs := Put(h, i, k, req).runs;
    }

    /** CASE 2: the first block of an empty run, without a look at its size; the header's fields have 32 bits. */
    method PlaceFirst(maj: int, size: int, req: int, ghost i: int) returns (p: int)
      requires Linked() && 0 <= i < |runs| && maj == runs[i].addr && runs[i].blocks == []
      requires 0 <= req && size == req + PAD
      modifies this`majors, this`minors, this`inuse, this`runs, mem
      ensures (View(), p) == PlaceBlind(old(View()), i, req)
      ensures CanPlace(old(View()), i, 0, req) ==> Linked() && (View(), p) == Place(old(View()), i, 0, req)
      ensures i < |runs| == |old(runs)| && MinorsAgree(minors, runs[i])
      ensures KeepsAll(old(runs), old(mem[..]), mem[..])
    {
      hide Represents, KeepsAll, Apart, OffsetOk, MinorsAgree, InUse, BlockOk, Overwrite;
      hide RunsOk, MajorsAgree, Sound;
      ghost var h, m0, mj, mn := View(), mem[..], majors, minors;
      RepFacts(h, memRoot, bestBet, majors, minors, m0);
      BlindFacts(h, memRoot, bestBet, majors, minors, m0, i);
      var first := maj + MAJOR;
      ghost var b := Block(first, PAD, 0);
      minors := Overwrite(minors, first, first + MINOR + size);
      StoreMinor(first, Minor(0, 0, maj, MAGIC, size % UINT32, req % UINT32), h.runs, m0);
      SmallBlockOk(first);
      p := Charge(maj, first, first, size, b, h.runs, m0);
      if CanPlace(h, i, 0, req) { BlindRep(h, memRoot, bestBet, mj, mn, m0, mem[..], i, req); }
      runs := PlaceBlind(h, i, req).0.runs;
      OnlyMinor(minors, runs[i]);
    }

    /** CASE 3: in the space before the first block. */
    method PlaceFront(maj: int, size: int, req: int, ghost i: int) returns (p: int)
      requires Linked() && CanPlace(View(), i, 0, req) && size == req + PAD
      requires maj == runs[i].addr && runs[i].blocks != []
      modifies this`majors, this`minors, this`inuse, this`runs, mem
      ensures Linked() && (View(), p) == Place(old(View()), i, 0, req)
      ensures KeepsAll(old(runs), old(mem[..]), mem[..])
    {
      hide Represents, KeepsAll, Apart, OffsetOk, MinorsAgree, InUse, BlockOk;
      hide RunsOk, MajorsAgree, Sound;
      ghost var h, m0, mn := View(), mem[..], minors;
      PlaceFacts(h, memRoot, bestBet, majors, minors, m0, i, 0, req);
      var first, a := majors[maj].first, maj + MAJOR;
      ApartSubrange(h.runs, a, a + MINOR + size, a, a + MINOR);
      minors := Overwrite(minors, a, a + MINOR + size);
      StoreMinor(first, minors[first].(prev := a), h.runs, m0);
      StoreMinor(a, Minor(0, first, maj, MAGIC, size, req), h.runs, m0);
      p := Finish(maj, a, a, size, req, h, m0, mn, i, 0);
    }

    /** CASE 4.1: in the space after min, the last block. */
    method PlaceTail(maj: int, min: int, size: int, req: int, ghost i: int, ghost k: int) returns (p: int)
      requires Linked() && CanPlace(View(), i, k, req) && size == req + PAD
      requires maj == runs[i].addr && 0 < k == |runs[i].blocks| && min == runs[i].blocks[k - 1].addr
      modifies this`majors, this`minors, this`inuse, this`runs, mem
      ensures Linked() && (View(), p) == Place(old(View()), i, k, req)
      ensures KeepsAll(old(runs), old(mem[..]), mem[..])
    {
      hide Represents, KeepsAll, Apart, OffsetOk, MinorsAgree, InUse, BlockOk;
      hide RunsOk, MajorsAgree, Sound;
      ghost var h, m0, mn := View(), mem[..], minors;
      PlaceFacts(h, memRoot, bestBet, majors, minors, m0, i, k, req);
      var a := min + MINOR + minors[min].size;
      ApartSubrange(h.runs, a, a + MINOR + size, a, a + MINOR);
      minors := Overwrite(minors, a, a + MINOR + size);
      StoreMinor(min, minors[min].(next := a), h.runs, m0);
      StoreMinor(a, Minor(min, 0, maj, MAGIC, size, req), h.runs, m0);
      p := Finish(maj, majors[maj].first, a, size, req, h, m0, mn, i, k);
    }

    /** CASE 4.2: in the space between min and the block after it. */
    method PlaceBetween(maj: int, min: int, size: int, req: int, ghost i: int, ghost k: int) returns (p: int)
      requires Linked() && CanPlace(View(), i, k, req) && size == req + PAD
      requires maj == runs[i].addr && 0 < k < |runs[i].blocks| && min == runs[i].blocks[k - 1].addr
      modifies this`majors, this`minors, this`inuse, this`runs, mem
      ensures Linked() && (View(), p) == Place(old(View()), i, k, req)
      ensures KeepsAll(old(runs), old(mem[..]), mem[..])
    {
      hide Represents, KeepsAll, Apart, OffsetOk, MinorsAgree, InUse, BlockOk;
      hide RunsOk, MajorsAgree, Sound;
      ghost var h, m0, mn := View(), mem[..], minors;
      PlaceFacts(h, memRoot, bestBet, majors, minors, m0, i, k, req);
      var a, next := min + MINOR + minors[min].size, minors[min].next;
      ApartSubrange(h.runs, a, a + MINOR + size, a, a + MINOR);
      minors := Overwrite(minors, a, a + MINOR + size);
      BetweenWrites(minors, h.runs[i], k, NewBlock(a, req));
      StoreMinor(a, Minor(min, next, maj, MAGIC, size, req), h.runs, m0);
      StoreMinor(next, minors[next].(prev := a), h.runs, m0);
      StoreMinor(min, minors[min].(next := a), h.runs, m0);
      p := Finish(maj, majors[maj].first, a, size, req, h, m0, mn, i, k);
    }

    // ---------- searching one run ----------

    /** CASE 4: the spaces behind the blocks of run i, from the first block on. */
    method TryBehindBlocks(maj: int, size: int, req: int, ghost i: int) returns (p: int)
      requires Linked() && 0 <= i < |runs| && maj == runs[i].addr && runs[i].blocks != []
      requires 0 <= req && size == req + PAD && runs[i].Gap(0) < size + MINOR
      modifies this`majors, this`minors, this`inuse, this`runs, mem
      ensures Linked() && KeepsAll(old(runs), old(mem[..]), mem[..])
      ensures p == 0 <==> !HasGap(old(runs)[i], size + MINOR)
      ensures p == 0 ==> View() == old(View()) && majors == old(majors)
      ensures p != 0 ==> (View(), p) == Place(old(View()), i, FirstGap(old(runs)[i], 0, size + MINOR), req)
    {
      hide Represents, KeepsAll, RunOk, Place, FirstGap, RunsOk, MajorsAgree, Sound;
      ghost var h, r := View(), runs[i];
      RepFacts(h, memRoot, bestBet, majors, minors, mem[..]);
      ReadMajor(h, memRoot, bestBet, majors, minors, mem[..], i);
      ReadMinor(h, memRoot, bestBet, majors, minors, mem[..], i, 0);
      var min := majors[maj].first;
      ghost var k := 1;
      while min != 0
        invariant View() == h && Linked() && mem[..] == old(mem[..])
        invariant majors == old(majors) && minors == old(minors)
        invariant 1 <= k <= |r.blocks| + 1 && min == BlockAddr(r, k - 1)
        invariant min == 0 <==> k == |r.blocks| + 1
        invariant forall l | 0 <= l < k :: r.Gap(l) < size + MINOR
        decreases |r.blocks| + 1 - k
      {
        ReadMinor(h, memRoot, bestBet, majors, minors, mem[..], i, k - 1);
        PlacedAtFirst(h, i, k, req);
        if minors[min].next == 0 {
          var diff := maj + majors[maj].size - min - MINOR - minors[min].size;
          if diff >= size + MINOR {
            p := PlaceTail(maj, min, size, req, i, k);
            return;
          }
        }
        if minors[min].next != 0 {
          var diff := minors[min].next - min - MINOR - minors[min].size;
          if diff >= size + MINOR {
            p := PlaceBetween(maj, min, size, req, i, k);
            return;
          }
        }
        min := minors[min].next;
        k := k + 1;
      }
      FirstGapIs(r, k, 0, size + MINOR);
      return 0;
    }

    /** CASES 2 to 4 on run i. An empty run takes the block, whatever its size; it is placed as specified, with the heap
        well formed, when it fits. */
    method TryRun(maj: int, size: int, req: int, ghost i: int, ghost rs: seq<Run>, ghost m0: seq<byte>) returns (p: int)
      requires Linked() && 0 <= i < |runs| && maj == runs[i].addr
      requires 0 <= req && size == req + PAD && rs <= runs && KeepsAll(rs, m0, mem[..])
      modifies this`majors, this`minors, this`inuse, this`runs, mem
      ensures KeepsAll(rs, m0, mem[..])
      ensures old(runs)[i].blocks == [] ==>
                p != 0 && (View(), p) == PlaceBlind(old(View()), i, req)
      ensures old(runs)[i].blocks != [] || size + MINOR <= old(runs)[i].Free() ==>
                && Linked()
                && (p == 0 <==> !HasGap(old(runs)[i], size + MINOR))
                && (p == 0 ==> View() == old(View()) && majors == old(majors))
                && (p != 0 ==> (View(), p) == Place(old(View()), i, FirstGap(old(runs)[i], 0, size + MINOR), req))
    {
      hide Represents, KeepsAll, RunOk, Place, FirstGap;
      ghost var h, m1 := View(), mem[..];
      ReadMajor(h, memRoot, bestBet, majors, minors, mem[..], i);
      PlacedAtFirst(h, i, 0, req);
      if majors[maj].first == 0 {
        EmptyFirst(h, memRoot, bestBet, majors, minors, mem[..], i);
        p := PlaceFirst(maj, size, req, i);
        PointerFits(Block(maj + MAJOR, PAD, 0));
        KeepsTrans(rs, h.runs, m0, m1, mem[..]);
        return;
      }
      EmptyFirst(h, memRoot, bestBet, majors, minors, mem[..], i);
      var diff := majors[maj].first - maj - MAJOR;
      if diff >= size + MINOR {
        p := PlaceFront(maj, size, req, i);
        KeepsTrans(rs, h.runs, m0, m1, mem[..]);
        return;
      }
      p := TryBehindBlocks(maj, size, req, i);
      KeepsTrans(rs, h.runs, m0, m1, mem[..]);
    }

    // ---------- Allocate ----------

    /** The head of the loop: the free bytes of run i, which becomes the best bet when it has the most so far. */
    method LookAt(maj: int, best: int, ghost i: int) returns (diff: int, bestSize: int)
      requires Linked() && 0 <= i < |runs| && maj == runs[i].addr && best == BetFree(runs, bet)
      modifies this`bestBet, this`bet
      ensures Linked() && View() == old(View()).(bet := Better(runs, old(bet), i))
      ensures diff == runs[i].Free() && bestSize == BetFree(runs, bet)
      ensures maj in majors && majors[maj] == MajorAt(runs, i)
    {
      hide Represents;
      ReadMajor(View(), memRoot, bestBet, majors, minors, mem[..], i);
      BetRep(View(), memRoot, bestBet, majors, minors, mem[..], i);
      bestSize := best;
      diff := majors[maj].size - majors[maj].usage;
      if bestSize < diff {
        bestBet := maj;
        bestSize := diff;
        bet := i;
      }
    }

    /** Where CASES 1 and 5 go when run i has no room: the next run, the root again when the walk began at
        the best bet, or a new run; 0 when no new run is to be had. */
    method NextRun(maj: int, started: bool, size: int, req: int, avail: nat, ghost i: int,
                   ghost h: HeapState, ghost m0: seq<byte>, ghost target: (HeapState, int))
      returns (maj': int, started': bool, grown: bool, ghost i': int)
      requires Linked() && 0 <= req && size == req + PAD
      requires Missed(h, View(), i, started, req, avail, target) && maj == runs[i].addr
      requires KeepsAll(h.runs, m0, mem[..])
      modifies this`heapEnd, this`mapped, this`taken, this`warnings, this`majors, this`minors, this`runs, mem
      ensures Linked() && KeepsAll(h.runs, m0, mem[..])
      ensures bet == old(bet) && -1 <= bet < |runs| && BetFree(runs, bet) == BetFree(old(runs), bet)
      ensures maj' == 0 ==> (View(), 0) == target
      ensures maj' != 0 ==> 0 <= i' < |runs| && maj' == runs[i'].addr
      ensures maj' != 0 && !grown ==> Walking(h, View(), i', started', req, avail, target) && h.runs == runs
      ensures maj' != 0 && !grown ==> if started' == started then i' == i + 1 else started && !started'
      ensures maj' != 0 && grown ==> AfterGrow(h, View(), i', req, target) && !started' && i == i' - 1
    {
      hide Represents, KeepsAll, Grow, FreshPages, Walking, RunsOk, Take, Sound;
      ghost var m1 := mem[..];
      RepFacts(View(), memRoot, bestBet, majors, minors, m1);
      ReadMajor(View(), memRoot, bestBet, majors, minors, m1, i);
      BetIsRun(View(), memRoot, bestBet, majors, minors, m1);
      maj', started', grown, i' := majors[maj].next, started, false, i + 1;
      if maj' != 0 {
        return;
      }
      if started {
        ReadMajor(View(), memRoot, bestBet, majors, minors, m1, 0);
        maj', started', i' := memRoot, false, 0;
        return;
      }
      GrowSteps(View(), req, avail);
      grown := true;
      maj' := NewNext(maj, size, avail);
      KeepsTrans(h.runs, h.runs, m0, m1, mem[..]);
    }

    /** The walk starts at the root, or at the best bet when that has more than enough free bytes. */
    method StartWalk(size: int) returns (maj: int, started: bool, bestSize: int, ghost i: int)
      requires Linked() && runs != []
      ensures started == StartsAtBet(View(), size + MINOR) && i == (if started then bet else 0)
      ensures 0 <= i < |runs| && maj == runs[i].addr && maj != 0 && -1 <= bet < |runs| && bestSize == BetFree(runs, bet)
    {
      hide Represents;
      BetIsRun(View(), memRoot, bestBet, majors, minors, mem[..]);
      ReadMajor(View(), memRoot, bestBet, majors, minors, mem[..], 0);
      maj, started, bestSize, i := memRoot, false, 0, 0;
      if bestBet != 0 {
        bestSize := majors[bestBet].size - majors[bestBet].usage;
        if bestSize > size + MINOR {
          maj, started, i := bestBet, true, bet;
        }
      }
    }

    /** The loop over the runs. In the ghost state: the heap and the bytes it starts from, what the walk must come to,
        and whether it stands at a run it has taken. */
    method Walk(req: int, avail: nat) returns (p: int)
      requires Linked() && runs != [] && 0 <= req
      modifies this, mem
      ensures -1 <= old(bet) < |old(runs)| && (View(), p) == WalkRuns(old(View()), req, avail)
      ensures KeepsAll(old(runs), old(mem[..]), mem[..])
      ensures Request(req) || p == 0 ==> Linked()
    {
      hide Represents, KeepsAll, RunOk, Place, PlaceBlind, FirstGap, Take, Grow, FreshPages, HasGap, Conclude, RunsOk;
      hide Search;
      hide Walking, Missed, Sound, AtNewRun, AfterGrow, BetFree, Ok, NoneEmpty, Better, MajorAt, InUse, StartsAtBet;
      hide WalkRuns;
      ghost var h, m1 := View(), mem[..];
      RepFacts(h, memRoot, bestBet, majors, minors, m1);
      BetIsRun(h, memRoot, bestBet, majors, minors, m1);
      WalkStart(h, req, avail);
      ghost var target, appended := WalkRuns(h, req, avail), false;
      var size := req + PAD;
      var maj, started, bestSize;
      ghost var i;
      maj, started, bestSize, i := StartWalk(size);
      while maj != 0
        invariant Linked()
        invariant maj != 0 ==> 0 <= i < |runs| && maj == runs[i].addr
        invariant -1 <= bet < |runs| && bestSize == BetFree(runs, bet)
        invariant KeepsAll(h.runs, m1, mem[..])
        invariant maj == 0 ==> (View(), 0) == target
        invariant maj != 0 && appended ==> AtNewRun(h, View(), i, req, target) && !started && Request(req)
        invariant maj != 0 && !appended ==> Walking(h, View(), i, started, req, avail, target)
        decreases maj != 0, !appended, started, |runs| - i
      {
        if appended {
          NewRunStep(h, View(), i, req, target);
        } else {
          WalkStep(h, View(), i, started, req, avail, target);
        }
        var diff, grown := 0, false;
        diff, bestSize := LookAt(maj, bestSize, i);
        if diff < size + MINOR {
          maj, started, grown, i := NextRun(maj, started, size, req, avail, i, h, m1, target);
          if maj == 0 || !grown {
            continue;
          }
          AfterGrowLooks(h, View(), i, req, target);
        }
        p := TryRun(maj, size, req, i, h.runs, m1);
        if p != 0 {
          return;
        }
        maj, started, grown, i := NextRun(maj, started, size, req, avail, i, h, m1, target);
        if maj != 0 && grown {
          AfterGrowLooks(h, View(), i, req, target);
          appended := true;
        }
      }
      p := 0;
    }

    /** Every request is placed, or refused, as specified. The heap stays valid exactly when the request fits 32 bits or
        is refused the pages that remain of it in 32-bit arithmetic. */
    method AllocateSized(req: int, avail: nat) returns (p: int)
      requires Valid() && Sized(req)
      modifies this, mem
      ensures -1 <= old(bet) < |old(runs)| && (View(), p) == HeapSpec.AllocateSized(old(View()), req, avail)
      ensures Valid() <==> Request(req) || PagesRefused(old(View()), req, avail)
      ensures KeepsAll(old(runs), old(mem[..]), mem[..])
    {
      hide Represents, KeepsAll, RunOk, Place, FirstGap, Take, Grow, FreshPages, HasGap, Conclude, RunsOk, Search;
      hide Sound, Ok, NoneEmpty, WalkRuns, PagesRefused;
      ghost var h, m0 := View(), mem[..];
      ValidFacts(h, memRoot, bestBet, majors, minors, m0);
      if Request(req) { AllocateSizedOk(h, req, avail); } else { ghost var base := OversizeOutcome(h, req, avail); }
      var left := avail;
      if memRoot == 0 {
        NewRoot(req + PAD, avail);
        NothingToKeep(m0, mem[..]);
        TakeCosts(h, req, avail);
        if memRoot == 0 {
          ValidIsOk();
          return 0;
        }
        var n := PageCount(req + PAD);
        left := avail - n;
      }
      p := Walk(req, left);
      if h.runs == [] { NothingToKeep(m0, mem[..]); }
      ValidIsOk();
    }

    /** The one request whose padding wraps round to nothing is served as a request for one byte. */
    method Allocate(req: int, avail: nat) returns (p: int)
      requires Valid() && (Sized(req) || req + PAD == SIZE_T)
      modifies this, mem
      ensures -1 <= old(bet) < |old(runs)| && (View(), p) == HeapSpec.Allocate(old(View()), req, avail)
      ensures Valid() <==> Request(req) || req + PAD == SIZE_T || PagesRefused(old(View()), req, avail)
      ensures KeepsAll(old(runs), old(mem[..]), mem[..])
    {
      hide Represents, KeepsAll, NoneEmpty, HeapSpec.AllocateSized, PagesRefused;
      WarningsRep(View(), memRoot, bestBet, majors, minors, mem[..]);
      BetIsRun(View(), memRoot, bestBet, majors, minors, mem[..]);
      if (req + PAD) % SIZE_T == 0 {
        warnings := warnings + 1;
        p := AllocateSized(1, avail);
      } else {
        p := AllocateSized(req, avail);
      }
    }

    lemma ValidIsOk()
      ensures Valid() <==> Linked() && Ok(View())
    {
    }

    // ---------- Free ----------

    /** Links the blocks on either side of block k with each other. */
    method BypassMinor(prev: int, next: int, ghost h: HeapState, ghost m0: seq<byte>,
                       ghost mj: map<int, Major>, ghost mn: map<int, Minor>, ghost i: int, ghost k: int)
      requires Represents(h, memRoot, bestBet, mj, mn, m0) && |m0| == mem.Length && KeepsAll(h.runs, m0, mem[..])
      requires IsBlock(h, i, k) && prev == BlockAddr(h.runs[i], k - 1) && next == BlockAddr(h.runs[i], k + 1)
      requires var a := h.runs[i].blocks[k].addr; a in mn && minors == mn[a := mn[a].(magic := DEAD)]
      modifies this`minors, mem
      ensures (forall j | 0 <= j < |h.runs[i].blocks| :: h.runs[i].blocks[j].addr in mn)
      ensures minors == Unlink(mn, h.runs[i], k)
      ensures KeepsAll(h.runs, m0, mem[..])
    {
      hide Represents, KeepsAll, Apart, RunsOk, InUse, MinorsAgree, BlockOk, RunOk, MinorAt;
      FreeFacts(h, memRoot, bestBet, mj, mn, m0, i, k);
      if next != 0 {
        StoreMinor(next, minors[next].(prev := prev), h.runs, m0);
      }
      if prev != 0 {
        StoreMinor(prev, minors[prev].(next := next), h.runs, m0);
      }
    }

    /** Takes block k of run i, whose header is at min, out of its list. */
    method UnlinkBlock(min: int, ghost i: int, ghost k: int) returns (maj: int)
      requires Linked() && IsBlock(View(), i, k) && min == runs[i].blocks[k].addr
      modifies this`majors, this`minors, this`inuse, this`runs, mem
      ensures Linked() && View() == TakeOut(old(View()), i, k) && maj == runs[i].addr
      ensures KeepsAll(old(runs), old(mem[..]), mem[..])
      ensures min in minors && minors[min].magic == DEAD
    {
      hide Represents, KeepsAll, Apart, RunsOk, InUse, MinorsAgree, BlockOk, RunOk, Bypass, MajorsAgree, Sound;
      ghost var h, m0, mj, mn := View(), mem[..], majors, minors;
      RepFacts(h, memRoot, bestBet, majors, minors, m0);
      FreeFacts(h, memRoot, bestBet, majors, minors, m0, i, k);
      maj := minors[min].block;
      inuse := inuse - minors[min].size;
      var prev, next := minors[min].prev, minors[min].next;
      StoreMajor(maj, majors[maj].(usage := majors[maj].usage - (minors[min].size + MINOR)), h.runs, m0);
      StoreMinor(min, minors[min].(magic := DEAD), h.runs, m0);
      BypassMinor(prev, next, h, m0, mj, mn, i, k);
      if prev == 0 {
        StoreMajor(maj, majors[maj].(first := next), h.runs, m0);
      }
      assert majors == Refunded(mj, h.runs[i], k);
      UnlinkMarksDead(h, memRoot, bestBet, mj, mn, m0, i, k);
      TakeOutRep(h, memRoot, bestBet, mj, mn, m0, mem[..], i, k);
      runs := TakeOut(h, i, k).runs;
    }

    /** Takes run i, which has become empty, out of the list: the root, the best bet, and the links on either side. */
    method DetachMajor(maj: int, ghost i: int)
      requires Linked() && 0 <= i < |runs| && maj == runs[i].addr && runs[i].blocks == []
      modifies this`memRoot, this`bestBet, this`majors, mem
      ensures memRoot == if i == 0 then RunAddr(runs, 1) else old(memRoot)
      ensures bestBet == if bet == i then 0 else old(bestBet)
      ensures forall j | 0 <= j < |runs| :: runs[j].addr in old(majors)
      ensures majors == UnlinkMajor(old(majors), runs, i)
      ensures KeepsAll(Whole(runs, i), old(mem[..]), mem[..])
    {
      hide Represents, KeepsAll, Apart, RunsOk, InUse, Sound, Whole;
      ghost var h, m0 := View(), mem[..];
      DropFacts(h, memRoot, bestBet, majors, minors, m0, i);
      RepFacts(h, memRoot, bestBet, majors, minors, m0);
      KeepsSame(Whole(h.runs, i), m0);
      if 0 < i { WholeApart(h, i, i - 1); }
      if i + 1 < |h.runs| { WholeApart(h, i, i + 1); }
      if memRoot == maj {
        memRoot := majors[maj].next;
      }
      if bestBet == maj {
        bestBet := 0;
      }
      var prev, next := majors[maj].prev, majors[maj].next;
      if prev != 0 {
        StoreMajor(prev, majors[prev].(next := next), Whole(h.runs, i), m0);
      }
      if next != 0 {
        StoreMajor(next, majors[next].(prev := prev), Whole(h.runs, i), m0);
      }
    }

    /** Gives run i, which has become empty, back. The headers represent the heap after that exactly when no run begins
        where run i ends: such a run loses its first page, with its header. */
    method DropMajor(maj: int, ghost i: int)
      requires Linked() && 0 <= i < |runs| && maj == runs[i].addr && runs[i].blocks == []
      modifies this, mem
      ensures View() == DropRun(old(View()), i)
      ensures Linked() <==> !Followed(old(View()), i)
      ensures memRoot == RunAddr(runs, 0)
      ensures KeepsReadable(runs, mapped, old(mem[..]), mem[..])
      ensures forall j | 0 <= j < |old(runs)| && old(runs)[j].addr == old(runs)[i].End() ::
                old(runs)[j].addr !in majors && old(runs)[j].addr !in mapped
      ensures FirstPageKept(maj, old(mem[..]), mem[..])
      ensures minors == Overwrite(old(minors), maj + PAGE, maj + PAGE + old(runs)[i].Size())
    {
      hide Represents, KeepsAll, KeepsReadable, Overwrite, Pages, Without, InUse, UnlinkMajor, UnmappedPages;
      hide RunAddr, MajorHeader, MajorsAgree, OnlyWithin, Followed, RunsOk, Sound, Whole, FirstPageKept;
      ghost var h, m0, mj, mn, root, best := View(), mem[..], majors, minors, memRoot, bestBet;
      UnmappedIs(runs[i]);
      RepFacts(h, root, best, mj, mn, m0);
      DropFacts(h, root, best, mj, mn, m0, i);
      var size, pages := majors[maj].size, majors[maj].pages;
      DetachMajor(maj, i);
      ghost var m1 := mem[..];
      taken := taken - size;
      LiballocFree(maj, pages);
      DropBytes(h, i, m0, m1, mem[..]);
      DropOutcome(h, root, best, mj, mn, m0, m1, mem[..], i);
      DropRoot(h, root, best, mj, mn, m0, i);
      runs, bet := DropRun(h, i).runs, DropRun(h, i).bet;
      assert View() == DropRun(h, i);
    }

    /** A run with more free bytes than the best bet becomes the best bet. */
    method Rebet(maj: int, ghost i: int)
      requires Linked() && 0 <= i < |runs| && maj == runs[i].addr && -1 <= bet < |runs|
      modifies this`bestBet, this`bet
      ensures Linked()
      ensures View() == HeapSpec.Rebet(old(View()), i)
    {
      hide Represents;
      BetIsRun(View(), memRoot, bestBet, majors, minors, mem[..]);
      ReadMajor(View(), memRoot, bestBet, majors, minors, mem[..], i);
      BetRep(View(), memRoot, bestBet, majors, minors, mem[..], i);
      if bestBet != 0 {
        var bestSize := ToInt32(majors[bestBet].size - majors[bestBet].usage);
        var majSize := ToInt32(majors[maj].size - majors[maj].usage);
        if majSize > bestSize {
          bestBet, bet := maj, i;
        }
      }
    }

    /** Where the header of pointer p is, by the offset stored before p. */
    ghost function HeaderOf(p: int): (v: int)
      reads mem
      requires ALIGN_INFO <= p <= mem.Length
    {
      Unaligned(p, mem[..]) - MINOR
    }

    /** UNALIGN, then back over the header. */
    method FindHeader(p: int) returns (min: int)
      requires ALIGN_INFO <= p <= mem.Length
      ensures min == HeaderOf(p)
    {
      var ptr := p;
      var delta := mem[ptr - 2] as int + 256 * mem[ptr - 1] as int;
      if delta < ALIGNMENT + ALIGN_INFO {
        ptr := ptr - delta;
      }
      min := ptr - MINOR;
    }

    /** The record of a pointer whose header does not carry the magic number. */
    method NotOurs(min: int)
      requires Linked() && min in minors
      modifies this`errors, this`overruns
      ensures Linked() && View() == Rejected(old(View()), minors[min].magic)
    {
      hide Represents;
      WarningsRep(View(), memRoot, bestBet, majors, minors, mem[..]);
      errors := errors + 1;
      var magic := minors[min].magic;
      if magic % 0x100_0000 == MAGIC % 0x100_0000
         || magic % 0x1_0000 == MAGIC % 0x1_0000 || magic % 0x100 == MAGIC % 0x100 {
        overruns := overruns + 1;
      }
    }

    /** Free of a null pointer, of a pointer whose header is not live, and of a live block. The heap stays valid exactly
        when the free does not give up a run right in front of another; that one's header would be gone. No byte of a
        remaining block that can still be read changes, and in a valid heap all of them can. */
    method Free(ptr: int)
      requires Valid()
      requires ptr != 0 ==> ALIGN_INFO <= ptr <= mem.Length && HeaderOf(ptr) in minors
      modifies this, mem
      ensures KeepsReadable(runs, mapped, old(mem[..]), mem[..])
      ensures Valid() ==> KeepsAll(runs, old(mem[..]), mem[..])
      ensures memRoot == RunAddr(runs, 0)
      ensures ptr == 0 ==> Valid() && View() == old(View()).(warnings := old(warnings) + 1)
      ensures ptr != 0 && old(minors[HeaderOf(ptr)].magic) != MAGIC ==>
                && Valid() && View() == Rejected(old(View()), old(minors[HeaderOf(ptr)].magic))
                && majors == old(majors) && minors == old(minors)
      ensures ptr != 0 && old(minors[HeaderOf(ptr)].magic) == MAGIC ==> IsLive(old(runs), old(HeaderOf(ptr)))
      ensures ptr != 0 ==> forall i, k | BlockAt(old(runs), i, k, old(HeaderOf(ptr))) ::
                && View() == FreeBlock(old(View()), i, k)
                && (Valid() <==> !CutsNeighbour(old(View()), i))
                && (CutsNeighbour(old(View()), i) ==>
                      forall j | 0 <= j < |old(runs)| && old(runs)[j].addr == old(runs)[i].End() ::
                        old(runs)[j].addr !in majors && old(runs)[j].addr !in mapped)
                && (|old(runs)[i].blocks| > 1 ==> KeepsAll(old(runs), old(mem[..]), mem[..]))
                && (|old(runs)[i].blocks| > 1 || old(runs)[i].blocks[k].Ptr() <= old(runs)[i].addr + PAGE ==>
                      && old(HeaderOf(ptr)) in minors && minors[old(HeaderOf(ptr))].magic == DEAD
                      && OffsetOk(old(runs)[i].blocks[k], mem[..]))
    {
      hide Represents, KeepsAll, NoneEmpty, FreeBlock, TakeOut, DropRun, HeapSpec.Rebet, Sound, Ok, IsLive, Unaligned;
      hide CutsNeighbour, Followed, KeepsReadable, OffsetOk, FirstPageKept;
      ghost var h, m0, mj, mn, root, best := View(), mem[..], majors, minors, memRoot, bestBet;
      ValidFacts(h, memRoot, bestBet, majors, minors, m0);
      WarningsRep(h, memRoot, bestBet, majors, minors, m0);
      AllIsReadable(h.runs, h.mapped, m0, m0);
      BetIsRun(h, memRoot, bestBet, majors, minors, m0);
      if ptr == 0 {
        warnings := warnings + 1;
        return;
      }
      var min := FindHeader(ptr);
      if minors[min].magic != MAGIC {
        NotMagic(h, memRoot, bestBet, majors, minors, m0, min);
        NotOurs(min);
        RejectedRuns(h, minors[min].magic);
        return;
      }
      ghost var i, k := MagicBlock(h, memRoot, bestBet, majors, minors, m0, min);
      FreeSteps(h, i, k);
      var maj := UnlinkBlock(min, i, k);
      ReadMajor(View(), memRoot, bestBet, majors, minors, mem[..], i);
      EmptyFirst(View(), memRoot, bestBet, majors, minors, mem[..], i);
      ghost var m1 := mem[..];
      KeepsLive(h, i, k, m0, m1, m1);
      if majors[maj].first == 0 {
        DropMajor(maj, i);
        KeepsLive(h, i, k, m0, m1, mem[..]);
        ValidKeepsAll(m0);
        DeadOffsetStays(h, root, best, mj, mn, m0, m1, mem[..], i, k);
      } else {
        Rebet(maj, i);
        DeadOffsetStays(h, root, best, mj, mn, m0, m1, m1, i, k);
        RebetRuns(TakeOut(h, i, k), i);
        BetIsRun(View(), memRoot, bestBet, majors, minors, mem[..]);
      }
    }

    /** In a valid heap, what keeps the readable bytes keeps them all. */
    lemma ValidKeepsAll(m0: seq<byte>)
      requires KeepsReadable(runs, mapped, m0, mem[..])
      ensures Valid() ==> KeepsAll(runs, m0, mem[..])
    {
      if Valid() {
        ReadableIsAll(View(), m0, mem[..]);
      }
    }

    // ---------- Reallocate ----------

    /** liballoc_memcpy: whole words first, then the bytes that are left. */
    method Memcpy(s1: int, s2: int, n: int)
      requires 0 <= n && 0 <= s1 && s1 + n <= mem.Length && 0 <= s2 && s2 + n <= mem.Length
      requires s1 + n <= s2 || s2 + n <= s1
      modifies mem
      ensures OnlyWithin(old(mem[..]), mem[..], s1, s1 + n)
      ensures forall y | s1 <= y < s1 + n :: mem[y] == old(mem[y - s1 + s2])
    {
      var dest, src, left := s1, s2, n;
      while left >= 4
        invariant 0 <= left <= n && dest == s1 + n - left && src == s2 + n - left
        invariant OnlyWithin(old(mem[..]), mem[..], s1, dest)
        invariant forall y | s1 <= y < dest :: mem[y] == old(mem[y - s1 + s2])
        invariant forall y | src <= y < s2 + n :: mem[y] == old(mem[y])
      {
        mem[dest], mem[dest + 1], mem[dest + 2], mem[dest + 3] := mem[src], mem[src + 1], mem[src + 2], mem[src + 3];
        dest, src, left := dest + 4, src + 4, left - 4;
      }
      while left > 0
        invariant 0 <= left <= n && dest == s1 + n - left && src == s2 + n - left
        invariant OnlyWithin(old(mem[..]), mem[..], s1, dest)
        invariant forall y | s1 <= y < dest :: mem[y] == old(mem[y - s1 + s2])
        invariant forall y | src <= y < s2 + n :: mem[y] == old(mem[y])
      {
        mem[dest] := mem[src];
        dest, src, left := dest + 1, src + 1, left - 1;
      }
    }

    /** A caller's write through the pointer of its live block leaves the heap and every other block alone. */
    method WritePayload(p: int, x: int, v: byte, ghost i: int, ghost k: int)
      requires Valid() && IsBlock(View(), i, k) && p == runs[i].blocks[k].Ptr()
      requires 0 <= x < runs[i].blocks[k].req
      modifies mem
      ensures Valid()
      ensures forall c | Live(runs, c) && c != runs[i].blocks[k] :: KeepsBlock(c, old(mem[..]), mem[..])
      ensures 0 <= p + x < mem.Length && mem[..] == old(mem[..])[p + x := v]
    {
      hide Represents, KeepsBlock, Live, NoneEmpty;
      LiveHeader(View(), memRoot, bestBet, majors, minors, mem[..], i, k);
      LiveHere(runs, i, k);
      mem[p + x] := v;
      PayloadRep(View(), memRoot, bestBet, majors, minors, old(mem[..]), mem[..], runs[i].blocks[k]);
    }

    /** The copy of a reallocation, from live block b into the block nb just allocated. */
    method CopyInto(ptr: int, p: int, n: int, ghost h: HeapState, ghost b: Block, ghost nb: Block)
      requires Valid() && Ok(h) && Ok(View()) && Live(h.runs, b) && Adds(h.runs, runs, ptr, nb.req, nb)
      requires n == b.req < nb.req && p == b.Ptr()
      modifies mem
      ensures Valid() && Copied(old(mem[..]), p, mem[..], ptr, n)
      ensures OthersKept(runs, nb, old(mem[..]), mem[..])
    {
      hide Represents, KeepsAll, Live, Ok, NoneEmpty, KeepsBlock, Adds;
      NewBlockInside(h, View(), b, nb, ptr, nb.req);
      RepFacts(View(), memRoot, bestBet, majors, minors, mem[..]);
      Memcpy(ptr, p, n);
      OnlyWithinMore(old(mem[..]), mem[..], ptr, ptr + n, nb.End());
      PayloadRep(View(), memRoot, bestBet, majors, minors, old(mem[..]), mem[..], nb);
    }

    /** Moving a live block of realSize bytes to a larger one: allocate, copy, free. Giving the old block back may cut
        off a run behind it, even the one the new block has just been put in. When the allocation leaves the heap ill
        formed, the model's run ends there, with the fault flag. */
    method MoveBlock(p: int, realSize: int, size: int, avail: nat, ghost i: int, ghost k: int)
      returns (ptr: int, fault: bool)
      requires Valid() && IsBlock(View(), i, k) && Sized(size) && size != 0
      requires p == runs[i].blocks[k].Ptr()
      requires realSize == ToInt32(runs[i].blocks[k].req) && runs[i].blocks[k].req < size
      modifies this, mem
      ensures -1 <= old(bet) < |old(runs)|
      ensures if Overfills(old(View()), size, avail) then
                fault && ptr != 0 && (View(), ptr) == HeapSpec.Allocate(old(View()), size, avail)
              else (View(), ptr, fault) == HeapSpec.Reallocate(old(View()), i, k, size, avail)
      ensures Valid() <==> !ReallocateBreaks(old(View()), i, k, size, avail)
      ensures Valid() && !fault && ptr != 0 ==> Copied(old(mem[..]), p, mem[..], ptr, old(runs)[i].blocks[k].req)
      ensures Valid() ==> OthersKept(old(runs), old(runs)[i].blocks[k], old(mem[..]), mem[..])
    {
      hide Represents, KeepsAll, Live, Ok, NoneEmpty, HeapSpec.AllocateSized, FreeBlock, Copied, OthersKept, KeepsBlock;
      hide HasRoom, PagesRefused, Unaligned, MinorAt, HeapSpec.Allocate, CutsNeighbour, KeepsReadable, ReallocateBreaks;
      ghost var h, m0, b := View(), mem[..], runs[i].blocks[k];
      ValidFacts(h, memRoot, bestBet, majors, minors, m0);
      LiveHeader(h, memRoot, bestBet, majors, minors, m0, i, k);
      ghost var nb := InnerAllocation(h, i, k, size, avail);
      RecordedRequest(h, i, k);
      fault := false;
      ptr := Allocate(size, avail);
      if ptr != 0 && !Request(size) {
        fault := true;
        ValidIsOk();
        return;
      }
      ghost var g, m1, k' := View(), mem[..], Follow(runs[i], k, b);
      LiveHere(h.runs, i, k);
      if ptr == 0 && realSize != 0 {
        fault := true;
        OthersFromAll(h.runs, b, m0, m1);
        return;
      }
      if ptr != 0 {
        LargeNeverMoves(h, g, b, nb, ptr, size);
        CopyInto(ptr, p, realSize, h, b, nb);
      }
      ghost var m2 := mem[..];
      LiveHeader(g, memRoot, bestBet, majors, minors, m2, i, k');
      FreeLoses(g, i, k');
      assert BlockAt(runs, i, k', b.addr);
      Free(p);
      if Valid() && ptr == 0 {
        OthersThroughFree(h.runs, g.runs, runs, b, m0, m1, mem[..]);
      } else if Valid() {
        CopyThroughFree(h.runs, g.runs, runs, b, nb, m0, m1, m2, mem[..], p, ptr, realSize, size);
      }
    }

    /** Reallocate. A live pointer is one that an allocation returned, so that it is the pointer of its block. */
    method Reallocate(p: int, size: int, avail: nat) returns (ptr: int, fault: bool)
      requires Valid() && Sized(size)
      requires p != 0 ==> ALIGN_INFO <= p <= mem.Length && HeaderOf(p) in minors
      requires p != 0 ==> forall i, k | BlockAt(runs, i, k, HeaderOf(p)) :: p == runs[i].blocks[k].Ptr()
      modifies this, mem
      ensures p == 0 && size == 0 ==>
                Valid() && View() == old(View()).(warnings := old(warnings) + 1) && ptr == 0 && !fault
      ensures p == 0 && size != 0 ==>
                && -1 <= old(bet) < |old(runs)| && !fault
                && (View(), ptr) == HeapSpec.Allocate(old(View()), size, avail)
                && (Valid() <==> !Overfills(old(View()), size, avail))
      ensures p != 0 && old(minors[HeaderOf(p)].magic) != MAGIC ==>
                Valid() && View() == Rejected(old(View()), old(minors[HeaderOf(p)].magic)) && ptr == 0 && !fault
      ensures p != 0 ==> forall i, k | BlockAt(old(runs), i, k, old(HeaderOf(p))) ::
                && Moved(old(View()), i, k, p, size, avail, old(mem[..]), View(), ptr, fault, mem[..])
                && (Valid() <==> !ReallocateBreaks(old(View()), i, k, size, avail))
    {
      hide Represents, KeepsAll, Live, Ok, NoneEmpty, HeapSpec.Allocate, HeapSpec.Reallocate, Rejected, Moved;
      hide Unaligned, FreeBlock, SetReq;
      hide Copied, OthersKept, IsLive;
      ghost var h, m0 := View(), mem[..];
      ValidFacts(h, memRoot, bestBet, majors, minors, m0);
      if p == 0 {
        fault := false;
        if size == 0 {
          Free(p);
          ptr := 0;
        } else {
          ptr := Allocate(size, avail);
        }
        return;
      }
      ghost var min0 := HeaderOf(p);
      ghost var i, k := 0, 0;
      if minors[min0].magic == MAGIC {
        i, k := MagicBlock(h, memRoot, bestBet, majors, minors, m0, min0);
        ReadMinor(h, memRoot, bestBet, majors, minors, m0, i, k);
      } else {
        NotMagic(h, memRoot, bestBet, majors, minors, m0, min0);
      }
      ptr, fault := ReallocateHeader(p, size, avail, i, k);
    }

    /** The part of Reallocate that works on a pointer with a header. */
    method ReallocateHeader(p: int, size: int, avail: nat, ghost i: int, ghost k: int) returns (ptr: int, fault: bool)
      requires Valid() && Sized(size)
      requires p != 0 && ALIGN_INFO <= p <= mem.Length && HeaderOf(p) in minors
      requires minors[HeaderOf(p)].magic == MAGIC ==> IsBlock(View(), i, k) && runs[i].blocks[k].addr == HeaderOf(p)
      requires minors[HeaderOf(p)].magic == MAGIC ==> p == runs[i].blocks[k].Ptr()
      modifies this, mem
      ensures old(minors[HeaderOf(p)].magic) != MAGIC ==>
                Valid() && View() == Rejected(old(View()), old(minors[HeaderOf(p)].magic)) && ptr == 0 && !fault
      ensures old(minors[HeaderOf(p)].magic) == MAGIC ==>
                && Moved(old(View()), i, k, p, size, avail, old(mem[..]), View(), ptr, fault, mem[..])
                && (Valid() <==> !ReallocateBreaks(old(View()), i, k, size, avail))
    {
      hide Represents, KeepsAll, Live, Ok, NoneEmpty, HeapSpec.Allocate, Rejected, Unaligned, FreeBlock;
      hide Copied, OthersKept, IsLive;
      ghost var h, m0 := View(), mem[..];
      ValidFacts(h, memRoot, bestBet, majors, minors, m0);
      fault := false;
      if size == 0 {
        if minors[HeaderOf(p)].magic == MAGIC {
          FreeLoses(h, i, k);
          FreeBlockOkIff(h, i, k);
          assert BlockAt(runs, i, k, HeaderOf(p));
        }
        Free(p);
        if old(minors[HeaderOf(p)].magic) == MAGIC && Valid() {
          OthersThroughFree(h.runs, h.runs, runs, h.runs[i].blocks[k], m0, m0, mem[..]);
        }
        return 0, false;
      }
      var min := FindHeader(p);
      if minors[min].magic != MAGIC {
        RejectedRuns(h, minors[min].magic);
        NotOurs(min);
        return 0, false;
      }
      ReadMinor(h, memRoot, bestBet, majors, minors, m0, i, k);
      LivePointer(h, i, k);
      RecordedRequest(h, i, k);
      var realSize := ToInt32(minors[min].req);
      if realSize % UINT32 >= size {
        Shrink(min, size, i, k);
        SetReqOk(h, i, k, size);
        ptr := p;
        OthersFromAll(h.runs, h.runs[i].blocks[k], m0, mem[..]);
        return;
      }
      ptr, fault := MoveBlock(p, realSize, size, avail, i, k);
      MovedOk(h, i, k, size, avail);
    }

    /** min->req_size = size. */
    method Shrink(min: int, size: int, ghost i: int, ghost k: int)
      requires Valid() && IsBlock(View(), i, k) && min == runs[i].blocks[k].addr && 0 <= size <= runs[i].blocks[k].req
      modifies this`minors, this`runs, mem
      ensures Valid() && View() == SetReq(old(View()), i, k, size)
      ensures KeepsAll(old(runs), old(mem[..]), mem[..])
    {
      hide Represents, KeepsAll, NoneEmpty, Apart;
      ghost var h, m0 := View(), mem[..];
      ValidFacts(h, memRoot, bestBet, majors, minors, m0);
      IsBlockHeader(h, memRoot, bestBet, majors, minors, m0, i, k);
      StoreMinor(min, minors[min].(req := size), h.runs, m0);
      ShrinkRep(h, memRoot, bestBet, majors, old(minors), m0, mem[..], i, k, size);
      runs := SetReq(h, i, k, size).runs;
    }
  }
}
