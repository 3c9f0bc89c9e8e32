/** The two-level page map of one address space, seen through its recursive mapping: 1024 directory
    entries, and the window that shows the page tables one after the other. */
module PageMap {
  import opened FrameBitmap

  const ENTRIES := 1024
  const PAGES := ENTRIES * ENTRIES
  const RECURSIVE := 1023        // the directory slot that maps the directory itself
  const PRESENT := 1
  const READ_WRITE := 2
  const USER := 4
  const ADDRESSES := 0x1_0000_0000

  /** The directory, and the window. Where a directory entry is 0 the window shows nothing: zeros here. */
  datatype Paging = Paging(dir: seq<nat>, tab: seq<nat>)

  predicate Shaped(s: Paging) {
    |s.dir| == ENTRIES && |s.tab| == PAGES
  }

  // ---------- addresses ----------

  /** x & PageMask: page-aligned, and cut to 32 bits. */
  function PageBase(x: int): (r: int)
    requires 0 <= x
    ensures 0 <= r < ADDRESSES && r % PAGE == 0
  {
    var y := x % ADDRESSES;
    y - y % PAGE
  }

  /** The page address is what the address has in its bits 12 to 31. */
  lemma PageBaseIs(x: nat, page: nat, offset: nat, above: nat)
    requires page < 0x10_0000 && offset < 0x1000 && x == above * 0x1_0000_0000 + page * 0x1000 + offset
    ensures PageBase(x) == page * 0x1000
  {
    assert x % 0x1_0000_0000 == page * 0x1000 + offset;
  }

  /** flags & 0xFFF | Present. */
  function WithPresent(flags: int): (f: int)
    requires 0 <= flags
    ensures 0 < f < PAGE && f % 2 == 1 && (f == flags % PAGE || f == flags % PAGE + 1)
  {
    var f := flags % PAGE;
    if f % 2 == 1 then f else f + PRESENT
  }

  /** The table entry for a page mapped to src with flags: the two parts occupy different bits. */
  function Entry(src: int, flags: int): (e: nat)
    requires 0 <= src && 0 <= flags
    ensures 0 < e < ADDRESSES
    ensures PageBase(e) == PageBase(src) && e % PAGE == WithPresent(flags)
  {
    assert PageBase(src) <= ADDRESSES - PAGE;
    PageBase(src) + WithPresent(flags)
  }

  /** The source's masks and or-operations, on 64-bit words, are the sums and remainders used here. */
  lemma MasksAreArithmetic(src: bv64, flags: bv64)
    ensures src & 0xFFFFF000 == src % 0x1_0000_0000 - src % 0x1000
    ensures (src & 0xFFFFF000) | (flags & 0xFFF) | 1 == (src & 0xFFFFF000) + ((flags & 0xFFF) | 1)
    ensures (flags & 0xFFF) | 1 == if (flags & 0xFFF) % 2 == 1 then flags & 0xFFF else (flags & 0xFFF) + 1
    ensures ((src & 0xFFFFF000) | (flags & 0xFFF)) & 0xFFFFF000 == src & 0xFFFFF000
  {
  }

  // ---------- lookup ----------

  /** The entry of page p, or 0. */
  function Lookup(s: Paging, p: int): (v: nat)
    requires Shaped(s) && 0 <= p < PAGES
  {
    if s.dir[p / ENTRIES] != 0 then s.tab[p] else 0
  }

  // ---------- mapping ----------

  /** A new table frame becomes visible in the window as the frame's memory, image, has it. */
  function Install(s: Paging, d: int, dirEntry: nat, image: seq<nat>): (t: Paging)
    requires Shaped(s) && 0 <= d < ENTRIES && |image| == ENTRIES
    ensures Shaped(Install(s, d, dirEntry, image))
  {
    Paging(s.dir[d := dirEntry], s.tab[..d * ENTRIES] + image + s.tab[(d + 1) * ENTRIES..])
  }

  /** Mapping page p to entry e; pg is the frame for a new table, which holds image. */
  function MapPage(s: Paging, p: int, e: nat, pg: nat, image: seq<nat>): (t: Paging)
    requires Shaped(s) && 0 <= p < PAGES && |image| == ENTRIES
    ensures Shaped(MapPage(s, p, e, pg, image))
  {
    var d := p / ENTRIES;
    var s1 := if s.dir[d] == 0 then Install(s, d, pg + PRESENT + READ_WRITE + USER, image) else s;
    Paging(s1.dir, s1.tab[p := e])
  }

  lemma InstalledEntry(s: Paging, d: int, dirEntry: nat, image: seq<nat>, p: int)
    requires Shaped(s) && 0 <= d < ENTRIES && |image| == ENTRIES && 0 <= p < PAGES
    ensures Install(s, d, dirEntry, image).tab[p] == if p / ENTRIES == d then image[p % ENTRIES] else s.tab[p]
  {
  }

  /** The mapped page reads back as the entry written. */
  lemma MapReadsBack(s: Paging, p: int, e: nat, pg: nat, image: seq<nat>)
    requires Shaped(s) && 0 <= p < PAGES && |image| == ENTRIES && 0 <= pg
    ensures Lookup(MapPage(s, p, e, pg, image), p) == e
  {
  }

  /** Mapping leaves every other page as it was exactly when no new table is needed or the new table's frame holds
      zeros everywhere else: MapMemory itself does not clear it. */
  lemma MapKeepsOthersIff(s: Paging, p: int, e: nat, pg: nat, image: seq<nat>)
    requires Shaped(s) && 0 <= p < PAGES && |image| == ENTRIES && 0 <= pg
    ensures (forall q | 0 <= q < PAGES && q != p :: Lookup(MapPage(s, p, e, pg, image), q) == Lookup(s, q))
        <==> s.dir[p / ENTRIES] != 0 || (forall k | 0 <= k < ENTRIES && k != p % ENTRIES :: image[k] == 0)
  {
    var s' := MapPage(s, p, e, pg, image);
    var d := p / ENTRIES;
    forall q | 0 <= q < PAGES && q != p
      ensures Lookup(s', q) == if s.dir[d] == 0 && q / ENTRIES == d then image[q % ENTRIES] else Lookup(s, q)
    {
      if s.dir[d] == 0 { InstalledEntry(s, d, pg + PRESENT + READ_WRITE + USER, image, q); }
    }
    if s.dir[d] == 0 {
      if k :| 0 <= k < ENTRIES && k != p % ENTRIES && image[k] != 0 {
        var q := d * ENTRIES + k;
        assert q / ENTRIES == d && q % ENTRIES == k;
        assert Lookup(s', q) != Lookup(s, q);
      }
    }
  }

  // ---------- erasing ----------

  predicate TableEmpty(s: Paging, d: int)
    requires Shaped(s) && 0 <= d < ENTRIES
  {
    forall k | d * ENTRIES <= k < (d + 1) * ENTRIES :: s.tab[k] == 0
  }

  /** Erasing page p, whose table is there: the table goes with its last entry. */
  function ErasePage(s: Paging, p: int): (t: Paging)
    requires Shaped(s) && 0 <= p < PAGES
    ensures Shaped(ErasePage(s, p))
  {
    var s1 := Paging(s.dir, s.tab[p := 0]);
    if TableEmpty(s1, p / ENTRIES) then Paging(s1.dir[p / ENTRIES := 0], s1.tab) else s1
  }

  lemma EraseClearsOne(s: Paging, p: int, q: int)
    requires Shaped(s) && 0 <= p < PAGES && 0 <= q < PAGES
    ensures Lookup(ErasePage(s, p), q) == if q == p then 0 else Lookup(s, q)
  {
  }

  // ---------- page tables and their frames ----------

  /** The frame of the table in slot d. */
  function TableFrame(s: Paging, d: int): (v: int)
    requires Shaped(s) && 0 <= d < ENTRIES
  {
    PageBase(s.dir[d]) / PAGE
  }

  /** A table is there exactly when it has an entry. */
  ghost predicate Tight(s: Paging)
    requires Shaped(s)
  {
    forall d | 0 <= d < RECURSIVE :: s.dir[d] == 0 <==> TableEmpty(s, d)
  }

  /** Every table has a frame of its own among the frames handed out. */
  ghost predicate Owns(s: Paging, out: set<int>)
    requires Shaped(s)
  {
    && (forall d | 0 <= d < RECURSIVE && s.dir[d] != 0 :: TableFrame(s, d) in out)
    && (forall d, c | 0 <= d < c < RECURSIVE && s.dir[d] != 0 && s.dir[c] != 0 :: TableFrame(s, d) != TableFrame(s, c))
  }

  lemma FrameOfEntry(f: int)
    requires 0 <= f < MAX_WORDS * BITS
    ensures PageBase(f * PAGE + PRESENT + READ_WRITE + USER) / PAGE == f
  {
  }

  /** Every table can be reached by the processor: its directory entry is its frame's address with the bits 1, 2 and 4
      for present, writable and user. And every page with an entry is present. */
  ghost predicate Reachable(s: Paging)
    requires Shaped(s)
  {
    && (forall d | 0 <= d < RECURSIVE && s.dir[d] != 0 :: s.dir[d] == PageBase(s.dir[d]) + 7)
    && (forall p | 0 <= p < RECURSIVE * ENTRIES && Lookup(s, p) != 0 :: Lookup(s, p) % 2 == 1)
  }

  /** The directory entry of a new table whose frame is number f. */
  lemma NewTableEntry(s: Paging, p: int, e: nat, f: int, image: seq<nat>)
    requires Shaped(s) && 0 <= p < PAGES && |image| == ENTRIES && 0 <= f < MAX_WORDS * BITS && s.dir[p / ENTRIES] == 0
    ensures var d := p / ENTRIES; var s' := MapPage(s, p, e, f * PAGE, image);
            s'.dir == s.dir[d := f * 4096 + 7] && PageBase(s'.dir[d]) == f * 4096
  {
  }

  lemma MapKeepsReachable(s: Paging, p: int, src: nat, flags: nat, f: int, image: seq<nat>)
    requires Shaped(s) && 0 <= p < RECURSIVE * ENTRIES && |image| == ENTRIES && Reachable(s)
    requires s.dir[p / ENTRIES] == 0 ==> 0 <= f < MAX_WORDS * BITS && forall k | 0 <= k < ENTRIES :: image[k] == 0
    requires 0 <= f
    ensures Reachable(MapPage(s, p, Entry(src, flags), f * PAGE, image))
  {
    hide Lookup, PageBase, WithPresent;
    var e := Entry(src, flags);
    var s' := MapPage(s, p, e, f * PAGE, image);
    PresentIsOdd(src, flags);
    MapReadsBack(s, p, e, f * PAGE, image);
    MapKeepsOthersIff(s, p, e, f * PAGE, image);
    if s.dir[p / ENTRIES] == 0 { NewTableEntry(s, p, e, f, image); }
  }

  lemma PresentIsOdd(src: nat, flags: nat)
    ensures Entry(src, flags) % 2 == 1
  {
    hide PageBase, WithPresent, Entry;
    OddLowBits(Entry(src, flags));
  }

  lemma OddLowBits(e: nat)
    ensures e % PAGE % 2 == e % 2
  {
    assert e == 2 * (2048 * (e / PAGE)) + e % PAGE;
  }

  lemma EraseKeepsReachable(s: Paging, p: int)
    requires Shaped(s) && 0 <= p < RECURSIVE * ENTRIES && Reachable(s)
    ensures Reachable(ErasePage(s, p))
  {
    hide Lookup;
    forall q | 0 <= q < RECURSIVE * ENTRIES
      ensures Lookup(ErasePage(s, p), q) == if q == p then 0 else Lookup(s, q)
    {
      EraseClearsOne(s, p, q);
    }
  }

  lemma MapKeepsTight(s: Paging, p: int, e: nat, pg: nat, image: seq<nat>)
    requires Shaped(s) && 0 <= p < PAGES && |image| == ENTRIES && e != 0 && p / ENTRIES != RECURSIVE && Tight(s)
    ensures Tight(MapPage(s, p, e, pg, image))
  {
    var s' := MapPage(s, p, e, pg, image);
    forall d | 0 <= d < RECURSIVE
      ensures s'.dir[d] == 0 <==> TableEmpty(s', d)
    {
      if d == p / ENTRIES {
        assert s'.tab[p] != 0;
      } else {
        assert TableEmpty(s, d) == TableEmpty(s', d) by {
          forall k | d * ENTRIES <= k < (d + 1) * ENTRIES
            ensures s'.tab[k] == s.tab[k]
          {
            assert k / ENTRIES == d;
          }
        }
      }
    }
  }

  lemma EraseKeepsTight(s: Paging, p: int)
    requires Shaped(s) && 0 <= p < PAGES && p / ENTRIES != RECURSIVE && Tight(s) && s.dir[p / ENTRIES] != 0
    ensures Tight(ErasePage(s, p))
  {
    var s' := ErasePage(s, p);
    var s1 := Paging(s.dir, s.tab[p := 0]);
    forall d | 0 <= d < RECURSIVE
      ensures s'.dir[d] == 0 <==> TableEmpty(s', d)
    {
      assert TableEmpty(s', d) == TableEmpty(s1, d);
      if d != p / ENTRIES {
        assert TableEmpty(s, d) == TableEmpty(s1, d) by {
          forall k | d * ENTRIES <= k < (d + 1) * ENTRIES
            ensures s1.tab[k] == s.tab[k]
          {
            assert k / ENTRIES == d;
          }
        }
      }
    }
  }

  /** A table created with a frame that was not out keeps the frames apart. */
  lemma MapKeepsOwns(s: Paging, p: int, e: nat, f: int, image: seq<nat>, out: set<int>)
    requires Shaped(s) && 0 <= p < PAGES && |image| == ENTRIES && p / ENTRIES != RECURSIVE && Owns(s, out)
    requires 0 <= f < MAX_WORDS * BITS && f !in out
    ensures Owns(MapPage(s, p, e, f * PAGE, image), if s.dir[p / ENTRIES] == 0 then out + {f} else out)
  {
    FrameOfEntry(f);
    var s' := MapPage(s, p, e, f * PAGE, image);
    forall d | 0 <= d < RECURSIVE
      ensures s'.dir[d] == if d == p / ENTRIES && s.dir[d] == 0 then f * PAGE + 7 else s.dir[d]
    {
    }
  }

  /** Erasing gives up exactly the frame of a table that went. */
  lemma EraseKeepsOwns(s: Paging, p: int, out: set<int>)
    requires Shaped(s) && 0 <= p < PAGES && p / ENTRIES != RECURSIVE && Owns(s, out) && s.dir[p / ENTRIES] != 0
    ensures var d := p / ENTRIES; var s' := ErasePage(s, p);
            if s'.dir[d] == 0 then TableFrame(s, d) in out && Owns(s', out - {TableFrame(s, d)}) else Owns(s', out)
  {
  }

  // ---------- counting ----------

  ghost function Tables(s: Paging): (xs: set<int>)
    requires Shaped(s)
  {
    set d | 0 <= d < RECURSIVE && s.dir[d] != 0
  }

  lemma FramesDiffer(s: Paging, out: set<int>, c: int, d: int)
    requires Shaped(s) && Owns(s, out) && c in Tables(s) && d in Tables(s) && c != d
    ensures TableFrame(s, c) != TableFrame(s, d)
  {
  }

  /** As many frames are held for tables as there are directory entries in use. */
  lemma {:induction false} TableFramesCounted(s: Paging, slots: set<int>, out: set<int>)
    requires Shaped(s) && Owns(s, out) && slots <= Tables(s)
    ensures |set d | d in slots :: TableFrame(s, d)| == |slots|
  {
    if slots != {} {
      var c :| c in slots;
      TableFramesCounted(s, slots - {c}, out);
      var rest := set d | d in slots - {c} :: TableFrame(s, d);
      forall d | d in slots - {c}
        ensures TableFrame(s, d) != TableFrame(s, c)
      {
        FramesDiffer(s, out, c, d);
      }
      assert TableFrame(s, c) !in rest;
      assert (set d | d in slots :: TableFrame(s, d)) == rest + {TableFrame(s, c)};
    }
  }

  // ---------- whole runs ----------

  /** The address space together with the frame allocator; out holds the frames handed out, to tables and to others. */
  datatype World = World(s: Paging, ws: seq<Word>, out: set<int>)

  /** A call; image is what the frame for a new table holds. Other users of frames are the last two. */
  datatype Call =
    | Map(src: int, dest: int, flags: int, image: seq<nat>)
    | Erase(mem: int)
    | TakeFrame
    | GiveFrame(frame: int)

  ghost predicate WorldOk(w: World, n: int, reserved: set<int>) {
    && 0 < n <= MAX_WORDS && Shaped(w.s) && Accounts(w.ws, n, reserved, w.out) && Tight(w.s) && Owns(w.s, w.out)
    && Reachable(w.s)
  }

  ghost predicate FrameTaken(w: World, w': World, dmaEnd: int, n: int, f: int)
    requires 0 <= dmaEnd <= n <= |w.ws|
  {
    f == FirstFree(w.ws, dmaEnd, n, false) && f != 0 && InMap(w.ws, f)
    && w'.ws == Mark(w.ws, BITS, f) && w'.out == w.out + {f}
  }

  ghost predicate FrameGiven(w: World, w': World, f: int) {
    InMap(w.ws, f) && w'.ws == Unmark(w.ws, f) && w'.out == w.out - {f}
  }

  /** One call that comes back: a MapMemory that finds no frame for a table halts the machine, and an EraseMapping
      where there is no table faults. New tables come in zero-filled frames. */
  ghost predicate Step(w: World, c: Call, w': World, dmaEnd: int, n: int)
    requires 0 <= dmaEnd <= n <= |w.ws| && Shaped(w.s)
  {
    match c
    case Map(src, dest, flags, image) =>
      && 0 <= src && 0 <= dest && 0 <= flags && |image| == ENTRIES && (forall k | 0 <= k < ENTRIES :: image[k] == 0)
      && var p := PageBase(dest) / PAGE;
         p / ENTRIES != RECURSIVE
         && var f := FirstFree(w.ws, dmaEnd, n, false);
            0 <= f && w'.s == MapPage(w.s, p, Entry(src, flags), f * PAGE, image)
            && if w.s.dir[p / ENTRIES] == 0 then FrameTaken(w, w', dmaEnd, n, f) else w'.ws == w.ws && w'.out == w.out
    case Erase(mem) =>
      && 0 <= mem
      && var p := PageBase(mem) / PAGE;
         p / ENTRIES != RECURSIVE && w.s.dir[p / ENTRIES] != 0
         && w'.s == ErasePage(w.s, p)
         && if w'.s.dir[p / ENTRIES] == 0 then FrameGiven(w, w', TableFrame(w.s, p / ENTRIES))
            else w'.ws == w.ws && w'.out == w.out
    case TakeFrame => w'.s == w.s && exists f :: FrameTaken(w, w', dmaEnd, n, f)
    case GiveFrame(f) =>
      f in w.out && (forall d | 0 <= d < RECURSIVE && w.s.dir[d] != 0 :: TableFrame(w.s, d) != f)
      && w'.s == w.s && FrameGiven(w, w', f)
  }

  /** The flat map a call means: one page gets an entry or loses it. */
  function FlatStep(flat: map<int, nat>, c: Call): (ms: map<int, nat>) {
    match c
    case Map(src, dest, flags, _) =>
      if 0 <= src && 0 <= dest && 0 <= flags then flat[PageBase(dest) / PAGE := Entry(src, flags)] else flat
    case Erase(mem) => if 0 <= mem then flat - {PageBase(mem) / PAGE} else flat
    case TakeFrame => flat
    case GiveFrame(_) => flat
  }

  /** The page map shows exactly the flat map. */
  ghost predicate Shows(s: Paging, flat: map<int, nat>)
    requires Shaped(s)
  {
    forall p | 0 <= p < PAGES && p / ENTRIES != RECURSIVE :: Lookup(s, p) == if p in flat then flat[p] else 0
  }

  lemma TakenKeeps(w: World, w': World, dmaEnd: int, n: int, reserved: set<int>, f: int)
    requires WorldOk(w, n, reserved) && 0 <= dmaEnd <= n && FrameTaken(w, w', dmaEnd, n, f)
    ensures Accounts(w'.ws, n, reserved, w'.out) && f !in w.out && 0 <= f < MAX_WORDS * BITS
    ensures Owns(w.s, w'.out)
  {
    AllocateAccounts(w.ws, n, reserved, w.out, dmaEnd, n);
  }

  lemma MapStep(w: World, c: Call, w': World, dmaEnd: int, n: int, reserved: set<int>, flat: map<int, nat>)
    requires WorldOk(w, n, reserved) && 0 <= dmaEnd <= n && c.Map? && Step(w, c, w', dmaEnd, n) && Shows(w.s, flat)
    ensures WorldOk(w', n, reserved) && Shows(w'.s, FlatStep(flat, c))
  {
    hide Mark, FirstFree, Reachable;
    var p := PageBase(c.dest) / PAGE;
    var f := FirstFree(w.ws, dmaEnd, n, false);
    var e := Entry(c.src, c.flags);
    MapKeepsTight(w.s, p, e, f * PAGE, c.image);
    MapReadsBack(w.s, p, e, f * PAGE, c.image);
    MapKeepsOthersIff(w.s, p, e, f * PAGE, c.image);
    if w.s.dir[p / ENTRIES] == 0 {
      TakenKeeps(w, w', dmaEnd, n, reserved, f);
      MapKeepsOwns(w.s, p, e, f, c.image, w.out);
      MapKeepsReachable(w.s, p, c.src, c.flags, f, c.image);
    } else {
      MapKeepsReachable(w.s, p, c.src, c.flags, f, c.image);
      assert MapPage(w.s, p, e, f * PAGE, c.image).dir == w.s.dir;
    }
  }

  lemma EraseStep(w: World, c: Call, w': World, dmaEnd: int, n: int, reserved: set<int>, flat: map<int, nat>)
    requires WorldOk(w, n, reserved) && 0 <= dmaEnd <= n && c.Erase? && Step(w, c, w', dmaEnd, n) && Shows(w.s, flat)
    ensures WorldOk(w', n, reserved) && Shows(w'.s, FlatStep(flat, c))
  {
    hide Accounts, Unmark, FirstFree, Reachable;
    var p := PageBase(c.mem) / PAGE;
    EraseKeepsReachable(w.s, p);
    EraseKeepsTight(w.s, p);
    EraseKeepsOwns(w.s, p, w.out);
    if w'.s.dir[p / ENTRIES] == 0 {
      FreeAccounts(w.ws, n, reserved, w.out, TableFrame(w.s, p / ENTRIES));
    }
    forall q | 0 <= q < PAGES && q / ENTRIES != RECURSIVE
      ensures Lookup(w'.s, q) == var g := FlatStep(flat, c); if q in g then g[q] else 0
    {
      EraseClearsOne(w.s, p, q);
    }
  }

  /** One call keeps the world in order, and the page map in step with the flat map. */
  lemma StepKeeps(w: World, c: Call, w': World, dmaEnd: int, n: int, reserved: set<int>, flat: map<int, nat>)
    requires WorldOk(w, n, reserved) && 0 <= dmaEnd <= n && Step(w, c, w', dmaEnd, n) && Shows(w.s, flat)
    ensures WorldOk(w', n, reserved) && Shows(w'.s, FlatStep(flat, c))
  {
    hide Shows, Tight, Lookup, Reachable;
    match c
    case Map(_, _, _, _) => MapStep(w, c, w', dmaEnd, n, reserved, flat);
    case Erase(_) => EraseStep(w, c, w', dmaEnd, n, reserved, flat);
    case TakeFrame =>
      var f :| FrameTaken(w, w', dmaEnd, n, f);
      TakenKeeps(w, w', dmaEnd, n, reserved, f);
    case GiveFrame(f) =>
      FreeAccounts(w.ws, n, reserved, w.out, f);
  }

  ghost function FlatAfter(cs: seq<Call>, t: nat): (ms: map<int, nat>)
    requires t <= |cs|
  {
    if t == 0 then map[] else FlatStep(FlatAfter(cs, t - 1), cs[t - 1])
  }

  /** Along every run from an empty directory: the page map shows the flat map the calls mean; a directory entry is in
      use exactly when its table has an entry; and the frames held for tables number the entries in use. */
  lemma {:induction false} EveryRunShowsFlatMap(wss: seq<World>, cs: seq<Call>, dmaEnd: int, n: int,
                                                reserved: set<int>, t: nat)
    requires 0 <= dmaEnd <= n && |wss| == |cs| + 1 && t <= |cs|
    requires WorldOk(wss[0], n, reserved) && forall p | 0 <= p < PAGES :: Lookup(wss[0].s, p) == 0
    requires forall u | 0 <= u < |wss| :: n <= |wss[u].ws| && Shaped(wss[u].s)
    requires forall u | 0 <= u < |cs| :: Step(wss[u], cs[u], wss[u + 1], dmaEnd, n)
    ensures WorldOk(wss[t], n, reserved) && Shows(wss[t].s, FlatAfter(cs, t))
    ensures |set d | d in Tables(wss[t].s) :: TableFrame(wss[t].s, d)| == |Tables(wss[t].s)|
    ensures (set d | d in Tables(wss[t].s) :: TableFrame(wss[t].s, d)) <= wss[t].out
  {
    hide Step, Accounts, Tight, Lookup, Reachable;
    if t > 0 {
      EveryRunShowsFlatMap(wss, cs, dmaEnd, n, reserved, t - 1);
      assert Step(wss[t - 1], cs[t - 1], wss[t - 1 + 1], dmaEnd, n);
      StepKeeps(wss[t - 1], cs[t - 1], wss[t], dmaEnd, n, reserved, FlatAfter(cs, t - 1));
    }
    TableFramesCounted(wss[t].s, Tables(wss[t].s), wss[t].out);
  }

  // ---------- the processor's walk ----------

  /** Where the processor finds an address, and whether it lets a write and a user process through; or a page fault. */
  datatype Access = PageFault | Access(phys: int, write: bool, user: bool)

  /** The processor asks for the bit 1, present, at both levels, and for 2 and 4 at both to write and for user mode. */
  function Translate(s: Paging, addr: nat): (a: Access)
    requires Shaped(s) && addr < ADDRESSES
  {
    SplitAddress(addr);
    var d, e := s.dir[addr / 4096 / 1024], s.tab[addr / 4096];
    if d % 2 == 0 || e % 2 == 0 then PageFault
    else Access(PageBase(e) + addr % 4096, d / 2 % 2 == 1 && e / 2 % 2 == 1, d / 4 % 2 == 1 && e / 4 % 2 == 1)
  }

  lemma TranslateIs(s: Paging, addr: nat)
    requires Shaped(s) && Reachable(s) && addr < 0x1_0000_0000 && addr / 4096 / 1024 != 1023
    ensures addr / PAGE < PAGES
    ensures var e := Lookup(s, addr / PAGE);
            Translate(s, addr) == if e == 0 then PageFault
                                  else Access(PageBase(e) + addr % 4096, e / 2 % 2 == 1, e / 4 % 2 == 1)
  {
    SplitAddress(addr);
    var d := s.dir[addr / 4096 / 1024];
    if d != 0 { SevenIsThreeBits(PageBase(d), d); }
  }

  lemma SevenIsThreeBits(base: int, d: int)
    requires 0 <= base && base % PAGE == 0 && d == base + 7
    ensures d % 2 == 1 && d / 2 % 2 == 1 && d / 4 % 2 == 1
  {
  }

  /** Along every run, the processor finds exactly the pages of the flat map, at the mapped frame, with a write or a
      user process let through exactly as the page's own flags say. */
  lemma EveryRunTranslates(wss: seq<World>, cs: seq<Call>, dmaEnd: int, n: int, reserved: set<int>, t: nat, addr: nat)
    requires 0 <= dmaEnd <= n && |wss| == |cs| + 1 && t <= |cs|
    requires WorldOk(wss[0], n, reserved) && forall p | 0 <= p < PAGES :: Lookup(wss[0].s, p) == 0
    requires forall u | 0 <= u < |wss| :: n <= |wss[u].ws| && Shaped(wss[u].s)
    requires forall u | 0 <= u < |cs| :: Step(wss[u], cs[u], wss[u + 1], dmaEnd, n)
    requires addr < 0x1_0000_0000 && addr / 4096 / 1024 != 1023
    ensures var flat, p := FlatAfter(cs, t), addr / 4096;
            Translate(wss[t].s, addr) == if p !in flat || flat[p] == 0 then PageFault
                                         else Access(PageBase(flat[p]) + addr % 4096,
                                                     flat[p] / 2 % 2 == 1, flat[p] / 4 % 2 == 1)
  {
    hide Step, Accounts, Tight, Lookup, Translate, Reachable;
    EveryRunShowsFlatMap(wss, cs, dmaEnd, n, reserved, t);
    TranslateIs(wss[t].s, addr);
    SplitAddress(addr);
  }

  // ---------- the page map in memory ----------

  class Virtual {
    const pageDirectories: array<nat>
    const pageTables: array<nat>
    const frames: PageAllocator

    ghost function View(): (t: Paging)
      reads pageDirectories, pageTables
    {
      Paging(pageDirectories[..], pageTables[..])
    }

    ghost predicate Valid()
      reads pageDirectories
    {
      && pageDirectories.Length == ENTRIES && pageTables.Length == PAGES && pageDirectories != pageTables
      && frames.Valid() && !frames.written
      && forall d | 0 <= d < RECURSIVE && pageDirectories[d] != 0 ::
           PageBase(pageDirectories[d]) / PAGE < BITS * frames.frameCount
    }

    /** The frame AllocatePage would hand out next, or 0. */
    ghost function NextFrame(ws: seq<Word>): (f: nat)
      requires frames.Valid() && |ws| == frames.bitmap.Length
      ensures f < BITS * frames.frameCount
    {
      FoundIsClear(ws, frames.dmaZoneEnd, frames.frameCount, false);
      FirstFree(ws, frames.dmaZoneEnd, frames.frameCount, false)
    }

    constructor (directory: array<nat>, window: array<nat>, allocator: PageAllocator)
      requires directory.Length == ENTRIES && window.Length == PAGES && directory != window
      requires allocator.Valid() && !allocator.written
      requires forall d | 0 <= d < ENTRIES :: directory[d] == 0
      ensures Valid() && pageDirectories == directory && pageTables == window && frames == allocator
    {
      pageDirectories, pageTables, frames := directory, window, allocator;
    }

    /** Writing a directory entry: the new table shows up in the window as its frame's memory has it. */
    method InstallTable(d: int, dirEntry: nat, image: seq<nat>)
      requires Valid() && |image| == ENTRIES && 0 <= d < RECURSIVE
      requires PageBase(dirEntry) / PAGE < BITS * frames.frameCount
      modifies pageDirectories, pageTables
      ensures Valid() && View() == Install(old(View()), d, dirEntry, image)
    {
      pageDirectories[d] := dirEntry;
      forall k | 0 <= k < ENTRIES {
        pageTables[d * ENTRIES + k] := image[k];
      }
      ghost var s := Install(old(View()), d, dirEntry, image);
      forall q | 0 <= q < PAGES
        ensures pageTables[q] == s.tab[q]
      {
        InstalledEntry(old(View()), d, dirEntry, image, q);
        assert q == q / ENTRIES * ENTRIES + q % ENTRIES;
      }
    }

    /** Maps the page at dest to the frame at src. image is the memory of the frame a new table would get;
        without such a frame the machine halts. */
    method MapMemory(src: nat, dest: nat, flags: nat, image: seq<nat>) returns (halted: bool)
      requires Valid() && |image| == ENTRIES && PageBase(dest) / PAGE / ENTRIES != RECURSIVE
      modifies pageDirectories, pageTables, frames.bitmap
      ensures Valid()
      ensures halted <==> old(pageDirectories[PageBase(dest) / PAGE / ENTRIES]) == 0
                          && NextFrame(old(frames.bitmap[..])) == 0
      ensures halted ==> View() == old(View())
      ensures !halted ==>
                View() == MapPage(old(View()), PageBase(dest) / PAGE, Entry(src, flags),
                                  NextFrame(old(frames.bitmap[..])) * PAGE, image)
      ensures if old(pageDirectories[PageBase(dest) / PAGE / ENTRIES]) == 0 then
                InMap(old(frames.bitmap[..]), NextFrame(old(frames.bitmap[..])))
                && frames.bitmap[..] == Mark(old(frames.bitmap[..]), BITS, NextFrame(old(frames.bitmap[..])))
              else frames.bitmap[..] == old(frames.bitmap[..])
    {
      hide FirstFree, Mark, Install, PageBase;
      var s, d, fl := PageBase(src), PageBase(dest), flags % PAGE;
      var directoryIndex := d / (PAGE * ENTRIES);
      var tableIndex := d / PAGE;
      SplitAddress(d);
      if pageDirectories[directoryIndex] == 0 {
        var pg := frames.AllocatePage(false);
        if pg == 0 {
          return true;
        }
        FrameOfEntry(pg / PAGE);
        InstallTable(directoryIndex, pg + PRESENT + READ_WRITE + USER, image);
      }
      pageTables[tableIndex] := s + WithPresent(fl);
      return false;
    }

    /** Faults where no table is; else clears the entry, and gives the table's frame back when that was its last. */
    method EraseMapping(mem: nat) returns (fault: bool)
      requires Valid() && PageBase(mem) / PAGE / ENTRIES != RECURSIVE
      modifies pageDirectories, pageTables, frames.bitmap
      ensures Valid()
      ensures var p := PageBase(mem) / PAGE; var d := p / ENTRIES;
              && (fault <==> old(pageDirectories[d]) == 0)
              && View() == (if fault then old(View()) else ErasePage(old(View()), p))
              && if !fault && TableEmpty(Paging(old(pageDirectories[..]), old(pageTables[..])[p := 0]), d)
                 then InMap(old(frames.bitmap[..]), TableFrame(old(View()), d))
                      && frames.bitmap[..] == Unmark(old(frames.bitmap[..]), TableFrame(old(View()), d))
                 else frames.bitmap[..] == old(frames.bitmap[..])
    {
      var m := PageBase(mem);
      var directoryIndex := m / (PAGE * ENTRIES);
      var tableIndex := m / PAGE;
      SplitAddress(m);
      if pageDirectories[directoryIndex] == 0 {
        return true;
      }
      pageTables[tableIndex] := 0;
      var i := 0;
      while i < ENTRIES
        invariant 0 <= i <= ENTRIES && pageTables[..] == old(pageTables[..])[tableIndex := 0]
        invariant pageDirectories[..] == old(pageDirectories[..]) && frames.bitmap[..] == old(frames.bitmap[..])
        invariant forall k | directoryIndex * ENTRIES <= k < directoryIndex * ENTRIES + i :: pageTables[k] == 0
      {
        if pageTables[directoryIndex * ENTRIES + i] != 0 {
          return false;
        }
        i := i + 1;
      }
      var freed := frames.FreePage(PageBase(pageDirectories[directoryIndex]));
      pageDirectories[directoryIndex] := 0;
      return false;
    }

    /** The physical address behind mem and the page's flags; both 0 when the page is not mapped. */
    method RetrieveMapping(mem: nat) returns (phys: nat, flags: nat)
      requires Valid() && mem < ADDRESSES
      ensures var e := Lookup(View(), mem / PAGE);
              phys == (if e == 0 then 0 else PageBase(e) + mem % PAGE) && flags == e % PAGE
    {
      var directoryIndex := mem / (PAGE * ENTRIES);
      var tableIndex := mem / PAGE;
      var offset := mem % PAGE;
      SplitAddress(mem);
      if pageDirectories[directoryIndex] != 0 && pageTables[tableIndex] != 0 {
        flags := pageTables[tableIndex] % PAGE;
        phys := PageBase(pageTables[tableIndex]) + offset;
      } else {
        flags, phys := 0, 0;
      }
    }
  }

  lemma SplitAddress(x: nat)
    requires x < ADDRESSES
    ensures x / (PAGE * ENTRIES) == x / PAGE / ENTRIES && 0 <= x / PAGE < PAGES && 0 <= x / PAGE / ENTRIES < ENTRIES
  {
  }

  /** After a mapping, retrieving any address in the page gives the frame with the address's offset, and the flags
      given, cut to twelve bits, with Present. */
  method MapThenRetrieve(v: Virtual, src: nat, dest: nat, flags: nat, image: seq<nat>, offset: nat)
    returns (halted: bool, phys: nat, got: nat)
    requires v.Valid() && |image| == ENTRIES && PageBase(dest) / PAGE / ENTRIES != RECURSIVE && offset < PAGE
    modifies v.pageDirectories, v.pageTables, v.frames.bitmap
    ensures !halted ==> phys == PageBase(src) + offset && got == WithPresent(flags)
  {
    phys, got := 0, 0;
    halted := v.MapMemory(src, dest, flags, image);
    if !halted {
      var p := PageBase(dest) / PAGE;
      ghost var f := v.NextFrame(old(v.frames.bitmap[..]));
      MapReadsBack(old(v.View()), p, Entry(src, flags), f * PAGE, image);
      PageOffset(PageBase(dest), offset);
      phys, got := v.RetrieveMapping(PageBase(dest) + offset);
    }
  }

  lemma PageOffset(x: nat, offset: nat)
    requires x % PAGE == 0 && x < ADDRESSES && offset < PAGE
    ensures (x + offset) / PAGE == x / PAGE && (x + offset) % PAGE == offset
    ensures x + offset < ADDRESSES && x / PAGE < PAGES
  {
  }

  ghost function WorldOf(v: Virtual, out: set<int>): (w: World)
    reads v.pageDirectories, v.pageTables, v.frames.bitmap
  {
    World(v.View(), v.frames.bitmap[..], out)
  }

  /** MapMemory with a zero-filled frame for a new table is a step of the runs above, unless it halts. */
  method MapIsStep(v: Virtual, src: nat, dest: nat, flags: nat, image: seq<nat>, ghost out: set<int>)
    returns (halted: bool, ghost out': set<int>)
    requires v.Valid() && |image| == ENTRIES && PageBase(dest) / PAGE / ENTRIES != RECURSIVE
    requires forall k | 0 <= k < ENTRIES :: image[k] == 0
    modifies v.pageDirectories, v.pageTables, v.frames.bitmap
    ensures v.Valid()
    ensures !halted ==> Shaped(old(v.View()))
                        && Step(old(WorldOf(v, out)), Map(src, dest, flags, image),
                                WorldOf(v, out'), v.frames.dmaZoneEnd, v.frames.frameCount)
  {
    ghost var f := v.NextFrame(v.frames.bitmap[..]);
    ghost var missing := v.pageDirectories[PageBase(dest) / PAGE / ENTRIES] == 0;
    halted := v.MapMemory(src, dest, flags, image);
    out' := if missing then out + {f} else out;
  }

  /** EraseMapping is a step of the runs above, unless it faults. */
  method EraseIsStep(v: Virtual, mem: nat, ghost out: set<int>) returns (fault: bool, ghost out': set<int>)
    requires v.Valid() && PageBase(mem) / PAGE / ENTRIES != RECURSIVE
    modifies v.pageDirectories, v.pageTables, v.frames.bitmap
    ensures v.Valid()
    ensures !fault ==> Shaped(old(v.View()))
                       && Step(old(WorldOf(v, out)), Erase(mem),
                               WorldOf(v, out'), v.frames.dmaZoneEnd, v.frames.frameCount)
  {
    ghost var s, p := v.View(), PageBase(mem) / PAGE;
    fault := v.EraseMapping(mem);
    out' := if ErasePage(s, p).dir[p / ENTRIES] == 0 then out - {TableFrame(s, p / ENTRIES)} else out;
  }
}
