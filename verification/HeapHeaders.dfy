/** The headers in memory and the bytes around them: when the linked headers represent a
    sequence of runs, and which bytes belong to live blocks. */
module HeapHeaders {
  import opened HeapLayout
  import opened HeapSpec

  type byte = x: int | 0 <= x < 256

  /** struct liballoc_major; pointers are addresses and 0 is NULL. */
  datatype Major = Major(prev: int, next: int, pages: int, size: int, usage: int, first: int)

  /** struct liballoc_minor. */
  datatype Minor = Minor(prev: int, next: int, block: int, magic: int, size: int, req: int)

  // ---------- linked headers ----------

  function RunAddr(runs: seq<Run>, i: int): (v: int) {
    if 0 <= i < |runs| then runs[i].addr else 0
  }

  function BlockAddr(r: Run, k: int): (v: int) {
    if 0 <= k < |r.blocks| then r.blocks[k].addr else 0
  }

  /** The header that run i must have. */
  function MajorAt(runs: seq<Run>, i: int): (mj: Major)
    requires 0 <= i < |runs|
  {
    var r := runs[i];
    Major(RunAddr(runs, i - 1), RunAddr(runs, i + 1), r.pages, r.Size(), r.Usage(), BlockAddr(r, 0))
  }

  /** The header that block k of run r must have. */
  function MinorAt(r: Run, k: int): (mn: Minor)
    requires 0 <= k < |r.blocks|
  {
    Minor(BlockAddr(r, k - 1), BlockAddr(r, k + 1), r.addr, MAGIC, r.blocks[k].size, r.blocks[k].req)
  }

  ghost predicate MajorsAgree(mj: map<int, Major>, runs: seq<Run>) {
    && (forall i | 0 <= i < |runs| :: runs[i].addr in mj)
    && (forall i {:trigger MajorAt(runs, i)} | 0 <= i < |runs| :: mj[runs[i].addr] == MajorAt(runs, i))
  }

  ghost predicate MinorsAgree(mn: map<int, Minor>, r: Run) {
    && (forall k | 0 <= k < |r.blocks| :: r.blocks[k].addr in mn)
    && (forall k {:trigger MinorAt(r, k)} | 0 <= k < |r.blocks| :: mn[r.blocks[k].addr] == MinorAt(r, k))
  }

  ghost predicate AllMinorsAgree(mn: map<int, Minor>, runs: seq<Run>) {
    forall i | 0 <= i < |runs| :: MinorsAgree(mn, runs[i])
  }

  ghost predicate InRun(r: Run, a: int) {
    exists k | 0 <= k < |r.blocks| :: r.blocks[k].addr == a
  }

  ghost predicate IsLive(runs: seq<Run>, a: int) {
    exists i | 0 <= i < |runs| :: InRun(runs[i], a)
  }

  /** Only live blocks carry the magic number: a freed header is marked dead. */
  ghost predicate MagicIsLive(mn: map<int, Minor>, runs: seq<Run>) {
    forall a | a in mn :: mn[a].magic == MAGIC ==> IsLive(runs, a)
  }

  /** Headers left once the bytes [lo, hi) are no longer what they were, handed out or in another frame: those with
      a byte there are gone. Both kinds of header have the same size. */
  function Overwrite<H>(hs: map<int, H>, lo: int, hi: int): (r: map<int, H>)
    ensures r.Keys <= hs.Keys
  {
    map a | a in hs && (hi <= lo || !(lo - MINOR < a < hi)) :: hs[a]
  }

  /** Losing two stretches that meet is losing both at once. */
  lemma OverwriteTwice<H>(hs: map<int, H>, lo: int, mid: int, hi: int)
    requires lo <= mid <= hi
    ensures Overwrite(Overwrite(hs, lo, mid), mid, hi) == Overwrite(hs, lo, hi)
    ensures Overwrite(Overwrite(hs, mid, hi), lo, mid) == Overwrite(hs, lo, hi)
  {
  }

  lemma OverwriteNone<H>(hs: map<int, H>, a: int)
    ensures Overwrite(hs, a, a) == hs
  {
  }

  /** No run has a byte in [lo, hi). */
  ghost predicate Outside(runs: seq<Run>, lo: int, hi: int) {
    forall i | 0 <= i < |runs| :: runs[i].End() <= lo || hi <= runs[i].addr
  }

  /** Headers of runs elsewhere survive. */
  lemma OutsideAgrees(mj: map<int, Major>, mn: map<int, Minor>, runs: seq<Run>, lo: int, hi: int, start: int, end: int)
    requires RunsOk(runs, start, end) && Outside(runs, lo, hi)
    requires MajorsAgree(mj, runs) && AllMinorsAgree(mn, runs) && MagicIsLive(mn, runs)
    ensures MajorsAgree(Overwrite(mj, lo, hi), runs)
    ensures AllMinorsAgree(Overwrite(mn, lo, hi), runs) && MagicIsLive(Overwrite(mn, lo, hi), runs)
  {
    forall i | 0 <= i < |runs|
      ensures runs[i].addr in Overwrite(mj, lo, hi) && Overwrite(mj, lo, hi)[runs[i].addr] == MajorAt(runs, i)
      ensures MinorsAgree(Overwrite(mn, lo, hi), runs[i])
    {
      assert mj[runs[i].addr] == MajorAt(runs, i) && RunOk(runs[i]) && MinorsAgree(mn, runs[i]);
      forall k | 0 <= k < |runs[i].blocks|
        ensures runs[i].blocks[k].addr in Overwrite(mn, lo, hi)
        ensures Overwrite(mn, lo, hi)[runs[i].blocks[k].addr] == MinorAt(runs[i], k)
      {
        BlockInside(runs[i], k);
      }
    }
  }

  // ---------- linking a block in ----------

  /** The header writes that put b at position k of run r. */
  function LinkIn(mn: map<int, Minor>, r: Run, k: int, b: Block): (ms: map<int, Minor>)
    requires 0 <= k <= |r.blocks|
    requires k > 0 ==> r.blocks[k - 1].addr in mn
    requires k < |r.blocks| ==> r.blocks[k].addr in mn
  {
    var m1 := if k < |r.blocks| then mn[r.blocks[k].addr := mn[r.blocks[k].addr].(prev := b.addr)] else mn;
    var m2 := if k > 0 then m1[r.blocks[k - 1].addr := m1[r.blocks[k - 1].addr].(next := b.addr)] else m1;
    m2[b.addr := Minor(BlockAddr(r, k - 1), BlockAddr(r, k), r.addr, MAGIC, b.size, b.req)]
  }

  /** b fits in gap k of r. */
  ghost predicate Fits(r: Run, k: int, b: Block) {
    RunOk(r) && 0 <= k <= |r.blocks| && BlockOk(b) && b.addr == r.GapStart(k) && b.End() <= r.GapEnd(k)
  }

  lemma OverwriteKeepsRun(mn: map<int, Minor>, r: Run, k: int, b: Block)
    requires Fits(r, k, b) && MinorsAgree(mn, r)
    ensures MinorsAgree(Overwrite(mn, b.addr, b.End()), r)
  {
    forall l | 0 <= l < |r.blocks|
      ensures !(b.addr - MINOR < r.blocks[l].addr < b.End())
    {
      GapApart(r, k, l);
      assert BlockOk(r.blocks[l]);
    }
  }

  lemma BlocksDistinct(r: Run, j: int, l: int)
    requires RunOk(r) && 0 <= j < |r.blocks| && 0 <= l < |r.blocks| && j != l
    ensures r.blocks[j].addr != r.blocks[l].addr
  {
    BlocksApart(r, if j < l then j else l, if j < l then l else j);
    assert BlockOk(r.blocks[j]) && BlockOk(r.blocks[l]);
  }

  lemma GapIsNoBlock(r: Run, k: int, b: Block, j: int)
    requires Fits(r, k, b) && 0 <= j < |r.blocks|
    ensures b.addr != r.blocks[j].addr
  {
    GapApart(r, k, j);
    assert BlockOk(r.blocks[j]);
  }

  /** Linking b in changes only the neighbours' links. */
  lemma LinkInAt(mn: map<int, Minor>, r: Run, k: int, b: Block, j: int)
    requires Fits(r, k, b) && MinorsAgree(mn, r) && 0 <= j < |r.blocks|
    ensures var m := LinkIn(mn, r, k, b); var a := r.blocks[j].addr;
            a in m && m[a] == Minor(if j == k then b.addr else BlockAddr(r, j - 1),
                                    if j == k - 1 then b.addr else BlockAddr(r, j + 1),
                                    r.addr, MAGIC, r.blocks[j].size, r.blocks[j].req)
  {
    GapIsNoBlock(r, k, b, j);
    if k < |r.blocks| && j != k { BlocksDistinct(r, j, k); }
    if k > 0 && j != k - 1 { BlocksDistinct(r, j, k - 1); }
    assert mn[r.blocks[j].addr] == MinorAt(r, j);
  }

  lemma LinkInAgrees(mn: map<int, Minor>, r: Run, k: int, b: Block)
    requires Fits(r, k, b) && MinorsAgree(mn, r)
    ensures MinorsAgree(LinkIn(mn, r, k, b), r.Insert(k, b))
  {
    var q := r.Insert(k, b);
    var m := LinkIn(mn, r, k, b);
    forall l | 0 <= l < |q.blocks|
      ensures q.blocks[l].addr in m && m[q.blocks[l].addr] == MinorAt(q, l)
    {
      if l != k {
        LinkInAt(mn, r, k, b, if l < k then l else l - 1);
      }
    }
  }

  /** Headers changed only inside run i leave every other run's blocks linked as they were. */
  lemma OtherRunsAgree(mn: map<int, Minor>, mn': map<int, Minor>, runs: seq<Run>, i: int, q: Run, lo: int, hi: int)
    requires RunsOk(runs, lo, hi) && 0 <= i < |runs|
    requires AllMinorsAgree(mn, runs) && MinorsAgree(mn', q)
    requires forall a | a in mn && !(runs[i].addr <= a < runs[i].End()) :: a in mn' && mn'[a] == mn[a]
    ensures AllMinorsAgree(mn', runs[i := q])
  {
    forall j | 0 <= j < |runs| && j != i
      ensures MinorsAgree(mn', runs[j])
    {
      assert MinorsAgree(mn, runs[j]) && RunOk(runs[j]) && RunOk(runs[i]);
      forall k | 0 <= k < |runs[j].blocks|
        ensures runs[j].blocks[k].addr in mn' && mn'[runs[j].blocks[k].addr] == MinorAt(runs[j], k)
      {
        BlockInside(runs[j], k);
      }
    }
  }

  lemma LinkInKeepsOthers(mn: map<int, Minor>, r: Run, k: int, b: Block, a: int)
    requires Fits(r, k, b) && MinorsAgree(mn, r)
    requires a in mn && !(r.addr <= a < r.End())
    ensures MinorsAgree(Overwrite(mn, b.addr, b.End()), r)
    ensures var m := LinkIn(Overwrite(mn, b.addr, b.End()), r, k, b); a in m && m[a] == mn[a]
  {
    OverwriteKeepsRun(mn, r, k, b);
    if k > 0 { BlockInside(r, k - 1); }
    if k < |r.blocks| { BlockInside(r, k); }
    assert r.GapStart(k) <= r.GapEnd(k);
    assert r.addr + MAJOR <= b.addr && b.End() <= r.End();
    assert !(b.addr - MINOR < a < b.End());
  }

  lemma LinkInLive(mn: map<int, Minor>, runs: seq<Run>, i: int, k: int, b: Block)
    requires 0 <= i < |runs| && Fits(runs[i], k, b) && AllMinorsAgree(mn, runs) && MagicIsLive(mn, runs)
    ensures MagicIsLive(LinkIn(mn, runs[i], k, b), runs[i := runs[i].Insert(k, b)])
  {
    var q := runs[i].Insert(k, b);
    var m := LinkIn(mn, runs[i], k, b);
    assert MinorsAgree(mn, runs[i]);
    forall a | a in m && m[a].magic == MAGIC
      ensures IsLive(runs[i := q], a)
    {
      if a == b.addr {
        assert q.blocks[k].addr == a && InRun(q, a) && runs[i := q][i] == q;
      } else {
        assert mn[a].magic == MAGIC;
        var j :| 0 <= j < |runs| && InRun(runs[j], a);
        var l :| 0 <= l < |runs[j].blocks| && runs[j].blocks[l].addr == a;
        if j == i {
          assert q.blocks[if l < k then l else l + 1].addr == a;
        }
        assert InRun(runs[i := q][j], a);
      }
    }
  }

  /** After the header writes of a placement, the headers represent the runs with the block put in. */
  lemma PlacedAgrees(mn: map<int, Minor>, runs: seq<Run>, i: int, k: int, b: Block, lo: int, hi: int)
    requires RunsOk(runs, lo, hi) && 0 <= i < |runs| && Fits(runs[i], k, b)
    requires AllMinorsAgree(mn, runs) && MagicIsLive(mn, runs)
    ensures MinorsAgree(Overwrite(mn, b.addr, b.End()), runs[i])
    ensures var m := LinkIn(Overwrite(mn, b.addr, b.End()), runs[i], k, b);
            var runs' := runs[i := runs[i].Insert(k, b)];
            AllMinorsAgree(m, runs') && MagicIsLive(m, runs')
  {
    var r := runs[i];
    var m0 := Overwrite(mn, b.addr, b.End());
    assert MinorsAgree(mn, r);
    OverwriteKeepsRun(mn, r, k, b);
    LinkInAgrees(m0, r, k, b);
    forall a | a in mn && !(r.addr <= a < r.End())
      ensures a in LinkIn(m0, r, k, b) && LinkIn(m0, r, k, b)[a] == mn[a]
    {
      LinkInKeepsOthers(mn, r, k, b, a);
    }
    OtherRunsAgree(mn, LinkIn(m0, r, k, b), runs, i, r.Insert(k, b), lo, hi);
    OverwriteAgrees(mn, runs, i, k, b, lo, hi);
    LinkInLive(m0, runs, i, k, b);
  }

  lemma OverwriteAgrees(mn: map<int, Minor>, runs: seq<Run>, i: int, k: int, b: Block, lo: int, hi: int)
    requires RunsOk(runs, lo, hi) && 0 <= i < |runs| && Fits(runs[i], k, b)
    requires AllMinorsAgree(mn, runs)
    ensures AllMinorsAgree(Overwrite(mn, b.addr, b.End()), runs)
  {
    var r := runs[i];
    assert MinorsAgree(mn, r);
    OverwriteKeepsRun(mn, r, k, b);
    forall a | a in mn && !(r.addr <= a < r.End())
      ensures a in Overwrite(mn, b.addr, b.End())
    {
      LinkInKeepsOthers(mn, r, k, b, a);
      if k > 0 { BlockInside(r, k - 1); }
      if k < |r.blocks| { BlockInside(r, k); }
      assert r.GapStart(k) <= r.GapEnd(k);
    }
    OtherRunsAgree(mn, Overwrite(mn, b.addr, b.End()), runs, i, r, lo, hi);
    assert runs[i := r] == runs;
  }

  lemma RunsDistinct(runs: seq<Run>, i: int, j: int, lo: int, hi: int)
    requires RunsOk(runs, lo, hi) && 0 <= i < |runs| && 0 <= j < |runs| && i != j
    ensures runs[i].addr != runs[j].addr
  {
  }

  /** Rewriting the usage and first fields of one major. */
  lemma MajorReplaced(mj: map<int, Major>, runs: seq<Run>, i: int, q: Run, lo: int, hi: int)
    requires RunsOk(runs, lo, hi) && 0 <= i < |runs| && MajorsAgree(mj, runs)
    requires q.addr == runs[i].addr && q.pages == runs[i].pages
    ensures MajorsAgree(mj[q.addr := mj[q.addr].(usage := q.Usage(), first := BlockAddr(q, 0))], runs[i := q])
  {
    var runs' := runs[i := q];
    var mj' := mj[q.addr := mj[q.addr].(usage := q.Usage(), first := BlockAddr(q, 0))];
    forall j | 0 <= j < |runs'|
      ensures runs'[j].addr in mj' && mj'[runs'[j].addr] == MajorAt(runs', j)
    {
      assert mj[runs[j].addr] == MajorAt(runs, j);
      SameAddresses(runs, i, q, j - 1);
      SameAddresses(runs, i, q, j + 1);
      if j != i { RunsDistinct(runs, i, j, lo, hi); }
    }
  }

  lemma SameAddresses(runs: seq<Run>, i: int, q: Run, j: int)
    requires 0 <= i < |runs| && q.addr == runs[i].addr
    ensures RunAddr(runs[i := q], j) == RunAddr(runs, j)
  {
  }

  // ---------- linking a run in ----------

  /** The header allocate_new_page writes for a run of n pages at a. */
  function FreshMajor(n: int): (mj: Major) { Major(0, 0, n, n * PAGE, MAJOR, 0) }

  /** The writes that append the fresh run at a to the list. */
  function AppendMajor(mj: map<int, Major>, runs: seq<Run>, a: int, n: int): (ms: map<int, Major>)
    requires runs != [] && runs[|runs| - 1].addr in mj
  {
    var last := runs[|runs| - 1].addr;
    var m1 := mj[a := FreshMajor(n)];
    var m2 := m1[last := m1[last].(next := a)];
    m2[a := m2[a].(prev := last)]
  }

  lemma AppendAgrees(mj: map<int, Major>, runs: seq<Run>, a: int, n: int, lo: int)
    requires RunsOk(runs, lo, a) && runs != [] && MajorsAgree(mj, runs)
    ensures MajorsAgree(AppendMajor(mj, runs, a, n), runs + [Run(a, n, [])])
  {
    var runs' := runs + [Run(a, n, [])];
    var m := AppendMajor(mj, runs, a, n);
    var last := |runs| - 1;
    forall j | 0 <= j < |runs'|
      ensures runs'[j].addr in m && m[runs'[j].addr] == MajorAt(runs', j)
    {
      if j < |runs| {
        assert RunOk(runs[j]) && mj[runs[j].addr] == MajorAt(runs, j);
        if j != last { RunsDistinct(runs, j, last, lo, a); }
      }
    }
  }

  lemma FirstMajorAgrees(mj: map<int, Major>, a: int, n: int)
    ensures MajorsAgree(mj[a := FreshMajor(n)], [Run(a, n, [])])
  {
  }

  lemma EmptyRunMinors(mn: map<int, Minor>, runs: seq<Run>, a: int, n: int)
    requires AllMinorsAgree(mn, runs) && MagicIsLive(mn, runs)
    ensures AllMinorsAgree(mn, runs + [Run(a, n, [])]) && MagicIsLive(mn, runs + [Run(a, n, [])])
  {
    var runs' := runs + [Run(a, n, [])];
    forall x | x in mn && mn[x].magic == MAGIC
      ensures IsLive(runs', x)
    {
      var j :| 0 <= j < |runs| && InRun(runs[j], x);
      assert InRun(runs'[j], x);
    }
  }

  // ---------- unlinking a block ----------

  /** The header writes that link the neighbours of block k of run r with each other. */
  function Bypass(mn: map<int, Minor>, r: Run, k: int): (ms: map<int, Minor>)
    requires 0 <= k < |r.blocks|
    requires forall j | 0 <= j < |r.blocks| :: r.blocks[j].addr in mn
  {
    var m := if k + 1 == |r.blocks| then mn
             else mn[r.blocks[k + 1].addr := mn[r.blocks[k + 1].addr].(prev := BlockAddr(r, k - 1))];
    if k > 0 then m[r.blocks[k - 1].addr := m[r.blocks[k - 1].addr].(next := BlockAddr(r, k + 1))] else m
  }

  /** The header writes that mark block k of run r dead and take it out of its list. */
  function Unlink(mn: map<int, Minor>, r: Run, k: int): (ms: map<int, Minor>)
    requires 0 <= k < |r.blocks|
    requires forall j | 0 <= j < |r.blocks| :: r.blocks[j].addr in mn
  {
    var a := r.blocks[k].addr;
    Bypass(mn[a := mn[a].(magic := DEAD)], r, k)
  }

  lemma UnlinkAt(mn: map<int, Minor>, r: Run, k: int, j: int)
    requires RunOk(r) && MinorsAgree(mn, r) && 0 <= k < |r.blocks| && 0 <= j < |r.blocks|
    ensures var m := Unlink(mn, r, k); var a := r.blocks[j].addr;
            a in m && m[a] == Minor(if j == k + 1 then BlockAddr(r, k - 1) else BlockAddr(r, j - 1),
                                    if j == k - 1 then BlockAddr(r, k + 1) else BlockAddr(r, j + 1),
                                    r.addr, if j == k then DEAD else MAGIC, r.blocks[j].size, r.blocks[j].req)
  {
    if j != k { BlocksDistinct(r, j, k); }
    if k + 1 < |r.blocks| && j != k + 1 { BlocksDistinct(r, j, k + 1); }
    if k > 0 && j != k - 1 { BlocksDistinct(r, j, k - 1); }
    assert mn[r.blocks[j].addr] == MinorAt(r, j);
  }

  lemma UnlinkAgrees(mn: map<int, Minor>, r: Run, k: int)
    requires RunOk(r) && MinorsAgree(mn, r) && 0 <= k < |r.blocks|
    ensures MinorsAgree(Unlink(mn, r, k), r.Remove(k))
  {
    var q := r.Remove(k);
    var m := Unlink(mn, r, k);
    forall l | 0 <= l < |q.blocks|
      ensures q.blocks[l].addr in m && m[q.blocks[l].addr] == MinorAt(q, l)
    {
      UnlinkAt(mn, r, k, if l < k then l else l + 1);
    }
  }

  lemma UnlinkKeepsOthers(mn: map<int, Minor>, r: Run, k: int, a: int)
    requires RunOk(r) && MinorsAgree(mn, r) && 0 <= k < |r.blocks|
    requires a in mn && !(r.addr <= a < r.End())
    ensures var m := Unlink(mn, r, k); a in m && m[a] == mn[a]
  {
    BlockInside(r, k);
    if k > 0 { BlockInside(r, k - 1); }
    if k + 1 < |r.blocks| { BlockInside(r, k + 1); }
  }

  lemma UnlinkLive(mn: map<int, Minor>, runs: seq<Run>, i: int, k: int)
    requires 0 <= i < |runs| && RunOk(runs[i]) && AllMinorsAgree(mn, runs) && MagicIsLive(mn, runs)
    requires 0 <= k < |runs[i].blocks| && MinorsAgree(mn, runs[i])
    ensures MagicIsLive(Unlink(mn, runs[i], k), runs[i := runs[i].Remove(k)])
  {
    var r := runs[i];
    var q := r.Remove(k);
    var m := Unlink(mn, r, k);
    UnlinkAt(mn, r, k, k);
    forall a | a in m && m[a].magic == MAGIC
      ensures IsLive(runs[i := q], a)
    {
      assert a != r.blocks[k].addr && mn[a].magic == MAGIC;
      var j :| 0 <= j < |runs| && InRun(runs[j], a);
      var l :| 0 <= l < |runs[j].blocks| && runs[j].blocks[l].addr == a;
      if j == i {
        assert q.blocks[if l < k then l else l - 1].addr == a;
      }
      assert InRun(runs[i := q][j], a);
    }
  }

  /** After the header writes of a free, the headers represent the runs without the block. */
  lemma UnlinkedAgrees(mn: map<int, Minor>, runs: seq<Run>, i: int, k: int, lo: int, hi: int)
    requires RunsOk(runs, lo, hi) && 0 <= i < |runs| && 0 <= k < |runs[i].blocks|
    requires AllMinorsAgree(mn, runs) && MagicIsLive(mn, runs)
    ensures MinorsAgree(mn, runs[i])
    ensures AllMinorsAgree(Unlink(mn, runs[i], k), runs[i := runs[i].Remove(k)])
    ensures MagicIsLive(Unlink(mn, runs[i], k), runs[i := runs[i].Remove(k)])
  {
    assert MinorsAgree(mn, runs[i]) && RunOk(runs[i]);
    UnlinkAgrees(mn, runs[i], k);
    forall a | a in mn && !(runs[i].addr <= a < runs[i].End())
      ensures a in Unlink(mn, runs[i], k) && Unlink(mn, runs[i], k)[a] == mn[a]
    {
      UnlinkKeepsOthers(mn, runs[i], k, a);
    }
    OtherRunsAgree(mn, Unlink(mn, runs[i], k), runs, i, runs[i].Remove(k), lo, hi);
    UnlinkLive(mn, runs, i, k);
  }

  // ---------- unlinking a run ----------

  /** The header writes that take run i out of the list. */
  function UnlinkMajor(mj: map<int, Major>, runs: seq<Run>, i: int): (ms: map<int, Major>)
    requires 0 <= i < |runs|
    requires forall j | 0 <= j < |runs| :: runs[j].addr in mj
  {
    var m1 := if i > 0 then mj[runs[i - 1].addr := mj[runs[i - 1].addr].(next := RunAddr(runs, i + 1))] else mj;
    if i + 1 < |runs| then m1[runs[i + 1].addr := m1[runs[i + 1].addr].(prev := RunAddr(runs, i - 1))] else m1
  }

  lemma UnlinkMajorAt(mj: map<int, Major>, runs: seq<Run>, i: int, j: int, lo: int, hi: int)
    requires RunsOk(runs, lo, hi) && 0 <= i < |runs| && MajorsAgree(mj, runs)
    requires 0 <= j < |runs| && j != i
    ensures var m := UnlinkMajor(mj, runs, i); var a := runs[j].addr;
            a in m && m[a] == Major(if j == i + 1 then RunAddr(runs, i - 1) else RunAddr(runs, j - 1),
                                    if j == i - 1 then RunAddr(runs, i + 1) else RunAddr(runs, j + 1),
                                    runs[j].pages, runs[j].Size(), runs[j].Usage(), BlockAddr(runs[j], 0))
  {
    assert mj[runs[j].addr] == MajorAt(runs, j);
    if i > 0 && j != i - 1 { RunsDistinct(runs, j, i - 1, lo, hi); }
    if i + 1 < |runs| && j != i + 1 { RunsDistinct(runs, j, i + 1, lo, hi); }
  }

  lemma UnlinkMajorAgrees(mj: map<int, Major>, runs: seq<Run>, i: int, lo: int, hi: int)
    requires RunsOk(runs, lo, hi) && 0 <= i < |runs| && MajorsAgree(mj, runs)
    ensures MajorsAgree(UnlinkMajor(mj, runs, i), Without(runs, i))
  {
    var q := Without(runs, i);
    var m := UnlinkMajor(mj, runs, i);
    forall l | 0 <= l < |q|
      ensures q[l].addr in m && m[q[l].addr] == MajorAt(q, l)
    {
      UnlinkMajorAt(mj, runs, i, if l < i then l else l + 1, lo, hi);
    }
  }

  lemma DropRunMinors(mn: map<int, Minor>, runs: seq<Run>, i: int)
    requires 0 <= i < |runs| && runs[i].blocks == [] && AllMinorsAgree(mn, runs) && MagicIsLive(mn, runs)
    ensures AllMinorsAgree(mn, Without(runs, i)) && MagicIsLive(mn, Without(runs, i))
  {
    var q := Without(runs, i);
    forall a | a in mn && mn[a].magic == MAGIC
      ensures IsLive(q, a)
    {
      var j :| 0 <= j < |runs| && InRun(runs[j], a);
      assert InRun(q[if j < i then j else j - 1], a);
    }
  }

  // ---------- recording a smaller request ----------

  lemma ShrinkAgrees(mn: map<int, Minor>, runs: seq<Run>, i: int, k: int, req: int, lo: int, hi: int)
    requires RunsOk(runs, lo, hi) && 0 <= i < |runs| && 0 <= k < |runs[i].blocks|
    requires AllMinorsAgree(mn, runs) && MagicIsLive(mn, runs)
    ensures MinorsAgree(mn, runs[i])
    ensures var a := runs[i].blocks[k].addr; var m := mn[a := mn[a].(req := req)];
            AllMinorsAgree(m, runs[i := Shrunk(runs[i], k, req)]) && MagicIsLive(m, runs[i := Shrunk(runs[i], k, req)])
  {
    var r := runs[i];
    var q := Shrunk(r, k, req);
    var a := r.blocks[k].addr;
    assert MinorsAgree(mn, r) && RunOk(r);
    var m := mn[a := mn[a].(req := req)];
    forall l | 0 <= l < |q.blocks|
      ensures q.blocks[l].addr in m && m[q.blocks[l].addr] == MinorAt(q, l)
    {
      assert mn[r.blocks[l].addr] == MinorAt(r, l);
      if l != k { BlocksDistinct(r, l, k); }
    }
    BlockInside(r, k);
    OtherRunsAgree(mn, m, runs, i, q, lo, hi);
    assert mn[a] == MinorAt(r, k);
    forall x | x in m && m[x].magic == MAGIC
      ensures IsLive(runs[i := q], x)
    {
      var j :| 0 <= j < |runs| && InRun(runs[j], x);
      var l :| 0 <= l < |runs[j].blocks| && runs[j].blocks[l].addr == x;
      if j == i { assert q.blocks[l].addr == x; }
      assert InRun(runs[i := q][j], x);
    }
  }
}
