/** The pool of message-thread ids of the C library stubs. */
module ThreadIds {
  const UINT32 := 0x1_0000_0000

  /** The ids waiting for reuse, and the first id never used. */
  datatype Pool = Pool(free: seq<int>, max: int)

  /** Taking an id: the last free one, as far as read is what the slot holds, or a new one. */
  function Next(p: Pool, read: int): (t: (Pool, int)) {
    if p.free != [] then (Pool(p.free[..|p.free| - 1], p.max), read) else (Pool([], (p.max + 1) % UINT32), p.max)
  }

  /** Giving an id back; when the list cannot grow, the id is lost. */
  function Recycle(p: Pool, id: int, grown: bool): (q: Pool) {
    if id == (p.max - 1) % UINT32 then Pool(p.free, (p.max - 1) % UINT32)
    else if grown then Pool(p.free + [id], p.max)
    else p
  }

  ghost predicate Distinct(s: seq<int>) {
    forall i, j | 0 <= i < j < |s| :: s[i] != s[j]
  }

  /** Every id below max is either free, once, or out, and no other id is either. */
  ghost predicate Partition(p: Pool, out: set<int>) {
    && 0 <= p.max < UINT32 && Distinct(p.free)
    && (forall x | x in p.free :: x !in out)
    && (forall x :: 0 <= x < p.max <==> x in p.free || x in out)
  }

  lemma LastIsApart(p: Pool, out: set<int>)
    requires Partition(p, out) && p.free != []
    ensures var n := |p.free| - 1; var x := p.free[n];
            x !in p.free[..n] && x !in out && 0 <= x < p.max && forall y :: y in p.free <==> y in p.free[..n] || y == x
  {
  }

  /** What getNextMTID reads as the last free id: the slot itself, or, once the list has been shrunk, whatever lies
      where the slot was. */
  function SlotRead(p: Pool, shrunk: bool, stale: int): (read: int) {
    if p.free != [] && !shrunk then p.free[|p.free| - 1] else stale
  }

  /** Taking an id when read is what the slot holds: the id was not out, and the ids stay partitioned with it out. */
  ghost predicate NextKeeps(p: Pool, out: set<int>, read: int) {
    var (q, id) := Next(p, read);
    id !in out && Partition(q, out + {id})
  }

  lemma NextKeepsIf(p: Pool, out: set<int>, read: int)
    requires Partition(p, out)
    ensures NextKeeps(p, out, read) <==> if p.free == [] then p.max + 1 < UINT32 else read == p.free[|p.free| - 1]
    ensures var (q, id) := Next(p, read); NextKeeps(p, out, read) <==> Partition(q, out + {id})
  {
    var (q, id) := Next(p, read);
    if p.free == [] {
      if p.max + 1 < UINT32 {
        forall x
          ensures 0 <= x < q.max <==> x in q.free || x in out + {id}
        {
        }
      } else {
        assert 0 in out + {id} && !(0 <= 0 < q.max);
      }
    } else {
      LastIsApart(p, out);
      var last := p.free[|p.free| - 1];
      if read != last {
        assert 0 <= last < q.max && last !in q.free && last !in out + {id};
      }
    }
  }

  /** Whatever lies where the slot was, taking an id keeps the ids partitioned: exactly when there is a free id and the
      list is not shrunk before it is read, or when there is none and the 32-bit count of ids does not run over. */
  lemma NextKeepsPartitionIff(p: Pool, out: set<int>, shrunk: bool)
    requires Partition(p, out)
    ensures (forall stale :: NextKeeps(p, out, SlotRead(p, shrunk, stale)))
            <==> if p.free == [] then p.max + 1 < UINT32 else !shrunk
  {
    hide Partition;
    NextKeepsIf(p, out, SlotRead(p, shrunk, 0));
    if p.free != [] && !shrunk {
      forall stale
        ensures NextKeeps(p, out, SlotRead(p, shrunk, stale))
      {
        NextKeepsIf(p, out, SlotRead(p, shrunk, stale));
      }
    } else if p.free != [] {
      var wrong := p.free[|p.free| - 1] + 1;
      NextKeepsIf(p, out, wrong);
      assert SlotRead(p, shrunk, wrong) == wrong;
    } else {
      forall stale
        ensures NextKeeps(p, out, SlotRead(p, shrunk, stale)) <==> p.max + 1 < UINT32
      {
        NextKeepsIf(p, out, stale);
      }
    }
  }

  /** Giving back an id that is out keeps the partition exactly when the id was the top one or the list could grow. */
  lemma RecycleKeepsPartitionIff(p: Pool, out: set<int>, id: int, grown: bool)
    requires Partition(p, out) && id in out
    ensures Partition(Recycle(p, id, grown), out - {id}) <==> id == p.max - 1 || grown
  {
  }

  // ---------- the order in which ids come back ----------

  /** An id that is not the top one, given back to a list that could grow, is the next one taken, and nothing else has
      changed then. */
  lemma ReturnedIsNext(p: Pool, id: int, stale: int)
    requires 0 <= p.max < UINT32 && id != (p.max - 1) % UINT32
    ensures var q := Recycle(p, id, true); Next(q, SlotRead(q, false, stale)) == (p, id)
  {
  }

  /** The top id, given back, lowers the bound by one, whether or not there is memory, and is not put in the list;
      with no free id it is the next one taken. Another id for which there is no memory is forgotten. */
  lemma TopLowersBound(p: Pool, id: int, grown: bool, stale: int)
    requires 0 < p.max < UINT32
    ensures id == p.max - 1 ==> Recycle(p, id, grown) == Pool(p.free, p.max - 1)
    ensures id == p.max - 1 && p.free == [] ==> Next(Recycle(p, id, grown), stale) == (p, id)
    ensures id != p.max - 1 ==> Recycle(p, id, false) == p
  {
  }

  /** Giving ids back one after the other, the first one first. */
  function GiveAll(p: Pool, ids: seq<int>): (q: Pool) {
    if ids == [] then p else Recycle(GiveAll(p, ids[..|ids| - 1]), ids[|ids| - 1], true)
  }

  /** Taking n ids, with the list left as it is until it is read. */
  function TakeAll(p: Pool, n: nat): (t: (Pool, seq<int>))
    decreases n
  {
    if n == 0 then (p, [])
    else
      var (q, id) := Next(p, SlotRead(p, false, 0));
      var (q', ids) := TakeAll(q, n - 1);
      (q', [id] + ids)
  }

  /** Ids come back in the reverse of the order in which they were given back, and leave the pool as it was. */
  lemma {:induction false} LastReturnedFirst(p: Pool, ids: seq<int>)
    requires 0 <= p.max < UINT32 && forall k | 0 <= k < |ids| :: ids[k] != (p.max - 1) % UINT32
    ensures GiveAll(p, ids).max == p.max
    ensures var (q, taken) := TakeAll(GiveAll(p, ids), |ids|);
            q == p && |taken| == |ids| && forall k | 0 <= k < |ids| :: taken[k] == ids[|ids| - 1 - k]
  {
    if ids != [] {
      var n := |ids| - 1;
      LastReturnedFirst(p, ids[..n]);
      ReturnedIsNext(GiveAll(p, ids[..n]), ids[n], 0);
    }
  }

  // ---------- whole runs ----------

  /** At start-up one slot is in the list and one id counts as used: a partition exactly when the slot holds 0. */
  lemma StartIsPartitionIff(slot: int)
    ensures Partition(Pool([slot], 1), {}) <==> slot == 0
  {
    var p, out: set<int> := Pool([slot], 1), {};
    if Partition(p, out) {
      assert 0 in p.free || 0 in out;
    }
  }

  /** A call, with what realloc does: whether it shrinks the list, and then what lies where the last slot was; whether
      it finds the memory to grow the list. */
  datatype Call = GetNext(shrunk: bool, stale: int) | GiveBack(id: int, grown: bool)

  /** One call, by callers who give back only ids that are out. */
  ghost predicate Step(p: Pool, out: set<int>, c: Call, p': Pool, out': set<int>, got: int) {
    match c
    case GetNext(shrunk, stale) => (p', got) == Next(p, SlotRead(p, shrunk, stale)) && out' == out + {got}
    case GiveBack(id, grown) => id in out && p' == Recycle(p, id, grown) && out' == out - {id}
  }

  /** The call finds the last free id where it looks for it, or a new one without the count running over; the id given
      back is the top one, or finds its place in the list. */
  predicate Harmless(p: Pool, c: Call) {
    match c
    case GetNext(shrunk, stale) =>
      if p.free == [] then p.max + 1 < UINT32 else !shrunk || stale == p.free[|p.free| - 1]
    case GiveBack(id, grown) => id == p.max - 1 || grown
  }

  ghost predicate AllHarmless(ps: seq<Pool>, cs: seq<Call>, t: nat)
    requires t <= |cs| < |ps|
  {
    forall u | 0 <= u < t :: Harmless(ps[u], cs[u])
  }

  /** Along every run, free and outstanding ids are a partition at every point up to t if and only if every call until
      then is harmless; and then no id is handed out while it is out, and the ids add up. */
  lemma {:induction false} NoIdTwice(ps: seq<Pool>, outs: seq<set<int>>, cs: seq<Call>, gots: seq<int>, t: nat)
    requires |ps| == |outs| == |cs| + 1 && |gots| == |cs| && t <= |cs|
    requires ps[0] == Pool([0], 1) && outs[0] == {}
    requires forall u | 0 <= u < |cs| :: Step(ps[u], outs[u], cs[u], ps[u + 1], outs[u + 1], gots[u])
    ensures AllHarmless(ps, cs, t) <==> forall u | 0 <= u <= t :: Partition(ps[u], outs[u])
    ensures AllHarmless(ps, cs, t) ==> |outs[t]| + |ps[t].free| == ps[t].max
    ensures t < |cs| && AllHarmless(ps, cs, t) && Harmless(ps[t], cs[t]) && cs[t].GetNext? ==> gots[t] !in outs[t]
  {
    hide Partition, Harmless;
    if t == 0 {
      StartIsPartitionIff(0);
    } else {
      NoIdTwice(ps, outs, cs, gots, t - 1);
      assert Step(ps[t - 1], outs[t - 1], cs[t - 1], ps[t - 1 + 1], outs[t - 1 + 1], gots[t - 1]);
      assert AllHarmless(ps, cs, t) <==> AllHarmless(ps, cs, t - 1) && Harmless(ps[t - 1], cs[t - 1]);
      if AllHarmless(ps, cs, t - 1) {
        StepKeepsIff(ps[t - 1], outs[t - 1], cs[t - 1], ps[t], outs[t], gots[t - 1]);
      }
    }
    if AllHarmless(ps, cs, t) {
      Counted(ps[t], outs[t]);
      if t < |cs| {
        assert Step(ps[t], outs[t], cs[t], ps[t + 1], outs[t + 1], gots[t]);
        StepKeepsIff(ps[t], outs[t], cs[t], ps[t + 1], outs[t + 1], gots[t]);
      }
    }
  }

  lemma StepKeepsIff(p: Pool, out: set<int>, c: Call, p': Pool, out': set<int>, got: int)
    requires Partition(p, out) && Step(p, out, c, p', out', got)
    ensures Partition(p', out') <==> Harmless(p, c)
    ensures c.GetNext? && Harmless(p, c) ==> got !in out
  {
    hide Partition;
    match c
    case GetNext(shrunk, stale) => NextKeepsIf(p, out, SlotRead(p, shrunk, stale));
    case GiveBack(id, grown) => RecycleKeepsPartitionIff(p, out, id, grown);
  }

  ghost function Below(n: nat): (xs: set<int>) {
    if n == 0 then {} else Below(n - 1) + {n - 1}
  }

  lemma {:induction false} BelowIs(n: nat)
    ensures |Below(n)| == n
    ensures forall x :: x in Below(n) <==> 0 <= x < n
  {
    if n > 0 { BelowIs(n - 1); }
  }

  lemma {:induction false} ElementsSize(s: seq<int>)
    requires Distinct(s)
    ensures |set x | x in s| == |s|
  {
    if s == [] {
      assert (set x | x in s) == {};
    } else {
      var n := |s| - 1;
      ElementsSize(s[..n]);
      assert s == s[..n] + [s[n]];
      assert forall i | 0 <= i < n :: s[..n][i] == s[i];
      assert (set x | x in s) == (set x | x in s[..n]) + {s[n]};
    }
  }

  lemma Counted(p: Pool, out: set<int>)
    requires Partition(p, out)
    ensures |out| + |p.free| == p.max
  {
    var fs := set x | x in p.free;
    ElementsSize(p.free);
    BelowIs(p.max);
    forall x
      ensures x in Below(p.max) <==> x in fs + out
    {
      assert x in Below(p.max) <==> 0 <= x < p.max;
      assert x in fs <==> x in p.free;
    }
    assert Below(p.max) == fs + out;
    assert fs !! out;
  }

  // ---------- the globals ----------

  /** What realloc does with the block of the list: leaves it alone and answers NULL, shrinks it, or, asked for no bytes
      at all, frees it and answers NULL. */
  datatype Shrinking = Refused | Shrunk | Freed

  class MessageThreads {
    var freeMThreadIDs: seq<int>   // the memory block of the list
    var freed: bool                // the block has been freed, though the pointer to it is kept
    var freeMThreadCount: int
    var maxMThread: int

    ghost predicate Valid()
      reads this
    {
      0 <= freeMThreadCount <= |freeMThreadIDs| && 0 <= maxMThread < UINT32 && (freed ==> freeMThreadCount == 0)
    }

    ghost function View(): (q: Pool)
      reads this
      requires Valid()
    {
      Pool(freeMThreadIDs[..freeMThreadCount], maxMThread)
    }

    /** slot is what the fresh memory of the list happens to hold. */
    constructor (slot: int)
      ensures Valid() && View() == Pool([slot], 1) && !freed
    {
      freeMThreadCount, maxMThread, freed := 1, 1, false;
      freeMThreadIDs := [slot];
    }

    /** r tells what realloc did; unless it refused, stale is what is read past the end of the list. */
    method GetNextMTID(r: Shrinking, stale: int) returns (mID: int)
      requires Valid() && (r == Freed ==> freeMThreadCount == 1)
      modifies this
      ensures Valid() && freed == (old(freed) || r == Freed)
      ensures (View(), mID) == Next(old(View()), SlotRead(old(View()), r != Refused, stale))
    {
      if freeMThreadCount != 0 {
        var maxIdx := freeMThreadCount - 1;
        if r == Refused {
          mID := freeMThreadIDs[maxIdx];
        } else {
          freeMThreadIDs := freeMThreadIDs[..maxIdx];
          freed := r == Freed;
          mID := stale;
        }
        freeMThreadCount := freeMThreadCount - 1;
        assert freeMThreadIDs[..maxIdx] == old(freeMThreadIDs[..freeMThreadCount])[..maxIdx];
      } else {
        mID := maxMThread;
        maxMThread := (maxMThread + 1) % UINT32;
      }
    }

    /** grown tells whether realloc found the memory. misused tells that realloc was given a freed block, which it is
        exactly when the list's block has been freed and the id is not the top one; nothing is promised from there
        on. */
    method RecycleMTID(mtid: int, grown: bool) returns (misused: bool)
      requires Valid()
      modifies this
      ensures Valid() && (misused <==> old(freed) && mtid != (old(maxMThread) - 1) % UINT32)
      ensures freed == old(freed) && View() == if misused then old(View()) else Recycle(old(View()), mtid, grown)
    {
      misused := false;
      if mtid == (maxMThread - 1) % UINT32 {
        maxMThread := (maxMThread - 1) % UINT32;
      } else if freed {
        misused := true;
      } else if grown {
        freeMThreadIDs := freeMThreadIDs[..freeMThreadCount] + [mtid];
        freeMThreadCount := freeMThreadCount + 1;
      }
    }
  }
}
