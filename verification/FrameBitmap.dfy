/** The physical frame allocator: one bit a frame, in 64-bit words. */
module FrameBitmap {
  const PAGE := 0x1000
  const BITS := 64
  const MAX_WORDS := 0x4000  // memory sizes are 32-bit, so there are never more words than this

  /** A word, lowest bit first. */
  type Word = w: seq<bool> | |w| == BITS witness seq(BITS, _ => false)

  /** The word that the search passes over without looking at its bits: a word of ones is meant, but as written the
      constant is 0xFFFFFFFF, which fills only the low half. */
  predicate PassedOver(w: Word, written: bool) {
    forall k | 0 <= k < BITS :: w[k] <==> !written || k < 32
  }

  /** setBit divides by 32 as written; testBit and clearBit divide by 64, the width of a word. */
  const WRITTEN_WIDTH := 32

  // ---------- the bitmap as a value ----------

  predicate InMap(ws: seq<Word>, bit: int) {
    0 <= bit < BITS * |ws|
  }

  predicate Test(ws: seq<Word>, bit: int)
    requires InMap(ws, bit)
  {
    ws[bit / BITS][bit % BITS]
  }

  /** w | 1 << k. As written the 1 is a 32-bit int, so 1 << 31 is negative and its sign fills the upper half. */
  function SetIn(w: Word, width: int, k: int): (r: Word)
    requires 0 <= k < width <= BITS
    ensures r[k] && forall j | 0 <= j < BITS :: w[j] ==> r[j]
  {
    if width == WRITTEN_WIDTH && k == WRITTEN_WIDTH - 1 then w[..k] + seq(BITS - k, _ => true) else w[k := true]
  }

  function Mark(ws: seq<Word>, width: int, bit: int): (ms: seq<Word>)
    requires 0 < width <= BITS && 0 <= bit && bit / width < |ws|
  {
    ws[bit / width := SetIn(ws[bit / width], width, bit % width)]
  }

  function Unmark(ws: seq<Word>, bit: int): (ms: seq<Word>)
    requires InMap(ws, bit)
  {
    ws[bit / BITS := ws[bit / BITS][bit % BITS := false]]
  }

  /** (w & 1 << k) != 0. As written, with the same negative number for k = 31, the upper half counts too. */
  predicate Sees(w: Word, k: int, written: bool)
    requires 0 <= k < BITS
  {
    if written && k == WRITTEN_WIDTH - 1 then exists j | k <= j < BITS :: w[j] else w[k]
  }

  /** testBit's answer. */
  predicate TestSeen(ws: seq<Word>, bit: int, written: bool)
    requires InMap(ws, bit)
  {
    Sees(ws[bit / BITS], bit % BITS, written)
  }

  /** clearBit: w & ~(1 << k), which as written takes the upper half along for k = 31. */
  function Release(ws: seq<Word>, bit: int, written: bool): (ms: seq<Word>)
    requires InMap(ws, bit)
  {
    if written && bit % BITS == WRITTEN_WIDTH - 1 then
      ws[bit / BITS := ws[bit / BITS][..bit % BITS] + seq(BITS - bit % BITS, _ => false)]
    else Unmark(ws, bit)
  }

  /** The first bit of w from k on that testBit finds clear, or 64. */
  function FirstClear(w: Word, k: int, written: bool): (j: int)
    requires 0 <= k <= BITS
    ensures k <= j <= BITS
    ensures forall l | k <= l < j :: Sees(w, l, written)
    ensures j < BITS ==> !Sees(w, j, written)
    decreases BITS - k
  {
    if k == BITS || !Sees(w, k, written) then k else FirstClear(w, k + 1, written)
  }

  /** The search looks at no bit of the word, or finds none clear. */
  predicate Skipped(w: Word, written: bool) {
    PassedOver(w, written) || FirstClear(w, 0, written) == BITS
  }

  /** The bit firstFreeBit finds in words [i, hi), 0 when it finds none. */
  function FirstFree(ws: seq<Word>, i: int, hi: int, written: bool): (v: int)
    requires 0 <= i && hi <= |ws|
    decreases hi - i
  {
    if i >= hi then 0
    else if Skipped(ws[i], written) then FirstFree(ws, i + 1, hi, written)
    else i * BITS + FirstClear(ws[i], 0, written)
  }

  /** Frame b is bit b % 64 of word b / 64. */
  lemma BitsOfWords(ws: seq<Word>, b: int)
    ensures InMap(ws, b) <==> 0 <= b < 64 * |ws|
    ensures InMap(ws, b) ==> |ws[b / 64]| == 64 && Test(ws, b) == ws[b / 64][b % 64]
  {
  }

  // ---------- setting and testing ----------

  /** With the width of a word, setting a bit sets that bit and no other. */
  lemma MarkSetsOne(ws: seq<Word>, bit: int, other: int)
    requires InMap(ws, bit) && InMap(ws, other)
    ensures Test(Mark(ws, BITS, bit), other) <==> other == bit || Test(ws, other)
  {
  }

  lemma UnmarkClearsOne(ws: seq<Word>, bit: int, other: int)
    requires InMap(ws, bit) && InMap(ws, other)
    ensures Test(Unmark(ws, bit), other) <==> other != bit && Test(ws, other)
  {
  }

  /** As written, setBit sets bit n % 32 of word n / 32, and for n % 32 == 31 all bits above it in that word, and no
      other. */
  lemma WrittenMarkSets(ws: seq<Word>, bit: int, other: int)
    requires InMap(ws, other) && 0 <= bit && bit / 32 < |ws|
    ensures InMap(Mark(ws, WRITTEN_WIDTH, bit), other)
    ensures Test(Mark(ws, WRITTEN_WIDTH, bit), other) <==>
              || Test(ws, other)
              || (other / 64 == bit / 32 && (other % 64 == bit % 32 || (bit % 32 == 31 && 31 < other % 64)))
  {
    var w := ws[bit / 32];
    var r := SetIn(w, WRITTEN_WIDTH, bit % 32);
    assert Mark(ws, WRITTEN_WIDTH, bit) == ws[bit / 32 := r];
    forall k | 0 <= k < 64
      ensures r[k] <==> w[k] || k == bit % 32 || (bit % 32 == 31 && 31 < k)
    {
    }
  }

  /** As written, testBit looks at bit n % 64 of word n / 64, and for n % 64 == 31 at all bits above it as well. */
  lemma WrittenTestSees(ws: seq<Word>, bit: int)
    requires InMap(ws, bit)
    ensures TestSeen(ws, bit, true) <==>
              exists k | bit % 64 <= k < 64 :: ws[bit / 64][k] && (k == bit % 64 || bit % 64 == 31)
    ensures TestSeen(ws, bit, false) == Test(ws, bit)
  {
  }

  /** As written, setting a bit that testBit finds clear is seen by testBit exactly for the first 32 frames. */
  lemma WrittenMarkSeenIff(ws: seq<Word>, bit: int)
    requires InMap(ws, bit) && bit / WRITTEN_WIDTH < |ws| && !TestSeen(ws, bit, true)
    ensures TestSeen(Mark(ws, WRITTEN_WIDTH, bit), bit, true) <==> bit < WRITTEN_WIDTH
  {
    if bit == WRITTEN_WIDTH - 1 { assert Mark(ws, WRITTEN_WIDTH, bit)[0][bit]; }
  }

  /** As written, clearBit clears bit n % 64 of word n / 64, and for n % 64 == 31 all bits above it, and no other. */
  lemma WrittenClears(ws: seq<Word>, bit: int, other: int)
    requires InMap(ws, bit) && InMap(ws, other)
    ensures |Release(ws, bit, true)| == |ws|
    ensures Test(Release(ws, bit, true), other) <==>
              Test(ws, other) && !(other == bit || (bit % 64 == 31 && other / 64 == bit / 64 && 31 < other % 64))
  {
    var r := Release(ws, bit, true)[bit / 64];
    forall k | 0 <= k < 64
      ensures r[k] <==> ws[bit / 64][k] && !(k == bit % 64 || (bit % 64 == 31 && 31 < k))
    {
    }
  }

  /** As written, clearing a bit clears no other exactly when it is not bit 31 of its word or the upper half is clear
      already. */
  lemma WrittenClearsOneIff(ws: seq<Word>, bit: int)
    requires InMap(ws, bit)
    ensures (forall other | InMap(ws, other) ::
               Test(Release(ws, bit, true), other) <==> other != bit && Test(ws, other))
            <==> bit % BITS != WRITTEN_WIDTH - 1 || forall j | WRITTEN_WIDTH <= j < BITS :: !ws[bit / BITS][j]
  {
    var i, rs := bit / BITS, Release(ws, bit, true);
    if bit % BITS == WRITTEN_WIDTH - 1 {
      if j :| WRITTEN_WIDTH <= j < BITS && ws[i][j] {
        BitOfWord(ws, i, j);
        BitOfWord(rs, i, j);
        assert i * BITS + j != bit && !Test(rs, i * BITS + j);
      }
    }
  }

  // ---------- searching ----------

  /** The words [i, hi) have no clear bit. */
  ghost predicate Full(ws: seq<Word>, i: int, hi: int)
    requires 0 <= i && hi <= |ws|
  {
    forall b | i * BITS <= b < hi * BITS :: Test(ws, b)
  }

  /** bit is the lowest clear bit of words [i, hi). */
  ghost predicate Lowest(ws: seq<Word>, i: int, hi: int, bit: int)
    requires 0 <= i && hi <= |ws|
  {
    i * BITS <= bit < hi * BITS && !Test(ws, bit) && forall b | i * BITS <= b < bit :: Test(ws, b)
  }

  lemma WordFull(ws: seq<Word>, i: int, b: int, j: int)
    requires 0 <= i < |ws| && 0 <= j <= BITS && (forall l | 0 <= l < j :: Sees(ws[i], l, false))
    requires i * BITS <= b < i * BITS + j
    ensures Test(ws, b)
  {
    assert Sees(ws[i], b - i * BITS, false);
  }

  lemma PassedIsFull(w: Word)
    requires PassedOver(w, false)
    ensures FirstClear(w, 0, false) == BITS
  {
    FirstClearIs(w, BITS, false);
  }

  /** With the all-ones word as the one to pass over, the search finds the lowest clear bit, or 0 when there is none. */
  lemma {:induction false} FindsLowest(ws: seq<Word>, i: int, hi: int)
    requires 0 <= i <= hi <= |ws|
    ensures Full(ws, i, hi) || Lowest(ws, i, hi, FirstFree(ws, i, hi, false))
    ensures Full(ws, i, hi) ==> FirstFree(ws, i, hi, false) == 0
    decreases hi - i
  {
    if i < hi {
      hide FirstClear, Sees, Test;
      FindsLowest(ws, i + 1, hi);
      SearchStep(ws, i, hi, false);
      var j := FirstClear(ws[i], 0, false);
      forall b | i * BITS <= b < i * BITS + j
        ensures Test(ws, b)
      {
        WordFull(ws, i, b, j);
      }
      if j < BITS { ClearBitOf(ws, i, j); }
      if PassedOver(ws[i], false) { PassedIsFull(ws[i]); }
    }
  }

  /** Result 0 means a full zone, except when the zone begins at frame 0 and frame 0 itself is clear. */
  lemma ZeroMeansFullIff(ws: seq<Word>, i: int, hi: int)
    requires 0 <= i < hi <= |ws|
    ensures (FirstFree(ws, i, hi, false) == 0 <==> Full(ws, i, hi)) <==> !(i == 0 && !Test(ws, 0))
  {
    FindsLowest(ws, i, hi);
    if i == 0 && !Test(ws, 0) {
      assert !Full(ws, i, hi);
    }
  }

  /** The word that is passed over: 0xFFFFFFFF as written, all ones as meant. */
  ghost predicate IsSkipWord(w: Word, written: bool) {
    forall k | 0 <= k < 64 :: w[k] <==> (written ==> k < 32)
  }

  lemma SkipWordIs(w: Word, written: bool)
    ensures PassedOver(w, written) <==> IsSkipWord(w, written)
  {
  }

  /** As written, a word whose low half alone is full is passed over, and bit 31 looks set when the upper half is not
      clear: the search ends at the lowest clear bit exactly when neither is the case. */
  lemma {:induction false} WrittenFindsLowestIff(ws: seq<Word>, i: int, hi: int, bit: int)
    requires 0 <= i <= hi <= |ws| && Lowest(ws, i, hi, bit) && bit != 0
    ensures FirstFree(ws, i, hi, true) == bit
            <==> !IsSkipWord(ws[bit / BITS], true)
                 && (bit % BITS == WRITTEN_WIDTH - 1 ==> forall j | WRITTEN_WIDTH <= j < BITS :: !ws[bit / BITS][j])
    decreases hi - i
  {
    hide FirstClear, Sees, PassedOver, Test, IsSkipWord;
    var j := FirstClear(ws[i], 0, false);
    FreeFromOn(ws, i + 1, hi, true);
    SearchStep(ws, i, hi, true);
    SameUnlessSign(ws[i], j);
    forall b | i * BITS <= b < i * BITS + j
      ensures Test(ws, b)
    {
      WordFull(ws, i, b, j);
    }
    if j < BITS {
      ClearBitOf(ws, i, j);
      SkipWordIs(ws[i], true);
      assert bit == i * BITS + j;
    } else {
      WrittenFindsLowestIff(ws, i + 1, hi, bit);
    }
  }

  lemma ClearBitOf(ws: seq<Word>, i: int, j: int)
    requires 0 <= i < |ws| && j == FirstClear(ws[i], 0, false) < BITS
    ensures (i * BITS + j) / BITS == i && (i * BITS + j) % BITS == j && !Test(ws, i * BITS + j)
  {
    assert !Sees(ws[i], j, false);
  }

  lemma ClearStep(w: Word, k: int, written: bool)
    requires 0 <= k <= BITS
    ensures FirstClear(w, k, written) == if k == BITS || !Sees(w, k, written) then k else FirstClear(w, k + 1, written)
  {
  }

  lemma FirstClearIs(w: Word, j: int, written: bool)
    requires 0 <= j <= BITS && (forall l | 0 <= l < j :: Sees(w, l, written)) && (j < BITS ==> !Sees(w, j, written))
    ensures FirstClear(w, 0, written) == j
  {
    hide Sees;
  }

  /** What the sign of 1 << 31 does to testBit. */
  lemma SeesAsWritten(w: Word, k: int)
    requires 0 <= k < BITS
    ensures Sees(w, k, false) ==> Sees(w, k, true)
    ensures !Sees(w, k, false) ==>
              (Sees(w, k, true) <==> k == WRITTEN_WIDTH - 1 && exists l | WRITTEN_WIDTH <= l < BITS :: w[l])
  {
  }

  /** Reading the sign of 1 << 31 as written matters only when bit 31 is the lowest clear bit. */
  lemma SameUnlessSign(w: Word, j: int)
    requires j == FirstClear(w, 0, false)
    ensures FirstClear(w, 0, true) == j
            <==> j != WRITTEN_WIDTH - 1 || forall l | WRITTEN_WIDTH <= l < BITS :: !w[l]
  {
    hide Sees;
    forall l | 0 <= l < j
      ensures Sees(w, l, true)
    {
      SeesAsWritten(w, l);
    }
    if j < BITS { SeesAsWritten(w, j); }
    if j == BITS || !Sees(w, j, true) { FirstClearIs(w, j, true); }
  }

  lemma {:induction false} FreeFromOn(ws: seq<Word>, i: int, hi: int, written: bool)
    requires 0 <= i && hi <= |ws|
    ensures FirstFree(ws, i, hi, written) == 0 || i * BITS <= FirstFree(ws, i, hi, written) < hi * BITS
    decreases hi - i
  {
    if i < hi { FreeFromOn(ws, i + 1, hi, written); }
  }

  lemma FoundInZone(ws: seq<Word>, i: int, hi: int, written: bool)
    requires 0 <= i && 0 <= hi <= |ws|
    ensures FirstFree(ws, i, hi, written) == 0 || 0 < FirstFree(ws, i, hi, written) < hi * BITS
  {
    FreeFromOn(ws, i, hi, written);
  }

  lemma BitOfWord(ws: seq<Word>, i: int, k: int)
    requires 0 <= i < |ws| && 0 <= k < BITS
    ensures InMap(ws, i * BITS + k) && Test(ws, i * BITS + k) == ws[i][k]
    ensures forall written :: TestSeen(ws, i * BITS + k, written) == Sees(ws[i], k, written)
  {
    assert (i * BITS + k) / BITS == i && (i * BITS + k) % BITS == k;
  }

  /** One word of the search. */
  lemma SearchStep(ws: seq<Word>, i: int, hi: int, written: bool)
    requires 0 <= i && hi <= |ws|
    ensures FirstFree(ws, i, hi, written) == if i >= hi then 0
                                             else if Skipped(ws[i], written) then FirstFree(ws, i + 1, hi, written)
                                             else i * BITS + FirstClear(ws[i], 0, written)
  {
  }

  /** A bit the search finds lies in the zone and is clear. */
  lemma {:induction false} FoundIsClear(ws: seq<Word>, i: int, hi: int, written: bool)
    requires 0 <= i && hi <= |ws|
    ensures var f := FirstFree(ws, i, hi, written);
            f != 0 ==> i * BITS <= f < hi * BITS && !Test(ws, f) && !TestSeen(ws, f, written) && f / BITS < hi
    decreases hi - i
  {
    if i < hi {
      var j := FirstClear(ws[i], 0, written);
      if Skipped(ws[i], written) {
        FoundIsClear(ws, i + 1, hi, written);
      } else {
        assert (i * BITS + j) / BITS == i && (i * BITS + j) % BITS == j;
      }
    }
  }

  /** The search, as written or not, finds the lowest bit that testBit finds clear in a word not passed over; answer 0
      means there is none, or that it is bit 0. */
  lemma {:induction false} SearchIs(ws: seq<Word>, i: int, hi: int, written: bool, bit: int)
    requires 0 <= i && hi <= |ws| && i * 64 <= bit < hi * 64
    ensures InMap(ws, bit) && bit / 64 < |ws|
    ensures !TestSeen(ws, bit, written) && !IsSkipWord(ws[bit / 64], written) ==>
              && i <= hi && FirstFree(ws, i, hi, written) <= bit
              && (FirstFree(ws, i, hi, written) == 0 ==> i == 0 && !Sees(ws[0], 0, written))
    ensures bit == FirstFree(ws, i, hi, written) && bit != 0 ==>
              !TestSeen(ws, bit, written) && !IsSkipWord(ws[bit / 64], written)
    decreases hi - i
  {
    hide FirstFree, FirstClear, Sees;
    SearchStep(ws, i, hi, written);
    FreeFromOn(ws, i + 1, hi, written);
    var j := FirstClear(ws[i], 0, written);
    if bit / 64 == i {
      assert bit == i * 64 + bit % 64;
    } else {
      SearchIs(ws, i + 1, hi, written, bit);
    }
  }

  /** What the search finds depends only on the words up to the one it finds. */
  lemma {:induction false} SearchIsLocal(ws: seq<Word>, ws': seq<Word>, i: int, hi: int, written: bool)
    requires 0 <= i && hi <= |ws| == |ws'| && FirstFree(ws, i, hi, written) != 0
    requires forall j | 0 <= j <= FirstFree(ws, i, hi, written) / BITS && j < |ws| :: ws'[j] == ws[j]
    ensures FirstFree(ws', i, hi, written) == FirstFree(ws, i, hi, written)
    decreases hi - i
  {
    FoundIsClear(ws, i, hi, written);
    assert i <= FirstFree(ws, i, hi, written) / BITS;
    if Skipped(ws[i], written) {
      SearchIsLocal(ws, ws', i + 1, hi, written);
    }
  }

  /** What the search finds lies in the lower half of word 0 exactly when the zone begins there with a bit that testBit
      finds clear. */
  lemma FoundLowIff(ws: seq<Word>, i: int, hi: int)
    requires 0 <= i <= hi <= |ws| && FirstFree(ws, i, hi, true) != 0
    ensures FirstFree(ws, i, hi, true) < WRITTEN_WIDTH
            <==> i == 0 && exists k | 0 <= k < WRITTEN_WIDTH :: !Sees(ws[0], k, true)
  {
    FreeFromOn(ws, i, hi, true);
    FreeFromOn(ws, i + 1, hi, true);
    if i == 0 && PassedOver(ws[0], true) {
      assert ws[0][WRITTEN_WIDTH - 1];
      assert forall k | 0 <= k < WRITTEN_WIDTH :: Sees(ws[0], k, true);
    }
  }

  /** As written, a second allocation returns the frame the first one returned, exactly when the zone does not begin at
      frame 0 or testBit finds the first 32 frames all in use. */
  lemma WrittenRepeatsIff(ws: seq<Word>, i: int, hi: int)
    requires 0 <= i <= hi && 2 * hi <= |ws| && FirstFree(ws, i, hi, true) != 0
    ensures var f := FirstFree(ws, i, hi, true);
            && 0 < f && f / WRITTEN_WIDTH < |ws|
            && (FirstFree(Mark(ws, WRITTEN_WIDTH, f), i, hi, true) == f
                <==> i > 0 || forall k | 0 <= k < WRITTEN_WIDTH :: Sees(ws[0], k, true))
  {
    var f := FirstFree(ws, i, hi, true);
    FoundIsClear(ws, i, hi, true);
    FoundLowIff(ws, i, hi);
    var ws' := Mark(ws, WRITTEN_WIDTH, f);
    FoundIsClear(ws', i, hi, true);
    if f >= WRITTEN_WIDTH {
      assert f / BITS < f / WRITTEN_WIDTH;
      SearchIsLocal(ws, ws', i, hi, true);
    } else {
      assert f / BITS == 0 && f / WRITTEN_WIDTH == 0;
      assert ws'[0][f];
      assert TestSeen(ws', f, true);
    }
  }

  /** The clear frames of words [i, hi). */
  ghost function FreeFrames(ws: seq<Word>, i: int, hi: int): (fs: set<int>)
    requires 0 <= i && hi <= |ws|
  {
    set b | i * BITS <= b < hi * BITS && !Test(ws, b)
  }

  lemma MarkAddsBits(ws: seq<Word>, f: int)
    requires InMap(ws, f)
    ensures |Mark(ws, BITS, f)| == |ws|
    ensures forall b | InMap(ws, b) :: Test(Mark(ws, BITS, f), b) <==> b == f || Test(ws, b)
  {
    MarkSize(ws, f);
    forall b | InMap(ws, b)
      ensures Test(Mark(ws, BITS, f), b) <==> b == f || Test(ws, b)
    {
      MarkSetsOne(ws, f, b);
    }
  }

  /** Unless the zone begins at frame 0 and that is clear, an allocation takes one frame out of the clear ones, and
      takes none exactly when there is none. */
  lemma TakesOneFrame(ws: seq<Word>, i: int, hi: int)
    requires 0 <= i <= hi <= |ws| && 0 < |ws| && (0 < i || Test(ws, 0))
    ensures var f := FirstFree(ws, i, hi, false);
            && InMap(ws, f) && (Test(ws, 0) ==> Test(Mark(ws, BITS, f), 0))
            && (f == 0 <==> FreeFrames(ws, i, hi) == {})
            && (f != 0 ==> f in FreeFrames(ws, i, hi))
            && FreeFrames(Mark(ws, BITS, f), i, hi) == FreeFrames(ws, i, hi) - {f}
            && |FreeFrames(Mark(ws, BITS, f), i, hi)| == |FreeFrames(ws, i, hi)| - if f == 0 then 0 else 1
  {
    hide Mark, Test, FirstFree;
    var f := FirstFree(ws, i, hi, false);
    FindsLowest(ws, i, hi);
    FoundInZone(ws, i, hi, false);
    assert InMap(ws, f);
    MarkAddsBits(ws, f);
    if Full(ws, i, hi) {
      assert FreeFrames(ws, i, hi) == {};
    } else {
      assert Lowest(ws, i, hi, f) && f != 0 && f in FreeFrames(ws, i, hi);
    }
    assert FreeFrames(Mark(ws, BITS, f), i, hi) == FreeFrames(ws, i, hi) - {f};
  }

  lemma MarkSize(ws: seq<Word>, bit: int)
    requires InMap(ws, bit)
    ensures |Mark(ws, BITS, bit)| == |ws|
  {
  }

  // ---------- whole runs, with one word width ----------

  /** The set bits are the reserved frames and the frames out, which are apart; frame 0 is reserved. */
  ghost predicate Accounts(ws: seq<Word>, n: int, reserved: set<int>, out: set<int>) {
    && 0 <= n <= |ws| && reserved !! out && 0 in reserved
    && (forall b | b in reserved + out :: 0 <= b < n * BITS)
    && (forall b | 0 <= b < n * BITS :: Test(ws, b) <==> b in reserved + out)
  }

  /** An allocation hands out the lowest clear frame of its zone, which nobody has, and answers 0
      exactly when the zone is full. */
  lemma AllocateAccounts(ws: seq<Word>, n: int, reserved: set<int>, out: set<int>, i: int, hi: int)
    requires Accounts(ws, n, reserved, out) && 0 <= i <= hi <= n && 0 < n
    ensures var f := FirstFree(ws, i, hi, false);
            && InMap(ws, f)
            && (f == 0 <==> Full(ws, i, hi))
            && (f != 0 ==>
                  && f !in reserved && f !in out && Lowest(ws, i, hi, f)
                  && Accounts(Mark(ws, BITS, f), n, reserved, out + {f}))
            && (f == 0 ==> Accounts(Mark(ws, BITS, f), n, reserved, out))
  {
    var f := FirstFree(ws, i, hi, false);
    FindsLowest(ws, i, hi);
    if i < hi { ZeroMeansFullIff(ws, i, hi); }
    assert InMap(ws, f);
    forall b | 0 <= b < n * BITS
      ensures Test(Mark(ws, BITS, f), b) <==> b == f || Test(ws, b)
    {
      MarkSetsOne(ws, f, b);
    }
  }

  lemma FreeAccounts(ws: seq<Word>, n: int, reserved: set<int>, out: set<int>, f: int)
    requires Accounts(ws, n, reserved, out) && f in out
    ensures InMap(ws, f) && Accounts(Unmark(ws, f), n, reserved, out - {f})
  {
  }

  datatype FrameCall = Take(dma: bool) | Give(frame: int)

  /** One call by a caller who frees only frames that are out. */
  ghost predicate FrameStep(ws: seq<Word>, out: set<int>, c: FrameCall, n: int, dmaEnd: int, ws': seq<Word>,
                            out': set<int>)
    requires 0 <= dmaEnd <= n <= |ws|
  {
    match c
    case Take(dma) =>
      var f := if dma then FirstFree(ws, 0, dmaEnd, false) else FirstFree(ws, dmaEnd, n, false);
      InMap(ws, f) && ws' == Mark(ws, BITS, f) && out' == if f == 0 then out else out + {f}
    case Give(f) =>
      f in out && InMap(ws, f) && ws' == Unmark(ws, f) && out' == out - {f}
  }

  lemma StepAccounts(ws: seq<Word>, out: set<int>, c: FrameCall, n: int, dmaEnd: int, reserved: set<int>,
                     ws': seq<Word>, out': set<int>)
    requires 0 <= dmaEnd <= n <= |ws| && 0 < n && Accounts(ws, n, reserved, out)
    requires FrameStep(ws, out, c, n, dmaEnd, ws', out')
    ensures Accounts(ws', n, reserved, out')
  {
    match c
    case Take(dma) => AllocateAccounts(ws, n, reserved, out, if dma then 0 else dmaEnd, if dma then dmaEnd else n);
    case Give(f) => FreeAccounts(ws, n, reserved, out, f);
  }

  /** The number of set bits is the number of reserved and outstanding frames. */
  lemma SetBitsCounted(ws: seq<Word>, n: int, reserved: set<int>, out: set<int>)
    requires Accounts(ws, n, reserved, out)
    ensures |set b | 0 <= b < n * BITS && Test(ws, b)| == |reserved| + |out|
  {
    assert (set b | 0 <= b < n * BITS && Test(ws, b)) == reserved + out;
  }

  /** Along every run the bitmap accounts for every frame. */
  lemma {:induction false} FramesAlwaysAccounted(wss: seq<seq<Word>>, outs: seq<set<int>>, cs: seq<FrameCall>, n: int,
                                                 dmaEnd: int, reserved: set<int>, t: nat)
    requires 0 <= dmaEnd <= n && 0 < n && |wss| == |outs| == |cs| + 1 && t <= |cs|
    requires forall u | 0 <= u < |wss| :: n <= |wss[u]|
    requires forall u | 0 <= u < |cs| :: FrameStep(wss[u], outs[u], cs[u], n, dmaEnd, wss[u + 1], outs[u + 1])
    requires Accounts(wss[0], n, reserved, outs[0])
    ensures Accounts(wss[t], n, reserved, outs[t])
    ensures |set b | 0 <= b < n * BITS && Test(wss[t], b)| == |reserved| + |outs[t]|
  {
    hide Accounts, FrameStep, Test;
    if t > 0 {
      FramesAlwaysAccounted(wss, outs, cs, n, dmaEnd, reserved, t - 1);
      assert FrameStep(wss[t - 1], outs[t - 1], cs[t - 1], n, dmaEnd, wss[t - 1 + 1], outs[t - 1 + 1]);
      StepAccounts(wss[t - 1], outs[t - 1], cs[t - 1], n, dmaEnd, reserved, wss[t], outs[t]);
    }
    SetBitsCounted(wss[t], n, reserved, outs[t]);
  }

  // ---------- the allocator ----------

  class PageAllocator {
    const bitmap: array<Word>
    const frameCount: int   // in words
    const dmaZoneEnd: int   // in words
    // As written, or with one word width throughout: setBit by 64 and a word of ones passed over.
    const written: bool

    ghost predicate Valid() {
      && 0 <= dmaZoneEnd <= frameCount <= MAX_WORDS && 0 < frameCount
      // as written, setBit reaches up to twice as far as the words that are in use
      && bitmap.Length == 2 * frameCount
    }

    constructor (words: array<Word>, frames: int, dma: int, asWritten: bool)
      requires 0 <= dma <= frames <= MAX_WORDS && 0 < frames && words.Length == 2 * frames
      ensures Valid() && bitmap == words && frameCount == frames && dmaZoneEnd == dma && written == asWritten
    {
      bitmap, frameCount, dmaZoneEnd, written := words, frames, dma, asWritten;
    }

    function SetWidth(): (w: int)
      ensures w == WRITTEN_WIDTH || w == BITS
    {
      if written then WRITTEN_WIDTH else BITS
    }

    function ZoneStart(dma: bool): (v: int) { if dma then 0 else dmaZoneEnd }

    function ZoneEnd(dma: bool): (v: int) { if dma then dmaZoneEnd else frameCount }

    method TestBit(bit: int) returns (r: bool)
      requires Valid() && 0 <= bit < BITS * frameCount
      ensures r == TestSeen(bitmap[..], bit, written)
    {
      r := Sees(bitmap[bit / BITS], bit % BITS, written);
    }

    method SetBit(bit: int)
      requires Valid() && 0 <= bit < BITS * frameCount
      modifies bitmap
      ensures bitmap[..] == Mark(old(bitmap[..]), SetWidth(), bit)
    {
      var w := SetWidth();
      bitmap[bit / w] := SetIn(bitmap[bit / w], w, bit % w);
    }

    method ClearBit(bit: int)
      requires Valid() && 0 <= bit < BITS * frameCount
      modifies bitmap
      ensures bitmap[..] == Release(old(bitmap[..]), bit, written)
    {
      if written && bit % BITS == WRITTEN_WIDTH - 1 {
        bitmap[bit / BITS] := bitmap[bit / BITS][..bit % BITS] + seq(BITS - bit % BITS, _ => false);
      } else {
        bitmap[bit / BITS] := bitmap[bit / BITS][bit % BITS := false];
      }
    }

    method FirstFreeBit(dma: bool) returns (bit: int)
      requires Valid()
      ensures bit == FirstFree(bitmap[..], ZoneStart(dma), ZoneEnd(dma), written)
      ensures 0 <= bit < BITS * frameCount
    {
      hide PassedOver, FirstFree, TestSeen, Sees, FirstClear;
      FoundInZone(bitmap[..], ZoneStart(dma), ZoneEnd(dma), written);
      var i := if dma then 0 else dmaZoneEnd;
      while i < if dma then dmaZoneEnd else frameCount
        invariant ZoneStart(dma) <= i <= ZoneEnd(dma)
        invariant FirstFree(bitmap[..], ZoneStart(dma), ZoneEnd(dma), written)
                  == FirstFree(bitmap[..], i, ZoneEnd(dma), written)
      {
        SearchStep(bitmap[..], i, ZoneEnd(dma), written);
        if PassedOver(bitmap[i], written) {
          i := i + 1;
          continue;
        }
        var k := 0;
        while k < BITS
          invariant 0 <= k <= BITS && FirstClear(bitmap[i], 0, written) == FirstClear(bitmap[i], k, written)
        {
          BitOfWord(bitmap[..], i, k);
          ClearStep(bitmap[i], k, written);
          var used := TestBit(i * BITS + k);
          if !used {
            return i * BITS + k;
          }
          k := k + 1;
        }
        ClearStep(bitmap[i], BITS, written);
        i := i + 1;
      }
      SearchStep(bitmap[..], i, ZoneEnd(dma), written);
      return 0;
    }

    /** The frame's address; 0 when the search found none, after setting bit 0. */
    method AllocatePage(dma: bool) returns (page: int)
      requires Valid()
      modifies bitmap
      ensures var bit := FirstFree(old(bitmap[..]), ZoneStart(dma), ZoneEnd(dma), written);
              0 <= bit < BITS * frameCount && page == bit * PAGE && bitmap[..] == Mark(old(bitmap[..]), SetWidth(), bit)
    {
      var bit := FirstFreeBit(dma);
      SetBit(bit);
      page := bit * PAGE;
    }

    /** AllocatePage in either zone is a step of the runs above, with one word width. */
    method TakeStep(dma: bool, ghost out: set<int>) returns (page: int, ghost out': set<int>)
      requires Valid() && !written
      modifies bitmap
      ensures FrameStep(old(bitmap[..]), out, Take(dma), frameCount, dmaZoneEnd, bitmap[..], out')
      ensures page % 4096 == 0 && out' == if page == 0 then out else out + {page / 4096}
    {
      page := AllocatePage(dma);
      out' := if page == 0 then out else out + {page / PAGE};
    }

    /** So is FreePage of the address of a frame that is out; other aligned addresses are the caller's fault. */
    method GiveStep(page: int, ghost out: set<int>) returns (r: bool, ghost out': set<int>)
      requires Valid() && !written && page % 4096 == 0 && page / 4096 in out && 0 <= page / 4096 < 64 * frameCount
      modifies bitmap
      ensures r && FrameStep(old(bitmap[..]), out, Give(page / 4096), frameCount, dmaZoneEnd, bitmap[..], out')
      ensures out' == out - {page / 4096}
    {
      r := FreePage(page);
      out' := out - {page / PAGE};
    }

    method FreePage(page: int) returns (r: bool)
      requires Valid() && 0 <= page / PAGE < BITS * frameCount
      modifies bitmap
      ensures r == (page % PAGE == 0)
      ensures bitmap[..] == if r then Release(old(bitmap[..]), page / PAGE, written) else old(bitmap[..])
    {
      var bitIndex := page / PAGE;
      if page % PAGE != 0 {
        return false;
      }
      ClearBit(bitIndex);
      r := true;
    }
  }
}
