/** What an allocation takes, read off the bitmap alone, when no skip of the scan jumps over a free block. */
module AllocPlain {
  import opened AllocSpec
  import opened AllocScan
  import opened Extents

  // ---------- the lap, block by block ----------

  /** Where the lap that starts at the hint meets block `x`. */
  function LapPos(total: nat, hint: nat, x: nat): nat {
    if x < hint then x + total else x
  }

  /** The number of free blocks the lap passes before position `p`. */
  function FreeBefore(bits: seq<bool>, hint: nat, p: nat): int
    requires hint < |bits| && p <= |bits| + hint
  {
    CountClear(bits, if p <= |bits| then p else p - |bits|) - CountClear(bits, hint)
    + if p <= |bits| then 0 else CountClear(bits, |bits|)
  }

  /** Block `x` is one of the next `n` free blocks, in cyclic order from the hint on. */
  predicate IsNext(bits: seq<bool>, hint: nat, n: nat, x: nat)
    requires hint < |bits|
  {
    x < |bits| && !bits[x] && FreeBefore(bits, hint, LapPos(|bits|, hint, x)) < n
  }

  /** It starts a run of those blocks: the block before it is allocated, or on the other side of the hint or the end. */
  predicate StartsRun(bits: seq<bool>, hint: nat, n: nat, x: nat)
    requires hint < |bits|
  {
    IsNext(bits, hint, n, x) && (x == hint || x == 0 || bits[x - 1])
  }

  /** The hits of a scan that looks at every bit from `it` on, and closes its extent at the wrap. */
  function Plain(bits: seq<bool>, hint: nat, it: nat, need: nat, open: bool): List<Hit>
    requires hint < |bits|
    decreases |bits| + hint - it
  {
    if need == 0 || it >= |bits| + hint then Nil
    else
      var i := At(|bits|, it);
      if bits[i] then Plain(bits, hint, it + 1, need, false)
      else Cons(Hit(i, !open || i == 0), Plain(bits, hint, it + 1, need - 1, true))
  }

  lemma {:induction false} PlainSkip(bits: seq<bool>, hint: nat, it: nat, need: nat, open: bool, n: nat)
    requires hint < |bits| && n > 0
    requires forall t: nat | it <= t < it + n && t < |bits| + hint :: bits[At(|bits|, t)]
    ensures Plain(bits, hint, it, need, open) == Plain(bits, hint, it + n, need, false)
    decreases n
  {
    if need > 0 && it < |bits| + hint && n > 1 {
      PlainSkip(bits, hint, it + 1, need, false, n - 1);
    }
  }

  /** Setting a bit already passed changes nothing ahead. */
  lemma {:induction false} PlainUpdate(bits: seq<bool>, hint: nat, it: nat, need: nat, open: bool, i: nat)
    requires hint < |bits| && i < |bits|
    requires forall t: nat | it <= t < |bits| + hint :: At(|bits|, t) != i
    ensures Plain(bits[i := true], hint, it, need, open) == Plain(bits, hint, it, need, open)
    decreases |bits| + hint - it
  {
    if need > 0 && it < |bits| + hint {
      if bits[At(|bits|, it)] {
        PlainUpdate(bits, hint, it + 1, need, false, i);
      } else {
        PlainUpdate(bits, hint, it + 1, need - 1, true, i);
      }
    }
  }

  lemma PlainTaken(bits: seq<bool>, hint: nat, it: nat, need: nat)
    requires hint < |bits| && hint <= it < |bits| + hint
    ensures Plain(bits[At(|bits|, it) := true], hint, it + 1, need, true) == Plain(bits, hint, it + 1, need, true)
  {
    PlainUpdate(bits, hint, it + 1, need, true, At(|bits|, it));
  }

  /** A scan that jumps over no free block, and lands on none across a skip or the wrap with an extent open, finds what
      looking at every bit finds. */
  lemma {:induction false} PlainScan(bits: seq<bool>, hint: nat, it: nat, need: nat, open: bool, crossed: bool)
    requires hint < |bits| && hint <= it && Lossless(bits, hint, it, need) && (crossed ==> open)
    requires Seamless(bits, hint, it, need, open, crossed)
    ensures Front(Visit(bits, hint, it, need, open), need) == Plain(bits, hint, it, need, open && !crossed)
    decreases |bits| + hint - it
  {
    if need > 0 && it < |bits| + hint {
      var i := At(|bits|, it);
      if FullWord(bits, i) {
        PlainScan(bits, hint, it + 65, need, open, open);
        PlainSkip(bits, hint, it, need, open && !crossed, 65);
      } else if bits[i] {
        PlainScan(bits, hint, it + 1, need, false, false);
      } else {
        PlainScan(bits[i := true], hint, it + 1, need - 1, true, false);
        PlainTaken(bits, hint, it, need - 1);
      }
    }
  }

  // ---------- which blocks, which extents ----------

  lemma {:induction false} CountMonotone(bits: seq<bool>, a: nat, b: nat)
    requires a <= b <= |bits|
    ensures CountClear(bits, a) <= CountClear(bits, b)
    decreases b
  {
    if a < b {
      CountMonotone(bits, a, b - 1);
    }
  }

  lemma FreeStep(bits: seq<bool>, hint: nat, p: nat)
    requires hint < |bits| && hint <= p < |bits| + hint
    ensures FreeBefore(bits, hint, p + 1) == FreeBefore(bits, hint, p) + if bits[At(|bits|, p)] then 0 else 1
  {
    assert CountClear(bits, 0) == 0;
  }

  lemma {:induction false} FreeMonotone(bits: seq<bool>, hint: nat, p: nat, q: nat)
    requires hint < |bits| && hint <= p <= q <= |bits| + hint
    ensures FreeBefore(bits, hint, p) <= FreeBefore(bits, hint, q)
    decreases q
  {
    if p < q {
      FreeMonotone(bits, hint, p, q - 1);
      FreeStep(bits, hint, q - 1);
    }
  }

  /** Block `x` is one of the next `need` free blocks from position `it` of the lap on. */
  predicate NextFrom(bits: seq<bool>, hint: nat, it: nat, need: nat, x: nat)
    requires hint < |bits| && it <= |bits| + hint
  {
    && x < |bits| && !bits[x] && it <= LapPos(|bits|, hint, x)
    && FreeBefore(bits, hint, LapPos(|bits|, hint, x)) < FreeBefore(bits, hint, it) + need
  }

  lemma NextStep(bits: seq<bool>, hint: nat, it: nat, need: nat, x: nat)
    requires hint < |bits| && hint <= it < |bits| + hint && need > 0
    ensures var i := At(|bits|, it);
            NextFrom(bits, hint, it, need, x)
            <==> (!bits[i] && x == i) || NextFrom(bits, hint, it + 1, if bits[i] then need else need - 1, x)
  {
    FreeStep(bits, hint, it);
  }

  lemma NoneNext(bits: seq<bool>, hint: nat, it: nat, x: nat)
    requires hint < |bits| && hint <= it <= |bits| + hint
    ensures !NextFrom(bits, hint, it, 0, x)
  {
    if x < |bits| && it <= LapPos(|bits|, hint, x) {
      FreeMonotone(bits, hint, it, LapPos(|bits|, hint, x));
    }
  }

  lemma {:induction false} PlainPositions(bits: seq<bool>, hint: nat, it: nat, need: nat, open: bool, x: nat)
    requires hint < |bits| && hint <= it <= |bits| + hint
    ensures x in Positions(Plain(bits, hint, it, need, open)) <==> NextFrom(bits, hint, it, need, x)
    decreases |bits| + hint - it
  {
    if need == 0 {
      NoneNext(bits, hint, it, x);
    } else if it < |bits| + hint {
      NextStep(bits, hint, it, need, x);
      var i := At(|bits|, it);
      PlainPositions(bits, hint, it + 1, if bits[i] then need else need - 1, !bits[i], x);
    }
  }

  predicate SomeStart(h: List<Hit>, id: nat)
    decreases h
  {
    h.Cons? && ((h.head.first && h.head.pos / 512 == id) || SomeStart(h.tail, id))
  }

  lemma {:induction false} StartsAdded(es: seq<Extent>, h: List<Hit>, id: nat)
    requires es != [] || h.Nil? || h.head.first
    ensures FirstEntryOfSome(AddHits(es, h), id) <==> FirstEntryOfSome(es, id) || SomeStart(h, id)
    decreases h
  {
    if h.Cons? {
      StartsAdded(AddHit(es, h.head), h.tail, id);
      OneStart(es, h.head, id);
    }
  }

  lemma OneStart(es: seq<Extent>, hit: Hit, id: nat)
    requires es != [] || hit.first
    ensures FirstEntryOfSome(AddHit(es, hit), id) <==> FirstEntryOfSome(es, id) || (hit.first && hit.pos / 512 == id)
  {
    var r := AddHit(es, hit);
    assert forall i | 0 <= i < |es| :: r[i].lba == es[i].lba;
    if hit.first {
      assert r[|es|].lba == hit.pos;
    }
    if i :| 0 <= i < |es| && es[i].lba / 512 == id {
      assert r[i].lba / 512 == id;
    }
  }

  /** A run met from position `it` on starts at block `x`. An open run does not start anew, except at the wrap. */
  predicate StartsFrom(bits: seq<bool>, hint: nat, it: nat, need: nat, open: bool, x: nat)
    requires hint < |bits| && it <= |bits| + hint
  {
    && NextFrom(bits, hint, it, need, x)
    && if LapPos(|bits|, hint, x) == it then !open || x == 0 else x == 0 || bits[x - 1]
  }

  ghost predicate RunIn(bits: seq<bool>, hint: nat, it: nat, need: nat, open: bool, id: nat)
    requires hint < |bits| && it <= |bits| + hint
  {
    exists x: nat :: StartsFrom(bits, hint, it, need, open, x) && x / 512 == id
  }

  lemma StartsStep(bits: seq<bool>, hint: nat, it: nat, need: nat, open: bool, x: nat)
    requires hint < |bits| && hint <= it < |bits| + hint && need > 0
    ensures var i := At(|bits|, it);
            StartsFrom(bits, hint, it, need, open, x)
            <==> (!bits[i] && x == i && (!open || i == 0))
                 || StartsFrom(bits, hint, it + 1, if bits[i] then need else need - 1, !bits[i], x)
  {
    NextStep(bits, hint, it, need, x);
  }

  lemma {:induction false} PlainStarts(bits: seq<bool>, hint: nat, it: nat, need: nat, open: bool, id: nat)
    requires hint < |bits| && hint <= it <= |bits| + hint
    ensures SomeStart(Plain(bits, hint, it, need, open), id) <==> RunIn(bits, hint, it, need, open, id)
    decreases |bits| + hint - it
  {
    if need == 0 {
      forall x: nat ensures !StartsFrom(bits, hint, it, need, open, x) {
        NoneNext(bits, hint, it, x);
      }
    } else if it < |bits| + hint {
      var i := At(|bits|, it);
      var need' := if bits[i] then need else need - 1;
      PlainStarts(bits, hint, it + 1, need', !bits[i], id);
      forall x: nat
        ensures StartsFrom(bits, hint, it, need, open, x)
                <==> (!bits[i] && x == i && (!open || i == 0)) || StartsFrom(bits, hint, it + 1, need', !bits[i], x)
      {
        StartsStep(bits, hint, it, need, open, x);
      }
      if !bits[i] && (!open || i == 0) {
        assert StartsFrom(bits, hint, it, need, open, i);
      }
      if x: nat :| StartsFrom(bits, hint, it + 1, need', !bits[i], x) && x / 512 == id {
        assert StartsFrom(bits, hint, it, need, open, x);
      }
    }
  }

  /** What an exact allocation returns when no skip jumps over a free block: exactly the next free blocks in cyclic
      order, and the extents' first blocks lie in the bitmap entries in which a run of those blocks starts. */
  lemma TakesNext(bits: seq<bool>, hint: nat, n: nat, x: nat, id: nat)
    requires hint < |bits| && Lossless(bits, hint, hint, n) && AllocExact(bits, hint, n)
    ensures var es := AddHits([], Front(Lap(bits, hint, n), n));
            && (x in Flatten(es) <==> IsNext(bits, hint, n, x))
            && (id in EntryIds(es) <==> exists y: nat :: StartsRun(bits, hint, n, y) && y / 512 == id)
  {
    var h := Front(Lap(bits, hint, n), n);
    ExactIffSeamless(bits, hint, n);
    PlainScan(bits, hint, hint, n, false, false);
    FirstIsFirst(bits, hint, hint, n);
    ExtentsExact(h);
    PlainPositions(bits, hint, hint, n, false, x);
    StartsAdded([], h, id);
    PlainStarts(bits, hint, hint, n, false, id);
    forall y: nat ensures StartsFrom(bits, hint, hint, n, false, y) <==> StartsRun(bits, hint, n, y) {
    }
  }

  // ---------- bitmaps on which the scan only moves forward ----------

  /** The word of block `i` holds a free block that a scan from the hint has not taken when it comes to `i`. */
  predicate WordHasRoom(bits: seq<bool>, hint: nat, i: nat) {
    exists j | i / 64 * 64 <= j < i / 64 * 64 + 64 && j < |bits| :: !bits[j] && !(hint <= j < i)
  }

  /** Block `e` is where a request for `n` blocks stops: it is free, exactly `n` free blocks lie between the hint and
      it, and no word the scan looks at on the way is full. */
  predicate StopsAt(bits: seq<bool>, hint: nat, n: nat, e: nat) {
    && hint <= e < |bits| && !bits[e] && CountClear(bits, e) == CountClear(bits, hint) + n
    && forall i | hint <= i <= e && bits[i] :: WordHasRoom(bits, hint, i)
  }

  /** The scan has taken all free blocks from the hint up to `it`. */
  predicate TakenTo(bits: seq<bool>, now: seq<bool>, hint: nat, it: nat) {
    |now| == |bits| && forall x | 0 <= x < |bits| :: now[x] == (bits[x] || hint <= x < it)
  }

  lemma WordNotFull(bits: seq<bool>, now: seq<bool>, hint: nat, it: nat)
    requires TakenTo(bits, now, hint, it) && it < |bits| && (bits[it] ==> WordHasRoom(bits, hint, it))
    ensures !FullWord(now, it)
  {
    AllSetBits(now, it / 64 * 64, it / 64 * 64 + 64);
    if bits[it] {
      var j :| it / 64 * 64 <= j < it / 64 * 64 + 64 && j < |bits| && !bits[j] && !(hint <= j < it);
      assert !now[j];
    } else {
      assert !now[it];
    }
  }

  lemma {:induction false} ForwardScan(bits: seq<bool>, now: seq<bool>, hint: nat, n: nat, e: nat, it: nat, need: nat,
                                       open: bool)
    requires StopsAt(bits, hint, n, e) && TakenTo(bits, now, hint, it) && hint <= it <= e && (open ==> it > 0)
    requires need == CountClear(bits, hint) + n - CountClear(bits, it)
    ensures Lossless(now, hint, it, need) && Seamless(now, hint, it, need, open, false)
    ensures var h := Visit(now, hint, it, need, open); Length(h) == need + 1 && Last(h).pos == e
    decreases e - it
  {
    WordNotFull(bits, now, hint, it);
    assert At(|bits|, it) == it;
    if bits[it] {
      ForwardScan(bits, now, hint, n, e, it + 1, need, if need == 0 then open else false);
    } else if it < e {
      CountMonotone(bits, it + 1, e);
      ForwardScan(bits, now[it := true], hint, n, e, it + 1, need - 1, true);
    } else {
      assert Length<Hit>(Nil) == 0;
    }
  }

  /** On such a bitmap the allocation is exact and no skip jumps over a free block. */
  lemma ForwardExact(bits: seq<bool>, hint: nat, n: nat, e: nat)
    requires StopsAt(bits, hint, n, e)
    ensures AllocExact(bits, hint, n) && Lossless(bits, hint, hint, n) && Last(Lap(bits, hint, n)).pos == e
  {
    ForwardScan(bits, bits, hint, n, e, hint, n, false);
    ExactIffSeamless(bits, hint, n);
  }
}
