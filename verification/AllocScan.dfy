/** The scan measured against the plain cyclic list of free blocks. */
module AllocScan {
  import opened AllocSpec

  // ---------- what every hit is ----------

  /** The hits are free blocks, each still free when its turn comes: so they are distinct. */
  predicate FreeInTurn(bits: seq<bool>, h: List<Hit>)
    decreases h
  {
    h.Nil? || (h.head.pos < |bits| && !bits[h.head.pos] && FreeInTurn(bits[h.head.pos := true], h.tail))
  }

  lemma {:induction false} VisitFree(bits: seq<bool>, hint: nat, it: nat, need: nat, open: bool)
    requires hint < |bits|
    ensures FreeInTurn(bits, Visit(bits, hint, it, need, open)) && Length(Visit(bits, hint, it, need, open)) <= need + 1
    decreases |bits| + hint - it
  {
    if it < |bits| + hint {
      var i := At(|bits|, it);
      if FullWord(bits, i) {
        VisitFree(bits, hint, it + 65, need, open);
      } else if bits[i] {
        VisitFree(bits, hint, it + 1, need, if need == 0 then open else false);
      } else if need > 0 {
        VisitFree(bits[i := true], hint, it + 1, need - 1, true);
      }
    }
  }

  lemma {:induction false} FrontFree(bits: seq<bool>, h: List<Hit>, n: nat)
    requires FreeInTurn(bits, h)
    ensures FreeInTurn(bits, Front(h, n)) && Length(Front(h, n)) == if Length(h) < n then Length(h) else n
    decreases h
  {
    if h.Cons? && n > 0 {
      FrontFree(bits[h.head.pos := true], h.tail, n - 1);
    }
  }

  predicate Distinct(s: seq<nat>) {
    forall j, k | 0 <= j < k < |s| :: s[j] != s[k]
  }

  predicate AllClear(bits: seq<bool>, s: seq<nat>) {
    forall k | 0 <= k < |s| :: s[k] < |bits| && !bits[s[k]]
  }

  lemma {:induction false} PositionsFree(bits: seq<bool>, h: List<Hit>)
    requires FreeInTurn(bits, h)
    ensures AllClear(bits, Positions(h)) && Distinct(Positions(h))
    ensures SetHits(bits, h) == SetAll(bits, Positions(h), true)
    decreases h
  {
    if h.Cons? {
      var x, t := h.head.pos, Positions(h.tail);
      PositionsFree(bits[x := true], h.tail);
      ConsClear(bits, x, t);
      SetFirst(bits, x, t, true);
    }
  }

  lemma ConsClear(bits: seq<bool>, i: nat, t: seq<nat>)
    requires i < |bits| && !bits[i] && AllClear(bits[i := true], t) && Distinct(t)
    ensures AllClear(bits, [i] + t) && Distinct([i] + t)
  {
    var s := [i] + t;
    assert forall k | 0 < k < |s| :: s[k] == t[k - 1];
  }

  lemma SetFirst(bits: seq<bool>, x: nat, s: seq<nat>, v: bool)
    requires x < |bits|
    ensures SetAll(bits, [x] + s, v) == SetAll(bits[x := v], s, v)
  {
    SetAllAt(bits, [x] + s, v);
    SetAllAt(bits[x := v], s, v);
  }

  // ---------- counting ----------

  lemma {:induction false} CountSetOne(bits: seq<bool>, i: nat, n: nat)
    requires i < |bits| && !bits[i] && n <= |bits|
    ensures CountClear(bits[i := true], n) == CountClear(bits, n) - if i < n then 1 else 0
    decreases n
  {
    if n > 0 {
      CountSetOne(bits, i, n - 1);
    }
  }

  lemma {:induction false} CountHits(bits: seq<bool>, h: List<Hit>)
    requires FreeInTurn(bits, h)
    ensures Length(h) <= CountClear(bits, |bits|)
    ensures CountClear(SetHits(bits, h), |bits|) == CountClear(bits, |bits|) - Length(h)
    decreases h
  {
    if h.Cons? {
      CountSetOne(bits, h.head.pos, |bits|);
      CountHits(bits[h.head.pos := true], h.tail);
    }
  }

  /** A successful allocation leaves at least one block free; taking the last ones is reported as no space. */
  lemma SuccessNeedsSpare(bits: seq<bool>, hint: nat, sz: nat)
    requires hint < |bits| && Length(Lap(bits, hint, sz)) == sz + 1
    ensures CountClear(bits, |bits|) > sz
  {
    VisitFree(bits, hint, hint, sz, false);
    CountHits(bits, Lap(bits, hint, sz));
  }

  /** The block the scan stops at is still free once the others are taken: the next search starts at a free block. */
  lemma {:induction false} NextHintFree(bits: seq<bool>, h: List<Hit>, n: nat)
    requires FreeInTurn(bits, h) && Length(h) == n + 1
    ensures Last(h).pos < |bits| && !SetHits(bits, Front(h, n))[Last(h).pos]
    decreases n
  {
    if n > 0 {
      NextHintFree(bits[h.head.pos := true], h.tail, n - 1);
    }
  }

  // ---------- the plain cyclic list ----------

  /** The free blocks met from position `it` to the end of the lap, block by block. */
  function FreeFrom(bits: seq<bool>, hint: nat, it: nat): List<nat>
    requires hint < |bits|
    decreases |bits| + hint - it
  {
    if it >= |bits| + hint then Nil
    else if bits[At(|bits|, it)] then FreeFrom(bits, hint, it + 1)
    else Cons(At(|bits|, it), FreeFrom(bits, hint, it + 1))
  }

  /** The hits are the first `n` blocks of the list, or all of it when it is shorter. */
  predicate FirstOf(h: List<Hit>, f: List<nat>, n: nat) {
    if n == 0 || f.Nil? then h.Nil?
    else h.Cons? && h.head.pos == f.head && FirstOf(h.tail, f.tail, n - 1)
  }

  /** The 65 positions a skip passes over hold no free block. */
  predicate SkipHarmless(bits: seq<bool>, hint: nat, it: nat)
    requires hint < |bits|
  {
    forall t: nat | it <= t < it + 65 && t < |bits| + hint :: bits[At(|bits|, t)]
  }

  /** No skip the scan makes jumps over a free block. */
  predicate Lossless(bits: seq<bool>, hint: nat, it: nat, need: nat)
    requires hint < |bits|
    decreases |bits| + hint - it
  {
    it >= |bits| + hint ||
    var i := At(|bits|, it);
    if FullWord(bits, i) then SkipHarmless(bits, hint, it) && Lossless(bits, hint, it + 65, need)
    else if bits[i] then Lossless(bits, hint, it + 1, need)
    else need == 0 || Lossless(bits[i := true], hint, it + 1, need - 1)
  }

  lemma {:induction false} FreeFromSkip(bits: seq<bool>, hint: nat, it: nat, n: nat)
    requires hint < |bits|
    requires forall t: nat | it <= t < it + n && t < |bits| + hint :: bits[At(|bits|, t)]
    ensures FreeFrom(bits, hint, it) == FreeFrom(bits, hint, it + n)
    decreases n
  {
    if n > 0 {
      FreeFromSkip(bits, hint, it + 1, n - 1);
    }
  }

  /** Setting a bit already passed changes nothing ahead. */
  lemma {:induction false} FreeFromUpdate(bits: seq<bool>, hint: nat, it: nat, i: nat)
    requires hint < |bits| && i < |bits|
    requires forall t: nat | it <= t < |bits| + hint :: At(|bits|, t) != i
    ensures FreeFrom(bits[i := true], hint, it) == FreeFrom(bits, hint, it)
    decreases |bits| + hint - it
  {
    if it < |bits| + hint {
      FreeFromUpdate(bits, hint, it + 1, i);
    }
  }

  /** The scan's next hit is still ahead in the lap. */
  lemma {:induction false} VisitAhead(bits: seq<bool>, hint: nat, it: nat, need: nat, open: bool) returns (t: nat)
    requires hint < |bits| && Visit(bits, hint, it, need, open).Cons?
    ensures it <= t < |bits| + hint && At(|bits|, t) == Visit(bits, hint, it, need, open).head.pos
    decreases |bits| + hint - it
  {
    var i := At(|bits|, it);
    if FullWord(bits, i) {
      t := VisitAhead(bits, hint, it + 65, need, open);
    } else if bits[i] {
      t := VisitAhead(bits, hint, it + 1, need, if need == 0 then open else false);
    } else {
      t := it;
    }
  }

  /** The first free block a harmful skip passes over is the one the plain list has next. */
  lemma {:induction false} FirstMissed(bits: seq<bool>, hint: nat, it: nat, n: nat) returns (t: nat)
    requires hint < |bits|
    requires exists t: nat :: it <= t < it + n && t < |bits| + hint && !bits[At(|bits|, t)]
    ensures it <= t < it + n && t < |bits| + hint
    ensures FreeFrom(bits, hint, it).Cons? && FreeFrom(bits, hint, it).head == At(|bits|, t)
    decreases n
  {
    if !bits[At(|bits|, it)] {
      t := it;
    } else {
      var t': nat :| it <= t' < it + n && t' < |bits| + hint && !bits[At(|bits|, t')];
      assert t' >= it + 1;
      t := FirstMissed(bits, hint, it + 1, n - 1);
    }
  }

  /** The scan takes the next free blocks in cyclic order. */
  predicate ScanAgrees(bits: seq<bool>, hint: nat, it: nat, need: nat, open: bool)
    requires hint < |bits|
  {
    FirstOf(Visit(bits, hint, it, need, open), FreeFrom(bits, hint, it), need + 1)
  }

  /** The scan takes the next free blocks in cyclic order exactly when no skip jumps over a free one. */
  lemma {:induction false} ScanExact(bits: seq<bool>, hint: nat, it: nat, need: nat, open: bool)
    requires hint < |bits| && hint <= it
    ensures ScanAgrees(bits, hint, it, need, open) == Lossless(bits, hint, it, need)
    decreases |bits| + hint - it
  {
    if it < |bits| + hint {
      var i := At(|bits|, it);
      if FullWord(bits, i) {
        ScanExact(bits, hint, it + 65, need, open);
        SkipExact(bits, hint, it, need, open);
      } else if bits[i] {
        ScanExact(bits, hint, it + 1, need, if need == 0 then open else false);
      } else if need > 0 {
        ScanExact(bits[i := true], hint, it + 1, need - 1, true);
        FreeFromUpdate(bits, hint, it + 1, i);
      } else {
        assert FirstOf(Nil, FreeFrom(bits, hint, it + 1), 0);
      }
    }
  }

  lemma SkipExact(bits: seq<bool>, hint: nat, it: nat, need: nat, open: bool)
    requires hint < |bits| && hint <= it < |bits| + hint && FullWord(bits, At(|bits|, it))
    ensures ScanAgrees(bits, hint, it, need, open)
         == (SkipHarmless(bits, hint, it) && ScanAgrees(bits, hint, it + 65, need, open))
  {
    if SkipHarmless(bits, hint, it) {
      FreeFromSkip(bits, hint, it, 65);
    } else {
      var t := FirstMissed(bits, hint, it, 65);
      if Visit(bits, hint, it + 65, need, open).Cons? {
        var t' := VisitAhead(bits, hint, it + 65, need, open);
      }
    }
  }

  // ---------- completeness ----------

  lemma {:induction false} FreeFromCount(bits: seq<bool>, hint: nat, it: nat)
    requires hint < |bits| && hint <= it <= |bits| + hint
    ensures Length(FreeFrom(bits, hint, it)) == if it < |bits|
      then CountClear(bits, |bits|) - CountClear(bits, it) + CountClear(bits, hint)
      else CountClear(bits, hint) - CountClear(bits, it - |bits|)
    decreases |bits| + hint - it
  {
    if it < |bits| + hint {
      FreeFromCount(bits, hint, it + 1);
      assert it + 1 == |bits| ==> CountClear(bits, 0) == 0;
    }
  }

  lemma {:induction false} FirstOfLength(h: List<Hit>, f: List<nat>, n: nat)
    requires FirstOf(h, f, n)
    ensures Length(h) == if Length(f) < n then Length(f) else n
    decreases n
  {
    if n > 0 && f.Cons? {
      FirstOfLength(h.tail, f.tail, n - 1);
    }
  }

  /** When no skip jumps over a free block, a request for `sz` blocks is granted exactly when more than `sz` are free,
      and it takes the next ones in cyclic order. */
  lemma CompleteWhenLossless(bits: seq<bool>, hint: nat, sz: nat)
    requires hint < |bits| && Lossless(bits, hint, hint, sz)
    ensures Length(Lap(bits, hint, sz)) == sz + 1 <==> CountClear(bits, |bits|) > sz
    ensures FirstOf(Lap(bits, hint, sz), FreeFrom(bits, hint, hint), sz + 1)
  {
    ScanExact(bits, hint, hint, sz, false);
    FreeFromCount(bits, hint, hint);
    FirstOfLength(Lap(bits, hint, sz), FreeFrom(bits, hint, hint), sz + 1);
  }

  // ---------- exact allocations ----------

  predicate EveryWordHasRoom(bits: seq<bool>) {
    forall i | 0 <= i < |bits| :: !FullWord(bits, i)
  }

  /** `room` has set at least the bits of `bits`. */
  predicate Above(room: seq<bool>, bits: seq<bool>) {
    |room| == |bits| && forall i | 0 <= i < |bits| :: bits[i] ==> room[i]
  }

  lemma NotFull(bits: seq<bool>, room: seq<bool>, i: nat)
    requires i < |bits| && Above(room, bits) && EveryWordHasRoom(room)
    ensures !FullWord(bits, i)
  {
    assert !FullWord(room, i);
    AllSetBits(bits, i / 64 * 64, i / 64 * 64 + 64);
    AllSetBits(room, i / 64 * 64, i / 64 * 64 + 64);
  }

  /** The allocation succeeds and its extents are the blocks taken. */
  predicate AllocExact(bits: seq<bool>, hint: nat, sz: nat)
    requires hint < |bits|
  {
    Length(Lap(bits, hint, sz)) == sz + 1 && Clean(Front(Lap(bits, hint, sz), sz))
  }

  lemma {:induction false} FirstIsFirst(bits: seq<bool>, hint: nat, it: nat, need: nat)
    requires hint < |bits|
    ensures var h := Visit(bits, hint, it, need, false); h.Cons? ==> h.head.first
    decreases |bits| + hint - it
  {
    if it < |bits| + hint {
      var i := At(|bits|, it);
      if FullWord(bits, i) {
        FirstIsFirst(bits, hint, it + 65, need);
      } else if bits[i] {
        FirstIsFirst(bits, hint, it + 1, need);
      }
    }
  }

  // ---------- the guard on open extents ----------

  /** While blocks are still to be taken, the scan never lands on a free block straight after it has crossed a full
      word, or the wrap, with an extent open. `crossed` says whether it has skipped a full word since the extent last
      grew. */
  predicate Seamless(bits: seq<bool>, hint: nat, it: nat, need: nat, open: bool, crossed: bool)
    requires hint < |bits|
    decreases |bits| + hint - it
  {
    it >= |bits| + hint || need == 0 ||
    var i := At(|bits|, it);
    if FullWord(bits, i) then Seamless(bits, hint, it + 65, need, open, open)
    else if bits[i] then Seamless(bits, hint, it + 1, need, false, false)
    else !(open && (crossed || i == 0)) && Seamless(bits[i := true], hint, it + 1, need - 1, true, false)
  }

  /** Position `q` of the lap, which holds block `prev`, was the last one taken, and `it` is right behind it, or more
      than a word behind it if a full word was crossed. */
  predicate Behind(total: nat, hint: nat, q: nat, prev: nat, it: nat, crossed: bool) {
    hint <= q < total + hint && At(total, q) == prev && if crossed then it > q + 65 else it == q + 1
  }

  lemma {:induction false} SeamlessFrom(bits: seq<bool>, hint: nat, it: nat, need: nat, open: bool, crossed: bool,
                                        q: nat, prev: nat)
    requires hint < |bits| && (open ==> Behind(|bits|, hint, q, prev, it, crossed))
    requires hint <= it && (crossed ==> open)
    ensures Seamless(bits, hint, it, need, open, crossed)
            == CleanFrom(prev, Front(Visit(bits, hint, it, need, open), need))
    decreases |bits| + hint - it
  {
    if it < |bits| + hint && need > 0 {
      var i := At(|bits|, it);
      if FullWord(bits, i) {
        SeamlessFrom(bits, hint, it + 65, need, open, open, q, prev);
      } else if bits[i] {
        SeamlessFrom(bits, hint, it + 1, need, false, false, q, prev);
      } else {
        SeamlessFrom(bits[i := true], hint, it + 1, need - 1, true, false, it, i);
        if open {
          NextTaken(|bits|, hint, q, prev, it, crossed);
        }
      }
    }
  }

  /** Only the position right behind a block, short of the wrap, holds the block after it. */
  lemma NextTaken(total: nat, hint: nat, q: nat, prev: nat, it: nat, crossed: bool)
    requires Behind(total, hint, q, prev, it, crossed) && hint < total && it < total + hint
    ensures At(total, it) == prev + 1 <==> !crossed && At(total, it) != 0
  {
  }

  /** An allocation is exact if and only if it is granted and the scan crosses no full word and no wrap, with an extent
      open, to land on a free block it takes. */
  lemma ExactIffSeamless(bits: seq<bool>, hint: nat, sz: nat)
    requires hint < |bits|
    ensures AllocExact(bits, hint, sz)
       <==> Length(Lap(bits, hint, sz)) == sz + 1 && Seamless(bits, hint, hint, sz, false, false)
  {
    var h := Front(Lap(bits, hint, sz), sz);
    SeamlessFrom(bits, hint, hint, sz, false, false, hint, 0);
    FirstIsFirst(bits, hint, hint, sz);
  }

  // ---------- exact means safe to hand out ----------

  /** Wherever a hit extends an open extent without following it, the block the extent takes instead is not free. */
  predicate Blocked(bits: seq<bool>, prev: nat, h: List<Hit>)
    decreases h
  {
    h.Nil? || (h.head.pos < |bits| && !bits[h.head.pos]
               && (h.head.first || h.head.pos == prev + 1 || Taken(bits, prev + 1))
               && Blocked(bits[h.head.pos := true], h.head.pos, h.tail))
  }

  predicate Taken(bits: seq<bool>, x: nat) {
    x >= |bits| || bits[x]
  }

  lemma {:induction false} VisitBlocked(bits: seq<bool>, hint: nat, it: nat, need: nat, open: bool, prev: nat)
    requires hint < |bits|
    requires open && it < |bits| + hint ==> At(|bits|, it) == prev + 1 || Taken(bits, prev + 1)
    ensures Blocked(bits, prev, Visit(bits, hint, it, need, open))
    decreases |bits| + hint - it
  {
    if it < |bits| + hint {
      var i := At(|bits|, it);
      if FullWord(bits, i) {
        AllSetBits(bits, i / 64 * 64, i / 64 * 64 + 64);
        VisitBlocked(bits, hint, it + 65, need, open, prev);
      } else if bits[i] {
        VisitBlocked(bits, hint, it + 1, need, if need == 0 then open else false, prev);
      } else if need > 0 {
        VisitBlocked(bits[i := true], hint, it + 1, need - 1, true, i);
      }
    }
  }

  lemma {:induction false} BlockedFront(bits: seq<bool>, prev: nat, h: List<Hit>, n: nat)
    requires Blocked(bits, prev, h)
    ensures Blocked(bits, prev, Front(h, n))
    decreases h
  {
    if h.Cons? && n > 0 {
      BlockedFront(bits[h.head.pos := true], h.head.pos, h.tail, n - 1);
    }
  }

  /** `now` is `bits` with the blocks of the extents so far taken. */
  ghost predicate TakenSoFar(bits: seq<bool>, now: seq<bool>, es: seq<Extent>) {
    |now| == |bits| && forall x: nat | x < |bits| :: now[x] == (bits[x] || x in Flatten(es))
  }

  predicate FreeSet(bits: seq<bool>, s: seq<nat>) {
    AllClear(bits, s) && Distinct(s)
  }

  lemma NotFreeSet(bits: seq<bool>, f: seq<nat>, x: nat, s: seq<nat>)
    requires f + [x] <= s && (x < |bits| && !bits[x] ==> x in f)
    ensures !FreeSet(bits, s)
  {
    assert s[|f|] == (f + [x])[|f|] == x;
    if x < |bits| && !bits[x] {
      var j :| 0 <= j < |f| && f[j] == x;
      assert s[j] == (f + [x])[j] == s[|f|];
    }
  }

  lemma TakenNext(bits: seq<bool>, now: seq<bool>, es: seq<Extent>, hit: Hit)
    requires TakenSoFar(bits, now, es) && hit.pos < |bits|
    requires Flatten(AddHit(es, hit)) == Flatten(es) + [hit.pos]
    ensures TakenSoFar(bits, now[hit.pos := true], AddHit(es, hit))
  {
  }

  /** A hit away from the end of the open extent makes the extent name a block that is taken. */
  lemma JumpNotFree(bits: seq<bool>, now: seq<bool>, es: seq<Extent>, hit: Hit, rest: List<Hit>)
    requires es != [] && TakenSoFar(bits, now, es) && !hit.first && Taken(now, End(es))
    ensures !FreeSet(bits, Flatten(AddHits(AddHit(es, hit), rest)))
  {
    FlattenOne(es, hit);
    FlattenGrows(AddHit(es, hit), rest);
    NotFreeSet(bits, Flatten(es), End(es), Flatten(AddHits(AddHit(es, hit), rest)));
  }

  lemma {:induction false} UncleanNotFree(bits: seq<bool>, now: seq<bool>, es: seq<Extent>, h: List<Hit>, prev: nat)
    requires es != [] && End(es) == prev + 1 && TakenSoFar(bits, now, es) && Blocked(now, prev, h)
    requires !CleanFrom(prev, h)
    ensures !FreeSet(bits, Flatten(AddHits(es, h)))
    decreases h
  {
    var hit := h.head;
    if hit.first || hit.pos == prev + 1 {
      FlattenOne(es, hit);
      TakenNext(bits, now, es, hit);
      UncleanNotFree(bits, now[hit.pos := true], AddHit(es, hit), h.tail, hit.pos);
    } else {
      JumpNotFree(bits, now, es, hit, h.tail);
    }
  }

  /** A granted request is exact if and only if the blocks of its extents are distinct and were free: the extents are
      safe to hand out in no other case. */
  lemma ExactIffFree(bits: seq<bool>, hint: nat, sz: nat)
    requires hint < |bits| && Length(Lap(bits, hint, sz)) == sz + 1
    ensures var blocks := Flatten(AddHits([], Front(Lap(bits, hint, sz), sz)));
            AllocExact(bits, hint, sz) == FreeSet(bits, blocks)
  {
    var lap := Lap(bits, hint, sz);
    var h := Front(lap, sz);
    VisitFree(bits, hint, hint, sz, false);
    FrontFree(bits, lap, sz);
    FirstIsFirst(bits, hint, hint, sz);
    if Clean(h) {
      PositionsFree(bits, h);
      ExtentsExact(h);
    } else {
      VisitBlocked(bits, hint, hint, sz, false, 0);
      BlockedFront(bits, 0, lap, sz);
      var es := AddHit([], h.head);
      FlattenOne([], h.head);
      assert Flatten(es) == [h.head.pos];
      UncleanNotFree(bits, bits[h.head.pos := true], es, h.tail, h.head.pos);
    }
  }

  // ---------- where it falls short ----------

  lemma {:induction false} NothingAhead(bits: seq<bool>, hint: nat, it: nat, need: nat, open: bool)
    requires hint < |bits| && forall t: nat | it <= t < |bits| + hint :: bits[At(|bits|, t)]
    ensures Visit(bits, hint, it, need, open) == Nil
    decreases |bits| + hint - it
  {
    if it < |bits| + hint {
      if FullWord(bits, At(|bits|, it)) {
        NothingAhead(bits, hint, it + 65, need, open);
      } else {
        NothingAhead(bits, hint, it + 1, need, if need == 0 then open else false);
      }
    }
  }

  /** 512 blocks, all allocated but the listed ones. */
  function AllBut(free: set<nat>): (bits: seq<bool>)
    ensures |bits| == 512 && forall i | 0 <= i < 512 :: bits[i] == (i !in free)
  {
    seq(512, i => i !in free)
  }

  lemma SkipLap(bits: seq<bool>)
    requires bits == AllBut({5, 71, 72})
    ensures Lap(bits, 5, 2) == Cons(Hit(5, true), Cons(Hit(71, false), Cons(Hit(72, false), Nil)))
  {
    var b1 := bits[5 := true];
    var b2 := b1[71 := true];
    assert !FullWord(bits, 5) by { AllSetBits(bits, 0, 64); }
    assert FullWord(b1, 6) by { AllSetBits(b1, 0, 64); }
    assert !FullWord(b1, 71) by { AllSetBits(b1, 64, 128); assert !b1[71]; }
    assert !FullWord(b2, 72) by { AllSetBits(b2, 64, 128); assert !b2[72]; }
    assert Visit(b2, 5, 72, 0, true) == Cons(Hit(72, false), Nil);
    assert Visit(b1, 5, 71, 1, true) == Cons(Hit(71, false), Cons(Hit(72, false), Nil));
    assert Visit(b1, 5, 6, 1, true) == Cons(Hit(71, false), Cons(Hit(72, false), Nil));
  }

  /** Taking the last free block of a word leaves its extent open over the skip: blocks 5 and 71 are taken, but the
      single extent returned names 5 and 6, and 6 belongs to somebody else. */
  lemma SkipMergesExtents()
    ensures var bits := AllBut({5, 71, 72});
            var h := Front(Lap(bits, 5, 2), 2);
            Positions(h) == [5, 71] && AddHits([], h) == [Extent(5, 2)] && bits[6] && !AllocExact(bits, 5, 2)
  {
    var bits := AllBut({5, 71, 72});
    SkipLap(bits);
    var h := Cons(Hit(5, true), Cons(Hit(71, false), Nil));
    assert Front(Lap(bits, 5, 2), 2) == h;
    assert AddHit([], Hit(5, true)) == [Extent(5, 1)];
    assert AddHit([Extent(5, 1)], Hit(71, false)) == [Extent(5, 2)];
    assert AddHits([], h) == AddHits([Extent(5, 1)], Cons(Hit(71, false), Nil)) == [Extent(5, 2)];
  }

  /** A skip lands one bit too far: with blocks 5 and 70 free a request for one block is refused. */
  lemma SkipMissesFreeBlock()
    ensures var bits := AllBut({5, 70});
            && Positions(Lap(bits, 5, 1)) == [5] && FreeFrom(bits, 5, 5) == Cons(5, FreeFrom(bits, 5, 6))
            && FreeFrom(bits, 5, 6).Cons? && FreeFrom(bits, 5, 6).head == 70 && !Lossless(bits, 5, 5, 1)
  {
    var bits := AllBut({5, 70});
    var b1 := bits[5 := true];
    assert !FullWord(bits, 5) by { AllSetBits(bits, 0, 64); }
    assert FullWord(b1, 6) by { AllSetBits(b1, 0, 64); }
    NothingAhead(b1, 5, 71, 0, true);
    assert Visit(b1, 5, 6, 0, true) == Nil;
    assert Lap(bits, 5, 1) == Cons(Hit(5, true), Nil);
    assert !SkipHarmless(b1, 5, 6) by { assert !b1[At(512, 70)]; }
    FreeFromSkip(bits, 5, 6, 64);
  }
}
