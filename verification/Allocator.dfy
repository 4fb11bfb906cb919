/** The block allocator, changing its bitmap in place. */
module Allocator {
  import opened AllocSpec
  import opened AllocScan

  datatype AllocResult = Granted | TooFew | NoSpace

  predicate InRange(s: seq<nat>, n: nat) {
    forall k | 0 <= k < |s| :: s[k] < n
  }

  class BlockAllocator {
    const bits: array<bool>
    const nrTotal: nat
    var nrFree: nat
    var hint: nat

    ghost predicate Valid()
      reads this
    {
      bits.Length == nrTotal && nrTotal > 0 && nrTotal % 512 == 0 && hint < nrTotal
    }

    /** The counter agrees with the bitmap. */
    ghost predicate Counted()
      reads this, bits
    {
      nrFree == CountClear(bits[..], bits.Length)
    }

    constructor (nrTotal: nat)
      requires nrTotal > 0 && nrTotal % 512 == 0
      ensures Valid() && fresh(bits) && this.nrTotal == nrTotal && nrFree == 0 && hint == 0
    {
      bits := new bool[nrTotal](_ => false);
      this.nrTotal := nrTotal;
      nrFree, hint := 0, 0;
    }

    /** Loads one 512-bit entry and counts its free blocks, a whole empty word at a time. */
    method InitBitmapEntry(entry: nat, src: seq<bool>)
      requires Valid() && |src| == 512 && (entry + 1) * 512 <= nrTotal
      modifies this`nrFree, bits
      ensures Valid()
      ensures bits[..] == old(bits[..])[..entry * 512] + src + old(bits[..])[(entry + 1) * 512..]
      ensures nrFree == old(nrFree) + CountClear(bits[..], (entry + 1) * 512) - CountClear(bits[..], entry * 512)
    {
      forall j | 0 <= j < 512 {
        bits[entry * 512 + j] := src[j];
      }
      assert bits[..] == old(bits[..])[..entry * 512] + src + old(bits[..])[(entry + 1) * 512..];
      var total := CountEntry(entry);
      nrFree := nrFree + total;
    }

    /** The free blocks of one entry, counted a whole empty word at a time. */
    method CountEntry(entry: nat) returns (total: nat)
      requires Valid() && (entry + 1) * 512 <= nrTotal
      ensures total == CountClear(bits[..], (entry + 1) * 512) - CountClear(bits[..], entry * 512)
    {
      var i, end := entry * 512, entry * 512 + 512;
      EntryAligned(bits[..], entry, end);
      total := 0;
      while i < end
        invariant i <= end && CountAligned(bits[..], i, end)
        invariant total == CountClear(bits[..], i) - CountClear(bits[..], entry * 512)
      {
        var n;
        n, i := CountStep(i, end);
        total := total + n;
      }
    }

    /** One round of the count: an empty word at once, or one bit. */
    method CountStep(i: nat, end: nat) returns (n: nat, next: nat)
      requires i < end <= bits.Length && CountAligned(bits[..], i, end)
      ensures i < next <= end && CountAligned(bits[..], next, end)
      ensures n == CountClear(bits[..], next) - CountClear(bits[..], i)
    {
      CountNext(bits[..], i, end);
      var empty := EmptyWord(bits[..], i);
      if i + 64 < end && empty {
        n, next := 64, i + 64;
      } else {
        n, next := if bits[i] then 0 else 1, i + 1;
      }
    }

    /** Next-fit search from the hint, as the code runs it. */
    method AllocSpace(sz: nat) returns (rc: AllocResult, ex: seq<Extent>)
      requires Valid() && sz > 0
      modifies this, bits
      ensures Valid()
      ensures old(nrFree) < sz ==> rc == TooFew && ex == [] && unchanged(this) && bits[..] == old(bits[..])
      ensures old(nrFree) >= sz ==>
        var lap := Lap(old(bits[..]), old(hint), sz);
        var taken := Front(lap, sz);
        && bits[..] == SetHits(old(bits[..]), taken) && ex == AddHits([], taken)
        && (Length(lap) == sz + 1 ==> rc == Granted && hint == Last(lap).pos && nrFree == old(nrFree) - sz)
        && (Length(lap) != sz + 1 ==> rc == NoSpace && hint == old(hint) && nrFree == old(nrFree))
      ensures rc == Granted ==> !bits[hint]
    {
      if nrFree < sz {
        return TooFew, [];
      }
      ScanIsVisit(bits[..], hint, hint, sz, false, []);
      VisitFree(bits[..], hint, hint, sz, false);
      ghost var b, lap := bits[..], Lap(bits[..], hint, sz);
      rc, ex := Search(sz);
      if rc == Granted {
        NextHintFree(b, lap, sz);
        assert bits[..][hint] == bits[hint];
      }
    }

    /** The scan itself: one lap from the hint. */
    method Search(sz: nat) returns (rc: AllocResult, ex: seq<Extent>)
      requires Valid() && sz > 0 && nrFree >= sz
      modifies this, bits
      ensures Valid()
      ensures var r := Scan(old(bits[..]), old(hint), old(hint), sz, false, []);
              && bits[..] == r.bits && ex == r.ex && rc == (if r.found then Granted else NoSpace)
              && hint == (if r.found then r.next else old(hint))
              && nrFree == (if r.found then old(nrFree) - sz else old(nrFree))
    {
      ex := [];
      ghost var h, goal := hint, Scan(bits[..], hint, hint, sz, false, []);
      var it, rsv, inFound, done := hint, 0, false, false;
      while it < nrTotal + hint
        invariant Valid() && hint == h && nrFree == old(nrFree)
        invariant rsv <= sz && (inFound ==> ex != [])
        invariant goal == Scan(bits[..], h, it, sz - rsv, inFound, ex)
        decreases nrTotal + hint - it
      {
        var i := Modulo(it, nrTotal);
        done, it, rsv, inFound, ex := ScanStep(it, i, rsv, sz, inFound, ex);
        if done {
          hint := i;
          nrFree := nrFree - sz;
          return Granted, ex;
        }
      }
      return NoSpace, ex;
    }

    /** One round of the loop: skip a full word, or look at one bit. */
    method ScanStep(it: nat, i: nat, rsv: nat, sz: nat, inFound: bool, ex: seq<Extent>)
      returns (done: bool, it': nat, rsv': nat, inFound': bool, ex': seq<Extent>)
      requires Valid() && it < nrTotal + hint && i == At(nrTotal, it) && rsv <= sz && (inFound ==> ex != [])
      modifies bits
      ensures it' > it && rsv <= rsv' <= sz && (inFound' ==> ex' != [])
      ensures var was := Scan(old(bits[..]), hint, it, sz - rsv, inFound, ex);
              was == if done then Outcome(bits[..], ex', true, i)
                  else Scan(bits[..], hint, it', sz - rsv', inFound', ex')
    {
      ghost var b := bits[..];
      done, it', rsv', inFound', ex' := false, it + 1, rsv, inFound, ex;
      var full := FullWord(bits[..], i);
      if full {
        it' := it + 65;
        return;
      }
      var grow;
      done, grow, inFound', ex' := ScanBit(i, rsv == sz, inFound, ex);
      if grow {
        assert bits[..] == b[i := true];
        rsv' := rsv + 1;
      }
    }

    /** One bit of a word that is not full: take it, close the open extent, or stop at it. */
    method ScanBit(i: nat, endFlag: bool, inFound: bool, ex: seq<Extent>)
      returns (done: bool, grow: bool, inFound': bool, ex': seq<Extent>)
      requires i < bits.Length && (inFound ==> ex != [])
      modifies bits
      ensures done == (endFlag && !old(bits[i])) && grow == (!endFlag && !old(bits[i]))
      ensures inFound' == if endFlag then inFound else grow
      ensures bits[..] == if grow then old(bits[..])[i := true] else old(bits[..])
      ensures ex' == if grow then AddHit(ex, Hit(i, !inFound)) else ex
    {
      done, grow, inFound', ex' := false, false, inFound, ex;
      if !endFlag {
        if !bits[i] {
          grow, inFound' := true, true;
          ex' := TakeBlock(i, inFound, ex);
        } else {
          inFound' := false;
        }
      } else if !bits[i] {
        done := true;
      }
    }

    /** Sets block `i` and adds it to the open extent, or to a new one. */
    method TakeBlock(i: nat, open: bool, ex: seq<Extent>) returns (r: seq<Extent>)
      requires i < bits.Length && (open ==> ex != [])
      modifies bits
      ensures bits[..] == old(bits[..])[i := true]
      ensures r == AddHit(ex, Hit(i, !open))
    {
      r := ex;
      if !open {
        r := r + [Extent(i, 0)];
      }
      var last := |r| - 1;
      r := r[last := Extent(r[last].lba, r[last].len + 1)];
      bits[i] := true;
    }

    /** Clears the bits of the given extents. */
    method FreeSpace(ex: seq<Extent>)
      requires Valid() && InRange(Flatten(ex), nrTotal)
      modifies this`nrFree, bits
      ensures Valid()
      ensures bits[..] == SetAll(old(bits[..]), Flatten(ex), false) && nrFree == old(nrFree) + |Flatten(ex)|
    {
      ghost var b0 := bits[..];
      var total := 0;
      assert SetAll(b0, [], false) == b0;
      for i := 0 to |ex|
        invariant nrFree == old(nrFree)
        invariant bits[..] == SetAll(b0, Flatten(ex[..i]), false) && total == |Flatten(ex[..i])|
      {
        FlattenNext(ex, i);
        assert Flatten(ex[..i]) + Blocks(ex[i])[..0] == Flatten(ex[..i]);
        for j := 0 to ex[i].len
          invariant nrFree == old(nrFree)
          invariant bits[..] == SetAll(b0, Flatten(ex[..i]) + Blocks(ex[i])[..j], false)
          invariant total == |Flatten(ex[..i])| + j
        {
          var block := ex[i].lba + j;
          BlockInRange(ex, i, j, nrTotal);
          ghost var s := Flatten(ex[..i]) + Blocks(ex[i])[..j];
          assert Flatten(ex[..i]) + Blocks(ex[i])[..j + 1] == s + [block];
          total := total + 1;
          bits[block] := false;
          SetOneMore(b0, s, block, false);
        }
        assert Blocks(ex[i])[..ex[i].len] == Blocks(ex[i]);
      }
      assert ex[..|ex|] == ex;
      nrFree := nrFree + total;
    }
  }

  datatype Outcome = Outcome(bits: seq<bool>, ex: seq<Extent>, found: bool, next: nat)

  /** The rest of the scan from its loop variables: the bitmap and extents it ends with, and the block it stops at. */
  ghost function Scan(bits: seq<bool>, hint: nat, it: nat, need: nat, open: bool, ex: seq<Extent>): Outcome
    requires hint < |bits|
    decreases |bits| + hint - it
  {
    if it >= |bits| + hint then Outcome(bits, ex, false, 0)
    else
      var i := At(|bits|, it);
      if FullWord(bits, i) then Scan(bits, hint, it + 65, need, open, ex)
      else if bits[i] then Scan(bits, hint, it + 1, need, if need == 0 then open else false, ex)
      else if need == 0 then Outcome(bits, ex, true, i)
      else Scan(bits[i := true], hint, it + 1, need - 1, true, AddHit(ex, Hit(i, !open)))
  }

  /** The loop's result in terms of the hits of the scan. */
  lemma {:induction false} ScanIsVisit(bits: seq<bool>, hint: nat, it: nat, need: nat, open: bool, ex: seq<Extent>)
    requires hint < |bits|
    ensures var h := Visit(bits, hint, it, need, open);
            && Length(h) <= need + 1
            && Scan(bits, hint, it, need, open, ex)
            == Outcome(SetHits(bits, Front(h, need)), AddHits(ex, Front(h, need)), Length(h) == need + 1,
                       if Length(h) == need + 1 then Last(h).pos else 0)
    decreases |bits| + hint - it
  {
    if it < |bits| + hint {
      var i := At(|bits|, it);
      if FullWord(bits, i) {
        ScanIsVisit(bits, hint, it + 65, need, open, ex);
      } else if bits[i] {
        ScanIsVisit(bits, hint, it + 1, need, if need == 0 then open else false, ex);
      } else if need > 0 {
        ScanIsVisit(bits[i := true], hint, it + 1, need - 1, true, AddHit(ex, Hit(i, !open)));
      }
    }
  }

  method Modulo(it: nat, total: nat) returns (i: nat)
    requires it < 2 * total
    ensures i == At(total, it) < total
  {
    AtIsModulo(total, it);
    i := it % total;
  }

  predicate AllFree(bits: seq<bool>, a: nat, b: nat)
    decreases b - a
  {
    a >= b || a >= |bits| || (!bits[a] && AllFree(bits, a + 1, b))
  }

  /** No bit of the 64-bit word that holds bit `i` is set. */
  predicate EmptyWord(bits: seq<bool>, i: nat) {
    AllFree(bits, i / 64 * 64, i / 64 * 64 + 64)
  }

  /** Away from the end, an empty word is only met at its first bit. */
  predicate CountAligned(bits: seq<bool>, i: nat, end: nat) {
    i % 64 == 0 || i + 64 >= end || !EmptyWord(bits, i)
  }

  lemma EntryAligned(bits: seq<bool>, entry: nat, end: nat)
    ensures CountAligned(bits, entry * 512, end)
  {
    assert entry * 512 == 64 * (8 * entry);
  }

  lemma CountNext(bits: seq<bool>, i: nat, end: nat)
    requires i < end <= |bits| && CountAligned(bits, i, end)
    ensures if i + 64 < end && EmptyWord(bits, i)
            then CountClear(bits, i + 64) == CountClear(bits, i) + 64 && CountAligned(bits, i + 64, end)
            else CountAligned(bits, i + 1, end)
  {
    if i + 64 < end && EmptyWord(bits, i) {
      CountRun(bits, i, i + 64);
    } else if i + 64 < end && (i + 1) % 64 != 0 {
      assert i / 64 == (i + 1) / 64;
    }
  }

  lemma {:induction false} CountRun(bits: seq<bool>, a: nat, b: nat)
    requires a <= b <= |bits| && AllFree(bits, a, b)
    ensures CountClear(bits, b) == CountClear(bits, a) + (b - a)
    decreases b - a
  {
    if a < b {
      CountRun(bits, a + 1, b);
    }
  }

  lemma {:induction false} CountPrefix(a: seq<bool>, b: seq<bool>, n: nat)
    requires n <= |a| && n <= |b| && a[..n] == b[..n]
    ensures CountClear(a, n) == CountClear(b, n)
    decreases n
  {
    if n > 0 {
      assert a[..n][n - 1] == b[..n][n - 1];
      assert a[..n - 1] == a[..n][..n - 1] == b[..n][..n - 1] == b[..n - 1];
      CountPrefix(a, b, n - 1);
    }
  }

  lemma FlattenNext(ex: seq<Extent>, i: nat)
    requires i < |ex|
    ensures Flatten(ex[..i + 1]) == Flatten(ex[..i]) + Blocks(ex[i])
  {
    assert ex[..i + 1][..i] == ex[..i];
  }

  lemma {:induction false} BlockInRange(ex: seq<Extent>, i: nat, j: nat, n: nat)
    requires i < |ex| && j < ex[i].len && InRange(Flatten(ex), n)
    ensures ex[i].lba + j < n
    decreases |ex|
  {
    var front := ex[..|ex| - 1];
    if i == |ex| - 1 {
      assert Flatten(ex)[|Flatten(front)| + j] == Blocks(ex[i])[j];
    } else {
      forall k | 0 <= k < |Flatten(front)| ensures Flatten(front)[k] < n {
        assert Flatten(front)[k] == Flatten(ex)[k];
      }
      BlockInRange(front, i, j, n);
    }
  }

  // ---------- counting and undoing ----------

  /** A granted request takes exactly `sz` free blocks, so the counter stays right; a request refused after the scan
      keeps the bits it set, and leaves the counter right only if it set none. */
  lemma CounterAfterAlloc(bits: seq<bool>, hint: nat, sz: nat)
    requires hint < |bits|
    ensures var lap := Lap(bits, hint, sz);
            var left := CountClear(SetHits(bits, Front(lap, sz)), |bits|);
            && (Length(lap) == sz + 1 ==> left == CountClear(bits, |bits|) - sz)
            && (Length(lap) != sz + 1 ==> left == CountClear(bits, |bits|) - Length(lap))
  {
    var lap := Lap(bits, hint, sz);
    VisitFree(bits, hint, hint, sz, false);
    FrontFree(bits, lap, sz);
    CountHits(bits, Front(lap, sz));
  }

  /** An exact allocation returns `sz` distinct blocks that were free, and sets exactly their bits. */
  lemma ExactBlocks(bits: seq<bool>, hint: nat, sz: nat)
    requires hint < |bits| && AllocExact(bits, hint, sz)
    ensures var taken := Front(Lap(bits, hint, sz), sz);
            var blocks := Flatten(AddHits([], taken));
            && |blocks| == sz && AllClear(bits, blocks) && Distinct(blocks)
            && SetHits(bits, taken) == SetAll(bits, blocks, true)
  {
    var lap := Lap(bits, hint, sz);
    VisitFree(bits, hint, hint, sz, false);
    FrontFree(bits, lap, sz);
    PositionsFree(bits, Front(lap, sz));
    ExtentsExact(Front(lap, sz));
  }

  /** Freeing what an exact allocation returned gives back the bitmap it started from. */
  lemma AllocThenFree(bits: seq<bool>, hint: nat, sz: nat)
    requires hint < |bits| && AllocExact(bits, hint, sz)
    ensures var taken := Front(Lap(bits, hint, sz), sz);
            SetAll(SetHits(bits, taken), Flatten(AddHits([], taken)), false) == bits
  {
    var taken := Front(Lap(bits, hint, sz), sz);
    var s := Flatten(AddHits([], taken));
    ExactBlocks(bits, hint, sz);
    SetAllAt(bits, s, true);
    SetAllAt(SetAll(bits, s, true), s, false);
  }

  /** The counter is right after a free exactly when every block freed was allocated, and none was freed twice. */
  lemma {:induction false} CounterAfterFree(bits: seq<bool>, s: seq<nat>)
    requires InRange(s, |bits|)
    ensures CountClear(SetAll(bits, s, false), |bits|) <= CountClear(bits, |bits|) + |s|
    ensures CountClear(SetAll(bits, s, false), |bits|) == CountClear(bits, |bits|) + |s|
       <==> Distinct(s) && forall k | 0 <= k < |s| :: bits[s[k]]
    decreases |s|
  {
    if s == [] {
      assert SetAll(bits, s, false) == bits;
    } else {
      var n := |s| - 1;
      var front := s[..n];
      CounterAfterFree(bits, front);
      var b := SetAll(bits, front, false);
      SetAllAt(bits, front, false);
      assert s == front + [s[n]];
      SetOneMore(bits, front, s[n], false);
      CountClearOne(b, s[n], |bits|);
      assert Distinct(s) <==> Distinct(front) && s[n] !in front;
      assert b[s[n]] <==> bits[s[n]] && s[n] !in front;
    }
  }

  lemma {:induction false} CountClearOne(bits: seq<bool>, i: nat, n: nat)
    requires i < |bits| && n <= |bits|
    ensures CountClear(bits[i := false], n) == CountClear(bits, n) + if i < n && bits[i] then 1 else 0
    decreases n
  {
    if n > 0 {
      CountClearOne(bits, i, n - 1);
    }
  }
}
