/** The bitmap that hands out operation slots: a set bit is a free slot. */
module Bitmap {

  /** The first set bit from `a` up to `b`, or `b`. */
  function FirstSet(bits: seq<bool>, a: nat, b: nat): (i: nat)
    requires a <= b <= |bits|
    decreases b - a
  {
    if a == b || bits[a] then a else FirstSet(bits, a + 1, b)
  }

  lemma {:induction false} FirstSetIs(bits: seq<bool>, a: nat, b: nat)
    requires a <= b <= |bits|
    ensures var i := FirstSet(bits, a, b);
            a <= i <= b && (i < b ==> bits[i]) && forall j | a <= j < i :: !bits[j]
    decreases b - a
  {
    if a < b && !bits[a] {
      FirstSetIs(bits, a + 1, b);
    }
  }

  /** Searching on from a point where nothing was found before. */
  lemma {:induction false} FirstSetFrom(bits: seq<bool>, a: nat, m: nat, b: nat)
    requires a <= m <= b <= |bits|
    ensures FirstSet(bits, a, b) == if FirstSet(bits, a, m) < m then FirstSet(bits, a, m) else FirstSet(bits, m, b)
    decreases m - a
  {
    if a < m && !bits[a] {
      FirstSetFrom(bits, a + 1, m, b);
    }
    FirstSetIs(bits, a, m);
  }

  /** The search: from the first bit of the hint's word to the end, then from the start up to that word. */
  function NextFree(bits: seq<bool>, hint: nat): (i: nat)
    requires hint <= |bits|
  {
    var start := hint / 64 * 64;
    var i := FirstSet(bits, start, |bits|);
    if i < |bits| then i
    else var k := FirstSet(bits, 0, start); if k < start then k else |bits|
  }

  /** It finds a free slot exactly when there is one. */
  lemma NextFreeFinds(bits: seq<bool>, hint: nat)
    requires hint <= |bits|
    ensures NextFree(bits, hint) <= |bits|
    ensures NextFree(bits, hint) < |bits| ==> bits[NextFree(bits, hint)]
    ensures NextFree(bits, hint) < |bits| <==> exists i :: 0 <= i < |bits| && bits[i]
  {
    var start := hint / 64 * 64;
    FirstSetIs(bits, start, |bits|);
    FirstSetIs(bits, 0, start);
    if i :| 0 <= i < |bits| && bits[i] {
      assert i < start || start <= i;
    }
  }

  /** And the one it finds is the next from the start of the hint's word, in cyclic order. */
  lemma NextFreeIsNext(bits: seq<bool>, hint: nat, j: nat)
    requires hint <= |bits| && j < |bits| && bits[j]
    ensures var i, start := NextFree(bits, hint), hint / 64 * 64;
            i < |bits| && (if i >= start then i else i + |bits|) <= (if j >= start then j else j + |bits|)
  {
    var start := hint / 64 * 64;
    FirstSetIs(bits, start, |bits|);
    FirstSetIs(bits, 0, start);
  }

  function Words(bitLength: nat): nat {
    (bitLength + 63) / 64
  }

  class SlotBitmap {
    const bitLength: nat
    const bits: array<bool>

    ghost predicate Valid()
      reads this
    {
      bits.Length == 64 * Words(bitLength)
    }

    /** Whole words are initialised, past the last bit if need be. */
    constructor (bitLength: nat, value: bool)
      ensures Valid() && this.bitLength == bitLength && fresh(bits)
              && forall i | 0 <= i < bits.Length :: bits[i] == value
    {
      this.bitLength := bitLength;
      bits := new bool[64 * Words(bitLength)](_ => value);
    }

    method SetBit(i: nat)
      requires Valid() && i < bits.Length
      modifies bits
      ensures bits[..] == old(bits[..])[i := true]
    {
      bits[i] := true;
    }

    method ClrBit(i: nat)
      requires Valid() && i < bits.Length
      modifies bits
      ensures bits[..] == old(bits[..])[i := false]
    {
      bits[i] := false;
    }

    function GetBit(i: nat): bool
      requires Valid() && i < bits.Length
      reads this, bits
    {
      bits[i]
    }

    /** Word by word, from the word of the hint to the last, then from the first to the one before it. */
    method NextSet(hint: nat) returns (i: int)
      requires Valid() && hint <= bits.Length
      ensures i == if NextFree(bits[..], hint) < bits.Length then NextFree(bits[..], hint) else -1
    {
      FirstSetIs(bits[..], hint / 64 * 64, bits.Length);
      FirstSetIs(bits[..], 0, hint / 64 * 64);
      i := ScanWords(hint / 64, bits.Length / 64);
      if i < 0 {
        i := ScanWords(0, hint / 64);
      }
    }

    method ScanWords(first: nat, end: nat) returns (i: int)
      requires Valid() && first <= end && 64 * end <= bits.Length
      ensures var k := FirstSet(bits[..], 64 * first, 64 * end); i == if k < 64 * end then k else -1
    {
      ghost var b := bits[..];
      var w := first;
      while w < end
        invariant first <= w <= end && FirstSet(b, 64 * first, 64 * end) == FirstSet(b, 64 * w, 64 * end)
      {
        var k := FirstSet(bits[..], 64 * w, 64 * w + 64);
        FirstSetFrom(b, 64 * w, 64 * w + 64, 64 * end);
        FirstSetIs(b, 64 * w, 64 * w + 64);
        if k < 64 * w + 64 {
          return k;
        }
        w := w + 1;
      }
      return -1;
    }

    method FindNextSetAndClr(hint: nat) returns (i: int)
      requires Valid() && hint <= bits.Length
      modifies bits
      ensures var k := NextFree(old(bits[..]), hint);
              if k < bits.Length then i == k && bits[..] == old(bits[..])[k := false]
              else i == -1 && bits[..] == old(bits[..])
    {
      i := NextSet(hint);
      if i < 0 {
        return -1;
      }
      NextFreeFinds(bits[..], hint);
      ClrBit(i);
    }
  }

  /** The bits of the slots handed out are cleared. */
  function Cleared(n: nat, words: nat): (bits: seq<bool>)
    requires n <= 64 * words
    ensures |bits| == 64 * words && forall i | 0 <= i < |bits| :: bits[i] == (i >= n)
  {
    seq(64 * words, i => i >= n)
  }

  /** Every slot number handed out is below the queue depth, whatever is free, exactly when the depth is a whole
      number of words: otherwise, once all real slots are taken, the bits past the last one are handed out. */
  lemma SlotsInRangeExactly(depth: nat)
    ensures (forall bits: seq<bool>, hint: nat | hint <= |bits| == 64 * Words(depth) && NextFree(bits, hint) < |bits| ::
               NextFree(bits, hint) < depth)
       <==> depth % 64 == 0
  {
    if depth % 64 != 0 {
      var bits := Cleared(depth, Words(depth));
      assert bits[depth];
      NextFreeFinds(bits, 0);
      assert !(NextFree(bits, 0) < depth);
    }
  }
}
