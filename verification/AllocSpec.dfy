/** What the bitmap allocator's scan finds, and when that is what its callers need. */
module AllocSpec {

  datatype List<+T> = Nil | Cons(head: T, tail: List<T>)

  function Length<T>(l: List<T>): nat {
    match l
    case Nil => 0
    case Cons(_, tail) => 1 + Length(tail)
  }

  function Front<T>(l: List<T>, n: nat): List<T> {
    if n == 0 || l.Nil? then Nil else Cons(l.head, Front(l.tail, n - 1))
  }

  // ---------- extents and bitmaps ----------

  /** A run of `len` blocks from block `lba`. */
  datatype Extent = Extent(lba: nat, len: nat)

  function Blocks(e: Extent): (s: seq<nat>)
    ensures |s| == e.len && forall i | 0 <= i < |s| :: s[i] == e.lba + i
  {
    seq(e.len, i requires 0 <= i => e.lba + i)
  }

  /** The blocks of a list of extents, in order. */
  function Flatten(es: seq<Extent>): seq<nat> {
    if es == [] then [] else Flatten(es[..|es| - 1]) + Blocks(es[|es| - 1])
  }

  predicate AllSet(bits: seq<bool>, a: nat, b: nat)
    decreases b - a
  {
    a >= b || a >= |bits| || (bits[a] && AllSet(bits, a + 1, b))
  }

  lemma {:induction false} AllSetBits(bits: seq<bool>, a: nat, b: nat)
    ensures AllSet(bits, a, b) <==> forall j | a <= j < b && j < |bits| :: bits[j]
    decreases b - a
  {
    if a < b && a < |bits| {
      AllSetBits(bits, a + 1, b);
    }
  }

  /** All bits of the 64-bit word that holds bit `i` are set. A set bit means an allocated block. */
  predicate FullWord(bits: seq<bool>, i: nat) {
    AllSet(bits, i / 64 * 64, i / 64 * 64 + 64)
  }

  /** Every block of `s` marked allocated, or free. */
  function SetAll(bits: seq<bool>, s: seq<nat>, v: bool): (r: seq<bool>)
    ensures |r| == |bits|
  {
    if s == [] then bits
    else
      var b := SetAll(bits, s[..|s| - 1], v);
      if s[|s| - 1] < |bits| then b[s[|s| - 1] := v] else b
  }

  lemma {:induction false} SetAllAt(bits: seq<bool>, s: seq<nat>, v: bool)
    ensures forall i | 0 <= i < |bits| :: SetAll(bits, s, v)[i] == if i in s then v else bits[i]
  {
    if s != [] {
      SetAllAt(bits, s[..|s| - 1], v);
      assert s == s[..|s| - 1] + [s[|s| - 1]];
    }
  }

  lemma SetOneMore(bits: seq<bool>, s: seq<nat>, x: nat, v: bool)
    requires x < |bits|
    ensures SetAll(bits, s + [x], v) == SetAll(bits, s, v)[x := v]
  {
    assert (s + [x])[..|s|] == s;
  }

  /** The number of free blocks among the first `n`. */
  function CountClear(bits: seq<bool>, n: nat): (c: nat)
    requires n <= |bits|
    ensures c <= n
  {
    if n == 0 then 0 else CountClear(bits, n - 1) + if bits[n - 1] then 0 else 1
  }

  // ---------- the scan ----------

  /** The block at position `it` of a lap that starts at the hint: `it` modulo the number of blocks. */
  function At(total: nat, it: nat): (i: nat) {
    if it < total then it else it - total
  }

  lemma AtIsModulo(total: nat, it: nat)
    requires it < 2 * total
    ensures At(total, it) == it % total
  {
    if it >= total {
      assert it == total + (it - total);
      assert it / total == 1 by {
        assert it - total < total;
      }
    }
  }

  /** A clear bit the scan lands on; `first` when no extent is open, so that it starts one. */
  datatype Hit = Hit(pos: nat, first: bool)

  /** The clear bits the scan lands on from position `it` of its lap: `need` of them are taken, and one more tells it
      to stop. A full word is skipped by 65 positions, and neither that nor the wrap closes an open extent. */
  function Visit(bits: seq<bool>, hint: nat, it: nat, need: nat, open: bool): List<Hit>
    requires hint < |bits|
    decreases |bits| + hint - it
  {
    if it >= |bits| + hint then Nil
    else
      var i := At(|bits|, it);
      if FullWord(bits, i) then Visit(bits, hint, it + 65, need, open)
      else if bits[i] then Visit(bits, hint, it + 1, need, if need == 0 then open else false)
      else if need == 0 then Cons(Hit(i, !open), Nil)
      else Cons(Hit(i, !open), Visit(bits[i := true], hint, it + 1, need - 1, true))
  }

  /** The scan of a whole lap for `sz` blocks. */
  function Lap(bits: seq<bool>, hint: nat, sz: nat): List<Hit>
    requires hint < |bits|
  {
    Visit(bits, hint, hint, sz, false)
  }

  function Last(h: List<Hit>): Hit
    requires h.Cons?
  {
    if h.tail.Nil? then h.head else Last(h.tail)
  }

  function Positions(h: List<Hit>): (s: seq<nat>)
    ensures |s| == Length(h)
  {
    match h
    case Nil => []
    case Cons(hit, tail) => [hit.pos] + Positions(tail)
  }

  /** The bitmap with the hits taken. */
  function SetHits(bits: seq<bool>, h: List<Hit>): (r: seq<bool>)
    ensures |r| == |bits|
    decreases h
  {
    match h
    case Nil => bits
    case Cons(hit, tail) => SetHits(if hit.pos < |bits| then bits[hit.pos := true] else bits, tail)
  }

  /** The last extent made one block longer. */
  function Grow(es: seq<Extent>): (r: seq<Extent>)
    requires es != []
    ensures r != []
  {
    es[|es| - 1 := Extent(es[|es| - 1].lba, es[|es| - 1].len + 1)]
  }

  function AddHit(es: seq<Extent>, hit: Hit): (r: seq<Extent>)
    ensures r != []
  {
    Grow(if hit.first || es == [] then es + [Extent(hit.pos, 0)] else es)
  }

  /** The extents the scan builds: a hit opens an extent or lengthens the last one. */
  function AddHits(es: seq<Extent>, h: List<Hit>): seq<Extent>
    decreases h
  {
    match h
    case Nil => es
    case Cons(hit, tail) => AddHits(AddHit(es, hit), tail)
  }

  // ---------- when the extents are the blocks taken ----------

  /** Each hit starts an extent or is the block right after the hit before it. */
  predicate CleanFrom(prev: nat, h: List<Hit>)
    decreases h
  {
    h.Nil? || ((h.head.first || h.head.pos == prev + 1) && CleanFrom(h.head.pos, h.tail))
  }

  predicate Clean(h: List<Hit>) {
    h.Nil? || (h.head.first && CleanFrom(h.head.pos, h.tail))
  }

  /** The block an open extent would take next. */
  function End(es: seq<Extent>): nat
    requires es != []
  {
    es[|es| - 1].lba + es[|es| - 1].len
  }

  lemma FlattenOne(es: seq<Extent>, hit: Hit)
    requires es != [] || hit.first
    ensures Flatten(AddHit(es, hit)) == Flatten(es) + [if hit.first then hit.pos else End(es)]
    ensures End(AddHit(es, hit)) == if hit.first then hit.pos + 1 else End(es) + 1
  {
    var r := AddHit(es, hit);
    if hit.first {
      assert r[..|r| - 1] == es && Blocks(r[|r| - 1]) == [hit.pos];
    } else {
      var last := es[|es| - 1];
      assert r[..|r| - 1] == es[..|es| - 1];
      assert Blocks(r[|r| - 1]) == Blocks(last) + [End(es)];
      assert Flatten(es[..|es| - 1]) + (Blocks(last) + [End(es)]) == Flatten(es) + [End(es)];
    }
  }

  lemma {:induction false} FlattenGrows(es: seq<Extent>, h: List<Hit>)
    requires es != [] || h.Nil? || h.head.first
    ensures |Flatten(AddHits(es, h))| == |Flatten(es)| + Length(h)
    ensures Flatten(es) <= Flatten(AddHits(es, h))
    decreases h
  {
    if h.Cons? {
      FlattenOne(es, h.head);
      FlattenGrows(AddHit(es, h.head), h.tail);
    }
  }

  lemma {:induction false} CleanFlatten(es: seq<Extent>, h: List<Hit>, prev: nat)
    requires es != [] && End(es) == prev + 1
    ensures Flatten(AddHits(es, h)) == Flatten(es) + Positions(h) <==> CleanFrom(prev, h)
    decreases h
  {
    if h.Cons? {
      var es', hit := AddHit(es, h.head), h.head;
      FlattenOne(es, hit);
      if hit.first || hit.pos == prev + 1 {
        CleanFlatten(es', h.tail, hit.pos);
        ConcatCons(Flatten(es), hit.pos, Positions(h.tail));
      } else {
        FlattenGrows(es', h.tail);
        PrefixDiffers(Flatten(es), prev + 1, hit.pos, Flatten(AddHits(es', h.tail)), Positions(h.tail));
      }
    }
  }

  lemma ConcatCons(f: seq<nat>, x: nat, t: seq<nat>)
    ensures f + ([x] + t) == (f + [x]) + t
  {
  }

  lemma PrefixDiffers(f: seq<nat>, x: nat, y: nat, g: seq<nat>, t: seq<nat>)
    requires x != y && f + [x] <= g
    ensures g != f + ([y] + t)
  {
    assert (f + [x])[|f|] == x && (f + ([y] + t))[|f|] == y;
  }

  /** The extents returned are the blocks taken, in order, exactly when no open extent was carried over a skip or
      the wrap to a block that does not follow it. */
  lemma ExtentsExact(h: List<Hit>)
    requires h.Nil? || h.head.first
    ensures Flatten(AddHits([], h)) == Positions(h) <==> Clean(h)
  {
    if h.Cons? {
      var es := AddHit([], h.head);
      FlattenOne([], h.head);
      CleanFlatten(es, h.tail, h.head.pos);
      assert Flatten([]) + [h.head.pos] == [h.head.pos];
    }
  }
}
