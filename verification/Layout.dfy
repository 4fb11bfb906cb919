/** Where the store's metadata lives in persistent memory, and the bytes a transaction logs for it. */
module Layout {
  import opened Bytes
  import opened Common
  import opened PmDevice
  import opened Extents
  import opened StoreModel

  const SSD_BITMAP: nat := 0x10_0000
  const PAGE_BITMAP: nat := 0x210_0000
  const ONODES: nat := 0x220_0000
  const PAGES: nat := 0x620_0000

  // ---------- bitmaps ----------

  function Pow2(n: nat): (p: nat)
    ensures p > 0
  {
    if n == 0 then 1 else 2 * Pow2(n - 1)
  }

  /** Bits packed from the least significant one on. */
  function Pack(s: seq<bool>): (v: nat)
    ensures v < Pow2(|s|)
  {
    if s == [] then 0 else (if s[0] then 1 else 0) + 2 * Pack(s[1..])
  }

  function BitOf(v: nat, j: nat): bool {
    if j == 0 then v % 2 == 1 else BitOf(v / 2, j - 1)
  }

  lemma {:induction false} PackedBit(s: seq<bool>, j: nat)
    requires j < |s|
    ensures BitOf(Pack(s), j) == s[j]
    decreases j
  {
    var v := Pack(s);
    assert v % 2 == (if s[0] then 1 else 0) && v / 2 == Pack(s[1..]);
    if j > 0 {
      PackedBit(s[1..], j - 1);
    }
  }

  function PackByte(s: seq<bool>): Byte
    requires |s| == 8
  {
    EightBits();
    Pack(s)
  }

  lemma EightBits()
    ensures Pow2(8) == 256
  {
    assert Pow2(4) == 16 by {
      assert Pow2(2) == 4;
    }
    assert Pow2(6) == 64;
  }

  /** The 64 bytes of bitmap entry `id`: 512 bits. */
  function BitmapEntry(bits: seq<bool>, id: nat): (s: seq<Byte>)
    requires 512 * id + 512 <= |bits|
    ensures |s| == 64
  {
    seq(64, k requires 0 <= k < 64 => PackByte(bits[512 * id + 8 * k..512 * id + 8 * k + 8]))
  }

  function BitAt(pm: seq<Byte>, base: nat, i: nat): bool
    requires base + i / 8 < |pm|
  {
    BitOf(pm[base + i / 8], i % 8)
  }

  predicate BitsHold(pm: seq<Byte>, base: nat, bits: seq<bool>) {
    && |bits| % 512 == 0 && base + |bits| / 8 <= |pm|
    && forall i | 0 <= i < |bits| :: BitAt(pm, base, i) == bits[i]
  }

  // ---------- onodes ----------

  function OnodeBytes(oid: nat, oe: Onode): (s: seq<Byte>)
    ensures |s| == 64
  {
    EncodeLe((if oe.valid then 1 else 0) + 0x1_0000 * oid, 8) + Zeros(4) + EncodeLe(oe.page, 4) + Zeros(48)
  }

  function DecodeOnode(s: seq<Byte>): Onode
    requires |s| == 64
  {
    Onode(s[0] % 2 == 1, DecodeLe(s[12..16]))
  }

  predicate OnodesHold(pm: seq<Byte>, onodes: seq<Onode>) {
    && ONODES + 64 * |onodes| <= |pm|
    && forall o | 0 <= o < |onodes| :: DecodeOnode(pm[ONODES + 64 * o..ONODES + 64 * o + 64]) == onodes[o]
  }

  // ---------- index pages ----------

  /** Block numbers, four bytes each. */
  function IndexBytes(lbas: seq<nat>): (s: seq<Byte>)
    ensures |s| == 4 * |lbas|
  {
    if lbas == [] then [] else IndexBytes(lbas[..|lbas| - 1]) + EncodeLe(lbas[|lbas| - 1], 4)
  }

  function LbaAt(pm: seq<Byte>, a: nat): nat
    requires a + 4 <= |pm|
  {
    DecodeLe(pm[a..a + 4])
  }

  predicate PageHolds(pm: seq<Byte>, base: nat, lbas: seq<nat>) {
    base + 4 * |lbas| <= |pm| && forall b | 0 <= b < |lbas| :: LbaAt(pm, base + 4 * b) == lbas[b]
  }

  predicate IndexHolds(pm: seq<Byte>, index: seq<seq<nat>>) {
    forall p | 0 <= p < |index| :: |index[p]| == OBJ_BLOCKS && PageHolds(pm, PAGES + 4096 * p, index[p])
  }

  // ---------- the whole ----------

  /** The formatted store: the tables end where the next one begins. */
  predicate Geometry(m: Meta) {
    && |m.ssd| <= 0x1000_0000 && |m.pages| <= 0x80_0000 && |m.onodes| <= 0x10_0000
    && |m.index| < 0x1_0000_0000
  }

  /** The bytes of `pm` are a store whose metadata is `m`. */
  ghost predicate Holds(pm: seq<Byte>, m: Meta) {
    && Geometry(m) && PAGES + 4096 * |m.index| <= |pm|
    && BitsHold(pm, SSD_BITMAP, m.ssd) && BitsHold(pm, PAGE_BITMAP, m.pages)
    && OnodesHold(pm, m.onodes) && IndexHolds(pm, m.index)
  }

  predicate SameIn(a: seq<Byte>, b: seq<Byte>, from: nat, to: nat) {
    |a| == |b| && forall i | from <= i < to && i < |a| :: a[i] == b[i]
  }

  lemma SameSlice(a: seq<Byte>, b: seq<Byte>, from: nat, to: nat, x: nat, y: nat)
    requires SameIn(a, b, from, to) && from <= x <= y <= to && y <= |a|
    ensures a[x..y] == b[x..y]
  {
  }

  lemma BitsFrame(a: seq<Byte>, b: seq<Byte>, base: nat, bits: seq<bool>)
    requires BitsHold(a, base, bits) && SameIn(a, b, base, base + |bits| / 8)
    ensures BitsHold(b, base, bits)
  {
    forall i | 0 <= i < |bits| ensures BitAt(b, base, i) == bits[i] {
      assert BitAt(a, base, i) == bits[i];
      assert i / 8 < |bits| / 8;
    }
  }

  lemma OnodesFrame(a: seq<Byte>, b: seq<Byte>, onodes: seq<Onode>)
    requires OnodesHold(a, onodes) && SameIn(a, b, ONODES, ONODES + 64 * |onodes|)
    ensures OnodesHold(b, onodes)
  {
    forall o | 0 <= o < |onodes| ensures DecodeOnode(b[ONODES + 64 * o..ONODES + 64 * o + 64]) == onodes[o] {
      SameSlice(a, b, ONODES, ONODES + 64 * |onodes|, ONODES + 64 * o, ONODES + 64 * o + 64);
    }
  }

  lemma PageFrame(a: seq<Byte>, b: seq<Byte>, base: nat, lbas: seq<nat>)
    requires PageHolds(a, base, lbas) && SameIn(a, b, base, base + 4 * |lbas|)
    ensures PageHolds(b, base, lbas)
  {
    forall k | 0 <= k < |lbas| ensures LbaAt(b, base + 4 * k) == lbas[k] {
      SameSlice(a, b, base, base + 4 * |lbas|, base + 4 * k, base + 4 * k + 4);
    }
  }

  lemma IndexFrame(a: seq<Byte>, b: seq<Byte>, index: seq<seq<nat>>)
    requires IndexHolds(a, index) && SameIn(a, b, PAGES, PAGES + 4096 * |index|)
    ensures IndexHolds(b, index)
  {
    forall p | 0 <= p < |index| ensures PageHolds(b, PAGES + 4096 * p, index[p]) {
      PageFrame(a, b, PAGES + 4096 * p, index[p]);
    }
  }

  /** Only the bytes from the SSD bitmap on matter. */
  lemma HoldsFrame(a: seq<Byte>, b: seq<Byte>, m: Meta)
    requires Holds(a, m) && |a| == |b| && SameIn(a, b, SSD_BITMAP, |a|)
    ensures Holds(b, m)
  {
    BitsFrame(a, b, SSD_BITMAP, m.ssd);
    BitsFrame(a, b, PAGE_BITMAP, m.pages);
    OnodesFrame(a, b, m.onodes);
    IndexFrame(a, b, m.index);
  }

  // ---------- one store at a time ----------

  /** A store leaves everything outside its range as it was. */
  lemma PutOutside(pm: seq<Byte>, at: nat, bytes: seq<Byte>, from: nat, to: nat)
    requires at + |bytes| <= |pm| && (to <= at || at + |bytes| <= from)
    ensures SameIn(pm, Put(pm, at, bytes), from, to)
  {
  }

  lemma {:induction false} EntryBit(bits: seq<bool>, i: nat)
    requires i < |bits| && |bits| % 512 == 0
    ensures i / 512 * 512 + 512 <= |bits|
    ensures 0 <= i / 8 - i / 512 * 64 < 64
    ensures BitOf(BitmapEntry(bits, i / 512)[i / 8 - i / 512 * 64], i % 8) == bits[i]
  {
    var id, k, j := i / 512, i / 8 - i / 512 * 64, i % 8;
    EntryIndex(i, |bits|);
    var s := bits[512 * id + 8 * k..512 * id + 8 * k + 8];
    PackedBit(s, j);
    assert s[j] == bits[i];
  }

  lemma EntryIndex(i: nat, n: nat)
    requires i < n && n % 512 == 0
    ensures i / 512 * 512 + 512 <= n && 0 <= i / 8 - i / 512 * 64 < 64
    ensures 512 * (i / 512) + 8 * (i / 8 - i / 512 * 64) + i % 8 == i
  {
    var q := n / 512;
    assert n == 512 * q;
    assert i / 512 < q;
  }

  /** Storing a bitmap entry takes exactly that entry from the snapshot. */
  lemma PutBitmap(pm: seq<Byte>, base: nat, bits: seq<bool>, id: nat, snap: seq<bool>)
    requires BitsHold(pm, base, bits) && |snap| == |bits| && 512 * id + 512 <= |bits|
    ensures base + 64 * id + 64 <= base + |bits| / 8
    ensures BitsHold(Put(pm, base + 64 * id, BitmapEntry(snap, id)), base, Overlay(bits, {id}, snap))
  {
    var pm' := Put(pm, base + 64 * id, BitmapEntry(snap, id));
    forall i | 0 <= i < |bits| ensures BitAt(pm', base, i) == Overlay(bits, {id}, snap)[i] {
      EntryIndex(i, |bits|);
      if i / 512 == id {
        EntryBit(snap, i);
      } else {
        assert BitAt(pm, base, i) == bits[i];
        assert pm'[base + i / 8] == pm[base + i / 8];
      }
    }
  }

  lemma MiddleOf(a: seq<Byte>, b: seq<Byte>, c: seq<Byte>)
    ensures (a + b + c)[|a|..|a| + |b|] == b
  {
  }

  lemma {:induction false} FirstByte(v: nat, n: nat, b: seq<Byte>, c: seq<Byte>, d: seq<Byte>)
    requires n > 0
    ensures (EncodeLe(v, n) + b + c + d)[0] == v % 256
  {
    assert EncodeLe(v, n)[0] == v % 256;
  }

  lemma LowByte(w: nat, q: nat, v: nat)
    requires v < 256 && w == 256 * q + v
    ensures w % 256 == v
  {
  }

  lemma OnodeValidBit(oid: nat, oe: Onode)
    ensures OnodeBytes(oid, oe)[0] == (if oe.valid then 1 else 0)
  {
    var v := if oe.valid then 1 else 0;
    FirstByte(v + 0x1_0000 * oid, 8, Zeros(4), EncodeLe(oe.page, 4), Zeros(48));
    LowByte(v + 0x1_0000 * oid, 256 * oid, v);
  }

  lemma OnodePage(oid: nat, oe: Onode)
    ensures OnodeBytes(oid, oe)[12..16] == EncodeLe(oe.page, 4)
  {
    var w := (if oe.valid then 1 else 0) + 0x1_0000 * oid;
    MiddleOf(EncodeLe(w, 8) + Zeros(4), EncodeLe(oe.page, 4), Zeros(48));
  }

  lemma OnodeRoundTrip(oid: nat, oe: Onode)
    requires oe.page < 0x1_0000_0000
    ensures DecodeOnode(OnodeBytes(oid, oe)) == oe
  {
    OnodeValidBit(oid, oe);
    OnodePage(oid, oe);
    Word32(oe.page);
  }

  /** Which bytes of an onode say what. */
  lemma OnodeLayout(oid: nat, oe: Onode)
    requires oe.page < 0x1_0000_0000 && oid < 0x1_0000_0000_0000
    ensures var s := OnodeBytes(oid, oe);
            && s[0] == (if oe.valid then 1 else 0) && s[1] == 0 && DecodeLe(s[2..8]) == oid
            && s[8..12] == Zeros(4) && DecodeLe(s[12..16]) == oe.page && s[16..] == Zeros(48)
  {
    var v, s := if oe.valid then 1 else 0, OnodeBytes(oid, oe);
    Powers();
    assert Pow256(6) == 256 * 256 * Pow256(4) by {
      assert Pow256(5) == 256 * Pow256(4);
    }
    SplitTwo(v, oid, v + 0x1_0000 * oid, 8);
    FlagBytes(v);
    assert s[..2] == [v, 0];
    assert s[..8] == EncodeLe(v, 2) + EncodeLe(oid, 6);
    assert s[2..8] == EncodeLe(oid, 6);
    DecodeEncode(oid, 6);
    OnodePage(oid, oe);
    Word32(oe.page);
  }

  lemma NoOnode()
    ensures DecodeOnode(Zeros(64)) == Onode(false, 0)
  {
    assert Zeros(64)[12..16] == Zeros(4);
    DecodeZeros(4);
  }

  lemma PutOnode(pm: seq<Byte>, onodes: seq<Onode>, o: nat, bytes: seq<Byte>)
    requires OnodesHold(pm, onodes) && o < |onodes| && |bytes| == 64
    ensures OnodesHold(Put(pm, ONODES + 64 * o, bytes), onodes[o := DecodeOnode(bytes)])
  {
    var pm' := Put(pm, ONODES + 64 * o, bytes);
    forall q | 0 <= q < |onodes|
      ensures DecodeOnode(pm'[ONODES + 64 * q..ONODES + 64 * q + 64]) == onodes[o := DecodeOnode(bytes)][q]
    {
      if q == o {
        assert pm'[ONODES + 64 * q..ONODES + 64 * q + 64] == bytes;
      } else {
        PutOutside(pm, ONODES + 64 * o, bytes, ONODES + 64 * q, ONODES + 64 * q + 64);
        SameSlice(pm, pm', ONODES + 64 * q, ONODES + 64 * q + 64, ONODES + 64 * q, ONODES + 64 * q + 64);
      }
    }
  }

  lemma {:induction false} IndexRoundTrip(lbas: seq<nat>, j: nat)
    requires j < |lbas| && forall k | 0 <= k < |lbas| :: lbas[k] < 0x1_0000_0000
    ensures DecodeLe(IndexBytes(lbas)[4 * j..4 * j + 4]) == lbas[j]
    decreases |lbas|
  {
    var n := |lbas| - 1;
    var front := IndexBytes(lbas[..n]);
    if j == n {
      Word32(lbas[n]);
      assert IndexBytes(lbas)[4 * j..4 * j + 4] == EncodeLe(lbas[n], 4);
    } else {
      IndexRoundTrip(lbas[..n], j);
      assert IndexBytes(lbas)[4 * j..4 * j + 4] == front[4 * j..4 * j + 4];
    }
  }

  lemma {:induction false} PutIndex(pm: seq<Byte>, base: nat, was: seq<nat>, bofst: nat, lbas: seq<nat>)
    requires PageHolds(pm, base, was) && bofst + |lbas| <= |was|
    requires forall k | 0 <= k < |lbas| :: lbas[k] < 0x1_0000_0000
    ensures PageHolds(Put(pm, base + 4 * bofst, IndexBytes(lbas)), base, Splice(was, bofst, lbas))
  {
    var at, bytes := base + 4 * bofst, IndexBytes(lbas);
    var pm' := Put(pm, at, bytes);
    forall b | 0 <= b < |was| ensures LbaAt(pm', base + 4 * b) == Splice(was, bofst, lbas)[b] {
      var a := base + 4 * b;
      if bofst <= b < bofst + |lbas| {
        IndexRoundTrip(lbas, b - bofst);
        assert pm'[at..at + |bytes|] == bytes;
        SubSlice(pm', at, at + |bytes|, 4 * (b - bofst), 4 * (b - bofst) + 4);
      } else {
        PutOutside(pm, at, bytes, a, a + 4);
        SameSlice(pm, pm', a, a + 4, a, a + 4);
      }
    }
  }
}
