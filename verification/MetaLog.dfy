/** The log a transaction writes, and the proof that its bytes do to the memory what the transaction does to the
    metadata. */
module MetaLog {
  import opened Bytes
  import opened Common
  import opened PmDevice
  import opened PmLog
  import opened Extents
  import opened Layout
  import S = StoreModel

  type Meta = S.Meta

  // ---------- the entries ----------

  /** The new values of bitmap entries. */
  function BitmapEntries(base: nat, ids: seq<nat>, snap: seq<bool>): (es: seq<Entry>)
    requires IdsIn(ids, snap)
    ensures |es| == |ids|
  {
    seq(|ids|, k requires 0 <= k < |ids| => Entry(0, base + 64 * ids[k], BitmapEntry(snap, ids[k])))
  }

  function OnodeEntry(table: nat, oid: nat, bytes: seq<Byte>): Entry {
    Entry(table + 64 * oid, ONODES + 64 * oid, bytes)
  }

  function IndexEntry(page: nat, bofst: nat, lbas: seq<nat>): Entry {
    Entry(0, PAGES + 4096 * page + 4 * bofst, IndexBytes(lbas))
  }

  predicate IdsIn(ids: seq<nat>, snap: seq<bool>) {
    forall k | 0 <= k < |ids| :: 512 * ids[k] + 512 <= |snap|
  }

  /** A write logs the bitmap entries it touches, the index range and the onode; a create the onode and the entry of its
      page; a delete the cleared onode. Onodes also go to the table at `table` in DRAM. */
  function EntriesOf(t: S.Tx, ids: seq<nat>, table: nat): (es: seq<Entry>)
    requires Loggable(t, ids)
  {
    match t
    case WriteTx(oid, oe, bofst, lbas, _, _, _, snap, _) =>
      BitmapEntries(SSD_BITMAP, ids, snap)
      + [IndexEntry(oe.page, bofst, lbas),
         OnodeEntry(table, oid, OnodeBytes(oid, oe))]
    case CreateTx(oid, page, snap) =>
      [OnodeEntry(table, oid, OnodeBytes(oid, S.Onode(true, page)))]
      + BitmapEntries(PAGE_BITMAP, [page / 512], snap)
    case DeleteTx(oid, _) => [OnodeEntry(table, oid, Zeros(64))]
  }

  predicate Loggable(t: S.Tx, ids: seq<nat>) {
    match t
    case WriteTx(_, _, _, _, _, _, _, snap, _) => IdsIn(ids, snap)
    case CreateTx(_, page, snap) => 512 * (page / 512) + 512 <= |snap|
    case DeleteTx(_, _) => true
  }

  function SetOf(ids: seq<nat>): (r: set<nat>)
    ensures forall id :: id in r <==> id in ids
  {
    set k | 0 <= k < |ids| :: ids[k]
  }

  /** The transaction belongs to this memory, and the listed bitmap entries are those it names. */
  ghost predicate Matches(m: Meta, t: S.Tx, ids: seq<nat>) {
    && S.TxFits(m, t) && Loggable(t, ids)
    && (t.WriteTx? ==> SetOf(ids) == t.ids && t.oe.page < 0x1_0000_0000
                       && forall k | 0 <= k < |t.lbas| :: t.lbas[k] < 0x1_0000_0000)
  }

  // ---------- storing them ----------

  lemma AppliedSnoc(pm: seq<Byte>, es: seq<Entry>, e: Entry)
    requires AllFit(Stores(es), |pm|) && Fits(StoreOf(e), |pm|)
    ensures AllFit(Stores(es + [e]), |pm|) && Applied(pm, es + [e]) == Put(Applied(pm, es), e.ofst, e.value)
  {
    assert Stores(es + [e]) == Stores(es) + [StoreOf(e)];
    AtSnoc(pm, Stores(es), StoreOf(e));
  }

  /** Every entry lies in the metadata area, clear of all log regions. */
  predicate Clear(es: seq<Entry>, size: nat) {
    forall i | 0 <= i < |es| :: SSD_BITMAP <= es[i].ofst && es[i].ofst + |es[i].value| <= size
  }

  lemma ClearPlaced(es: seq<Entry>, log: nat, size: nat)
    requires Clear(es, size) && log % 8 == 0 && log + REGION_SIZE <= SSD_BITMAP <= size
    ensures Placed(es, log, size) && AllFit(Stores(es), size)
  {
  }

  ghost predicate BitmapsDone(pm: seq<Byte>, now: seq<Byte>, base: nat, bits: seq<bool>, ids: set<nat>,
                              snap: seq<bool>)
  {
    && |snap| == |bits| && |now| == |pm| && BitsHold(now, base, Overlay(bits, ids, snap))
    && SameIn(pm, now, 0, base) && SameIn(pm, now, base + |bits| / 8, |pm|)
  }

  lemma OneMoreBitmap(pm: seq<Byte>, now: seq<Byte>, base: nat, bits: seq<bool>, ids: set<nat>,
                                         snap: seq<bool>, id: nat)
    requires BitmapsDone(pm, now, base, bits, ids, snap) && 512 * id + 512 <= |bits|
    ensures base + 64 * id + 64 <= |pm|
    ensures BitmapsDone(pm, Put(now, base + 64 * id, BitmapEntry(snap, id)), base, bits, ids + {id}, snap)
  {
    PutBitmap(now, base, Overlay(bits, ids, snap), id, snap);
    assert Overlay(Overlay(bits, ids, snap), {id}, snap) == Overlay(bits, ids + {id}, snap);
  }

  lemma {:induction false} BitmapsApplied(pm: seq<Byte>, base: nat, bits: seq<bool>, ids: seq<nat>, snap: seq<bool>)
    requires BitsHold(pm, base, bits) && |snap| == |bits| && IdsIn(ids, snap)
    ensures AllFit(Stores(BitmapEntries(base, ids, snap)), |pm|)
    ensures BitmapsDone(pm, Applied(pm, BitmapEntries(base, ids, snap)), base, bits, SetOf(ids), snap)
    decreases |ids|
  {
    if ids == [] {
      assert Overlay(bits, {}, snap) == bits;
      assert SetOf(ids) == {};
    } else {
      var front, id := ids[..|ids| - 1], ids[|ids| - 1];
      BitmapsApplied(pm, base, bits, front, snap);
      var es := BitmapEntries(base, front, snap);
      OneMoreBitmap(pm, Applied(pm, es), base, bits, SetOf(front), snap, id);
      var e := Entry(0, base + 64 * id, BitmapEntry(snap, id));
      assert BitmapEntries(base, ids, snap) == es + [e];
      AppliedSnoc(pm, es, e);
      assert SetOf(ids) == SetOf(front) + {id};
    }
  }

  // ---------- the effect on the metadata ----------

  /** `now` differs from `pm` only between `a` and `b`. */
  predicate SameBut(pm: seq<Byte>, now: seq<Byte>, a: nat, b: nat) {
    SameIn(pm, now, 0, a) && SameIn(pm, now, b, |pm|)
  }

  lemma StoreSsdBits(pm: seq<Byte>, now: seq<Byte>, m: Meta, bits: seq<bool>)
    requires Holds(pm, m) && |bits| == |m.ssd| && BitsHold(now, SSD_BITMAP, bits)
    requires SameBut(pm, now, SSD_BITMAP, SSD_BITMAP + |m.ssd| / 8)
    ensures Holds(now, m.(ssd := bits))
  {
    BitsFrame(pm, now, PAGE_BITMAP, m.pages);
    OnodesFrame(pm, now, m.onodes);
    IndexFrame(pm, now, m.index);
  }

  lemma StorePageBits(pm: seq<Byte>, now: seq<Byte>, m: Meta, bits: seq<bool>)
    requires Holds(pm, m) && |bits| == |m.pages| && BitsHold(now, PAGE_BITMAP, bits)
    requires SameBut(pm, now, PAGE_BITMAP, PAGE_BITMAP + |m.pages| / 8)
    ensures Holds(now, m.(pages := bits))
  {
    BitsFrame(pm, now, SSD_BITMAP, m.ssd);
    OnodesFrame(pm, now, m.onodes);
    IndexFrame(pm, now, m.index);
  }

  lemma StoreOnode(pm: seq<Byte>, m: Meta, o: nat, bytes: seq<Byte>)
    requires Holds(pm, m) && o < |m.onodes| && |bytes| == 64
    ensures ONODES + 64 * o + 64 <= |pm|
    ensures Holds(Put(pm, ONODES + 64 * o, bytes), m.(onodes := m.onodes[o := DecodeOnode(bytes)]))
  {
    var at := ONODES + 64 * o;
    PutOnode(pm, m.onodes, o, bytes);
    var now := Put(pm, at, bytes);
    PutOutside(pm, at, bytes, 0, ONODES);
    PutOutside(pm, at, bytes, ONODES + 64 * |m.onodes|, |pm|);
    BitsFrame(pm, now, SSD_BITMAP, m.ssd);
    BitsFrame(pm, now, PAGE_BITMAP, m.pages);
    IndexFrame(pm, now, m.index);
  }

  /** A store among the index pages leaves the bitmaps and the onodes alone, */
  lemma BelowPages(pm: seq<Byte>, m: Meta, at: nat, bytes: seq<Byte>)
    requires Holds(pm, m) && PAGES <= at && at + |bytes| <= |pm|
    ensures var now := Put(pm, at, bytes);
            BitsHold(now, SSD_BITMAP, m.ssd) && BitsHold(now, PAGE_BITMAP, m.pages) && OnodesHold(now, m.onodes)
  {
    var now := Put(pm, at, bytes);
    PutOutside(pm, at, bytes, 0, PAGES);
    BitsFrame(pm, now, SSD_BITMAP, m.ssd);
    BitsFrame(pm, now, PAGE_BITMAP, m.pages);
    OnodesFrame(pm, now, m.onodes);
  }

  /** and a store within one page leaves the others alone. */
  lemma OtherPages(pm: seq<Byte>, m: Meta, page: nat, at: nat, bytes: seq<Byte>)
    requires Holds(pm, m) && PAGES + 4096 * page <= at && at + |bytes| <= PAGES + 4096 * page + 4096 <= |pm|
    ensures forall p | 0 <= p < |m.index| && p != page :: PageHolds(Put(pm, at, bytes), PAGES + 4096 * p, m.index[p])
  {
    forall p | 0 <= p < |m.index| && p != page ensures PageHolds(Put(pm, at, bytes), PAGES + 4096 * p, m.index[p]) {
      PutOutside(pm, at, bytes, PAGES + 4096 * p, PAGES + 4096 * p + 4096);
      PageFrame(pm, Put(pm, at, bytes), PAGES + 4096 * p, m.index[p]);
    }
  }

  lemma {:induction false} StoreIndex(pm: seq<Byte>, m: Meta, page: nat, bofst: nat, lbas: seq<nat>)
    requires Holds(pm, m) && page < |m.index| && bofst + |lbas| <= S.OBJ_BLOCKS
    requires forall k | 0 <= k < |lbas| :: lbas[k] < 0x1_0000_0000
    ensures PAGES + 4096 * page + 4 * bofst + 4 * |lbas| <= |pm| && |m.index[page]| == S.OBJ_BLOCKS
    ensures Holds(Put(pm, PAGES + 4096 * page + 4 * bofst, IndexBytes(lbas)),
                  m.(index := m.index[page := Splice(m.index[page], bofst, lbas)]))
  {
    var at, bytes := PAGES + 4096 * page + 4 * bofst, IndexBytes(lbas);
    assert PageHolds(pm, PAGES + 4096 * page, m.index[page]);
    PutIndex(pm, PAGES + 4096 * page, m.index[page], bofst, lbas);
    BelowPages(pm, m, at, bytes);
    OtherPages(pm, m, page, at, bytes);
  }

  /** The state of the bytes once all entries are stored. */
  ghost predicate Commits(pm: seq<Byte>, m: Meta, t: S.Tx, es: seq<Entry>) {
    && S.TxFits(m, t) && Clear(es, |pm|) && AllFit(Stores(es), |pm|) && Holds(Applied(pm, es), S.Commit(m, t))
  }

  /** The bitmap entries and the index range. */
  lemma WriteFirst(pm: seq<Byte>, m: Meta, t: S.Tx, ids: seq<nat>)
    requires Holds(pm, m) && t.WriteTx? && Matches(m, t, ids)
    ensures var es := BitmapEntries(SSD_BITMAP, ids, t.snap) + [IndexEntry(t.oe.page, t.bofst, t.lbas)];
            && Clear(es, |pm|) && AllFit(Stores(es), |pm|)
            && Holds(Applied(pm, es), m.(ssd := Overlay(m.ssd, t.ids, t.snap),
                                         index := m.index[t.oe.page := Splice(m.index[t.oe.page], t.bofst, t.lbas)]))
  {
    var bs := BitmapEntries(SSD_BITMAP, ids, t.snap);
    BitmapsApplied(pm, SSD_BITMAP, m.ssd, ids, t.snap);
    var pm1, m1 := Applied(pm, bs), m.(ssd := Overlay(m.ssd, t.ids, t.snap));
    StoreSsdBits(pm, pm1, m, m1.ssd);
    StoreIndex(pm1, m1, t.oe.page, t.bofst, t.lbas);
    AppliedSnoc(pm, bs, IndexEntry(t.oe.page, t.bofst, t.lbas));
  }

  lemma WriteCommits(pm: seq<Byte>, m: Meta, t: S.Tx, ids: seq<nat>, table: nat)
    requires Holds(pm, m) && t.WriteTx? && Matches(m, t, ids)
    ensures Commits(pm, m, t, EntriesOf(t, ids, table))
  {
    WriteFirst(pm, m, t, ids);
    var es := BitmapEntries(SSD_BITMAP, ids, t.snap) + [IndexEntry(t.oe.page, t.bofst, t.lbas)];
    var e := OnodeEntry(table, t.oid, OnodeBytes(t.oid, t.oe));
    var m' := m.(ssd := Overlay(m.ssd, t.ids, t.snap),
                 index := m.index[t.oe.page := Splice(m.index[t.oe.page], t.bofst, t.lbas)]);
    OnodeRoundTrip(t.oid, t.oe);
    StoreOnode(Applied(pm, es), m', t.oid, e.value);
    AppliedSnoc(pm, es, e);
    assert EntriesOf(t, ids, table) == es + [e];
  }

  lemma OnodeFirst(pm: seq<Byte>, m: Meta, oid: nat, bytes: seq<Byte>, table: nat)
    requires Holds(pm, m) && oid < |m.onodes| && |bytes| == 64
    ensures Clear([OnodeEntry(table, oid, bytes)], |pm|) && AllFit(Stores([OnodeEntry(table, oid, bytes)]), |pm|)
    ensures Holds(Applied(pm, [OnodeEntry(table, oid, bytes)]), m.(onodes := m.onodes[oid := DecodeOnode(bytes)]))
  {
    var e := OnodeEntry(table, oid, bytes);
    StoreOnode(pm, m, oid, bytes);
    AppliedSnoc(pm, [], e);
    assert [] + [e] == [e] && Applied(pm, []) == pm;
  }

  lemma StorePageEntry(pm: seq<Byte>, m: Meta, id: nat, snap: seq<bool>)
    requires Holds(pm, m) && |snap| == |m.pages| && 512 * id + 512 <= |snap|
    ensures PAGE_BITMAP + 64 * id + 64 <= |pm|
    ensures Holds(Put(pm, PAGE_BITMAP + 64 * id, BitmapEntry(snap, id)), m.(pages := Overlay(m.pages, {id}, snap)))
  {
    var at, bytes := PAGE_BITMAP + 64 * id, BitmapEntry(snap, id);
    PutBitmap(pm, PAGE_BITMAP, m.pages, id, snap);
    PutOutside(pm, at, bytes, 0, PAGE_BITMAP);
    PutOutside(pm, at, bytes, PAGE_BITMAP + |m.pages| / 8, |pm|);
    StorePageBits(pm, Put(pm, at, bytes), m, Overlay(m.pages, {id}, snap));
  }

  lemma CreateCommits(pm: seq<Byte>, m: Meta, t: S.Tx, ids: seq<nat>, table: nat)
    requires Holds(pm, m) && t.CreateTx? && Matches(m, t, ids)
    ensures Commits(pm, m, t, EntriesOf(t, ids, table))
  {
    var oe, id := S.Onode(true, t.page), t.page / 512;
    var e1 := OnodeEntry(table, t.oid, OnodeBytes(t.oid, oe));
    var e2 := Entry(0, PAGE_BITMAP + 64 * id, BitmapEntry(t.snap, id));
    OnodeRoundTrip(t.oid, oe);
    OnodeFirst(pm, m, t.oid, e1.value, table);
    StorePageEntry(Applied(pm, [e1]), m.(onodes := m.onodes[t.oid := oe]), id, t.snap);
    AppliedSnoc(pm, [e1], e2);
    assert EntriesOf(t, ids, table) == [e1] + [e2];
  }

  lemma DeleteCommits(pm: seq<Byte>, m: Meta, t: S.Tx, ids: seq<nat>, table: nat)
    requires Holds(pm, m) && t.DeleteTx? && Matches(m, t, ids)
    ensures Commits(pm, m, t, EntriesOf(t, ids, table))
  {
    NoOnode();
    OnodeFirst(pm, m, t.oid, Zeros(64), table);
  }

  /** Storing a transaction's entries turns a memory that holds `m` into one that holds the metadata after the
      commit. */
  lemma EntriesCommit(pm: seq<Byte>, m: Meta, t: S.Tx, ids: seq<nat>, table: nat)
    requires Holds(pm, m) && Matches(m, t, ids)
    ensures Commits(pm, m, t, EntriesOf(t, ids, table))
  {
    match t
    case WriteTx(_, _, _, _, _, _, _, _, _) => WriteCommits(pm, m, t, ids, table);
    case CreateTx(_, _, _) => CreateCommits(pm, m, t, ids, table);
    case DeleteTx(_, _) => DeleteCommits(pm, m, t, ids, table);
  }
}
