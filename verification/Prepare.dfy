/** Building a transaction's log from what an operation changes, and carrying it out: from the requests of the store
    down to the bytes in persistent memory and in DRAM. */
module Prepare {
  import opened Bytes
  import opened Common
  import opened PmDevice
  import opened PmLog
  import opened PmCrash
  import opened AllocSpec
  import opened Extents
  import opened Layout
  import opened MetaLog
  import S = StoreModel
  import Pm

  // ---------- sizes ----------

  lemma {:induction false} BitmapLogSize(es: seq<Entry>, base: nat, ids: seq<nat>, snap: seq<bool>)
    requires IdsIn(ids, snap)
    ensures |EncodeLog(es + BitmapEntries(base, ids, snap))| == |EncodeLog(es)| + 88 * |ids|
    decreases |ids|
  {
    if ids == [] {
      assert es + [] == es;
    } else {
      var front := ids[..|ids| - 1];
      BitmapLogSize(es, base, front, snap);
      BitmapSnoc(base, ids, |front|, snap);
      var fs, e := BitmapEntries(base, front, snap), BitmapEntries(base, ids, snap)[|front|];
      assert ids[..|front| + 1] == ids;
      assert es + (fs + [e]) == (es + fs) + [e];
      EncodeAppend(es + fs, e);
    }
  }

  lemma BitmapSnoc(base: nat, ids: seq<nat>, k: nat, snap: seq<bool>)
    requires k < |ids| && IdsIn(ids, snap)
    ensures BitmapEntries(base, ids[..k + 1], snap)
         == BitmapEntries(base, ids[..k], snap) + [BitmapEntries(base, ids, snap)[k]]
  {
  }

  /** The bytes a transaction logs: 88 for each bitmap entry and onode, 24 and four a block for the index range. */
  lemma LogSize(t: S.Tx, ids: seq<nat>, table: nat)
    requires Loggable(t, ids)
    ensures |EncodeLog(EntriesOf(t, ids, table))|
         == match t
            case WriteTx(_, _, _, lbas, _, _, _, _, _) => 88 * |ids| + 24 + 4 * |lbas| + 88
            case CreateTx(_, _, _) => 176
            case DeleteTx(_, _) => 88
  {
    match t
    case WriteTx(oid, oe, bofst, lbas, _, _, _, snap, _) =>
      var bs := BitmapEntries(SSD_BITMAP, ids, snap);
      var e1, e2 := IndexEntry(oe.page, bofst, lbas), OnodeEntry(table, oid, OnodeBytes(oid, oe));
      BitmapLogSize([], SSD_BITMAP, ids, snap);
      assert [] + bs == bs;
      EncodeAppend(bs, e1);
      EncodeAppend(bs + [e1], e2);
      assert EntriesOf(t, ids, table) == (bs + [e1]) + [e2];
    case CreateTx(oid, page, snap) =>
      var e := OnodeEntry(table, oid, OnodeBytes(oid, S.Onode(true, page)));
      EncodeAppend([], e);
      assert [] + [e] == [e];
      BitmapLogSize([e], PAGE_BITMAP, [page / 512], snap);
    case DeleteTx(oid, _) =>
      EncodeAppend([], OnodeEntry(table, oid, Zeros(64)));
      assert [] + [OnodeEntry(table, oid, Zeros(64))] == [OnodeEntry(table, oid, Zeros(64))];
  }

  /** A write of at most 32 blocks always fits the log region, header and padding included. */
  lemma LogFits(t: S.Tx, ids: seq<nat>, table: nat)
    requires Loggable(t, ids) && (t.WriteTx? ==> |ids| <= 64 && |t.lbas| <= 32)
    ensures |EncodeLog(EntriesOf(t, ids, table))| <= 5872
    ensures HEADER_SIZE + CeilAlign256(|EncodeLog(EntriesOf(t, ids, table))|) <= REGION_SIZE
  {
    LogSize(t, ids, table);
  }

  // ---------- what recovery, as written, can replay ----------

  lemma SixtyFours(a: nat, k: nat)
    ensures a % 64 == 0 ==> (a + 64 * k) % 64 == 0
  {
  }

  lemma LastTwo(bs: seq<Entry>, a: Entry, b: Entry, lim: Limits)
    ensures (forall e | e in bs + [a, b] :: EntryAligned(lim, e))
       <==> (forall e | e in bs :: EntryAligned(lim, e)) && EntryAligned(lim, a) && EntryAligned(lim, b)
  {
    var all := bs + [a, b];
    assert all[|bs|] == a && all[|bs| + 1] == b;
    assert forall e | e in bs :: e in all;
  }

  lemma BitmapsAligned(base: nat, ids: seq<nat>, snap: seq<bool>)
    requires IdsIn(ids, snap) && base % 64 == 0
    ensures forall e | e in BitmapEntries(base, ids, snap) :: EntryAligned(CODE_LIMITS, e)
  {
    forall k | 0 <= k < |ids| ensures EntryAligned(CODE_LIMITS, BitmapEntries(base, ids, snap)[k]) {
      SixtyFours(base, ids[k]);
    }
  }

  /** The recovery in the code has a 4096-byte buffer and insists on multiples of 64. A committed write is replayed by
      it exactly when its range starts and ends at a multiple of 16 blocks and its padded log fits that buffer. */
  lemma WriteReplayable(t: S.Tx, ids: seq<nat>, table: nat, l: Log)
    requires t.WriteTx? && Loggable(t, ids) && LogOk(l) && l.entries == EntriesOf(t, ids, table)
    ensures Replayable(CODE_LIMITS, l)
         == (t.bofst % 16 == 0 && |t.lbas| % 16 == 0 && 88 * |ids| + 112 + 4 * |t.lbas| <= 4096)
  {
    LogSize(t, ids, table);
    BitmapsAligned(SSD_BITMAP, ids, t.snap);
    var bs, a := BitmapEntries(SSD_BITMAP, ids, t.snap), IndexEntry(t.oe.page, t.bofst, t.lbas);
    var b := OnodeEntry(table, t.oid, OnodeBytes(t.oid, t.oe));
    IndexAligned(t.oe.page, t.bofst, t.lbas);
    SixtyFours(ONODES, t.oid);
    LastTwo(bs, a, b, CODE_LIMITS);
    PaddedFits(|EncodeLog(l.entries)|);
  }

  lemma IndexAligned(page: nat, bofst: nat, lbas: seq<nat>)
    ensures EntryAligned(CODE_LIMITS, IndexEntry(page, bofst, lbas)) == (bofst % 16 == 0 && |lbas| % 16 == 0)
  {
    FourTimes(|lbas|);
    FourTimes(bofst);
    assert PAGES + 4096 * page + 4 * bofst == 4 * bofst + 64 * (0x18_8000 + 64 * page);
    SixtyFoursBack(4 * bofst, 0x18_8000 + 64 * page);
  }

  lemma FourTimes(n: nat)
    ensures (4 * n) % 64 == 0 <==> n % 16 == 0
  {
  }

  lemma SixtyFoursBack(a: nat, k: nat)
    ensures (a + 64 * k) % 64 == a % 64
  {
  }

  lemma PaddedFits(n: nat)
    ensures CeilAlign256(n) <= 4096 <==> n <= 4096
  {
  }

  /** Creates and deletes are always replayed. */
  lemma CreateDeleteReplayable(t: S.Tx, ids: seq<nat>, table: nat, l: Log)
    requires !t.WriteTx? && Loggable(t, ids) && LogOk(l) && l.entries == EntriesOf(t, ids, table)
    ensures Replayable(CODE_LIMITS, l)
  {
    LogSize(t, ids, table);
    SixtyFours(ONODES, t.oid);
    PaddedFits(|EncodeLog(l.entries)|);
    if t.CreateTx? {
      BitmapsAligned(PAGE_BITMAP, [t.page / 512], t.snap);
    }
  }

  // ---------- building the log ----------

  /** The block numbers of the new extents, in order. */
  method FillIndex(extents: seq<Extent>) returns (dib: seq<nat>)
    ensures dib == Flatten(extents)
  {
    dib := [];
    for j := 0 to |extents|
      invariant dib == Flatten(extents[..j])
    {
      assert extents[..j + 1][..j] == extents[..j];
      ghost var before := dib;
      for k := 0 to extents[j].len
        invariant dib == before + Blocks(extents[j])[..k]
      {
        dib := dib + [extents[j].lba + k];
      }
    }
    assert extents[..|extents|] == extents;
  }

  lemma MoreLogged(before: seq<Entry>, base: nat, ids: seq<nat>, i: nat, snap: seq<bool>)
    requires i < |ids| && IdsIn(ids, snap)
    ensures before + BitmapEntries(base, ids[..i], snap) + [Entry(0, base + 64 * ids[i], BitmapEntry(snap, ids[i]))]
         == before + BitmapEntries(base, ids[..i + 1], snap)
  {
    BitmapSnoc(base, ids, i, snap);
  }

  /** Logs the given bitmap entries; false as soon as one does not fit. */
  method LogBitmap(tx: Pm.Transaction, base: nat, ids: seq<nat>, snap: seq<bool>) returns (ok: bool)
    requires tx.Valid() && IdsIn(ids, snap) && |snap| <= 0x1_0000_0000 && base <= 0x1_0000_0000
    modifies tx, tx.le
    ensures ok == (|EncodeLog(old(tx.entries))| + 88 * |ids| <= REGION_SIZE)
    ensures ok ==> tx.Valid() && tx.entries == old(tx.entries) + BitmapEntries(base, ids, snap)
  {
    ghost var before := tx.entries;
    assert before + BitmapEntries(base, ids[..0], snap) == before;
    for i := 0 to |ids|
      invariant tx.Valid() && tx.entries == before + BitmapEntries(base, ids[..i], snap)
      invariant tx.lh.alignLength == |EncodeLog(before)| + 88 * i
    {
      ok := tx.Add(base + 64 * ids[i], 0, BitmapEntry(snap, ids[i]));
      if !ok {
        return;
      }
      MoreLogged(before, base, ids, i, snap);
    }
    assert ids[..|ids|] == ids;
    return true;
  }

  predicate InBitmap(extents: seq<Extent>, n: nat) {
    forall i | 0 <= i < |extents| :: 512 * (extents[i].lba / 512) + 512 <= n
  }

  lemma IdsFit(extents: seq<Extent>, ids: seq<nat>, snap: seq<bool>)
    requires InBitmap(extents, |snap|) && forall id :: id in ids <==> FirstEntryOfSome(extents, id)
    ensures IdsIn(ids, snap) && SetOf(ids) == EntryIds(extents)
  {
    forall k | 0 <= k < |ids| ensures 512 * ids[k] + 512 <= |snap| {
      assert ids[k] in ids;
      var i :| 0 <= i < |extents| && extents[i].lba / 512 == ids[k];
    }
  }

  lemma BitmapsSize(ids: seq<nat>, snap: seq<bool>)
    requires IdsIn(ids, snap)
    ensures |EncodeLog(BitmapEntries(SSD_BITMAP, ids, snap))| == 88 * |ids|
  {
    BitmapLogSize([], SSD_BITMAP, ids, snap);
    assert [] + BitmapEntries(SSD_BITMAP, ids, snap) == BitmapEntries(SSD_BITMAP, ids, snap);
  }

  lemma BothLists(bid: seq<nat>, bid2: seq<nat>, snap: seq<bool>)
    requires IdsIn(bid, snap) && IdsIn(bid2, snap)
    ensures IdsIn(bid + bid2, snap) && SetOf(bid + bid2) == SetOf(bid) + SetOf(bid2)
    ensures BitmapEntries(SSD_BITMAP, bid + bid2, snap)
         == BitmapEntries(SSD_BITMAP, bid, snap) + BitmapEntries(SSD_BITMAP, bid2, snap)
  {
  }

  /** Logs the bitmap entries of the extents freed, then those of the extents taken. */
  method LogBitmaps(tx: Pm.Transaction, bits: seq<bool>, was: seq<Extent>, taken: seq<Extent>)
    returns (ok: bool, ghost ids: seq<nat>)
    requires tx.Valid() && tx.entries == [] && |bits| <= 0x1_0000_0000
    requires InBitmap(was, |bits|) && InBitmap(taken, |bits|) && |was| <= 32 && |taken| <= 32
    modifies tx, tx.le
    ensures ok && tx.Valid() && IdsIn(ids, bits) && SetOf(ids) == EntryIds(was) + EntryIds(taken)
    ensures tx.entries == BitmapEntries(SSD_BITMAP, ids, bits) && tx.lh.alignLength <= 88 * 64
  {
    var bid := LbaToBitmapId(was);
    var bid2 := LbaToBitmapId(taken);
    IdsFit(was, bid, bits);
    IdsFit(taken, bid2, bits);
    ids := bid + bid2;
    BothLists(bid, bid2, bits);
    BitmapsSize(bid, bits);
    BitmapsSize(ids, bits);
    ok := LogBitmap(tx, SSD_BITMAP, bid, bits);
    if !ok {
      return;
    }
    assert tx.entries == BitmapEntries(SSD_BITMAP, bid, bits);
    ok := LogBitmap(tx, SSD_BITMAP, bid2, bits);
  }

  /** Logs the index range and the onode. */
  method LogIndexAndOnode(tx: Pm.Transaction, taken: seq<Extent>, oid: nat, oe: S.Onode, bofst: nat, table: nat)
    returns (dib: seq<nat>)
    requires tx.Valid() && tx.lh.alignLength <= 88 * 64 && |Flatten(taken)| <= 32 && table < 0x1_0000_0000_0000
    requires oe.page < 0x1_0000_0000 && bofst < 1024 && oid < 0x10_0000
    modifies tx, tx.le
    ensures tx.Valid() && dib == Flatten(taken) && tx.lh.alignLength <= 5872
    ensures tx.entries
         == old(tx.entries) + [IndexEntry(oe.page, bofst, dib), OnodeEntry(table, oid, OnodeBytes(oid, oe))]
  {
    dib := FillIndex(taken);
    var ok := tx.Add(PAGES + 4096 * oe.page + 4 * bofst, 0, IndexBytes(dib));
    ok := tx.Add(ONODES + 64 * oid, table + 64 * oid, OnodeBytes(oid, oe));
  }

  /** Logs a write: the bitmap entries of the extents freed and taken, the index range and the onode. No entry is ever
      refused, and the padded log fits the region. */
  method LogWrite(tx: Pm.Transaction, bits: seq<bool>, was: seq<Extent>, taken: seq<Extent>, oid: nat, oe: S.Onode,
                  bofst: nat, table: nat) returns (ok: bool, dib: seq<nat>, ghost ids: seq<nat>)
    requires tx.Valid() && tx.entries == [] && |bits| <= 0x1_0000_0000 && table < 0x1_0000_0000_0000
    requires InBitmap(was, |bits|) && InBitmap(taken, |bits|) && |was| <= 32 && |taken| <= 32 && |Flatten(taken)| <= 32
    requires oe.page < 0x1_0000_0000 && bofst < 1024 && oid < 0x10_0000
    modifies tx, tx.le
    ensures ok && tx.Valid() && dib == Flatten(taken) && IdsIn(ids, bits)
            && SetOf(ids) == EntryIds(was) + EntryIds(taken)
    ensures tx.entries == BitmapEntries(SSD_BITMAP, ids, bits)
                          + [IndexEntry(oe.page, bofst, dib), OnodeEntry(table, oid, OnodeBytes(oid, oe))]
    ensures HEADER_SIZE + CeilAlign256(tx.lh.alignLength) <= REGION_SIZE
  {
    ok, ids := LogBitmaps(tx, bits, was, taken);
    if ok {
      dib := LogIndexAndOnode(tx, taken, oid, oe, bofst, table);
    } else {
      dib := [];
    }
  }

  /** Logs a create (the new onode and its page's bitmap entry) or a delete (the cleared onode alone). */
  method LogCreateDelete(tx: Pm.Transaction, oid: nat, page: Option<nat>, bits: seq<bool>, table: nat)
    requires tx.Valid() && tx.entries == [] && |bits| <= 0x1_0000_0000 && table < 0x1_0000_0000_0000 && oid < 0x10_0000
    requires page.Some? ==> page.value < 0x1_0000_0000 && 512 * (page.value / 512) + 512 <= |bits|
    modifies tx, tx.le
    ensures tx.Valid() && HEADER_SIZE + CeilAlign256(tx.lh.alignLength) <= REGION_SIZE
    ensures tx.entries
         == EntriesOf(if page.Some? then S.CreateTx(oid, page.value, bits) else S.DeleteTx(oid, 0), [], table)
  {
    var bytes := if page.Some? then OnodeBytes(oid, S.Onode(true, page.value)) else Zeros(64);
    var ok := tx.Add(ONODES + 64 * oid, table + 64 * oid, bytes);
    assert ok && tx.lh.alignLength == 88;
    if page.Some? {
      LogPageEntry(tx, page.value / 512, bits);
    }
  }

  method LogPageEntry(tx: Pm.Transaction, id: nat, bits: seq<bool>)
    requires tx.Valid() && tx.lh.alignLength == 88 && 512 * id + 512 <= |bits| <= 0x1_0000_0000
    modifies tx, tx.le
    ensures tx.Valid() && tx.lh.alignLength == 176
    ensures tx.entries == old(tx.entries) + [Entry(0, PAGE_BITMAP + 64 * id, BitmapEntry(bits, id))]
  {
    var ok := tx.Add(PAGE_BITMAP + 64 * id, 0, BitmapEntry(bits, id));
  }

  // ---------- carrying it out ----------

  /** The DRAM copy of the onode table. */
  predicate TableHolds(dram: seq<Byte>, table: nat, onodes: seq<S.Onode>) {
    && table + 64 * |onodes| <= |dram|
    && forall o | 0 <= o < |onodes| :: DecodeOnode(dram[table + 64 * o..table + 64 * o + 64]) == onodes[o]
  }

  lemma TablePut(dram: seq<Byte>, table: nat, onodes: seq<S.Onode>, o: nat, bytes: seq<Byte>)
    requires TableHolds(dram, table, onodes) && o < |onodes| && |bytes| == 64
    ensures TableHolds(Put(dram, table + 64 * o, bytes), table, onodes[o := DecodeOnode(bytes)])
  {
    var now := Put(dram, table + 64 * o, bytes);
    forall q | 0 <= q < |onodes|
      ensures DecodeOnode(now[table + 64 * q..table + 64 * q + 64]) == onodes[o := DecodeOnode(bytes)][q]
    {
      if q == o {
        assert now[table + 64 * q..table + 64 * q + 64] == bytes;
      } else {
        PutOutside(dram, table + 64 * o, bytes, table + 64 * q, table + 64 * q + 64);
        SameSlice(dram, now, table + 64 * q, table + 64 * q + 64, table + 64 * q, table + 64 * q + 64);
      }
    }
  }

  /** Entries without a DRAM address refresh nothing. */
  lemma {:induction false} NoRefresh(dram: seq<Byte>, es: seq<Entry>, a: nat, b: nat)
    requires a <= b <= |es| && forall e | e in es :: e.paddr + |e.value| <= |dram|
    requires forall k | a <= k < b :: es[k].paddr == 0
    ensures Pm.Refreshed(dram, es, b) == Pm.Refreshed(dram, es, a)
    decreases b
  {
    if a != b {
      NoRefresh(dram, es, a, b - 1);
    }
  }

  /** The entry of a transaction that goes to the onode table. */
  function OnodePart(t: S.Tx, ids: seq<nat>): nat {
    if t.WriteTx? then |ids| + 1 else 0
  }

  function NewOnode(t: S.Tx): S.Onode {
    match t
    case WriteTx(_, oe, _, _, _, _, _, _, _) => oe
    case CreateTx(_, page, _) => S.Onode(true, page)
    case DeleteTx(_, _) => S.Onode(false, 0)
  }

  function NewOnodeBytes(t: S.Tx): (s: seq<Byte>)
    ensures |s| == 64
  {
    if t.DeleteTx? then Zeros(64) else OnodeBytes(t.oid, NewOnode(t))
  }

  lemma OnodeEntryAt(t: S.Tx, ids: seq<nat>, table: nat)
    requires Loggable(t, ids) && (NewOnode(t).page < 0x1_0000_0000)
    ensures var es, k := EntriesOf(t, ids, table), OnodePart(t, ids);
            && k < |es| && es[k] == OnodeEntry(table, t.oid, NewOnodeBytes(t))
            && forall j | 0 <= j < |es| && j != k :: es[j].paddr == 0
    ensures DecodeOnode(NewOnodeBytes(t)) == NewOnode(t)
  {
    OnodeRoundTrip(t.oid, NewOnode(t));
    NoOnode();
  }

  /** Of all the entries only that one reaches DRAM. */
  lemma {:induction false} OneRefresh(dram: seq<Byte>, es: seq<Entry>, k: nat)
    requires k < |es| && es[k].paddr != 0 && forall e | e in es :: e.paddr + |e.value| <= |dram|
    requires forall j | 0 <= j < |es| && j != k :: es[j].paddr == 0
    ensures es[k].paddr + |es[k].value| <= |dram|
    ensures Pm.Refreshed(dram, es, |es|) == Put(dram, es[k].paddr, es[k].value)
  {
    NoRefresh(dram, es, 0, k);
    NoRefresh(dram, es, k + 1, |es|);
  }

  /** The DRAM table follows the durable one. */
  lemma {:induction false} TableFollows(dram: seq<Byte>, table: nat, m: Meta, t: S.Tx, ids: seq<nat>)
    requires table > 0 && TableHolds(dram, table, m.onodes) && Matches(m, t, ids) && NewOnode(t).page < 0x1_0000_0000
    requires forall e | e in EntriesOf(t, ids, table) :: e.paddr + |e.value| <= |dram|
    ensures var es := EntriesOf(t, ids, table);
            TableHolds(Pm.Refreshed(dram, es, |es|), table, S.Commit(m, t).onodes)
  {
    OnodeEntryAt(t, ids, table);
    OneRefresh(dram, EntriesOf(t, ids, table), OnodePart(t, ids));
    TablePut(dram, table, m.onodes, t.oid, NewOnodeBytes(t));
    CommitOnodes(m, t);
  }

  lemma CommitOnodes(m: Meta, t: S.Tx)
    requires S.TxFits(m, t)
    ensures S.Commit(m, t).onodes == m.onodes[t.oid := NewOnode(t)]
  {
  }

  lemma FinalStage(pm: seq<Byte>, l: Log, log: nat)
    requires LogOk(l) && Placed(l.entries, log, |pm|) && AllFit(Stores(l.entries), |pm|)
    ensures SameOutside(StageAt(pm, l, log, |l.entries| + 7), Applied(pm, l.entries), log)
  {
    var n := |l.entries| + 7;
    forall a: nat | a < |pm| && !InRegion(log, a) ensures StageAt(pm, l, log, n)[a] == Applied(pm, l.entries)[a] {
      StageOutside(pm, l, log, n, a);
    }
  }

  /** At the end of an apply the memory, outside the log region, is the one with all entries stored. */
  lemma {:induction false} ApplyEnds(base: seq<Byte>, trace: seq<PmOp>, pm: seq<Byte>, l: Log, log: nat)
    requires AllFit(trace, |base|) && pm == PmDevice.At(base, trace, |trace|) && LogOk(l)
             && Placed(l.entries, log, |base|)
    ensures AllFit(trace + ApplyOps(l, log), |base|) && AllFit(Stores(l.entries), |pm|)
    ensures var all := trace + ApplyOps(l, log);
            SameOutside(PmDevice.At(base, all, |all|), Applied(pm, l.entries), log)
  {
    ApplyFits(l, log, |base|);
    WholeTrace(base, trace, ApplyOps(l, log));
    ApplyAt(pm, l, log, |l.entries| + 7);
    FinalStage(pm, l, log);
  }

  lemma WholeTrace(base: seq<Byte>, a: seq<PmOp>, b: seq<PmOp>)
    requires AllFit(a, |base|) && AllFit(b, |base|)
    ensures AllFit(a + b, |base|)
    ensures PmDevice.At(base, a + b, |a + b|) == PmDevice.At(PmDevice.At(base, a, |a|), b, |b|)
  {
    AtConcat(base, a, b, |b|);
  }

  /** Applying a transaction of the store: afterwards the memory holds the committed metadata and the DRAM table agrees
      with it. */
  method Commit(pm: Pm.Pmem, dram: array<Byte>, tx: Pm.Transaction, ghost m: Meta, ghost t: S.Tx, ghost ids: seq<nat>,
                ghost table: nat)
    requires tx.Valid() && pm.Valid() && pm.mapped != tx.le && dram != tx.le && dram != pm.mapped
    requires HEADER_SIZE + CeilAlign256(tx.lh.alignLength) <= REGION_SIZE && pm.logOfst + REGION_SIZE <= SSD_BITMAP
    requires Holds(pm.mapped[..], m) && Matches(m, t, ids) && tx.entries == EntriesOf(t, ids, table)
    requires table > 0 && TableHolds(dram[..], table, m.onodes) && NewOnode(t).page < 0x1_0000_0000
    requires forall e | e in tx.entries :: e.paddr + |e.value| <= dram.Length
    modifies tx`lh, pm`trace, pm.mapped, dram
    ensures pm.Valid() && S.TxFits(m, t) && Holds(pm.mapped[..], S.Commit(m, t))
    ensures TableHolds(dram[..], table, S.Commit(m, t).onodes)
    ensures pm.trace == old(pm.trace) + ApplyOps(old(tx.AsLog()), pm.logOfst)
  {
    ReadyToApply(pm.mapped[..], m, t, ids, table, tx.AsLog(), pm.logOfst);
    TableFollows(dram[..], table, m, t, ids);
    ApplyLog(pm, dram, tx, S.Commit(m, t));
  }

  /** Applying a log whose entries turn the memory into one that holds `m'`. */
  method ApplyLog(pm: Pm.Pmem, dram: array<Byte>, tx: Pm.Transaction, ghost m': Meta)
    requires tx.Valid() && pm.Valid() && pm.mapped != tx.le && dram != tx.le && dram != pm.mapped
    requires HEADER_SIZE + CeilAlign256(tx.lh.alignLength) <= REGION_SIZE && pm.logOfst + REGION_SIZE <= SSD_BITMAP
    requires Placed(tx.entries, pm.logOfst, pm.mapped.Length) && AllFit(Stores(tx.entries), pm.mapped.Length)
    requires Holds(Applied(pm.mapped[..], tx.entries), m')
    requires forall e | e in tx.entries :: e.paddr + |e.value| <= dram.Length
    modifies tx`lh, pm`trace, pm.mapped, dram
    ensures pm.Valid() && Holds(pm.mapped[..], m')
    ensures dram[..] == Pm.Refreshed(old(dram[..]), tx.entries, |tx.entries|)
    ensures pm.trace == old(pm.trace) + ApplyOps(old(tx.AsLog()), pm.logOfst)
  {
    ghost var was, trace, l, log := pm.mapped[..], pm.trace, tx.AsLog(), pm.logOfst;
    Pm.LogLength(tx.entries);
    tx.Apply(pm, dram);
    AfterApply(pm.base, trace, was, l, log, m');
  }

  lemma {:induction false} AfterApply(base: seq<Byte>, trace: seq<PmOp>, pm: seq<Byte>, l: Log, log: nat, m': Meta)
    requires AllFit(trace, |base|) && pm == PmDevice.At(base, trace, |trace|) && LogOk(l)
             && Placed(l.entries, log, |base|)
    requires AllFit(Stores(l.entries), |pm|) && Holds(Applied(pm, l.entries), m') && log + REGION_SIZE <= SSD_BITMAP
    ensures var all := trace + ApplyOps(l, log); AllFit(all, |base|) && Holds(PmDevice.At(base, all, |all|), m')
  {
    ApplyEnds(base, trace, pm, l, log);
    var all := trace + ApplyOps(l, log);
    HoldsFrame(Applied(pm, l.entries), PmDevice.At(base, all, |all|), m');
  }

  lemma ReadyToApply(pm: seq<Byte>, m: Meta, t: S.Tx, ids: seq<nat>, table: nat, l: Log, log: nat)
    requires Holds(pm, m) && Matches(m, t, ids) && l.entries == EntriesOf(t, ids, table)
    requires log % 8 == 0 && log + REGION_SIZE <= SSD_BITMAP
    ensures Placed(l.entries, log, |pm|) && AllFit(Stores(l.entries), |pm|) && S.TxFits(m, t)
    ensures Holds(Applied(pm, l.entries), S.Commit(m, t))
  {
    EntriesCommit(pm, m, t, ids, table);
    ClearPlaced(l.entries, log, |pm|);
  }
}
