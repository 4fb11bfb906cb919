/** Power failures while a transaction of the store is applied: the metadata found by the next mount. */
module MetaCrash {
  import opened Bytes
  import opened Common
  import opened PmDevice
  import opened PmLog
  import opened PmCrash
  import opened PmRestart
  import opened Extents
  import opened Layout
  import opened MetaLog
  import S = StoreModel

  /** The transaction's log, applied by a core whose region starts at `log`. */
  ghost predicate Applying(pm: seq<Byte>, m: Meta, t: S.Tx, ids: seq<nat>, table: nat, l: Log, log: nat) {
    && Holds(pm, m) && Matches(m, t, ids) && LogOk(l) && l.entries == EntriesOf(t, ids, table)
    && log % 8 == 0 && log + REGION_SIZE <= SSD_BITMAP
  }

  lemma ApplyingFits(pm: seq<Byte>, m: Meta, t: S.Tx, ids: seq<nat>, table: nat, l: Log, log: nat)
    requires Applying(pm, m, t, ids, table, l, log)
    ensures Placed(l.entries, log, |pm|) && AllFit(ApplyOps(l, log), |pm|) && AllFit(Stores(l.entries), |pm|)
    ensures S.TxFits(m, t) && Holds(Applied(pm, l.entries), S.Commit(m, t))
  {
    EntriesCommit(pm, m, t, ids, table);
    ClearPlaced(l.entries, log, |pm|);
    ApplyFits(l, log, |pm|);
  }

  /** The memory recovers to one that holds `m`. */
  ghost predicate Mounts(lim: Limits, img: seq<Byte>, log: nat, m: Meta) {
    log + REGION_SIZE <= |img| && Recover(lim, img, log).Some? && Holds(Recover(lim, img, log).value, m)
  }

  lemma MountsFrom(lim: Limits, img: seq<Byte>, log: nat, pm: seq<Byte>, m: Meta)
    requires log + REGION_SIZE <= |img| && log + REGION_SIZE <= SSD_BITMAP
    requires RecoversTo(lim, img, log, pm) && Holds(pm, m)
    ensures Mounts(lim, img, log, m)
  {
    HoldsFrame(pm, Recover(lim, img, log).value, m);
  }

  /** With the commit bit set and recovery reading the whole region, a crash anywhere in the apply leaves the metadata
      before the transaction or after it; after it, once the header is durable. */
  lemma TransactionAtomic(pm: seq<Byte>, m: Meta, t: S.Tx, ids: seq<nat>, table: nat, l: Log,
                                             log: nat, n: nat, img: seq<Byte>)
    requires Applying(pm, m, t, ids, table, l, log) && l.valid && log + REGION_SIZE <= |pm| && IdleAt(pm, log)
    requires AllFit(ApplyOps(l, log), |pm|) && n <= |l.entries| + 7 && CrashImage(pm, ApplyOps(l, log), n, img)
    ensures S.TxFits(m, t)
    ensures n <= 2 ==> Mounts(REGION_LIMITS, img, log, m)
    ensures n == 3 ==> Mounts(REGION_LIMITS, img, log, m) || Mounts(REGION_LIMITS, img, log, S.Commit(m, t))
    ensures n >= 4 ==> Mounts(REGION_LIMITS, img, log, S.Commit(m, t))
  {
    ApplyingFits(pm, m, t, ids, table, l, log);
    CommittedCrash(REGION_LIMITS, pm, l, log, n, img);
    if RecoversTo(REGION_LIMITS, img, log, pm) {
      MountsFrom(REGION_LIMITS, img, log, pm, m);
    }
    if RecoversTo(REGION_LIMITS, img, log, Applied(pm, l.entries)) {
      MountsFrom(REGION_LIMITS, img, log, Applied(pm, l.entries), S.Commit(m, t));
    }
  }

  /** ... and further crashes during recovery change nothing. */
  lemma MountsAfterRestarts(lim: Limits, imgs: seq<seq<Byte>>, log: nat, m: Meta)
    requires |imgs| > 0 && CrashChain(lim, imgs, log) && LogPlaced(lim, imgs[0], log)
    requires Mounts(lim, imgs[0], log, m) && log + REGION_SIZE <= SSD_BITMAP
    ensures Mounts(lim, imgs[|imgs| - 1], log, m)
  {
    RestartChain(lim, imgs, log);
    MountsFrom(lim, imgs[|imgs| - 1], log, Recover(lim, imgs[0], log).value, m);
  }

  lemma ApplyingPlaced(pm: seq<Byte>, m: Meta, t: S.Tx, ids: seq<nat>, table: nat, l: Log,
                                          log: nat, n: nat, img: seq<Byte>)
    requires Applying(pm, m, t, ids, table, l, log) && l.valid && log + REGION_SIZE <= |pm| && IdleAt(pm, log)
    requires AllFit(ApplyOps(l, log), |pm|) && n <= |l.entries| + 7 && CrashImage(pm, ApplyOps(l, log), n, img)
    ensures LogPlaced(REGION_LIMITS, img, log)
  {
    ApplyingFits(pm, m, t, ids, table, l, log);
    CrashPlaced(REGION_LIMITS, pm, l, log, n, img);
  }

  /** A transaction through a power failure during its apply and any number during the recoveries after it. */
  lemma AtomicThroughMounts(pm: seq<Byte>, m: Meta, t: S.Tx, ids: seq<nat>, table: nat, l: Log,
                                               log: nat, n: nat, imgs: seq<seq<Byte>>)
    requires Applying(pm, m, t, ids, table, l, log) && l.valid && log + REGION_SIZE <= |pm| && IdleAt(pm, log)
    requires AllFit(ApplyOps(l, log), |pm|) && n <= |l.entries| + 7
    requires |imgs| > 0 && CrashImage(pm, ApplyOps(l, log), n, imgs[0]) && CrashChain(REGION_LIMITS, imgs, log)
    ensures S.TxFits(m, t) && LogPlaced(REGION_LIMITS, imgs[0], log)
    ensures var last := imgs[|imgs| - 1];
            && (Mounts(REGION_LIMITS, last, log, m) || Mounts(REGION_LIMITS, last, log, S.Commit(m, t)))
            && (n >= 4 ==> Mounts(REGION_LIMITS, last, log, S.Commit(m, t)))
  {
    TransactionAtomic(pm, m, t, ids, table, l, log, n, imgs[0]);
    ApplyingPlaced(pm, m, t, ids, table, l, log, n, imgs[0]);
    if Mounts(REGION_LIMITS, imgs[0], log, S.Commit(m, t)) {
      MountsAfterRestarts(REGION_LIMITS, imgs, log, S.Commit(m, t));
    } else {
      MountsAfterRestarts(REGION_LIMITS, imgs, log, m);
    }
  }

  // ---------- a create's index page ----------

  lemma AllOnes()
    ensures EncodeLe(HOLE, 4) == [255, 255, 255, 255]
  {
    assert EncodeLe(0xFF_FFFF, 3) == [255] + EncodeLe(0xFFFF, 2);
    assert EncodeLe(0xFFFF, 2) == [255] + EncodeLe(0xFF, 1);
    assert EncodeLe(0xFF, 1) == [255] + EncodeLe(0, 0);
  }

  /** A page of 0xFF bytes is an index of holes. */
  lemma {:induction false} HolesBytes(n: nat)
    ensures IndexBytes(seq(n, _ => HOLE)) == seq(4 * n, _ => 255)
  {
    if n > 0 {
      HolesBytes(n - 1);
      AllOnes();
      var s := seq(n, _ => HOLE);
      assert s[..n - 1] == seq(n - 1, _ => HOLE);
      var bytes: seq<Byte> := seq(4 * (n - 1), _ => 255);
      var all: seq<Byte> := seq(4 * n, _ => 255);
      assert IndexBytes(s) == bytes + [255, 255, 255, 255];
      assert all == bytes + [255, 255, 255, 255];
    }
  }

  function PageFill(page: nat): (op: PmOp) {
    PmOp.Store(PAGES + 4096 * page, seq(4096, _ => 255))
  }

  function Filled(m: Meta, page: nat): Meta
    requires page < |m.index|
  {
    m.(index := m.index[page := S.InitialPage()])
  }

  lemma FillPage(pm: seq<Byte>, m: Meta, page: nat)
    requires Holds(pm, m) && page < |m.index|
    ensures Fits(PageFill(page), |pm|) && Holds(Step(pm, PageFill(page)), Filled(m, page))
  {
    var lbas := S.InitialPage();
    StoreIndex(pm, m, page, 0, lbas);
    HolesBytes(1024);
    assert lbas == seq(1024, _ => HOLE);
    assert IndexBytes(lbas) == seq(4096, _ => 255);
    assert Splice(m.index[page], 0, lbas) == lbas;
  }

  /** The index page as it decodes from the memory. */
  function PageOf(pm: seq<Byte>, page: nat): (lbas: seq<nat>)
    requires PAGES + 4096 * page + 4096 <= |pm|
    ensures |lbas| == S.OBJ_BLOCKS
  {
    seq(S.OBJ_BLOCKS, b requires 0 <= b < S.OBJ_BLOCKS => LbaAt(pm, PAGES + 4096 * page + 4 * b))
  }

  /** What is found after a crash in the first `n` operations depends on no later one. */
  lemma CrashPrefix(pm: seq<Byte>, a: seq<PmOp>, b: seq<PmOp>, n: nat, img: seq<Byte>)
    requires n <= |a| && AllFit(a, |pm|) && AllFit(b, |pm|) && AllFit(a + b, |pm|) && CrashImage(pm, a + b, n, img)
    ensures CrashImage(pm, a, n, img)
  {
    LastDrainPrefix(a, b, n);
    forall w: nat | 8 * w < |pm| ensures WordFrom(pm, a, n, img, w) {
      assert WordFrom(pm, a + b, n, img, w);
      var k: nat :| LastDrain(a + b, n) <= k <= n && WordAt(pm, a + b, k, img, w);
      AtPrefix(pm, a, b, k);
      assert WordAt(pm, a, k, img, w);
    }
  }

  // ---------- without the commit bit ----------

  lemma TwoWords(pm: seq<Byte>, es: seq<Entry>, x: nat, y: nat)
    requires AllFit(Stores(es), |pm|) && x < |pm| && y < |pm| && x / 8 != y / 8
    requires Applied(pm, es)[x] != pm[x] && Applied(pm, es)[y] != pm[y]
    ensures !ChangesOneWord(pm, es)
  {
    assert !WordStill(pm, es, x / 8) by {
      assert !SameWord(At(pm, Stores(es), |es|), pm, x / 8);
    }
    assert !WordStill(pm, es, y / 8) by {
      assert !SameWord(At(pm, Stores(es), |es|), pm, y / 8);
    }
  }

  lemma DifferentLba(a: seq<Byte>, b: seq<Byte>, at: nat) returns (x: nat)
    requires at + 4 <= |a| == |b| && LbaAt(a, at) != LbaAt(b, at)
    ensures at <= x < at + 4 && a[x] != b[x]
  {
    if SameIn(a, b, at, at + 4) {
      SameSlice(a, b, at, at + 4, at, at + 4);
      assert false;
    }
    x :| at <= x < at + 4 && a[x] != b[x];
  }

  /** The code never sets the commit bit, so no write of the store is applied atomically: it changes the bitmap and the
      index, which lie in different words, and recovery replays nothing. */
  lemma UncommittedWriteTears(lim: Limits, pm: seq<Byte>, m: Meta, t: S.Tx, ids: seq<nat>,
                                                 table: nat, l: Log, log: nat)
    requires t.WriteTx? && Applying(pm, m, t, ids, table, l, log) && !l.valid && log + REGION_SIZE <= |pm|
             && IdleAt(pm, log)
    requires S.Shaped(m) && |t.lbas| > 0 && t.lbas[0] != m.index[t.oe.page][t.bofst]
    requires var x := t.lbas[0]; x < |m.ssd| && !m.ssd[x] && t.snap[x] && x / 512 in t.ids
    ensures Placed(l.entries, log, |pm|) && AllFit(ApplyOps(l, log), |pm|) && AllFit(Stores(l.entries), |pm|)
    ensures !CrashAtomic(lim, pm, l, log)
  {
    ApplyingFits(pm, m, t, ids, table, l, log);
    var x, now, m' := t.lbas[0], Applied(pm, l.entries), S.Commit(m, t);
    BitDiffers(pm, now, m, m', x);
    assert m'.index[t.oe.page][t.bofst] == x;
    var y := IndexDiffers(pm, now, m, m', t.oe.page, t.bofst);
    TwoWords(pm, l.entries, SSD_BITMAP + x / 8, y);
    CrashAtomicExactly(lim, pm, l, log);
  }

  lemma BitDiffers(a: seq<Byte>, b: seq<Byte>, m: Meta, m': Meta, x: nat)
    requires Holds(a, m) && Holds(b, m') && x < |m.ssd| == |m'.ssd| && m.ssd[x] != m'.ssd[x]
    ensures SSD_BITMAP + x / 8 < PAGE_BITMAP <= |a| && SSD_BITMAP + x / 8 < |b|
            && a[SSD_BITMAP + x / 8] != b[SSD_BITMAP + x / 8]
  {
    assert BitAt(a, SSD_BITMAP, x) == m.ssd[x] && BitAt(b, SSD_BITMAP, x) == m'.ssd[x];
  }

  lemma IndexDiffers(a: seq<Byte>, b: seq<Byte>, m: Meta, m': Meta, page: nat, k: nat)
    returns (y: nat)
    requires Holds(a, m) && Holds(b, m') && |a| == |b| && page < |m.index| == |m'.index| && k < |m.index[page]|
    requires k < |m'.index[page]| && m.index[page][k] != m'.index[page][k]
    ensures PAGES <= y < |a| && a[y] != b[y]
  {
    var base := PAGES + 4096 * page;
    assert PageHolds(a, base, m.index[page]) && PageHolds(b, base, m'.index[page]);
    assert LbaAt(a, base + 4 * k) != LbaAt(b, base + 4 * k);
    y := DifferentLba(a, b, base + 4 * k);
  }
}
