/** The invariant of the running store, stated over the metadata as it will be after each pending commit. */
module StoreInv {
  import opened Extents
  import opened StoreModel
  import opened StoreCommit

  /** The durable metadata once the first `i` pending transactions have committed. */
  ghost function Future(m: Meta, txs: seq<Tx>, i: nat): Meta
    requires i <= |txs|
  {
    if i == 0 then m
    else
      var p := Future(m, txs, i - 1);
      if TxFits(p, txs[i - 1]) then Commit(p, txs[i - 1]) else p
  }

  ghost function Stage(s: Store, i: nat): Meta
    requires i <= |s.txs|
  {
    Future(s.meta, s.txs, i)
  }

  // ---------- the invariant ----------

  /** At every stage: ownership is sound, and a block or page in use is allocated in DRAM unless a later pending
      transaction has already freed it there. */
  ghost predicate StageFine(s: Store, i: nat)
    requires i <= |s.txs|
  {
    && Sound(Stage(s, i))
    && (forall x: nat | Used(Stage(s, i), x) ::
          x < |s.ssd.bits| && (s.ssd.bits[x] || x in FreedFrom(s.txs, i)))
    && (forall o: nat | Live(Stage(s, i), o) ::
          var page := Stage(s, i).onodes[o].page;
          page < |s.pm.bits| && (s.pm.bits[page] || page in PagesFreedFrom(s.txs, i)))
  }

  /** The blocks a pending write stores into are in use at no stage up to its own. */
  ghost predicate Fresh(s: Store, p: nat, i: nat)
    requires i <= p < |s.txs|
  {
    s.txs[p].WriteTx? ==> Unused(Stage(s, i), s.txs[p].lbas)
  }

  ghost predicate Unused(m: Meta, lbas: seq<nat>) {
    Shaped(m) && forall j | 0 <= j < |lbas| :: !Used(m, lbas[j])
  }

  /** Blocks no longer pending hold their data. */
  ghost predicate Stored(disk: seq<Block>, t: Tx) {
    t.WriteTx? ==>
      |t.data| == |t.lbas| && forall j | 0 <= j < |t.lbas| ::
        t.lbas[j] < |disk| && (j in t.pending || disk[t.lbas[j]] == t.data[j])
  }

  ghost predicate TxFine(s: Store, p: nat)
    requires p < |s.txs|
  {
    && TxOk(Stage(s, p), s.txs[p]) && BitsOk(Stage(s, p), s.txs[p])
    && Stored(s.disk, s.txs[p])
    && s.done + p < |s.history| && s.history[s.done + p] == OpOf(s.txs[p])
  }

  ghost predicate Sizes(s: Store) {
    && Shaped(s.meta) && |s.disk| == |s.meta.ssd| == |s.ssd.bits| && |s.pm.bits| == |s.meta.pages|
    && s.done + |s.txs| == |s.history|
  }

  ghost predicate Inv(s: Store) {
    && Sizes(s)
    && (forall i | 0 <= i <= |s.txs| :: StageFine(s, i))
    && (forall p | 0 <= p < |s.txs| :: TxFine(s, p))
    && (forall p, i | 0 <= i <= p < |s.txs| :: Fresh(s, p, i))
    && (forall p, q | 0 <= p < q < |s.txs| :: s.txs[p].oid != s.txs[q].oid)
    && Stage(s, |s.txs|).ssd == s.ssd.bits
    && ViewOf(s.meta, s.disk) == Replay(s.history[..s.done])
  }

  // ---------- stages ----------

  lemma {:induction false} FutureSizes(m: Meta, txs: seq<Tx>, i: nat)
    requires i <= |txs|
    ensures var f := Future(m, txs, i);
            && |f.onodes| == |m.onodes| && |f.index| == |m.index| && |f.ssd| == |m.ssd| && |f.pages| == |m.pages|
    decreases i
  {
    if i > 0 {
      FutureSizes(m, txs, i - 1);
    }
  }

  lemma {:induction false} FutureAppend(m: Meta, txs: seq<Tx>, t: Tx, i: nat)
    requires i <= |txs|
    ensures Future(m, txs + [t], i) == Future(m, txs, i)
    decreases i
  {
    if i > 0 {
      FutureAppend(m, txs, t, i - 1);
      assert (txs + [t])[i - 1] == txs[i - 1];
    }
  }

  lemma {:induction false} FutureShift(m: Meta, txs: seq<Tx>, i: nat)
    requires i < |txs| && TxFits(m, txs[0])
    ensures Future(Commit(m, txs[0]), txs[1..], i) == Future(m, txs, i + 1)
    decreases i
  {
    if i == 0 {
      assert Future(m, txs, 0) == m;
    } else {
      FutureShift(m, txs, i - 1);
      assert txs[1..][i - 1] == txs[i];
    }
  }

  /** Changing only the progress of the data I/O leaves every stage alone. */
  lemma {:induction false} FutureProgress(m: Meta, txs: seq<Tx>, p: nat, pending: set<nat>, i: nat)
    requires p < |txs| && txs[p].WriteTx? && i <= |txs|
    ensures Future(m, txs[p := txs[p].(pending := pending)], i) == Future(m, txs, i)
    decreases i
  {
    if i > 0 {
      FutureProgress(m, txs, p, pending, i - 1);
    }
  }

  lemma {:induction false} FreedAppend(txs: seq<Tx>, t: Tx, i: nat)
    requires i <= |txs|
    ensures FreedFrom(txs + [t], i) == FreedFrom(txs, i) + if t.WriteTx? then t.freed else {}
    ensures PagesFreedFrom(txs + [t], i) == PagesFreedFrom(txs, i) + if t.DeleteTx? then {t.page} else {}
    decreases |txs| - i
  {
    if i < |txs| {
      FreedAppend(txs, t, i + 1);
    } else {
      assert FreedFrom(txs + [t], i + 1) == {} && PagesFreedFrom(txs + [t], i + 1) == {};
    }
  }

  lemma {:induction false} FreedShift(txs: seq<Tx>, i: nat)
    requires i < |txs|
    ensures FreedFrom(txs[1..], i) == FreedFrom(txs, i + 1) && PagesFreedFrom(txs[1..], i) == PagesFreedFrom(txs, i + 1)
    decreases |txs| - i
  {
    if i < |txs| - 1 {
      FreedShift(txs, i + 1);
      assert txs[1..][i] == txs[i + 1];
    }
  }

  lemma {:induction false} FreedProgress(txs: seq<Tx>, p: nat, pending: set<nat>, i: nat)
    requires p < |txs| && txs[p].WriteTx? && i <= |txs|
    ensures FreedFrom(txs[p := txs[p].(pending := pending)], i) == FreedFrom(txs, i)
    ensures PagesFreedFrom(txs[p := txs[p].(pending := pending)], i) == PagesFreedFrom(txs, i)
    decreases |txs| - i
  {
    if i < |txs| {
      FreedProgress(txs, p, pending, i + 1);
    }
  }

  /** What later stages free, earlier ones count as freed too. */
  lemma {:induction false} FreedEarlier(txs: seq<Tx>, i: nat, j: nat)
    requires i <= j <= |txs|
    ensures FreedFrom(txs, j) <= FreedFrom(txs, i) && PagesFreedFrom(txs, j) <= PagesFreedFrom(txs, i)
    decreases j - i
  {
    if i < j {
      FreedEarlier(txs, i + 1, j);
    }
  }

  // ---------- accepting one more transaction ----------

  /** A transaction that fits the last stage may join the queue. */
  ghost predicate MayJoin(s: Store, s': Store, t: Tx) {
    var k := |s.txs|;
    && s' == s.(txs := s.txs + [t], history := s.history + [OpOf(t)], ssd := s'.ssd, pm := s'.pm)
    && |s'.ssd.bits| == |s.ssd.bits| && |s'.pm.bits| == |s.pm.bits|
    && TxOk(Stage(s, k), t) && BitsOk(Stage(s, k), t) && Stored(s.disk, t) && Idle(s.txs, t.oid)
    && s'.ssd.bits == Commit(Stage(s, k), t).ssd
    && (t.WriteTx? ==> forall i | 0 <= i <= k :: Unused(Stage(s, i), t.lbas))
    && (forall x: nat | x < |s.ssd.bits| && s.ssd.bits[x] :: s'.ssd.bits[x] || (t.WriteTx? && x in t.freed))
    && (forall g: nat | g < |s.pm.bits| && s.pm.bits[g] :: s'.pm.bits[g] || (t.DeleteTx? && g == t.page))
    && (forall o: nat | Live(Commit(Stage(s, k), t), o) ::
          var page := Commit(Stage(s, k), t).onodes[o].page; page < |s'.pm.bits| && s'.pm.bits[page])
  }

  lemma JoinStage(s: Store, s': Store, t: Tx, i: nat)
    requires Inv(s) && MayJoin(s, s', t) && i <= |s.txs|
    ensures Stage(s', i) == Stage(s, i) && StageFine(s', i)
  {
    FutureAppend(s.meta, s.txs, t, i);
    FreedAppend(s.txs, t, i);
    assert StageFine(s, i);
  }

  lemma JoinLast(s: Store, s': Store, t: Tx)
    requires Inv(s) && MayJoin(s, s', t)
    ensures Stage(s', |s.txs| + 1) == Commit(Stage(s, |s.txs|), t) && StageFine(s', |s.txs| + 1)
  {
    var k := |s.txs|;
    FutureAppend(s.meta, s.txs, t, k);
    assert s'.txs[k] == t;
    assert StageFine(s, k);
    CommitSound(Stage(s, k), t);
    FutureSizes(s'.meta, s'.txs, k + 1);
  }

  lemma JoinTx(s: Store, s': Store, t: Tx, p: nat)
    requires Inv(s) && MayJoin(s, s', t) && p <= |s.txs|
    ensures TxFine(s', p)
  {
    JoinStage(s, s', t, p);
    if p < |s.txs| {
      assert TxFine(s, p) && s'.txs[p] == s.txs[p];
    }
  }

  lemma JoinFresh(s: Store, s': Store, t: Tx, p: nat, i: nat)
    requires Inv(s) && MayJoin(s, s', t) && i <= p <= |s.txs|
    ensures Fresh(s', p, i)
  {
    JoinStage(s, s', t, i);
    if p < |s.txs| {
      assert Fresh(s, p, i) && s'.txs[p] == s.txs[p];
    }
  }

  lemma JoinInv(s: Store, s': Store, t: Tx)
    requires Inv(s) && MayJoin(s, s', t)
    ensures Inv(s')
  {
    var k := |s.txs|;
    forall i | 0 <= i <= k ensures StageFine(s', i) {
      JoinStage(s, s', t, i);
    }
    JoinLast(s, s', t);
    forall p | 0 <= p <= k ensures TxFine(s', p) {
      JoinTx(s, s', t, p);
    }
    forall p, i | 0 <= i <= p <= k ensures Fresh(s', p, i) {
      JoinFresh(s, s', t, p, i);
    }
    assert s'.history[..s'.done] == s.history[..s.done];
  }

  // ---------- the other steps ----------

  lemma CommitStage(s: Store, i: nat)
    requires Inv(s) && 0 < |s.txs| && TxFits(s.meta, s.txs[0]) && i < |s.txs|
    ensures Stage(CommitHead(s), i) == Stage(s, i + 1) && StageFine(CommitHead(s), i)
  {
    FutureShift(s.meta, s.txs, i);
    FreedShift(s.txs, i);
    assert StageFine(s, i + 1);
  }

  /** The head's commit shows the next operation of the history. */
  lemma CommitHeadView(s: Store)
    requires Inv(s) && |s.txs| > 0 && Ready(s.txs[0])
    ensures TxFits(s.meta, s.txs[0]) && Sizes(CommitHead(s))
    ensures ViewOf(CommitHead(s).meta, s.disk) == Replay(s.history[..s.done + 1])
  {
    var t := s.txs[0];
    assert TxFine(s, 0) && StageFine(s, 0);
    assert Stage(s, 0) == s.meta;
    CommitView(s.meta, s.disk, t);
    FutureSizes(s.meta, s.txs, 1);
    assert s.history[..s.done + 1][..s.done] == s.history[..s.done];
  }

  lemma CommitHeadInv(s: Store)
    requires Inv(s) && |s.txs| > 0 && Ready(s.txs[0])
    ensures TxFits(s.meta, s.txs[0]) && Inv(CommitHead(s))
  {
    CommitHeadView(s);
    var s' := CommitHead(s);
    forall i | 0 <= i <= |s'.txs| ensures Stage(s', i) == Stage(s, i + 1) && StageFine(s', i) {
      CommitStage(s, i);
    }
    forall p | 0 <= p < |s'.txs| ensures TxFine(s', p) {
      assert TxFine(s, p + 1) && s'.txs[p] == s.txs[p + 1];
    }
    forall p, i | 0 <= i <= p < |s'.txs| ensures Fresh(s', p, i) {
      assert Fresh(s, p + 1, i + 1) && s'.txs[p] == s.txs[p + 1];
    }
  }

  /** Two pending blocks are different blocks. */
  lemma PendingDistinct(s: Store, p: nat, j: nat, q: nat, k: nat)
    requires Inv(s) && p < q < |s.txs| && s.txs[p].WriteTx? && s.txs[q].WriteTx?
    requires j < |s.txs[p].lbas| && k < |s.txs[q].lbas|
    ensures s.txs[p].lbas[j] != s.txs[q].lbas[k]
  {
    var t := s.txs[p];
    assert TxFine(s, p) && StageFine(s, p) && StageFine(s, p + 1) && Fresh(s, q, p + 1);
    var m := Stage(s, p);
    assert Stage(s, p + 1) == Commit(m, t);
    WriteShape(m, t);
    WriteMaps(m, t, t.oid, t.bofst + j, t.lbas[j]);
    assert Used(Stage(s, p + 1), t.lbas[j]);
  }

  lemma StoreBlockInv(s: Store, p: nat, j: nat)
    requires Inv(s) && p < |s.txs| && s.txs[p].WriteTx? && j in s.txs[p].pending
    ensures j < |s.txs[p].lbas| == |s.txs[p].data| && s.txs[p].lbas[j] < |s.disk|
    ensures Inv(StoreBlock(s, p, j))
  {
    assert TxFine(s, p);
    var t := s.txs[p];
    var s' := StoreBlock(s, p, j);
    forall i | 0 <= i <= |s.txs| ensures Stage(s', i) == Stage(s, i) && StageFine(s', i) {
      FutureProgress(s.meta, s.txs, p, t.pending - {j}, i);
      FreedProgress(s.txs, p, t.pending - {j}, i);
      assert StageFine(s, i);
    }
    forall q | 0 <= q < |s'.txs| ensures TxFine(s', q) {
      StoredAfter(s, p, j, q);
    }
    forall q, i | 0 <= i <= q < |s'.txs| ensures Fresh(s', q, i) {
      assert Fresh(s, q, i);
    }
    assert Fresh(s, p, 0) && Stage(s, 0) == s.meta;
    SameView(s.meta, s.disk, s'.disk);
  }

  lemma StoredAfter(s: Store, p: nat, j: nat, q: nat)
    requires Inv(s) && p < |s.txs| && s.txs[p].WriteTx? && j in s.txs[p].pending && q < |s.txs|
    requires j < |s.txs[p].lbas| == |s.txs[p].data| && s.txs[p].lbas[j] < |s.disk|
    requires Stage(StoreBlock(s, p, j), q) == Stage(s, q)
    ensures TxFine(StoreBlock(s, p, j), q)
  {
    var s' := StoreBlock(s, p, j);
    assert TxFine(s, q);
    if s.txs[q].WriteTx? {
      forall k | 0 <= k < |s.txs[q].lbas|
        ensures k in s'.txs[q].pending || s'.disk[s.txs[q].lbas[k]] == s.txs[q].data[k]
      {
        if q < p {
          PendingDistinct(s, q, k, p, j);
        } else if p < q {
          PendingDistinct(s, p, j, q, k);
        }
      }
      if q == p {
        PendingIrrelevant(Stage(s, q), s.txs[q], s.txs[q].pending - {j});
      }
    }
  }

  lemma PendingIrrelevant(m: Meta, t: Tx, pending: set<nat>)
    requires t.WriteTx? && TxOk(m, t) && BitsOk(m, t) && pending <= t.pending
    ensures TxOk(m, t.(pending := pending)) && BitsOk(m, t.(pending := pending))
  {
    var t' := t.(pending := pending);
    forall x: nat ensures FreedBy(m, t', x) <==> FreedBy(m, t, x) {
      if b: nat :| Replaced(t, b) && Maps(m, t.oid, b, x) {
        assert Replaced(t', b);
      }
      if b: nat :| Replaced(t', b) && Maps(m, t.oid, b, x) {
        assert Replaced(t, b);
      }
    }
  }

  /** Blocks the metadata does not use may change freely. */
  lemma SameView(m: Meta, disk: seq<Block>, disk': seq<Block>)
    requires Shaped(m) && |disk'| == |disk|
    requires forall x: nat | x < |disk| && disk[x] != disk'[x] :: !Used(m, x)
    ensures ViewOf(m, disk') == ViewOf(m, disk)
  {
    forall o: nat | Live(m, o) ensures ObjectOf(m, disk', o) == ObjectOf(m, disk, o) {
      forall b: nat | b < OBJ_BLOCKS ensures BlockAt(m, disk', o, b) == BlockAt(m, disk, o, b) {
        var x := Lba(m, o, b);
        if x != HOLE && x < |disk| {
          assert Maps(m, o, b, x);
        }
      }
    }
  }
}
