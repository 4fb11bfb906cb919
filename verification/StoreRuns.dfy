/** Every run of the store: any interleaving of requests, data I/O, commits, power failures and mounts. */
module StoreRuns {
  import opened AllocSpec
  import opened Allocator
  import opened Extents
  import opened StoreModel
  import opened StoreInv
  import opened StoreAccept

  datatype Event =
    | WriteRequest(oid: nat, bofst: nat, data: seq<Block>)
    | CreateRequest(oid: nat)
    | DeleteRequest(oid: nat)
    | BlockStored(tx: nat, block: nat)
    | HeadCommits
    | RequestRefused
    | PowerFails

  /** A store just formatted and mounted. */
  ghost predicate Formatted(s: Store) {
    && |s.meta.ssd| <= SSD_BLOCKS_MAX && |s.disk| == |s.meta.ssd| && |s.meta.index| <= |s.meta.pages|
    && (forall p | 0 <= p < |s.meta.index| :: |s.meta.index[p]| == OBJ_BLOCKS)
    && (forall o | 0 <= o < |s.meta.onodes| :: !s.meta.onodes[o].valid)
    && (forall x | 0 <= x < |s.meta.ssd| :: !s.meta.ssd[x]) && s.meta.lost == {}
    && s.ssd == Mounted(s.meta.ssd) && s.pm == Mounted(s.meta.pages)
    && s.txs == [] && s.history == [] && s.done == 0
  }

  ghost predicate Step(s: Store, e: Event, s': Store) {
    match e
    case WriteRequest(oid, bofst, data) =>
      Shaped(s.meta) && WriteAllowed(s, oid, bofst, |data|) && WriteSafe(s, oid, bofst, |data|)
      && s' == AcceptWrite(s, oid, bofst, data)
    case CreateRequest(oid) =>
      CreateAllowed(s, oid) && CreateSafe(s)
      && s' == AcceptCreate(s, oid)
    case DeleteRequest(oid) =>
      Shaped(s.meta) && DeleteAllowed(s, oid) && |s.pm.bits| == |s.meta.pages| && s' == AcceptDelete(s, oid)
    case BlockStored(p, j) =>
      p < |s.txs| && s.txs[p].WriteTx? && j in s.txs[p].pending
      && j < |s.txs[p].lbas| == |s.txs[p].data| && s.txs[p].lbas[j] < |s.disk| && s' == StoreBlock(s, p, j)
    case HeadCommits =>
      |s.txs| > 0 && Ready(s.txs[0]) && TxFits(s.meta, s.txs[0]) && s' == CommitHead(s)
    case RequestRefused => s' == s
    case PowerFails => CrashAndMount(s, s')
  }

  ghost predicate Next(s: Store, s': Store) {
    exists e :: Step(s, e, s')
  }

  ghost predicate NextAt(run: seq<Store>, i: nat) {
    i + 1 < |run| && Next(run[i], run[i + 1])
  }

  ghost predicate Run(run: seq<Store>) {
    && |run| > 0 && Formatted(run[0])
    && forall i: nat | i + 1 < |run| :: NextAt(run, i)
  }

  /** The free counters agree with the bitmaps. */
  predicate Counted(s: Store) {
    s.ssd.free == CountClear(s.ssd.bits, |s.ssd.bits|) && s.pm.free == CountClear(s.pm.bits, |s.pm.bits|)
  }

  ghost predicate Good(s: Store) {
    Inv(s) && Counted(s)
  }

  // ---------- power failure ----------

  /** What a crash may scramble is nobody's. */
  lemma CrashMeta(m: Meta, m': Meta)
    requires Sound(m) && MetaAfterCrash(m, m')
    ensures Sound(m') && (forall x: nat :: Used(m', x) <==> Used(m, x))
  {
    forall o: nat, b: nat, x: nat ensures Maps(m', o, b, x) <==> Maps(m, o, b, x) {
      assert Live(m', o) <==> Live(m, o);
    }
    forall x: nat ensures Used(m', x) <==> Used(m, x) {
      if o: nat, b: nat :| Maps(m, o, b, x) {
        assert Maps(m', o, b, x);
      }
    }
  }

  lemma CrashView(m: Meta, m': Meta, disk: seq<Block>)
    requires Sound(m) && MetaAfterCrash(m, m')
    ensures Shaped(m') && ViewOf(m', disk) == ViewOf(m, disk)
  {
    CrashMeta(m, m');
    forall o: nat | Live(m, o) ensures ObjectOf(m', disk, o) == ObjectOf(m, disk, o) {
    }
  }

  /** The metadata a crash leaves: before or after the oldest transaction, never in between. */
  ghost function Survivor(s: Store, c: nat): Meta
    requires c <= |s.txs| && (c == 1 ==> TxFits(s.meta, s.txs[0]))
  {
    if c == 1 then Commit(s.meta, s.txs[0]) else s.meta
  }

  lemma SurvivorView(s: Store, c: nat)
    requires Inv(s) && c <= 1 && c <= |s.txs| && (c == 1 ==> Ready(s.txs[0]))
    ensures c == 1 ==> TxFits(s.meta, s.txs[0])
    ensures Sound(Survivor(s, c)) && Survivor(s, c) == Stage(s, c)
    ensures ViewOf(Survivor(s, c), s.disk) == Replay(s.history[..s.done + c])
  {
    assert StageFine(s, 0) && Stage(s, 0) == s.meta;
    if c == 1 {
      assert TxFine(s, 0) && StageFine(s, 1);
      CommitHeadView(s);
      assert Stage(s, 1) == Commit(s.meta, s.txs[0]);
    }
  }

  /** Blocks in doubt are used neither before nor after the commit that the crash may cut. */
  lemma DoubtUnused(s: Store, c: nat, x: nat)
    requires Inv(s) && c <= 1 && c <= |s.txs| && (c == 1 ==> Ready(s.txs[0])) && InDoubt(s, x)
    ensures Shaped(Stage(s, c)) && !Used(Stage(s, c), x)
  {
    var p, j :| 0 <= p < |s.txs| && WritingTo(s.txs[p], j, x);
    assert Fresh(s, p, c);
  }

  lemma CrashStage(s: Store, s': Store, c: nat)
    requires Inv(s) && c <= 1 && CrashAfter(s, s', c)
    ensures Stage(s', 0) == s'.meta && StageFine(s', 0)
  {
    SurvivorView(s, c);
    CrashMeta(Survivor(s, c), s'.meta);
  }

  /** What a client finds after the crash. */
  lemma CrashShows(s: Store, s': Store, c: nat)
    requires Inv(s) && c <= 1 && CrashAfter(s, s', c)
    ensures Sound(s'.meta) && ViewOf(s'.meta, s'.disk) == Replay(s'.history)
  {
    SurvivorView(s, c);
    var m := Survivor(s, c);
    CrashMeta(m, s'.meta);
    CrashView(m, s'.meta, s'.disk);
    forall x: nat | x < |s.disk| && s.disk[x] != s'.disk[x] ensures !Used(m, x) {
      DoubtUnused(s, c, x);
    }
    SameView(m, s.disk, s'.disk);
  }

  lemma CrashInv(s: Store, s': Store, c: nat)
    requires Good(s) && c <= 1 && CrashAfter(s, s', c)
    ensures Good(s')
  {
    SurvivorView(s, c);
    FutureSizes(s.meta, s.txs, c);
    CrashShows(s, s', c);
    CrashStage(s, s', c);
    assert s'.history[..s'.done] == s'.history;
  }

  // ---------- counters ----------

  lemma CountFreed(s: Store, oid: nat, bofst: nat, n: nat)
    requires Good(s) && WriteAllowed(s, oid, bofst, n)
    ensures var bits := FreedBits(s, oid, bofst, n);
            CountClear(bits, |bits|) == s.ssd.free + |Flatten(OldExtents(s, oid, bofst, n))|
  {
    var k := |s.txs|;
    var m := Stage(s, k);
    assert StageFine(s, k);
    IdleObject(s, oid, k);
    var bi := m.index[m.onodes[oid].page][bofst..bofst + n];
    MergeRoundTrip(bi);
    OldBlocks(m, oid, bofst, n, NonHoles(bi));
    CounterAfterFree(s.ssd.bits, NonHoles(bi));
  }

  lemma CountWrite(s: Store, oid: nat, bofst: nat, data: seq<Block>)
    requires Good(s) && WriteAllowed(s, oid, bofst, |data|) && WriteSafe(s, oid, bofst, |data|)
    ensures Counted(AcceptWrite(s, oid, bofst, data))
  {
    CountFreed(s, oid, bofst, |data|);
    CounterAfterAlloc(FreedBits(s, oid, bofst, |data|), s.ssd.hint, |data|);
  }

  lemma CountCreate(s: Store, oid: nat)
    requires Good(s) && CreateAllowed(s, oid) && CreateSafe(s)
    ensures Counted(AcceptCreate(s, oid))
  {
    CounterAfterAlloc(s.pm.bits, s.pm.hint, 1);
  }

  lemma CountDelete(s: Store, oid: nat)
    requires Good(s) && DeleteAllowed(s, oid)
    ensures Counted(AcceptDelete(s, oid))
  {
    var page := s.meta.onodes[oid].page;
    assert StageFine(s, 0) && Stage(s, 0) == s.meta;
    IdleObject(s, oid, |s.txs|);
    assert StageFine(s, |s.txs|) && Live(Stage(s, |s.txs|), oid);
    CountClearOne(s.pm.bits, page, |s.pm.bits|);
  }

  // ---------- all runs ----------

  lemma StepGood(s: Store, e: Event, s': Store)
    requires Good(s) && Step(s, e, s')
    ensures Good(s')
  {
    match e
    case WriteRequest(oid, bofst, data) =>
      AcceptWriteInv(s, oid, bofst, data);
      CountWrite(s, oid, bofst, data);
    case CreateRequest(oid) =>
      AcceptCreateInv(s, oid);
      CountCreate(s, oid);
    case DeleteRequest(oid) =>
      AcceptDeleteInv(s, oid);
      CountDelete(s, oid);
    case BlockStored(p, j) => StoreBlockInv(s, p, j);
    case HeadCommits => CommitHeadInv(s);
    case RequestRefused =>
    case PowerFails =>
      var c: nat :| c <= 1 && CrashAfter(s, s', c);
      CrashInv(s, s', c);
  }

  lemma FormattedGood(s: Store)
    requires Formatted(s)
    ensures Good(s)
  {
    assert Stage(s, 0) == s.meta;
    assert forall x: nat :: !Used(s.meta, x);
    assert StageFine(s, 0);
    assert ViewOf(s.meta, s.disk) == map[];
    assert s.history[..s.done] == [];
  }

  lemma {:induction false} RunGood(run: seq<Store>, i: nat)
    requires Run(run) && i < |run|
    ensures Good(run[i])
    decreases i
  {
    if i == 0 {
      FormattedGood(run[0]);
    } else {
      RunGood(run, i - 1);
      assert NextAt(run, i - 1);
      var e :| Step(run[i - 1], e, run[i]);
      StepGood(run[i - 1], e, run[i]);
    }
  }

  /** Crash atomicity over all runs: whenever the power fails, what a client finds after the next mount is the effect
      of the operations committed so far in the order they were accepted, with at most the oldest pending one added;
      no operation is ever seen in part. */
  lemma CrashAtomicity(run: seq<Store>, i: nat, s': Store)
    requires Run(run) && i < |run| && CrashAndMount(run[i], s')
    ensures Shaped(s'.meta) && ViewOf(s'.meta, s'.disk) == Replay(s'.history)
    ensures s'.history == run[i].history[..run[i].done]
         || (|run[i].txs| > 0 && run[i].done < |run[i].history| && s'.history == run[i].history[..run[i].done + 1])
  {
    RunGood(run, i);
    var c: nat :| c <= 1 && CrashAfter(run[i], s', c);
    CrashShows(run[i], s', c);
  }

  /** The operations committed in `s` are still the first of those in `s'`. */
  predicate Keeps(s: Store, s': Store) {
    s.done <= |s.history| && s.done <= s'.done <= |s'.history| && s'.history[..s.done] == s.history[..s.done]
  }

  lemma StepKeeps(s: Store, e: Event, s': Store)
    requires Good(s) && Step(s, e, s')
    ensures Keeps(s, s')
  {
    StepGood(s, e, s');
    if e.PowerFails? {
      var c: nat :| c <= 1 && CrashAfter(s, s', c);
      assert s'.history[..s.done] == s.history[..s.done];
    }
  }

  lemma NextKeeps(s: Store, s': Store)
    requires Good(s) && Next(s, s')
    ensures Keeps(s, s')
  {
    var e :| Step(s, e, s');
    StepKeeps(s, e, s');
  }

  lemma KeepsOn(a: Store, b: Store, c: Store)
    requires Keeps(a, b) && Keeps(b, c)
    ensures Keeps(a, c)
  {
    assert c.history[..a.done] == c.history[..b.done][..a.done];
    assert b.history[..a.done] == b.history[..b.done][..a.done];
  }

  lemma GoodKeeps(run: seq<Store>, i: nat)
    requires Run(run) && i < |run|
    ensures Keeps(run[i], run[i]) && (i + 1 < |run| ==> Keeps(run[i], run[i + 1]))
  {
    RunGood(run, i);
    if i + 1 < |run| {
      assert NextAt(run, i);
      NextKeeps(run[i], run[i + 1]);
    }
  }

  /** What has been committed stays committed, through any number of crashes. */
  lemma {:induction false} CommittedForEver(run: seq<Store>, i: nat, j: nat)
    requires Run(run) && i <= j < |run|
    ensures Keeps(run[i], run[j])
    decreases j - i
  {
    if i == j {
      GoodKeeps(run, i);
    } else {
      CommittedForEver(run, i, j - 1);
      GoodKeeps(run, j - 1);
      KeepsOn(run[i], run[j - 1], run[j]);
    }
  }

  /** With nothing in flight, block ownership and the two copies of the SSD bitmap agree: the DRAM bitmap is the durable
      one, and its set bits are exactly the blocks of live objects and those lost to deletes. */
  lemma QuietOwnership(run: seq<Store>, i: nat)
    requires Run(run) && i < |run| && run[i].txs == []
    ensures Sound(run[i].meta) && run[i].meta.ssd == run[i].ssd.bits
    ensures forall x: nat | x < |run[i].ssd.bits| ::
              run[i].ssd.bits[x] <==> Used(run[i].meta, x) || x in run[i].meta.lost
    ensures run[i].ssd.free == CountClear(run[i].ssd.bits, |run[i].ssd.bits|)
    ensures ViewOf(run[i].meta, run[i].disk) == Replay(run[i].history)
  {
    var s := run[i];
    RunGood(run, i);
    assert StageFine(s, 0) && Stage(s, 0) == s.meta;
    assert s.history[..s.done] == s.history;
  }

  /** After every commit the durable SSD bitmap is the DRAM bitmap as it stood when that transaction was prepared,
      however late it commits and whatever was accepted since. */
  lemma DurableBitmapIsSnapshot(run: seq<Store>, i: nat)
    requires Run(run) && i < |run| && |run[i].txs| > 0 && run[i].txs[0].WriteTx? && Ready(run[i].txs[0])
    ensures TxFits(run[i].meta, run[i].txs[0]) && CommitHead(run[i]).meta.ssd == run[i].txs[0].snap
  {
    RunGood(run, i);
    assert StageFine(run[i], 0) && TxFine(run[i], 0) && Stage(run[i], 0) == run[i].meta;
  }
}
