/** The running store over real bytes: what power failures leave on the medium while index pages are filled outside the
    log and transactions are applied through it. */
module StoreBytes {
  import opened Bytes
  import opened Common
  import opened PmDevice
  import opened PmLog
  import opened PmCrash
  import opened PmRestart
  import opened Layout
  import opened MetaLog
  import opened MetaCrash
  import opened StoreAccept
  import Prepare
  import S = StoreModel
  import StoreCommit
  import StoreInv
  import StoreRuns

  /** `ids` lists the bitmap entries of the transaction, each within the bitmap. */
  predicate Lists(ids: seq<nat>, t: S.Tx) {
    t.WriteTx? ==> SetOf(ids) == t.ids && IdsIn(ids, t.snap)
  }

  lemma OkMatches(m: S.Meta, t: S.Tx, ids: seq<nat>)
    requires StoreCommit.TxOk(m, t) && Geometry(m) && |m.pages| % 512 == 0 && Lists(ids, t)
    ensures Matches(m, t, ids)
  {
    if t.CreateTx? {
      EntryIndex(t.page, |m.pages|);
    }
  }

  // ---------- reading metadata back ----------

  lemma ByteInside(i: nat, n: nat)
    requires i < n && n % 512 == 0
    ensures i / 8 < n / 8
  {
    var q := n / 512;
    assert n == 8 * (64 * q);
  }

  function ReadBit(pm: seq<Byte>, base: nat, n: nat, i: nat): bool
    requires n % 512 == 0 && base + n / 8 <= |pm| && i < n
  {
    ByteInside(i, n);
    BitAt(pm, base, i)
  }

  function ReadBits(pm: seq<Byte>, base: nat, n: nat): (bits: seq<bool>)
    requires n % 512 == 0 && base + n / 8 <= |pm|
    ensures |bits| == n
  {
    seq(n, i requires 0 <= i < n => ReadBit(pm, base, n, i))
  }

  /** Metadata of the given sizes as a mount reads it. */
  ghost function ReadMeta(pm: seq<Byte>, sizes: S.Meta, lost: set<nat>): S.Meta
    requires PAGES + 4096 * |sizes.index| <= |pm| && ONODES + 64 * |sizes.onodes| <= |pm|
    requires |sizes.ssd| % 512 == 0 && |sizes.pages| % 512 == 0
    requires SSD_BITMAP + |sizes.ssd| / 8 <= |pm| && PAGE_BITMAP + |sizes.pages| / 8 <= |pm|
  {
    S.Meta(seq(|sizes.onodes|, o requires 0 <= o < |sizes.onodes| =>
                 DecodeOnode(pm[ONODES + 64 * o..ONODES + 64 * o + 64])),
           seq(|sizes.index|, p requires 0 <= p < |sizes.index| => PageOf(pm, p)),
           ReadBits(pm, SSD_BITMAP, |sizes.ssd|), ReadBits(pm, PAGE_BITMAP, |sizes.pages|), lost)
  }

  predicate SameSizes(m: S.Meta, m': S.Meta) {
    |m'.onodes| == |m.onodes| && |m'.index| == |m.index| && |m'.ssd| == |m.ssd| && |m'.pages| == |m.pages|
  }

  /** The bytes determine the metadata they hold. */
  lemma ReadHeld(pm: seq<Byte>, sizes: S.Meta, m: S.Meta)
    requires Holds(pm, m) && SameSizes(sizes, m)
    ensures ReadMeta(pm, sizes, m.lost) == m
  {
    var r := ReadMeta(pm, sizes, m.lost);
    forall p | 0 <= p < |m.index| ensures r.index[p] == m.index[p] {
      assert PageHolds(pm, PAGES + 4096 * p, m.index[p]);
    }
    assert r.index == m.index && r.onodes == m.onodes && r.ssd == m.ssd && r.pages == m.pages;
  }

  // ---------- the machine ----------

  /** The store, the medium as the last drain left it, and the index pages filled since. */
  datatype Machine = Machine(s: S.Store, pm: seq<Byte>, fills: seq<nat>)

  function Fills(pages: seq<nat>): (ops: seq<PmOp>)
    ensures |ops| == |pages| && forall i | 0 <= i < |ops| :: ops[i] == PageFill(pages[i])
  {
    seq(|pages|, i requires 0 <= i < |pages| => PageFill(pages[i]))
  }

  predicate InPage(a: nat, page: nat) {
    PAGES + 4096 * page <= a < PAGES + 4096 * page + 4096
  }

  /** All bytes of the page are 0xFF already. */
  predicate Ones(pm: seq<Byte>, page: nat) {
    forall a: nat | InPage(a, page) && a < |pm| :: pm[a] == 255
  }

  /** Filling the page again or halfway disturbs nobody. */
  ghost predicate Loose(m: S.Meta, pm: seq<Byte>, page: nat) {
    page < |m.index| && (NoOwner(m, page) || Ones(pm, page))
  }

  /** What a reader sees. */
  function Seen(pm: seq<Byte>, fills: seq<nat>): seq<Byte>
    requires AllFit(Fills(fills), |pm|)
  {
    At(pm, Fills(fills), |fills|)
  }

  ghost predicate Backed(b: Machine, log: nat) {
    && StoreRuns.Good(b.s)
    && log % 8 == 0 && log + REGION_SIZE <= SSD_BITMAP <= |b.pm| && IdleAt(b.pm, log)
    && AllFit(Fills(b.fills), |b.pm|) && Holds(Seen(b.pm, b.fills), b.s.meta)
    && forall i | 0 <= i < |b.fills| :: Loose(b.s.meta, b.pm, b.fills[i])
  }

  /** The log of the oldest transaction, with its commit bit set. */
  ghost predicate HeadLog(s: S.Store, ids: seq<nat>, table: nat, l: Log) {
    && |s.txs| > 0 && S.Ready(s.txs[0]) && Lists(ids, s.txs[0]) && LogOk(l) && l.valid
    && (Loggable(s.txs[0], ids) ==> l.entries == EntriesOf(s.txs[0], ids, table))
  }

  // ---------- one byte at a time ----------

  /** A byte no fill covers, or that is 0xFF already, reads the same after any number of the fills. */
  lemma {:induction false} FillsKeep(pm: seq<Byte>, fills: seq<nat>, k: nat, a: nat)
    requires AllFit(Fills(fills), |pm|) && k <= |fills| && a < |pm|
    requires pm[a] == 255 || forall i | 0 <= i < |fills| :: !InPage(a, fills[i])
    ensures At(pm, Fills(fills), k)[a] == pm[a]
    decreases k
  {
    if k > 0 {
      FillsKeep(pm, fills, k - 1, a);
      assert Fills(fills)[k - 1] == PageFill(fills[k - 1]);
    }
  }

  /** Every byte of the metadata outside loose pages reads the same before and after the fills. */
  lemma OwnedKept(b: Machine, log: nat, k: nat, a: nat)
    requires Backed(b, log) && k <= |b.fills| && a < |b.pm|
    requires forall page: nat | page < |b.s.meta.index| && NoOwner(b.s.meta, page) :: !InPage(a, page)
    ensures At(b.pm, Fills(b.fills), k)[a] == b.pm[a]
  {
    if exists i :: 0 <= i < |b.fills| && InPage(a, b.fills[i]) {
      var i :| 0 <= i < |b.fills| && InPage(a, b.fills[i]);
      assert Loose(b.s.meta, b.pm, b.fills[i]);
    }
    FillsKeep(b.pm, b.fills, k, a);
  }

  /** The metadata with whatever the memory now holds in pages of no object. */
  ghost function Scrambled(img: seq<Byte>, m: S.Meta): S.Meta
    requires PAGES + 4096 * |m.index| <= |img|
  {
    m.(index := seq(|m.index|, p requires 0 <= p < |m.index| => if NoOwner(m, p) then PageOf(img, p) else m.index[p]))
  }

  ghost predicate OwnedSame(pm: seq<Byte>, img: seq<Byte>, m: S.Meta) {
    && |img| == |pm|
    && forall a: nat | SSD_BITMAP <= a < |pm|
       && (forall page: nat | page < |m.index| && NoOwner(m, page) :: !InPage(a, page)) ::
         img[a] == pm[a]
  }

  lemma ScrambledHolds(pm: seq<Byte>, img: seq<Byte>, m: S.Meta)
    requires Holds(pm, m) && S.Shaped(m) && OwnedSame(pm, img, m)
    ensures Holds(img, Scrambled(img, m)) && S.MetaAfterCrash(m, Scrambled(img, m))
  {
    var m' := Scrambled(img, m);
    assert SameIn(pm, img, SSD_BITMAP, PAGES);
    BitsFrame(pm, img, SSD_BITMAP, m.ssd);
    BitsFrame(pm, img, PAGE_BITMAP, m.pages);
    OnodesFrame(pm, img, m.onodes);
    forall p | 0 <= p < |m.index|
      ensures |m'.index[p]| == S.OBJ_BLOCKS && PageHolds(img, PAGES + 4096 * p, m'.index[p])
    {
      assert PageHolds(pm, PAGES + 4096 * p, m.index[p]);
      if !NoOwner(m, p) {
        OwnedPage(pm, img, m, p);
        PageFrame(pm, img, PAGES + 4096 * p, m.index[p]);
      }
    }
    forall o: nat | S.Live(m, o) ensures m'.index[m.onodes[o].page] == m.index[m.onodes[o].page] {
      assert !NoOwner(m, m.onodes[o].page);
    }
  }

  lemma SamePage(a: nat, p: nat, q: nat)
    requires InPage(a, p)
    ensures InPage(a, q) <==> q == p
  {
  }

  lemma OwnedPage(pm: seq<Byte>, img: seq<Byte>, m: S.Meta, p: nat)
    requires OwnedSame(pm, img, m) && p < |m.index| && !NoOwner(m, p)
    ensures SameIn(pm, img, PAGES + 4096 * p, PAGES + 4096 * p + 4096)
  {
    forall a | PAGES + 4096 * p <= a < PAGES + 4096 * p + 4096 && a < |pm| ensures pm[a] == img[a] {
      forall page: nat | page < |m.index| && NoOwner(m, page) ensures !InPage(a, page) {
        SamePage(a, p, page);
      }
    }
  }

  // ---------- crashes ----------

  /** All that may have been issued since the last drain: the fills, and the apply of the oldest transaction. */
  function Issued(fills: seq<nat>, l: Log, log: nat): seq<PmOp> {
    Fills(fills) + ApplyOps(l, log)
  }

  lemma IssuedFits(b: Machine, log: nat, ids: seq<nat>, table: nat, l: Log)
    requires Backed(b, log) && HeadLog(b.s, ids, table, l)
    ensures Applying(Seen(b.pm, b.fills), b.s.meta, b.s.txs[0], ids, table, l, log) && S.TxFits(b.s.meta, b.s.txs[0])
    ensures AllFit(ApplyOps(l, log), |b.pm|) && AllFit(Issued(b.fills, l, log), |b.pm|)
  {
    assert StoreInv.TxFine(b.s, 0) && StoreInv.Stage(b.s, 0) == b.s.meta;
    OkMatches(b.s.meta, b.s.txs[0], ids);
    ApplyingFits(Seen(b.pm, b.fills), b.s.meta, b.s.txs[0], ids, table, l, log);
  }

  /** The log region is clear of all pages. */
  lemma SeenIdle(b: Machine, log: nat)
    requires Backed(b, log)
    ensures IdleAt(Seen(b.pm, b.fills), log)
  {
    var seen := Seen(b.pm, b.fills);
    forall a | log <= a < log + 8 ensures seen[a] == b.pm[a] {
      FillsKeep(b.pm, b.fills, |b.fills|, a);
    }
    SameSlice(seen, b.pm, log, log + 8, log, log + 8);
  }

  /** Before the first drain of the apply: pages of no object may be torn, and recovery finds nothing to do. */
  lemma EarlyCrash(b: Machine, log: nat, payload: PmOp, n: nat, img: seq<Byte>)
    requires Backed(b, log) && payload.Store? && n <= |b.fills| + 1
    requires log + HEADER_SIZE <= payload.ofst && payload.ofst + |payload.bytes| <= log + REGION_SIZE
    requires AllFit(Fills(b.fills) + [payload], |b.pm|) && CrashImage(b.pm, Fills(b.fills) + [payload], n, img)
    ensures Mounts(REGION_LIMITS, img, log, Scrambled(img, b.s.meta))
            && S.MetaAfterCrash(b.s.meta, Scrambled(img, b.s.meta))
    ensures ReadLog(REGION_LIMITS, img, log) == Idle
  {
    var m, seen := b.s.meta, Seen(b.pm, b.fills);
    assert StoreInv.StageFine(b.s, 0) && StoreInv.Stage(b.s, 0) == m;
    forall a: nat | SSD_BITMAP <= a < |b.pm|
        && (forall page: nat | page < |m.index| && NoOwner(m, page) :: !InPage(a, page))
      ensures img[a] == seen[a]
    {
      EarlyByte(b, log, payload, n, img, a);
      OwnedKept(b, log, |b.fills|, a);
    }
    assert OwnedSame(seen, img, m);
    ScrambledHolds(seen, img, m);
    forall a | log <= a < log + 8 ensures img[a] == b.pm[a] {
      EarlyByte(b, log, payload, n, img, a);
    }
    SameSlice(img, b.pm, log, log + 8, log, log + 8);
  }

  lemma EarlyByte(b: Machine, log: nat, payload: PmOp, n: nat, img: seq<Byte>, a: nat)
    requires Backed(b, log) && payload.Store? && n <= |b.fills| + 1 && a < |b.pm| && !Covers(payload, a)
    requires AllFit(Fills(b.fills) + [payload], |b.pm|) && CrashImage(b.pm, Fills(b.fills) + [payload], n, img)
    requires forall page: nat | page < |b.s.meta.index| && NoOwner(b.s.meta, page) :: !InPage(a, page)
    ensures img[a] == b.pm[a]
  {
    var k := CrashByte(b.pm, Fills(b.fills) + [payload], n, img, a);
    PayloadAside(b.pm, Fills(b.fills), payload, k, a);
    OwnedKept(b, log, if k <= |b.fills| then k else |b.fills|, a);
  }

  /** A store elsewhere does not matter to a byte. */
  lemma {:induction false} PayloadAside(pm: seq<Byte>, ops: seq<PmOp>, op: PmOp, k: nat, a: nat)
    requires AllFit(ops + [op], |pm|) && k <= |ops| + 1 && a < |pm| && !Covers(op, a)
    ensures AllFit(ops, |pm|) && At(pm, ops + [op], k)[a] == At(pm, ops, if k <= |ops| then k else |ops|)[a]
  {
    assert forall i | 0 <= i < |ops| :: (ops + [op])[i] == ops[i];
    assert (ops + [op])[|ops|] == op;
    if k <= |ops| {
      AtPrefix(pm, ops, [op], k);
    } else {
      AtSnoc(pm, ops, op);
    }
  }

  /** What recovery leaves has an idle log. */
  lemma RecoveredIdle(img: seq<Byte>, log: nat)
    requires log + REGION_SIZE <= |img| && Recover(REGION_LIMITS, img, log).Some?
    ensures IdleAt(Recover(REGION_LIMITS, img, log).value, log)
  {
    if ReadLog(REGION_LIMITS, img, log).Replay? {
      var r := Recover(REGION_LIMITS, img, log).value;
      assert r[log..log + 8] == Zeros(8);
      ZeroHeader(r[log..log + 8]);
    }
  }

  /** Did the oldest transaction reach the medium? */
  ghost function Survived(b: Machine, log: nat, img: seq<Byte>): nat
    requires |b.s.txs| > 0 && S.TxFits(b.s.meta, b.s.txs[0])
  {
    if Mounts(REGION_LIMITS, img, log, S.Commit(b.s.meta, b.s.txs[0])) then 1 else 0
  }

  /** A crash at any point while fills are pending and the oldest transaction is applied: the medium mounts to the
      metadata before that transaction or after it, up to index pages of no object, and after it once its header is
      durable. */
  lemma CrashMounts(b: Machine, log: nat, ids: seq<nat>, table: nat, l: Log, n: nat, img: seq<Byte>)
    returns (c: nat, m: S.Meta)
    requires Backed(b, log) && HeadLog(b.s, ids, table, l)
    requires n <= |Issued(b.fills, l, log)| && AllFit(Issued(b.fills, l, log), |b.pm|)
    requires CrashImage(b.pm, Issued(b.fills, l, log), n, img)
    ensures S.TxFits(b.s.meta, b.s.txs[0]) && c == Survived(b, log, img) && (n >= |b.fills| + 4 ==> c == 1)
    ensures S.MetaAfterCrash(if c == 1 then S.Commit(b.s.meta, b.s.txs[0]) else b.s.meta, m)
    ensures Mounts(REGION_LIMITS, img, log, m) && LogPlaced(REGION_LIMITS, img, log)
  {
    CommitShaped(b.s, b.s.txs[0]);
    c := Survived(b, log, img);
    if n <= |b.fills| + 1 {
      BeforeDrain(b, log, l, n, img);
      m := if c == 1 then S.Commit(b.s.meta, b.s.txs[0]) else Scrambled(img, b.s.meta);
    } else {
      AfterDrain(b, log, ids, table, l, n, img);
      AfterDrainPlaced(b, log, ids, table, l, n, img);
      m := if c == 1 then S.Commit(b.s.meta, b.s.txs[0]) else b.s.meta;
    }
  }

  lemma BeforeDrain(b: Machine, log: nat, l: Log, n: nat, img: seq<Byte>)
    requires Backed(b, log) && LogOk(l) && n <= |b.fills| + 1 && AllFit(Issued(b.fills, l, log), |b.pm|)
    requires CrashImage(b.pm, Issued(b.fills, l, log), n, img)
    ensures Mounts(REGION_LIMITS, img, log, Scrambled(img, b.s.meta))
            && S.MetaAfterCrash(b.s.meta, Scrambled(img, b.s.meta))
    ensures LogPlaced(REGION_LIMITS, img, log)
  {
    var ops, f := ApplyOps(l, log), Fills(b.fills);
    var payload, rest := ops[0], ops[1..];
    assert f + ops == (f + [payload]) + rest;
    SplitFits(f + [payload], rest, |b.pm|);
    CrashPrefix(b.pm, f + [payload], rest, n, img);
    EarlyCrash(b, log, payload, n, img);
  }

  lemma SplitFits(a: seq<PmOp>, b: seq<PmOp>, size: nat)
    requires AllFit(a + b, size)
    ensures AllFit(a, size) && AllFit(b, size)
  {
    assert forall i | 0 <= i < |a| :: (a + b)[i] == a[i];
    assert forall i | 0 <= i < |b| :: (a + b)[|a| + i] == b[i];
  }

  /** From the first drain of the apply on, the fills are durable. */
  lemma AfterDrain(b: Machine, log: nat, ids: seq<nat>, table: nat, l: Log, n: nat, img: seq<Byte>)
    requires Backed(b, log) && HeadLog(b.s, ids, table, l) && S.TxFits(b.s.meta, b.s.txs[0])
    requires |b.fills| + 2 <= n <= |Issued(b.fills, l, log)| && AllFit(Issued(b.fills, l, log), |b.pm|)
    requires CrashImage(b.pm, Issued(b.fills, l, log), n, img)
    ensures var m' := S.Commit(b.s.meta, b.s.txs[0]);
            && (Mounts(REGION_LIMITS, img, log, b.s.meta) || Mounts(REGION_LIMITS, img, log, m'))
            && (n >= |b.fills| + 4 ==> Mounts(REGION_LIMITS, img, log, m'))
  {
    FillsDurable(b, log, ids, table, l, n, img);
    TransactionAtomic(Seen(b.pm, b.fills), b.s.meta, b.s.txs[0], ids, table, l, log, n - |b.fills|, img);
  }

  lemma FillsDurable(b: Machine, log: nat, ids: seq<nat>, table: nat, l: Log, n: nat, img: seq<Byte>)
    requires Backed(b, log) && HeadLog(b.s, ids, table, l) && S.TxFits(b.s.meta, b.s.txs[0])
    requires |b.fills| + 2 <= n <= |Issued(b.fills, l, log)| && AllFit(Issued(b.fills, l, log), |b.pm|)
    requires CrashImage(b.pm, Issued(b.fills, l, log), n, img)
    ensures var seen := Seen(b.pm, b.fills);
            && Applying(seen, b.s.meta, b.s.txs[0], ids, table, l, log) && IdleAt(seen, log)
            && AllFit(ApplyOps(l, log), |b.pm|) && CrashImage(seen, ApplyOps(l, log), n - |b.fills|, img)
  {
    IssuedFits(b, log, ids, table, l);
    ApplyDrains(l, log, n - |b.fills|);
    CrashAfterDrain(b.pm, Fills(b.fills), ApplyOps(l, log), n - |b.fills|, img);
    SeenIdle(b, log);
  }

  lemma AfterDrainPlaced(b: Machine, log: nat, ids: seq<nat>, table: nat, l: Log, n: nat,
                                            img: seq<Byte>)
    requires Backed(b, log) && HeadLog(b.s, ids, table, l) && S.TxFits(b.s.meta, b.s.txs[0])
    requires |b.fills| + 2 <= n <= |Issued(b.fills, l, log)| && AllFit(Issued(b.fills, l, log), |b.pm|)
    requires CrashImage(b.pm, Issued(b.fills, l, log), n, img)
    ensures LogPlaced(REGION_LIMITS, img, log)
  {
    FillsDurable(b, log, ids, table, l, n, img);
    ApplyingPlaced(Seen(b.pm, b.fills), b.s.meta, b.s.txs[0], ids, table, l, log, n - |b.fills|, img);
  }

  lemma CommitShaped(s: S.Store, t: S.Tx)
    requires StoreInv.Inv(s) && |s.txs| > 0 && t == s.txs[0]
    ensures S.TxFits(s.meta, t) && S.MetaAfterCrash(S.Commit(s.meta, t), S.Commit(s.meta, t))
    ensures S.MetaAfterCrash(s.meta, s.meta)
  {
    assert StoreInv.TxFine(s, 0) && StoreInv.StageFine(s, 1) && StoreInv.StageFine(s, 0);
    assert StoreInv.Stage(s, 0) == s.meta && StoreInv.Stage(s, 1) == S.Commit(s.meta, t);
  }

  // ---------- the steps of the machine ----------

  /** The medium after the fills and a complete apply. */
  lemma CommitBacked(b: Machine, log: nat, ids: seq<nat>, table: nat, l: Log) returns (b': Machine)
    requires Backed(b, log) && HeadLog(b.s, ids, table, l)
    ensures AllFit(Issued(b.fills, l, log), |b.pm|) && StoreRuns.Step(b.s, StoreRuns.HeadCommits, b'.s)
            && Backed(b', log)
    ensures b'.pm == At(b.pm, Issued(b.fills, l, log), |Issued(b.fills, l, log)|) && b'.fills == []
  {
    IssuedFits(b, log, ids, table, l);
    var seen, ops := Seen(b.pm, b.fills), ApplyOps(l, log);
    var s', pm' := S.CommitHead(b.s), At(b.pm, Issued(b.fills, l, log), |Issued(b.fills, l, log)|);
    b' := Machine(s', pm', []);
    ApplyingFits(seen, b.s.meta, b.s.txs[0], ids, table, l, log);
    Prepare.AfterApply(b.pm, Fills(b.fills), seen, l, log, s'.meta);
    Prepare.WholeTrace(b.pm, Fills(b.fills), ops);
    EndsIdle(seen, l, log);
    assert StoreRuns.Step(b.s, StoreRuns.HeadCommits, s');
    StoreRuns.StepGood(b.s, StoreRuns.HeadCommits, s');
    assert Fills([]) == [] && At(pm', [], 0) == pm';
  }

  lemma {:induction false} EndsIdle(pm: seq<Byte>, l: Log, log: nat)
    requires LogOk(l) && Placed(l.entries, log, |pm|)
    ensures AllFit(ApplyOps(l, log), |pm|) && IdleAt(At(pm, ApplyOps(l, log), |ApplyOps(l, log)|), log)
  {
    ApplyAt(pm, l, log, |l.entries| + 7);
    var r := At(pm, ApplyOps(l, log), |l.entries| + 7);
    assert r[log..log + 8] == Zeros(8);
    ZeroHeader(r[log..log + 8]);
  }

  /** A create adds its page to those filled but not drained. */
  lemma CreateBacked(b: Machine, log: nat, oid: nat, s': S.Store)
    requires Backed(b, log) && StoreRuns.Step(b.s, StoreRuns.CreateRequest(oid), s')
    ensures Backed(Machine(s', b.pm, b.fills + [S.NewPage(b.s)]), log)
  {
    var page, seen := S.NewPage(b.s), Seen(b.pm, b.fills);
    StoreRuns.StepGood(b.s, StoreRuns.CreateRequest(oid), s');
    FillPage(seen, b.s.meta, page);
    AtSnoc(b.pm, Fills(b.fills), PageFill(page));
    assert Fills(b.fills + [page]) == Fills(b.fills) + [PageFill(page)];
    NewPageLoose(b, log);
    forall i | 0 <= i < |b.fills| + 1 ensures Loose(s'.meta, b.pm, (b.fills + [page])[i]) {
      if i < |b.fills| {
        assert Loose(b.s.meta, b.pm, b.fills[i]);
      }
    }
  }

  /** The page a safe create finds is nobody's, or holds nothing but holes on the medium already. */
  lemma NewPageLoose(b: Machine, log: nat)
    requires Backed(b, log) && S.CreateSafe(b.s)
    ensures Loose(b.s.meta, b.pm, S.NewPage(b.s))
  {
    var page, m := S.NewPage(b.s), b.s.meta;
    if S.NewPage(b.s) !in S.PagesFreedFrom(b.s.txs, 0) {
      PageFree(b.s);
      assert StoreInv.Stage(b.s, 0) == m && NoOwner(StoreInv.Stage(b.s, 0), page);
    } else if !NoOwner(m, page) {
      assert PageHolds(Seen(b.pm, b.fills), PAGES + 4096 * page, m.index[page]);
      forall a: nat | InPage(a, page) && a < |b.pm| ensures b.pm[a] == 255 {
        HoleByte(Seen(b.pm, b.fills), page, a);
        forall q: nat | q < |m.index| && NoOwner(m, q) ensures !InPage(a, q) {
          SamePage(a, page, q);
        }
        OwnedKept(b, log, |b.fills|, a);
      }
    }
  }

  /** The bytes of an index page of holes are 0xFF. */
  lemma HoleByte(pm: seq<Byte>, page: nat, a: nat)
    requires PageHolds(pm, PAGES + 4096 * page, S.InitialPage()) && InPage(a, page)
    ensures a < |pm| && pm[a] == 255
  {
    var k := (a - (PAGES + 4096 * page)) / 4;
    var at := PAGES + 4096 * page + 4 * k;
    assert LbaAt(pm, at) == S.InitialPage()[k];
    EncodeDecode(pm[at..at + 4]);
    AllOnes();
    assert pm[at..at + 4] == [255, 255, 255, 255];
    assert pm[a] == pm[at..at + 4][a - at];
  }

  /** The other requests and data I/O leave the memory alone. */
  lemma OtherBacked(b: Machine, log: nat, e: StoreRuns.Event, s': S.Store)
    requires Backed(b, log) && StoreRuns.Step(b.s, e, s') && !e.CreateRequest? && !e.HeadCommits? && !e.PowerFails?
    ensures Backed(Machine(s', b.pm, b.fills), log)
  {
    StoreRuns.StepGood(b.s, e, s');
    assert s'.meta == b.s.meta;
  }

  /** The store a mount builds from the recovered bytes: metadata read from the memory, allocators loaded from its
      bitmaps, nothing in flight. What clients had been promised is the operations committed, one more if `c` is 1. */
  ghost function MountFrom(s: S.Store, pm: seq<Byte>, disk: seq<S.Block>, c: nat): S.Store
    requires s.done + c <= |s.history| && S.Shaped(s.meta) && (c == 1 ==> |s.txs| > 0 && S.TxFits(s.meta, s.txs[0]))
    requires Sizes(pm, s.meta)
  {
    var lost := if c == 1 then S.Commit(s.meta, s.txs[0]).lost else s.meta.lost;
    var m := ReadMeta(pm, s.meta, lost);
    S.Store(m, disk, S.Mounted(m.ssd), S.Mounted(m.pages), [], s.history[..s.done + c], s.done + c)
  }

  predicate Sizes(pm: seq<Byte>, m: S.Meta) {
    && PAGES + 4096 * |m.index| <= |pm| && ONODES + 64 * |m.onodes| <= |pm|
    && |m.ssd| % 512 == 0 && |m.pages| % 512 == 0
    && SSD_BITMAP + |m.ssd| / 8 <= |pm| && PAGE_BITMAP + |m.pages| / 8 <= |pm|
  }

  /** The image can be recovered, and the store mounted from it is one the power failure allows and is backed by it. */
  ghost predicate MountAllowed(b: Machine, log: nat, img: seq<Byte>, disk: seq<S.Block>, c: nat)
    requires b.s.done + c <= |b.s.history| && S.Shaped(b.s.meta)
    requires c == 1 ==> |b.s.txs| > 0 && S.TxFits(b.s.meta, b.s.txs[0])
  {
    && log + REGION_SIZE <= |img| && LogPlaced(REGION_LIMITS, img, log) && Recover(REGION_LIMITS, img, log).Some?
    && var pm' := Recover(REGION_LIMITS, img, log).value;
       && Sizes(pm', b.s.meta) && Holds(pm', MountFrom(b.s, pm', disk, c).meta)
       && StoreRuns.Step(b.s, StoreRuns.PowerFails, MountFrom(b.s, pm', disk, c))
       && Backed(Machine(MountFrom(b.s, pm', disk, c), pm', []), log)
  }

  lemma MountBacked(b: Machine, log: nat, img: seq<Byte>, disk: seq<S.Block>, c: nat, m: S.Meta)
    requires Backed(b, log) && c <= 1 && c <= |b.s.txs| && S.DiskAfterCrash(b.s, disk)
    requires c == 1 ==> S.Ready(b.s.txs[0]) && S.TxFits(b.s.meta, b.s.txs[0])
    requires S.MetaAfterCrash(if c == 1 then S.Commit(b.s.meta, b.s.txs[0]) else b.s.meta, m)
    requires Mounts(REGION_LIMITS, img, log, m) && LogPlaced(REGION_LIMITS, img, log)
    ensures S.Shaped(b.s.meta) && b.s.done + c <= |b.s.history| && MountAllowed(b, log, img, disk, c)
  {
    var pm' := Recover(REGION_LIMITS, img, log).value;
    StoreRuns.SurvivorView(b.s, c);
    ReadHeld(pm', b.s.meta, m);
    var s' := MountFrom(b.s, pm', disk, c);
    assert s'.meta == m;
    assert S.CrashAfter(b.s, s', c);
    StoreRuns.CrashInv(b.s, s', c);
    RecoveredIdle(img, log);
    assert Fills([]) == [] && At(pm', [], 0) == pm';
  }

  /** `imgs[0]` is what a power failure leaves on the medium, and each further image what one during the recovery from
      the image before it leaves. */
  ghost predicate Restarts(imgs: seq<seq<Byte>>, log: nat) {
    |imgs| > 0 && CrashChain(REGION_LIMITS, imgs, log)
  }

  /** Power failures of the store, derived from the bytes: whatever a crash leaves on the medium and on the SSD, at any
      point while fills are pending and the oldest transaction is applied, and however often recovery is then cut short,
      the store mounted from what the last recovery leaves is one the state machine's power failure allows. */
  lemma CrashFromBytes(b: Machine, log: nat, ids: seq<nat>, table: nat, l: Log, n: nat,
                                          imgs: seq<seq<Byte>>, disk: seq<S.Block>)
    requires Backed(b, log) && HeadLog(b.s, ids, table, l) && S.DiskAfterCrash(b.s, disk)
    requires n <= |Issued(b.fills, l, log)| && AllFit(Issued(b.fills, l, log), |b.pm|) && Restarts(imgs, log)
    requires CrashImage(b.pm, Issued(b.fills, l, log), n, imgs[0])
    ensures S.Shaped(b.s.meta) && S.TxFits(b.s.meta, b.s.txs[0])
    ensures b.s.done + Survived(b, log, imgs[0]) <= |b.s.history|
    ensures n >= |b.fills| + 4 ==> Survived(b, log, imgs[0]) == 1
    ensures MountAllowed(b, log, imgs[|imgs| - 1], disk, Survived(b, log, imgs[0]))
  {
    var c, m := CrashMounts(b, log, ids, table, l, n, imgs[0]);
    RestartChain(REGION_LIMITS, imgs, log);
    MountsAfterRestarts(REGION_LIMITS, imgs, log, m);
    MountBacked(b, log, imgs[|imgs| - 1], disk, c, m);
  }

  /** The same when nothing is being applied. */
  lemma QuietCrashFromBytes(b: Machine, log: nat, n: nat, imgs: seq<seq<Byte>>, disk: seq<S.Block>)
    requires Backed(b, log) && S.DiskAfterCrash(b.s, disk) && Restarts(imgs, log)
    requires n <= |b.fills| && CrashImage(b.pm, Fills(b.fills), n, imgs[0])
    ensures S.Shaped(b.s.meta) && b.s.done <= |b.s.history| && MountAllowed(b, log, imgs[|imgs| - 1], disk, 0)
  {
    var nothing := PmOp.Store(log + HEADER_SIZE, []);
    MoreIssued(b.pm, Fills(b.fills), nothing, n, imgs[0]);
    EarlyCrash(b, log, nothing, n, imgs[0]);
    RestartChain(REGION_LIMITS, imgs, log);
    MountsAfterRestarts(REGION_LIMITS, imgs, log, Scrambled(imgs[0], b.s.meta));
    MountBacked(b, log, imgs[|imgs| - 1], disk, 0, Scrambled(imgs[0], b.s.meta));
  }

  lemma MoreIssued(pm: seq<Byte>, a: seq<PmOp>, op: PmOp, n: nat, img: seq<Byte>)
    requires n <= |a| && AllFit(a, |pm|) && Fits(op, |pm|) && CrashImage(pm, a, n, img)
    ensures AllFit(a + [op], |pm|) && CrashImage(pm, a + [op], n, img)
  {
    LastDrainPrefix(a, [op], n);
    forall w: nat | 8 * w < |pm| ensures WordFrom(pm, a + [op], n, img, w) {
      assert WordFrom(pm, a, n, img, w);
      var k: nat :| LastDrain(a, n) <= k <= n && WordAt(pm, a, k, img, w);
      AtPrefix(pm, a, [op], k);
      assert WordAt(pm, a + [op], k, img, w);
    }
  }

  // ---------- runs over bytes ----------

  datatype ByteEvent =
    | Request(e: StoreRuns.Event)
    | Applies(ids: seq<nat>, l: Log)
    | FailsIn(ids: seq<nat>, l: Log, n: nat, imgs: seq<seq<Byte>>, disk: seq<S.Block>)
    | FailsQuietly(n: nat, imgs: seq<seq<Byte>>, disk: seq<S.Block>)

  ghost predicate MountsTo(b: Machine, log: nat, img: seq<Byte>, disk: seq<S.Block>, c: nat, b': Machine) {
    && log + REGION_SIZE <= |img| && Recover(REGION_LIMITS, img, log).Some?
    && b.s.done + c <= |b.s.history| && S.Shaped(b.s.meta)
    && (c == 1 ==> |b.s.txs| > 0 && S.TxFits(b.s.meta, b.s.txs[0]))
    && var pm' := Recover(REGION_LIMITS, img, log).value;
       Sizes(pm', b.s.meta) && b' == Machine(MountFrom(b.s, pm', disk, c), pm', [])
  }

  /** One step of store and memory. The memory changes only by fills, applies and power failures. */
  ghost predicate ByteStep(b: Machine, e: ByteEvent, b': Machine, log: nat, table: nat) {
    match e
    case Request(r) =>
      && StoreRuns.Step(b.s, r, b'.s) && !r.HeadCommits? && !r.PowerFails? && b'.pm == b.pm
      && (r.CreateRequest? ==> S.PageFound(b.s))
      && b'.fills == if r.CreateRequest? then b.fills + [S.NewPage(b.s)] else b.fills
    case Applies(ids, l) =>
      && HeadLog(b.s, ids, table, l) && AllFit(Issued(b.fills, l, log), |b.pm|) && S.TxFits(b.s.meta, b.s.txs[0])
      && b' == Machine(S.CommitHead(b.s), At(b.pm, Issued(b.fills, l, log), |Issued(b.fills, l, log)|), [])
    case FailsIn(ids, l, n, imgs, disk) =>
      && Restarts(imgs, log) && HeadLog(b.s, ids, table, l) && S.DiskAfterCrash(b.s, disk)
         && S.TxFits(b.s.meta, b.s.txs[0])
      && n <= |Issued(b.fills, l, log)| && AllFit(Issued(b.fills, l, log), |b.pm|)
      && CrashImage(b.pm, Issued(b.fills, l, log), n, imgs[0])
      && MountsTo(b, log, imgs[|imgs| - 1], disk, Survived(b, log, imgs[0]), b')
    case FailsQuietly(n, imgs, disk) =>
      && Restarts(imgs, log) && S.DiskAfterCrash(b.s, disk) && n <= |b.fills| && AllFit(Fills(b.fills), |b.pm|)
      && CrashImage(b.pm, Fills(b.fills), n, imgs[0]) && MountsTo(b, log, imgs[|imgs| - 1], disk, 0, b')
  }

  lemma MountStep(b: Machine, b': Machine, log: nat, img: seq<Byte>, disk: seq<S.Block>, c: nat)
    requires MountsTo(b, log, img, disk, c, b') && MountAllowed(b, log, img, disk, c)
    ensures StoreRuns.Next(b.s, b'.s) && Backed(b', log)
  {
    assert StoreRuns.Step(b.s, StoreRuns.PowerFails, b'.s);
  }

  lemma RequestStep(b: Machine, r: StoreRuns.Event, b': Machine, log: nat, table: nat)
    requires Backed(b, log) && ByteStep(b, Request(r), b', log, table)
    ensures StoreRuns.Next(b.s, b'.s) && Backed(b', log)
  {
    if r.CreateRequest? {
      CreateBacked(b, log, r.oid, b'.s);
    } else {
      OtherBacked(b, log, r, b'.s);
    }
  }

  lemma FailStep(b: Machine, e: ByteEvent, b': Machine, log: nat, table: nat)
    requires Backed(b, log) && e.FailsIn? && ByteStep(b, e, b', log, table)
    ensures StoreRuns.Next(b.s, b'.s) && Backed(b', log)
  {
    CrashFromBytes(b, log, e.ids, table, e.l, e.n, e.imgs, e.disk);
    MountStep(b, b', log, e.imgs[|e.imgs| - 1], e.disk, Survived(b, log, e.imgs[0]));
  }

  /** Each step over bytes is a step of the store, and the bytes keep backing it. */
  lemma ByteStepSimulates(b: Machine, e: ByteEvent, b': Machine, log: nat, table: nat)
    requires Backed(b, log) && ByteStep(b, e, b', log, table)
    ensures StoreRuns.Next(b.s, b'.s) && Backed(b', log)
  {
    match e
    case Request(r) => RequestStep(b, r, b', log, table);
    case Applies(ids, l) =>
      var b1 := CommitBacked(b, log, ids, table, l);
    case FailsIn(_, _, _, _, _) => FailStep(b, e, b', log, table);
    case FailsQuietly(n, imgs, disk) =>
      QuietCrashFromBytes(b, log, n, imgs, disk);
      MountStep(b, b', log, imgs[|imgs| - 1], disk, 0);
  }

  ghost predicate ByteNext(b: Machine, b': Machine, log: nat, table: nat) {
    exists e :: ByteStep(b, e, b', log, table)
  }

  ghost predicate ByteRun(run: seq<Machine>, log: nat, table: nat) {
    && |run| > 0 && StoreRuns.Formatted(run[0].s) && run[0].fills == []
    && log % 8 == 0 && log + REGION_SIZE <= SSD_BITMAP <= |run[0].pm|
    && IdleAt(run[0].pm, log) && Holds(run[0].pm, run[0].s.meta)
    && forall i | 0 <= i < |run| - 1 :: ByteNext(run[i], run[i + 1], log, table)
  }

  function StoresOf(run: seq<Machine>): (r: seq<S.Store>)
    ensures |r| == |run| && forall i | 0 <= i < |r| :: r[i] == run[i].s
  {
    seq(|run|, i requires 0 <= i < |run| => run[i].s)
  }

  lemma {:induction false} ByteRunBacked(run: seq<Machine>, log: nat, table: nat, i: nat)
    requires ByteRun(run, log, table) && i < |run|
    ensures Backed(run[i], log) && (i + 1 < |run| ==> StoreRuns.Next(run[i].s, run[i + 1].s))
    decreases i
  {
    if i == 0 {
      StoreRuns.FormattedGood(run[0].s);
      assert Fills([]) == [] && At(run[0].pm, [], 0) == run[0].pm;
    } else {
      ByteRunBacked(run, log, table, i - 1);
      assert ByteNext(run[i - 1], run[i - 1 + 1], log, table);
      var e :| ByteStep(run[i - 1], e, run[i], log, table);
      ByteStepSimulates(run[i - 1], e, run[i], log, table);
    }
    if i + 1 < |run| {
      assert ByteNext(run[i], run[i + 1], log, table);
      var e :| ByteStep(run[i], e, run[i + 1], log, table);
      ByteStepSimulates(run[i], e, run[i + 1], log, table);
    }
  }

  /** Every run over bytes, with power failures at any point and any words lost, is a run of the store: what is proved
      of the store's runs holds of what is really on the medium. */
  lemma ByteRunsAreRuns(run: seq<Machine>, log: nat, table: nat)
    requires ByteRun(run, log, table)
    ensures StoreRuns.Run(StoresOf(run))
    ensures forall i | 0 <= i < |run| :: Backed(run[i], log)
  {
    forall i | 0 <= i < |run|
      ensures Backed(run[i], log) && (i + 1 < |run| ==> StoreRuns.Next(run[i].s, run[i + 1].s))
    {
      ByteRunBacked(run, log, table, i);
    }
  }

  // ---------- formatting ----------

  /** Formatting zeroes everything between the superblock and the index pages, which keep whatever they hold. */
  predicate Zeroed(pm: seq<Byte>) {
    PAGES <= |pm| && forall a | 4096 <= a < PAGES :: pm[a] == 0
  }

  function Unset(n: nat): (bits: seq<bool>)
    ensures |bits| == n && forall i | 0 <= i < n :: !bits[i]
  {
    seq(n, _ => false)
  }

  /** The metadata a formatted memory holds, for a device of `blocks` blocks and a page bitmap of `pages` bits. */
  function BlankMeta(pm: seq<Byte>, blocks: nat, pages: nat, onodes: nat, index: nat): S.Meta
    requires PAGES + 4096 * index <= |pm|
  {
    S.Meta(seq(onodes, _ => S.Onode(false, 0)), seq(index, p requires 0 <= p < index => PageOf(pm, p)),
           Unset(blocks), Unset(pages), {})
  }

  lemma {:induction false} ZeroBits(j: nat)
    ensures !BitOf(0, j)
  {
    if j > 0 {
      ZeroBits(j - 1);
    }
  }

  lemma ZeroBitmap(pm: seq<Byte>, base: nat, n: nat)
    requires Zeroed(pm) && 4096 <= base && n % 512 == 0 && base + n / 8 <= PAGES
    ensures BitsHold(pm, base, Unset(n))
  {
    forall i | 0 <= i < n ensures base + i / 8 < PAGES && !BitAt(pm, base, i) {
      ByteInside(i, n);
      ZeroBitAt(pm, base, i);
    }
  }

  lemma ZeroBitAt(pm: seq<Byte>, base: nat, i: nat)
    requires Zeroed(pm) && 4096 <= base && base + i / 8 < PAGES
    ensures !BitAt(pm, base, i)
  {
    ZeroBits(i % 8);
  }

  lemma ZeroOnodes(pm: seq<Byte>, n: nat)
    requires Zeroed(pm) && ONODES + 64 * n <= PAGES
    ensures OnodesHold(pm, seq(n, _ => S.Onode(false, 0)))
  {
    forall o | 0 <= o < n ensures DecodeOnode(pm[ONODES + 64 * o..ONODES + 64 * o + 64]) == S.Onode(false, 0) {
      var s := pm[ONODES + 64 * o..ONODES + 64 * o + 64];
      assert forall k | 0 <= k < 64 :: s[k] == 0;
      assert s[12..16] == Zeros(4);
      DecodeZeros(4);
    }
  }

  /** A formatted memory, with any SSD, begins a run. */
  lemma FormattedBegins(pm: seq<Byte>, disk: seq<S.Block>, pages: nat, onodes: nat, index: nat,
                                           log: nat, table: nat)
    requires Zeroed(pm) && 4096 <= log && log % 8 == 0 && log + REGION_SIZE <= SSD_BITMAP
    requires |disk| % 512 == 0 && |disk| <= 0x1000_0000 && pages % 512 == 0 && pages <= 0x80_0000
    requires onodes <= 0x10_0000 && index <= pages && PAGES + 4096 * index <= |pm|
    ensures var m := BlankMeta(pm, |disk|, pages, onodes, index);
            var s := S.Store(m, disk, S.Mounted(m.ssd), S.Mounted(m.pages), [], [], 0);
            StoreRuns.Formatted(s) && ByteRun([Machine(s, pm, [])], log, table)
  {
    ZeroBitmap(pm, SSD_BITMAP, |disk|);
    ZeroBitmap(pm, PAGE_BITMAP, pages);
    ZeroOnodes(pm, onodes);
    assert pm[log..log + 8] == Zeros(8);
    ZeroHeader(pm[log..log + 8]);
  }
}
