/** Runs of a store just formatted: the conditions on requests can be met again and again, and the two ways in which a
    request the code accepts may tear an object are reached. */
module StoreStart {
  import opened Common
  import opened AllocSpec
  import opened AllocScan
  import opened Allocator
  import opened Extents
  import opened AllocPlain
  import opened StoreModel
  import opened StoreInv
  import opened StoreAccept
  import opened StoreRuns
  import opened StoreExact

  // ---------- allocating behind everything in use ----------

  predicate ClearFrom(bits: seq<bool>, k: nat) {
    forall j | k <= j < |bits| :: !bits[j]
  }

  lemma {:induction false} TailCount(bits: seq<bool>, k: nat, x: nat)
    requires ClearFrom(bits, k) && k <= x <= |bits|
    ensures CountClear(bits, x) == CountClear(bits, k) + x - k
    decreases x
  {
    if k < x {
      TailCount(bits, k, x - 1);
    }
  }

  /** With the hint at the first of the free blocks that fill the end of the bitmap, a request gets the blocks from
      there on, however full the rest is. */
  lemma TailStops(bits: seq<bool>, k: nat, n: nat)
    requires ClearFrom(bits, k) && k + n < |bits|
    ensures StopsAt(bits, k, n, k + n) && forall x: nat :: IsNext(bits, k, n, x) <==> k <= x < k + n
  {
    TailCount(bits, k, k + n);
    TailCount(bits, k, |bits|);
    forall x: nat ensures IsNext(bits, k, n, x) <==> k <= x < k + n {
      if k <= x < |bits| {
        TailCount(bits, k, x);
      }
    }
  }

  lemma TailTakes(bits: seq<bool>, k: nat, n: nat)
    requires ClearFrom(bits, k) && k + n < |bits|
    ensures AllocExact(bits, k, n) && Lossless(bits, k, k, n)
    ensures var g := GrantOf(bits, k, n);
            && |Flatten(g.extents)| == n && (forall x: nat :: x in Flatten(g.extents) <==> k <= x < k + n)
            && |g.bits| == |bits| && (forall x | 0 <= x < |bits| :: g.bits[x] == (bits[x] || k <= x < k + n))
            && g.hint == k + n
  {
    TailStops(bits, k, n);
    ForwardExact(bits, k, n, k + n);
    ExactBlocks(bits, k, n);
    var blocks := Flatten(GrantOf(bits, k, n).extents);
    SetAllAt(bits, blocks, true);
    forall x: nat ensures x in blocks <==> k <= x < k + n {
      TakesNext(bits, k, n, x, 0);
    }
  }

  lemma TailPage(bits: seq<bool>, g: nat)
    requires ClearFrom(bits, g) && g + 1 < |bits|
    ensures Length(Lap(bits, g, 1)) == 2 && Lap(bits, g, 1).head.pos == g
  {
    TailTakes(bits, g, 1);
    assert !FullWord(bits, g) by {
      AllSetBits(bits, g / 64 * 64, g / 64 * 64 + 64);
    }
  }

  // ---------- extending runs ----------

  lemma TakeStep(s: Store, e: Event, s': Store)
    requires Good(s) && Step(s, e, s')
    ensures Next(s, s') && Good(s')
  {
    StepGood(s, e, s');
  }

  /** One more step of a run. */
  lemma RunOn(run: seq<Store>, s: Store) returns (more: seq<Store>)
    requires Run(run) && Next(run[|run| - 1], s)
    ensures Run(more) && more[0] == run[0] && more[|more| - 1] == s
  {
    more := run + [s];
    forall i: nat | i + 1 < |more| ensures NextAt(more, i) {
      if i + 1 < |run| {
        assert NextAt(run, i);
      }
    }
  }

  /** Nothing is in flight, and all SSD blocks from `k` on and all pages from `g` on are free, with the hints there. */
  ghost predicate Quiet(s: Store, k: nat, g: nat) {
    && Good(s) && s.txs == [] && s.ssd.hint == k < |s.ssd.bits| && ClearFrom(s.ssd.bits, k)
    && s.pm.hint == g < |s.pm.bits| && ClearFrom(s.pm.bits, g)
  }

  ghost predicate Blank(s: Store) {
    Formatted(s) && 0 < |s.meta.ssd| && 0 < |s.meta.pages| && ClearFrom(s.meta.pages, 0)
  }

  lemma BlankQuiet(s: Store)
    requires Blank(s)
    ensures Quiet(s, 0, 0) && Run([s])
  {
    FormattedGood(s);
  }

  // ---------- a create ----------

  ghost predicate Created(s: Store, s': Store, oid: nat, g: nat) {
    && oid < |s.meta.onodes| && g < |s.meta.index| && s'.ssd == s.ssd && s'.disk == s.disk
    && s'.meta.onodes == s.meta.onodes[oid := Onode(true, g)] && s'.meta.index == s.meta.index[g := InitialPage()]
    && |s'.pm.bits| == |s.pm.bits| && (forall x | 0 <= x < |s.pm.bits| :: s'.pm.bits[x] == (s.pm.bits[x] || x == g))
    && s'.meta.ssd == s.meta.ssd && s'.history == s.history + [Create(oid)]
    && (s.meta.pages == s.pm.bits ==> s'.meta.pages == s'.pm.bits)
  }

  lemma CreateDone(run: seq<Store>, oid: nat, k: nat, g: nat) returns (more: seq<Store>, s': Store)
    requires Run(run) && Quiet(run[|run| - 1], k, g)
    requires var s := run[|run| - 1];
             oid < |s.meta.onodes| && !s.meta.onodes[oid].valid && g < |s.meta.index| && g + 1 < |s.pm.bits|
    ensures Run(more) && more[0] == run[0] && more[|more| - 1] == s' && Quiet(s', k, g + 1)
    ensures Created(run[|run| - 1], s', oid, g)
  {
    var s := run[|run| - 1];
    var s1 := CreateAccepted(s, oid, k, g);
    more := RunOn(run, s1);
    CommitHeadInv(s1);
    s' := CommitHead(s1);
    TakeStep(s1, HeadCommits, s');
    more := RunOn(more, s');
  }

  lemma CreateAccepted(s: Store, oid: nat, k: nat, g: nat) returns (s': Store)
    requires Quiet(s, k, g) && oid < |s.meta.onodes| && !s.meta.onodes[oid].valid
    requires g < |s.meta.index| && g + 1 < |s.pm.bits|
    ensures Next(s, s') && Good(s') && PageFound(s) && s' == AcceptCreate(s, oid)
    ensures s'.txs == [CreateTx(oid, g, s'.pm.bits)] && s'.pm.hint == g + 1
    ensures |s'.pm.bits| == |s.pm.bits| && forall x | 0 <= x < |s.pm.bits| :: s'.pm.bits[x] == (s.pm.bits[x] || x == g)
    ensures s'.meta == s.meta.(index := s.meta.index[g := InitialPage()])
  {
    TailPage(s.pm.bits, g);
    TailTakes(s.pm.bits, g, 1);
    s' := AcceptCreate(s, oid);
    TakeStep(s, CreateRequest(oid), s');
  }

  // ---------- writes ----------

  /** A write to a quiet store is safe if the blocks it will get lie in one bitmap entry. */
  lemma TailWrite(s: Store, k: nat, g: nat, oid: nat, bofst: nat, n: nat)
    requires Quiet(s, k, g) && Live(s.meta, oid) && 1 <= n <= TX_BLOCKS_MAX && bofst + n <= OBJ_BLOCKS
    requires k + n < |s.ssd.bits| && k / 512 == (k + n - 1) / 512
    ensures WriteAllowed(s, oid, bofst, n) && WriteSafe(s, oid, bofst, n)
    ensures |FreedBits(s, oid, bofst, n)| == |s.ssd.bits| && ClearFrom(FreedBits(s, oid, bofst, n), k)
  {
    var bits := FreedBits(s, oid, bofst, n);
    SetAllAt(s.ssd.bits, Flatten(OldExtents(s, oid, bofst, n)), false);
    WasSet(s, oid, bofst, n);
    TailStops(bits, k, n);
    ForwardExact(bits, k, n, k + n);
    ExactWriteSafe(s, oid, bofst, n);
    TailCovered(bits, k, n, OldExtents(s, oid, bofst, n));
  }

  lemma TailCovered(bits: seq<bool>, k: nat, n: nat, was: seq<Extent>)
    requires ClearFrom(bits, k) && k + n < |bits| && n > 0 && k / 512 == (k + n - 1) / 512
    ensures forall x: nat | IsNext(bits, k, n, x) :: Covered(bits, k, n, was, x)
  {
    TailStops(bits, k, n);
    forall x: nat | IsNext(bits, k, n, x) ensures Covered(bits, k, n, was, x) {
      assert StartsRun(bits, k, n, k) && k / 512 == x / 512;
    }
  }

  /** `s'` is `s` with the write accepted: its transaction takes the blocks from `k` on. */
  ghost predicate WriteBegun(s: Store, s': Store, k: nat, oid: nat, bofst: nat, data: seq<Block>, t: Tx) {
    && Live(s.meta, oid) && t.WriteTx? && t.oid == oid && t.oe == s.meta.onodes[oid]
    && t.bofst == bofst && t.data == data
    && |t.lbas| == |data| && (forall x: nat :: x in t.lbas <==> k <= x < k + |data|)
    && s'.ssd.hint == k + |data| && |s'.ssd.bits| == |s.ssd.bits| && ClearFrom(s'.ssd.bits, k + |data|)
    && t.snap == s'.ssd.bits
    && (forall x | 0 <= x < |s.ssd.bits| :: s'.ssd.bits[x] ==> s.ssd.bits[x] || k <= x < k + |data|)
    && s'.meta == s.meta && s'.disk == s.disk && s'.pm == s.pm && s'.history == s.history + [Write(oid, bofst, data)]
    && s'.done == s.done
  }

  lemma WriteAccepted(s: Store, k: nat, g: nat, oid: nat, bofst: nat, data: seq<Block>)
    returns (s': Store)
    requires Quiet(s, k, g) && Live(s.meta, oid) && 1 <= |data| <= TX_BLOCKS_MAX && bofst + |data| <= OBJ_BLOCKS
    requires k + |data| < |s.ssd.bits| && k / 512 == (k + |data| - 1) / 512
    ensures Next(s, s') && Good(s') && |s'.txs| == 1 && WriteBegun(s, s', k, oid, bofst, data, s'.txs[0])
  {
    var n := |data|;
    TailWrite(s, k, g, oid, bofst, n);
    TailTakes(FreedBits(s, oid, bofst, n), k, n);
    SetAllAt(s.ssd.bits, Flatten(OldExtents(s, oid, bofst, n)), false);
    s' := AcceptWrite(s, oid, bofst, data);
    TakeStep(s, WriteRequest(oid, bofst, data), s');
  }

  /** All blocks of the only transaction reach the device. */
  lemma {:induction false} AllStored(run: seq<Store>, t: Tx) returns (more: seq<Store>, s': Store)
    requires Run(run) && t.WriteTx? && run[|run| - 1].txs == [t]
    ensures Run(more) && more[0] == run[0] && more[|more| - 1] == s' && Good(s')
    ensures s' == run[|run| - 1].(disk := s'.disk, txs := [t.(pending := {})])
    decreases |t.pending|
  {
    var s := run[|run| - 1];
    RunGood(run, |run| - 1);
    if t.pending == {} {
      more, s' := run, s;
      assert t == t.(pending := {});
    } else {
      var j :| j in t.pending;
      StoreBlockInv(s, 0, j);
      var s1 := StoreBlock(s, 0, j);
      TakeStep(s, BlockStored(0, j), s1);
      more := RunOn(run, s1);
      more, s' := AllStored(more, t.(pending := t.pending - {j}));
    }
  }

  /** What a committed write leaves. */
  ghost predicate Written(s: Store, s': Store, oid: nat, bofst: nat, data: seq<Block>, lbas: seq<nat>) {
    && Live(s.meta, oid) && s.meta.onodes[oid].page < |s.meta.index| && bofst + |lbas| <= OBJ_BLOCKS
    && (forall p | 0 <= p < |s.meta.index| :: |s.meta.index[p]| == OBJ_BLOCKS)
    && s'.meta.onodes == s.meta.onodes && s'.meta.pages == s.meta.pages && s'.pm == s.pm
    && (var page := s.meta.onodes[oid].page;
        s'.meta.index == s.meta.index[page := Splice(s.meta.index[page], bofst, lbas)])
    && |lbas| == |data| && (forall j | 0 <= j < |lbas| :: lbas[j] < |s'.disk| && s'.disk[lbas[j]] == data[j])
    && s'.history == s.history + [Write(oid, bofst, data)] && s'.meta.ssd == s'.ssd.bits
    && |s'.ssd.bits| == |s.ssd.bits|
  }

  lemma WriteDone(run: seq<Store>, k: nat, g: nat, oid: nat, bofst: nat, data: seq<Block>)
    returns (more: seq<Store>, s': Store, lbas: seq<nat>)
    requires Run(run) && Quiet(run[|run| - 1], k, g)
    requires var s := run[|run| - 1];
             && Live(s.meta, oid) && 1 <= |data| <= TX_BLOCKS_MAX && bofst + |data| <= OBJ_BLOCKS
             && k + |data| < |s.ssd.bits| && k / 512 == (k + |data| - 1) / 512
    ensures Run(more) && more[0] == run[0] && more[|more| - 1] == s' && Quiet(s', k + |data|, g)
    ensures Written(run[|run| - 1], s', oid, bofst, data, lbas) && forall x: nat :: x in lbas <==> k <= x < k + |data|
    ensures forall x | 0 <= x < |s'.ssd.bits| :: s'.ssd.bits[x] ==> run[|run| - 1].ssd.bits[x] || k <= x < k + |data|
  {
    var s := run[|run| - 1];
    var s1 := WriteAccepted(s, k, g, oid, bofst, data);
    var t := s1.txs[0];
    more := RunOn(run, s1);
    assert s1.txs == [t];
    more, s' := StoredAndCommitted(more, t);
    lbas := t.lbas;
    WriteEnds(s, s1, s', k, oid, bofst, data, t);
  }

  lemma WriteEnds(s: Store, s1: Store, s': Store, k: nat, oid: nat, bofst: nat, data: seq<Block>,
                                     t: Tx)
    requires WriteBegun(s, s1, k, oid, bofst, data, t) && Shaped(s.meta) && TxFits(s.meta, t)
    requires s'.meta == Commit(s.meta, t) && s'.meta.ssd == t.snap && s'.ssd == s1.ssd && s'.pm == s1.pm
    requires s'.history == s1.history
    requires forall j | 0 <= j < |t.lbas| :: t.lbas[j] < |s'.disk| && s'.disk[t.lbas[j]] == t.data[j]
    ensures Written(s, s', oid, bofst, data, t.lbas)
  {
    assert s.meta.onodes[oid := t.oe] == s.meta.onodes;
  }

  /** The only transaction's data is stored and it commits. */
  lemma StoredAndCommitted(run: seq<Store>, t: Tx) returns (more: seq<Store>, s': Store)
    requires Run(run) && t.WriteTx? && run[|run| - 1].txs == [t]
    ensures Run(more) && more[0] == run[0] && more[|more| - 1] == s' && Good(s') && s'.txs == []
    ensures var s := run[|run| - 1];
            && TxFits(s.meta, t) && s'.meta == Commit(s.meta, t) && s'.meta.ssd == t.snap
            && s'.ssd == s.ssd && s'.pm == s.pm && s'.history == s.history && Shaped(s.meta)
    ensures |t.data| == |t.lbas|
    ensures forall j | 0 <= j < |t.lbas| :: t.lbas[j] < |s'.disk| && s'.disk[t.lbas[j]] == t.data[j]
  {
    var s2;
    more, s2 := AllStored(run, t);
    s' := WriteCommitted(s2, t.(pending := {}));
    more := RunOn(more, s');
  }

  lemma WriteCommitted(s: Store, t: Tx) returns (s': Store)
    requires Good(s) && s.txs == [t] && t.WriteTx? && t.pending == {}
    ensures Shaped(s.meta) && TxFits(s.meta, t) && Next(s, s') && Good(s') && s' == CommitHead(s)
    ensures s'.meta.ssd == t.snap
    ensures |t.data| == |t.lbas|
    ensures forall j | 0 <= j < |t.lbas| :: t.lbas[j] < |s.disk| && s.disk[t.lbas[j]] == t.data[j]
  {
    assert TxFine(s, 0) && StageFine(s, 0) && Stage(s, 0) == s.meta;
    CommitHeadInv(s);
    s' := CommitHead(s);
    TakeStep(s, HeadCommits, s');
  }

  // ---------- any list of writes ----------

  datatype Piece = Piece(bofst: nat, data: seq<Block>)

  /** Each piece is a write of at most 32 blocks within the object; its blocks, taken one after the other from `k` on,
      lie in one bitmap entry, and one block more is free. */
  predicate FitsTail(ws: seq<Piece>, k: nat, total: nat)
    decreases |ws|
  {
    ws == [] ||
    var n := |ws[0].data|;
    && 1 <= n <= TX_BLOCKS_MAX && ws[0].bofst + n <= OBJ_BLOCKS
    && k + n < total && k / 512 == (k + n - 1) / 512 && FitsTail(ws[1..], k + n, total)
  }

  function Writes(oid: nat, ws: seq<Piece>): seq<Op> {
    seq(|ws|, i requires 0 <= i < |ws| => Write(oid, ws[i].bofst, ws[i].data))
  }

  lemma {:induction false} WritesDone(run: seq<Store>, k: nat, g: nat, oid: nat, ws: seq<Piece>)
    returns (more: seq<Store>, s': Store, k': nat)
    requires Run(run) && Quiet(run[|run| - 1], k, g) && Live(run[|run| - 1].meta, oid)
    requires FitsTail(ws, k, |run[|run| - 1].ssd.bits|)
    ensures Run(more) && more[0] == run[0] && more[|more| - 1] == s' && Quiet(s', k', g)
    ensures s'.history == run[|run| - 1].history + Writes(oid, ws)
    decreases |ws|
  {
    var s := run[|run| - 1];
    if ws == [] {
      more, s', k' := run, s, k;
      assert s.history + Writes(oid, ws) == s.history;
    } else {
      var s1, lbas;
      more, s1, lbas := WriteDone(run, k, g, oid, ws[0].bofst, ws[0].data);
      more, s', k' := WritesDone(more, k + |ws[0].data|, g, oid, ws[1..]);
      WritesFirst(s.history, oid, ws);
    }
  }

  lemma WritesFirst(h: seq<Op>, oid: nat, ws: seq<Piece>)
    requires ws != []
    ensures h + [Write(oid, ws[0].bofst, ws[0].data)] + Writes(oid, ws[1..]) == h + Writes(oid, ws)
  {
  }

  /** A formatted store can take any list of writes to an object, overwrites among them, as long as the end of the SSD
      is not reached and none gets blocks on both sides of a boundary between bitmap entries. Then clients see them all,
      in order. */
  lemma ManyWrites(s: Store, oid: nat, ws: seq<Piece>) returns (run: seq<Store>, s': Store)
    requires Blank(s) && oid < |s.meta.onodes| && 0 < |s.meta.index| && 1 < |s.meta.pages|
    requires FitsTail(ws, 0, |s.meta.ssd|)
    ensures Run(run) && run[0] == s && run[|run| - 1] == s' && s'.txs == []
    ensures s'.history == [Create(oid)] + Writes(oid, ws)
    ensures Shaped(s'.meta) && ViewOf(s'.meta, s'.disk) == Replay(s'.history)
  {
    var s1, k;
    run, s1 := FirstCreate(s, oid);
    run, s', k := WritesDone(run, 0, 1, oid, ws);
    QuietOwnership(run, |run| - 1);
  }

  lemma FirstCreate(s: Store, oid: nat) returns (run: seq<Store>, s': Store)
    requires Blank(s) && oid < |s.meta.onodes| && 0 < |s.meta.index| && 1 < |s.meta.pages|
    ensures Run(run) && run[0] == s && run[|run| - 1] == s' && Quiet(s', 0, 1) && Live(s'.meta, oid)
    ensures |s'.ssd.bits| == |s.meta.ssd| && s'.history == [Create(oid)]
  {
    BlankQuiet(s);
    run, s' := CreateDone([s], oid, 0, 0);
  }

  /** For example two writes of 32 blocks, which fill a word of the bitmap, and an overwrite of the first. */
  lemma WriteWriteOverwrite(s: Store, oid: nat, d: seq<Block>, e: seq<Block>, f: seq<Block>)
    returns (run: seq<Store>, s': Store)
    requires Blank(s) && oid < |s.meta.onodes| && 0 < |s.meta.index| && 1 < |s.meta.pages| && 512 <= |s.meta.ssd|
    requires |d| == |e| == |f| == 32
    ensures Run(run) && run[0] == s && run[|run| - 1] == s' && s'.txs == []
    ensures s'.history == [Create(oid), Write(oid, 0, d), Write(oid, 32, e), Write(oid, 0, f)]
  {
    var ws := [Piece(0, d), Piece(32, e), Piece(0, f)];
    assert ws[1..] == [Piece(32, e), Piece(0, f)] && ws[1..][1..] == [Piece(0, f)] && ws[1..][1..][1..] == [];
    assert FitsTail(ws[1..][1..], 64, |s.meta.ssd|);
    assert FitsTail(ws[1..], 32, |s.meta.ssd|);
    run, s' := ManyWrites(s, oid, ws);
  }

  // ---------- after a power failure ----------

  /** A power failure with nothing in flight, and the mount after it. */
  lemma Remounts(run: seq<Store>) returns (more: seq<Store>, s': Store)
    requires Run(run) && run[|run| - 1].txs == []
    ensures Run(more) && more[0] == run[0] && more[|more| - 1] == s' && Good(s')
    ensures var s := run[|run| - 1];
            s' == s.(ssd := Mounted(s.meta.ssd), pm := Mounted(s.meta.pages))
  {
    var s := run[|run| - 1];
    RunGood(run, |run| - 1);
    assert StageFine(s, 0) && Stage(s, 0) == s.meta && s.history[..s.done] == s.history;
    s' := s.(ssd := Mounted(s.meta.ssd), pm := Mounted(s.meta.pages));
    assert CrashAfter(s, s', 0);
    TakeStep(s, PowerFails, s');
    more := RunOn(run, s');
  }

  /** An object is created in index page 0 and its block `b` written to SSD block 0, the only one in use. */
  ghost predicate ZeroWritten(s: Store, oid: nat, b: nat, d: Block) {
    && Quiet(s, 1, 1) && oid < |s.meta.onodes| && s.meta.onodes[oid] == Onode(true, 0) && 0 < |s.meta.index|
    && b < OBJ_BLOCKS && |s.meta.index[0]| == OBJ_BLOCKS && s.meta.index[0][b] == 0
    && |s.meta.ssd| == |s.disk| && 0 < |s.disk| && s.disk[0] == d && s.meta.ssd == s.ssd.bits
    && s.meta.pages == s.pm.bits
  }

  lemma ZeroRun(s: Store, oid: nat, b: nat, d: Block) returns (run: seq<Store>, s': Store)
    requires Blank(s) && oid < |s.meta.onodes| && 0 < |s.meta.index| && 1 < |s.meta.pages| && 1 < |s.meta.ssd|
    requires b < OBJ_BLOCKS
    ensures Run(run) && run[0] == s && run[|run| - 1] == s' && ZeroWritten(s', oid, b, d)
    ensures |s'.meta.onodes| == |s.meta.onodes| && |s'.meta.index| == |s.meta.index|
    ensures |s'.pm.bits| == |s.meta.pages| && |s'.ssd.bits| == |s.meta.ssd|
    ensures forall o | 0 <= o < |s.meta.onodes| && o != oid :: !s'.meta.onodes[o].valid
  {
    BlankQuiet(s);
    var s1, lbas;
    run, s1 := CreateDone([s], oid, 0, 0);
    run, s', lbas := WriteDone(run, 0, 1, oid, b, [d]);
    assert lbas[0] in lbas;
  }

  lemma MergeOfOne(x: nat)
    ensures Flatten(Merge([x]).extents) == if x == HOLE then [] else [x]
  {
    MergeRoundTrip([x]);
    assert [x][..0] == [] && NonHoles([]) == [];
  }

  /** Freeing the only block in use leaves the bitmap empty. */
  lemma ZeroFreed(s: Store, oid: nat, b: nat)
    requires Shaped(s.meta) && Live(s.meta, oid) && b < OBJ_BLOCKS && Lba(s.meta, oid, b) == 0
    requires ClearFrom(s.ssd.bits, 1)
    ensures ClearFrom(FreedBits(s, oid, b, 1), 0)
  {
    var bi := s.meta.index[s.meta.onodes[oid].page][b..b + 1];
    assert bi == [0];
    MergeOfOne(0);
    SetAllAt(s.ssd.bits, [0], false);
  }

  lemma ZeroGranted(s: Store, oid: nat, b: nat, d: Block, d': Block)
    requires Good(s) && s.txs == [] && s.ssd == Mounted(s.meta.ssd) && 1 < |s.meta.ssd| == |s.disk|
    requires Live(s.meta, oid) && b < OBJ_BLOCKS && Maps(s.meta, oid, b, 0) && ClearFrom(s.meta.ssd, 1)
    requires s.disk[0] == d != d'
    ensures OverwritesBlockZero(s, oid, b, d')
  {
    ZeroFreed(s, oid, b);
    TailTakes(FreedBits(s, oid, b, 1), 0, 1);
  }

  /** A run (create, commit, write, its block stored, commit, power failure) reaches a store in which overwriting a
      block is granted and may tear the object. */
  lemma RunToTear(s: Store, oid: nat, b: nat, d: Block, d': Block)
    returns (run: seq<Store>, s': Store)
    requires Blank(s) && oid < |s.meta.onodes| && 0 < |s.meta.index| && 1 < |s.meta.pages| && 1 < |s.meta.ssd|
    requires b < OBJ_BLOCKS && d' != d
    ensures Run(run) && run[0] == s && run[|run| - 1] == s' && OverwritesBlockZero(s', oid, b, d')
  {
    var s1;
    run, s1 := ZeroRun(s, oid, b, d);
    assert StageFine(s1, 0) && Stage(s1, 0) == s1.meta;
    run, s' := Remounts(run);
    ZeroGranted(s', oid, b, d, d');
  }

  // ---------- a create granted the page of a pending delete ----------

  /** Only the first block, or page, is allocated and the hint is at the start: the next one is block 1. */
  lemma SecondNext(bits: seq<bool>)
    requires 2 < |bits| && bits[0] && ClearFrom(bits, 1)
    ensures StopsAt(bits, 0, 1, 2) && forall x: nat :: IsNext(bits, 0, 1, x) <==> x == 1
  {
    assert CountClear(bits, 0) == 0 && CountClear(bits, 1) == 0 && CountClear(bits, 2) == 1;
    assert !bits[1] && WordHasRoom(bits, 0, 0);
    forall x: nat ensures IsNext(bits, 0, 1, x) <==> x == 1 {
      if 2 <= x < |bits| {
        CountMonotone(bits, 2, x);
      }
    }
  }

  /** A write of one block of holes to a store in which only block 0 is in use, right after a mount. */
  lemma SecondWrite(s: Store, oid: nat, b: nat)
    requires Good(s) && s.txs == [] && s.ssd.hint == 0 && 2 < |s.ssd.bits| && s.ssd.bits[0] && ClearFrom(s.ssd.bits, 1)
    requires Shaped(s.meta) && Live(s.meta, oid) && b < OBJ_BLOCKS && Lba(s.meta, oid, b) == HOLE
    ensures WriteAllowed(s, oid, b, 1) && WriteSafe(s, oid, b, 1)
  {
    assert s.meta.index[s.meta.onodes[oid].page][b..b + 1] == [HOLE];
    MergeOfOne(HOLE);
    assert FreedBits(s, oid, b, 1) == s.ssd.bits;
    SecondNext(s.ssd.bits);
    ForwardExact(s.ssd.bits, 0, 1, 2);
    ExactWriteSafe(s, oid, b, 1);
    assert StartsRun(s.ssd.bits, 0, 1, 1);
  }

  /** Page 0 is free again in DRAM, page 1 is not: the first page found is page 0. */
  lemma FirstAgain(bits: seq<bool>)
    requires 2 < |bits| && !bits[0] && bits[1] && ClearFrom(bits, 2)
    ensures Length(Lap(bits, 0, 1)) == 2 && Lap(bits, 0, 1).head.pos == 0
  {
    assert CountClear(bits, 0) == 0 && CountClear(bits, 1) == 1 && CountClear(bits, 2) == 1;
    assert !bits[2] && WordHasRoom(bits, 0, 1);
    assert StopsAt(bits, 0, 1, 2);
    ForwardExact(bits, 0, 1, 2);
    assert !FullWord(bits, 0) by {
      AllSetBits(bits, 0, 64);
    }
  }

  /** Object `a` has index page 0 and is stored in SSD block 0, object `o` has page 1 and is empty, nothing else is in
      use, and the store has just been mounted. */
  ghost predicate TwoObjects(s: Store, a: nat, b: nat, o: nat) {
    && Good(s) && s.txs == [] && Shaped(s.meta) && a != o && b < OBJ_BLOCKS
    && a < |s.meta.onodes| && s.meta.onodes[a] == Onode(true, 0)
    && o < |s.meta.onodes| && s.meta.onodes[o] == Onode(true, 1)
    && 1 < |s.meta.index| && s.meta.index[0][b] == 0 && s.meta.index[1] == InitialPage()
    && s.ssd.hint == 0 && 2 < |s.ssd.bits| && s.ssd.bits[0] && ClearFrom(s.ssd.bits, 1)
    && s.pm.hint == 0 && 2 < |s.pm.bits| == |s.meta.pages| && s.pm.bits[1] && ClearFrom(s.pm.bits, 2)
  }

  lemma TwoObjectsRun(s: Store, a: nat, b: nat, o: nat, d: Block)
    returns (run: seq<Store>, s': Store)
    requires Blank(s) && a < |s.meta.onodes| && o < |s.meta.onodes| && a != o && b < OBJ_BLOCKS
    requires 1 < |s.meta.index| && 2 < |s.meta.pages| && 2 < |s.meta.ssd|
    ensures Run(run) && run[0] == s && run[|run| - 1] == s' && TwoObjects(s', a, b, o)
    ensures |s'.meta.onodes| == |s.meta.onodes|
    ensures forall x | 0 <= x < |s.meta.onodes| && x != a && x != o :: !s'.meta.onodes[x].valid
  {
    var s1, s2;
    run, s1 := ZeroRun(s, a, b, d);
    run, s2 := CreateDone(run, o, 1, 1);
    assert s2.pm.bits[1];
    run, s' := Remounts(run);
    assert StageFine(s', 0) && Stage(s', 0) == s'.meta && Maps(s'.meta, a, b, 0);
  }

  lemma DeleteQueued(s: Store, a: nat, b: nat, o: nat, e: Block) returns (s1: Store, s2: Store)
    requires TwoObjects(s, a, b, o)
    ensures Next(s, s1) && Next(s1, s2) && Good(s2) && s2.meta == s.meta
    ensures s2.pm == s.pm.(bits := s.pm.bits[0 := false], free := s.pm.free + 1)
    ensures |s2.txs| == 2 && s2.txs[0].WriteTx? && s2.txs[0].oid == o && s2.txs[1] == DeleteTx(a, 0)
  {
    s1 := WriteQueued(s, a, b, o, e);
    s2 := AcceptDelete(s1, a);
    TakeStep(s1, DeleteRequest(a), s2);
  }

  lemma WriteQueued(s: Store, a: nat, b: nat, o: nat, e: Block) returns (s': Store)
    requires TwoObjects(s, a, b, o)
    ensures Next(s, s') && Good(s') && s'.meta == s.meta && s'.pm == s.pm
    ensures |s'.txs| == 1 && s'.txs[0].WriteTx? && s'.txs[0].oid == o
  {
    SecondWrite(s, o, 0);
    s' := AcceptWrite(s, o, 0, [e]);
    TakeStep(s, WriteRequest(o, 0, [e]), s');
  }

  /** The delete of `a`, whose index page 0 is not empty, is queued behind a write, and the next page found is page
      0. */
  ghost predicate DeleteQueuedBehind(s: Store, a: nat, b: nat) {
    && Good(s) && |s.txs| == 2 && s.txs[0].WriteTx? && s.txs[1] == DeleteTx(a, 0) && b < OBJ_BLOCKS
    && 0 < |s.meta.index| && |s.meta.index[0]| == OBJ_BLOCKS && s.meta.index[0][b] != HOLE
    && s.pm.hint == 0 && 2 < |s.pm.bits| && !s.pm.bits[0] && s.pm.bits[1] && ClearFrom(s.pm.bits, 2)
  }

  lemma QueueOn(run: seq<Store>, a: nat, b: nat, o: nat, e: Block)
    returns (more: seq<Store>, s': Store)
    requires Run(run) && TwoObjects(run[|run| - 1], a, b, o)
    ensures Run(more) && more[0] == run[0] && more[|more| - 1] == s' && DeleteQueuedBehind(s', a, b)
    ensures s'.meta == run[|run| - 1].meta && s'.txs[0].oid == o
  {
    var s1;
    s1, s' := DeleteQueued(run[|run| - 1], a, b, o, e);
    more := RunOn(run, s1);
    more := RunOn(more, s');
  }

  lemma Erasing(s: Store, a: nat, b: nat, c: nat)
    requires DeleteQueuedBehind(s, a, b) && CreateAllowed(s, c)
    ensures PageFound(s) && NewPage(s) == 0 && !CreateSafe(s) && MayTear(AcceptCreate(s, c))
  {
    FirstAgain(s.pm.bits);
    assert PagesFreedFrom(s.txs, 1) == {0} + PagesFreedFrom(s.txs, 2);
    assert s.meta.index[0][b] != InitialPage()[b];
    CreateSafeExactly(s, c);
  }

  lemma QueuedRun(s: Store, a: nat, b: nat, o: nat, c: nat, d: Block, e: Block)
    returns (run: seq<Store>, s': Store)
    requires Blank(s) && a < |s.meta.onodes| && o < |s.meta.onodes| && c < |s.meta.onodes|
    requires a != o && a != c && o != c && b < OBJ_BLOCKS
    requires 1 < |s.meta.index| && 2 < |s.meta.pages| && 2 < |s.meta.ssd|
    ensures Run(run) && run[0] == s && run[|run| - 1] == s' && DeleteQueuedBehind(s', a, b) && CreateAllowed(s', c)
  {
    var s1;
    run, s1 := TwoObjectsRun(s, a, b, o, d);
    run, s' := QueueOn(run, a, b, o, e);
  }

  /** A run (create `a`, commit, write it, its block stored, commit, create `o`, commit, power failure, write `o`,
      delete `a`) reaches a store that accepts the create of a third object, grants it the page of `a`, whose delete
      is still queued behind the write, and may then tear `a`. */
  lemma RunToErase(s: Store, a: nat, b: nat, o: nat, c: nat, d: Block, e: Block)
    returns (run: seq<Store>, s': Store)
    requires Blank(s) && a < |s.meta.onodes| && o < |s.meta.onodes| && c < |s.meta.onodes|
    requires a != o && a != c && o != c && b < OBJ_BLOCKS
    requires 1 < |s.meta.index| && 2 < |s.meta.pages| && 2 < |s.meta.ssd|
    ensures Run(run) && run[0] == s && run[|run| - 1] == s' && Good(s')
    ensures CreateAllowed(s', c) && PageFound(s') && NewPage(s') == 0 && !CreateSafe(s')
    ensures MayTear(AcceptCreate(s', c))
  {
    run, s' := QueuedRun(s, a, b, o, c, d, e);
    Erasing(s', a, b, c);
  }
}
