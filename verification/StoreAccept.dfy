/** Accepting a write, a create or a delete keeps the store's invariant. */
module StoreAccept {
  import opened AllocSpec
  import opened AllocScan
  import opened Allocator
  import opened Extents
  import opened StoreModel
  import opened StoreCommit
  import opened StoreInv

  // ---------- an object with nothing in flight ----------

  lemma IdleStep(s: Store, oid: nat, i: nat)
    requires Inv(s) && Idle(s.txs, oid) && i < |s.txs| && oid < |Stage(s, i).onodes|
    ensures oid < |Stage(s, i + 1).onodes| && Stage(s, i + 1).onodes[oid] == Stage(s, i).onodes[oid]
    ensures Live(Stage(s, i), oid) ==>
      var page := Stage(s, i).onodes[oid].page;
      page < |Stage(s, i).index| == |Stage(s, i + 1).index| && Stage(s, i + 1).index[page] == Stage(s, i).index[page]
  {
    assert StageFine(s, i) && TxFine(s, i);
  }

  /** Its onode and index page are the same at every stage. */
  lemma {:induction false} IdleObject(s: Store, oid: nat, i: nat)
    requires Inv(s) && Idle(s.txs, oid) && oid < |s.meta.onodes| && i <= |s.txs|
    ensures oid < |Stage(s, i).onodes| && Stage(s, i).onodes[oid] == s.meta.onodes[oid]
    ensures Live(s.meta, oid) ==>
      var page := s.meta.onodes[oid].page;
      page < |s.meta.index| && page < |Stage(s, i).index| && Stage(s, i).index[page] == s.meta.index[page]
    decreases i
  {
    if i > 0 {
      IdleObject(s, oid, i - 1);
      IdleStep(s, oid, i - 1);
    } else {
      assert StageFine(s, 0);
    }
  }

  // ---------- writes ----------

  lemma {:induction false} NonHolesMember(bi: seq<nat>, x: nat)
    ensures x in NonHoles(bi) <==> x != HOLE && x in bi
    decreases |bi|
  {
    if bi != [] {
      NonHolesMember(bi[..|bi| - 1], x);
      assert bi == bi[..|bi| - 1] + [bi[|bi| - 1]];
    }
  }

  lemma {:induction false} NonHolesDistinct(bi: seq<nat>)
    requires forall j, k | 0 <= j < k < |bi| && bi[j] != HOLE :: bi[j] != bi[k]
    ensures Distinct(NonHoles(bi))
    decreases |bi|
  {
    if bi != [] {
      var front := bi[..|bi| - 1];
      NonHolesDistinct(front);
      NonHolesMember(front, bi[|bi| - 1]);
    }
  }

  /** The blocks freed are those the object maps in the range, each once, and their bits are set. */
  lemma OldBlocks(m: Meta, oid: nat, bofst: nat, n: nat, was: seq<nat>)
    requires Sound(m) && Live(m, oid) && bofst + n <= OBJ_BLOCKS
    requires was == NonHoles(m.index[m.onodes[oid].page][bofst..bofst + n])
    ensures forall x: nat :: x in was <==> exists b: nat :: bofst <= b < bofst + n && Maps(m, oid, b, x)
    ensures Distinct(was) && forall k | 0 <= k < |was| :: was[k] < |m.ssd| && m.ssd[was[k]]
  {
    var bi := m.index[m.onodes[oid].page][bofst..bofst + n];
    forall x: nat ensures x in was <==> exists b: nat :: bofst <= b < bofst + n && Maps(m, oid, b, x) {
      NonHolesMember(bi, x);
      if x in was {
        var j :| 0 <= j < |bi| && bi[j] == x;
        assert Maps(m, oid, bofst + j, x);
      }
      if b: nat :| bofst <= b < bofst + n && Maps(m, oid, b, x) {
        assert bi[b - bofst] == x;
      }
    }
    forall j, k | 0 <= j < k < |bi| && bi[j] != HOLE ensures bi[j] != bi[k] {
      assert Maps(m, oid, bofst + j, bi[j]);
      assert bi[k] != HOLE ==> Maps(m, oid, bofst + k, bi[k]);
    }
    NonHolesDistinct(bi);
    forall k | 0 <= k < |was| ensures was[k] < |m.ssd| && m.ssd[was[k]] {
      assert was[k] in was;
      var b: nat :| bofst <= b < bofst + n && Maps(m, oid, b, was[k]);
      assert Used(m, was[k]);
    }
  }

  /** The transaction a write becomes. */
  ghost function WriteOf(s: Store, oid: nat, bofst: nat, data: seq<Block>): Tx
    requires Shaped(s.meta) && WriteAllowed(s, oid, bofst, |data|) && s.ssd.hint < |s.ssd.bits|
  {
    AcceptWrite(s, oid, bofst, data).txs[|s.txs|]
  }

  /** What the free and the allocation do to the bitmap. */
  lemma WriteBits(s: Store, oid: nat, bofst: nat, data: seq<Block>)
    requires Inv(s) && WriteAllowed(s, oid, bofst, |data|) && WriteFresh(s, oid, bofst, |data|)
    ensures var t := WriteOf(s, oid, bofst, data);
            && |t.lbas| == |data| && Distinct(t.lbas) && |t.snap| == |s.ssd.bits|
            && (forall j | 0 <= j < |t.lbas| :: t.lbas[j] < |s.ssd.bits| && !s.ssd.bits[t.lbas[j]])
            && forall x: nat | x < |t.snap| :: t.snap[x] == ((s.ssd.bits[x] && x !in t.freed) || x in t.lbas)
  {
    var n := |data|;
    var bits := FreedBits(s, oid, bofst, n);
    var was := Flatten(OldExtents(s, oid, bofst, n));
    SetAllAt(s.ssd.bits, was, false);
    ExactBlocks(bits, s.ssd.hint, n);
    var lbas := WriteOf(s, oid, bofst, data).lbas;
    SetAllAt(bits, lbas, true);
    forall j | 0 <= j < |lbas| ensures lbas[j] < |s.ssd.bits| && !s.ssd.bits[lbas[j]] {
      assert lbas[j] in lbas;
    }
  }

  lemma WriteTxOk(s: Store, oid: nat, bofst: nat, data: seq<Block>)
    requires Inv(s) && WriteAllowed(s, oid, bofst, |data|) && WriteFresh(s, oid, bofst, |data|)
    ensures var t := WriteOf(s, oid, bofst, data);
            && TxOk(Stage(s, |s.txs|), t)
            && (WriteLogged(s, oid, bofst, |data|) ==> BitsOk(Stage(s, |s.txs|), t))
  {
    var k, n, t := |s.txs|, |data|, WriteOf(s, oid, bofst, data);
    var m := Stage(s, k);
    assert StageFine(s, k);
    FutureSizes(s.meta, s.txs, k);
    IdleObject(s, oid, k);
    WriteBits(s, oid, bofst, data);
    WriteFrees(s, oid, bofst, data);
  }

  /** The blocks it frees are those of the range at the stage it will commit to. */
  lemma WriteFrees(s: Store, oid: nat, bofst: nat, data: seq<Block>)
    requires Inv(s) && WriteAllowed(s, oid, bofst, |data|) && s.ssd.hint < |s.ssd.bits|
    requires |WriteOf(s, oid, bofst, data).lbas| == |data|
    ensures var m, t := Stage(s, |s.txs|), WriteOf(s, oid, bofst, data);
            Shaped(m) && forall x: nat :: x in t.freed <==> FreedBy(m, t, x)
  {
    var m, t := Stage(s, |s.txs|), WriteOf(s, oid, bofst, data);
    OldHeld(s, oid, bofst, |data|);
    forall x: nat ensures x in t.freed <==> FreedBy(m, t, x) {
      HeldBefore(m, t, x);
    }
  }

  lemma OldHeld(s: Store, oid: nat, bofst: nat, n: nat)
    requires Inv(s) && WriteAllowed(s, oid, bofst, n)
    ensures var m := Stage(s, |s.txs|);
            && Shaped(m) && Live(m, oid)
            && forall x: nat :: x in Flatten(OldExtents(s, oid, bofst, n))
                 <==> exists b: nat :: bofst <= b < bofst + n && Maps(m, oid, b, x)
  {
    var m := Stage(s, |s.txs|);
    assert StageFine(s, |s.txs|);
    IdleObject(s, oid, |s.txs|);
    var bi := m.index[m.onodes[oid].page][bofst..bofst + n];
    MergeRoundTrip(bi);
    OldBlocks(m, oid, bofst, n, NonHoles(bi));
  }

  lemma HeldBefore(m: Meta, t: Tx, x: nat)
    requires Shaped(m) && t.WriteTx?
    ensures FreedBy(m, t, x) <==> exists b: nat :: t.bofst <= b < t.bofst + |t.lbas| && Maps(m, t.oid, b, x)
  {
    if b: nat :| t.bofst <= b < t.bofst + |t.lbas| && Maps(m, t.oid, b, x) {
      assert Replaced(t, b);
    }
    if b: nat :| Replaced(t, b) && Maps(m, t.oid, b, x) {
      assert t.bofst <= b < t.bofst + |t.lbas|;
    }
  }

  lemma WriteUnused(s: Store, oid: nat, bofst: nat, data: seq<Block>, i: nat)
    requires Inv(s) && WriteAllowed(s, oid, bofst, |data|) && WriteSafe(s, oid, bofst, |data|) && i <= |s.txs|
    ensures Unused(Stage(s, i), WriteOf(s, oid, bofst, data).lbas)
  {
    var t := WriteOf(s, oid, bofst, data);
    WriteBits(s, oid, bofst, data);
    assert StageFine(s, i);
    FreedEarlier(s.txs, 0, i);
    forall j | 0 <= j < |t.lbas| ensures !Used(Stage(s, i), t.lbas[j]) {
      assert t.lbas[j] in t.lbas;
    }
  }

  lemma WriteJoins(s: Store, oid: nat, bofst: nat, data: seq<Block>)
    requires Inv(s) && WriteAllowed(s, oid, bofst, |data|) && WriteSafe(s, oid, bofst, |data|)
    ensures MayJoin(s, AcceptWrite(s, oid, bofst, data), WriteOf(s, oid, bofst, data))
  {
    var k, t := |s.txs|, WriteOf(s, oid, bofst, data);
    WriteBits(s, oid, bofst, data);
    WriteTxOk(s, oid, bofst, data);
    forall i | 0 <= i <= k ensures Unused(Stage(s, i), t.lbas) {
      WriteUnused(s, oid, bofst, data, i);
    }
    assert StageFine(s, k);
    WriteShape(Stage(s, k), t);
  }

  lemma AcceptWriteInv(s: Store, oid: nat, bofst: nat, data: seq<Block>)
    requires Inv(s) && WriteAllowed(s, oid, bofst, |data|) && WriteSafe(s, oid, bofst, |data|)
    ensures Inv(AcceptWrite(s, oid, bofst, data))
  {
    WriteJoins(s, oid, bofst, data);
    JoinInv(s, AcceptWrite(s, oid, bofst, data), WriteOf(s, oid, bofst, data));
  }

  // ---------- creates ----------

  /** Filling a page no transaction uses commutes with every commit. */
  lemma {:induction false} FutureInit(s: Store, page: nat, i: nat)
    requires Inv(s) && PageUnused(s, page) && i <= |s.txs|
    ensures page < |Stage(s, i).index|
    ensures Future(s.meta.(index := s.meta.index[page := InitialPage()]), s.txs, i)
         == Stage(s, i).(index := Stage(s, i).index[page := InitialPage()])
    decreases i
  {
    FutureSizes(s.meta, s.txs, i);
    if i > 0 {
      FutureInit(s, page, i - 1);
      assert StageFine(s, i - 1) && TxFine(s, i - 1) && NoOwner(Stage(s, i - 1), page);
      var m, t := Stage(s, i - 1), s.txs[i - 1];
      InitCommit(m, t, page);
    }
  }

  ghost function Init(m: Meta, page: nat): Meta
    requires page < |m.index|
  {
    m.(index := m.index[page := InitialPage()])
  }

  /** A page of no live object may be filled with holes without touching anything else. */
  lemma InitMaps(m: Meta, page: nat)
    requires Sound(m) && page < |m.index| && NoOwner(m, page)
    ensures Sound(Init(m, page))
    ensures forall x: nat :: Used(Init(m, page), x) <==> Used(m, x)
    ensures forall o: nat, b: nat, x: nat :: Maps(Init(m, page), o, b, x) <==> Maps(m, o, b, x)
  {
    var m' := Init(m, page);
    forall o: nat, b: nat, x: nat ensures Maps(m', o, b, x) <==> Maps(m, o, b, x) {
    }
    forall x: nat ensures Used(m', x) <==> Used(m, x) {
      if o: nat, b: nat :| Maps(m, o, b, x) {
        assert Maps(m', o, b, x);
      }
    }
  }

  lemma InitCommit(m: Meta, t: Tx, page: nat)
    requires Sound(m) && TxOk(m, t) && page < |m.index| && NoOwner(m, page)
    ensures TxFits(Init(m, page), t) && Commit(Init(m, page), t) == Init(Commit(m, t), page)
  {
    if t.DeleteTx? {
      var m' := Init(m, page);
      assert m'.index[m.onodes[t.oid].page] == m.index[m.onodes[t.oid].page];
      assert forall b: nat | b < OBJ_BLOCKS :: Lba(m', t.oid, b) == Lba(m, t.oid, b);
      assert BlocksOf(m', t.oid) == BlocksOf(m, t.oid);
    }
  }

  lemma InitTx(m: Meta, t: Tx, page: nat)
    requires Sound(m) && TxOk(m, t) && BitsOk(m, t) && page < |m.index| && NoOwner(m, page)
    requires t.CreateTx? ==> t.page != page
    ensures TxOk(Init(m, page), t) && BitsOk(Init(m, page), t)
  {
    InitMaps(m, page);
    InitCommit(m, t, page);
    if t.WriteTx? {
      forall x: nat ensures FreedBy(Init(m, page), t, x) <==> FreedBy(m, t, x) {
        if b: nat :| Replaced(t, b) && Maps(m, t.oid, b, x) {
          assert Maps(Init(m, page), t.oid, b, x);
        }
      }
    }
  }

  /** No object has the page at any stage. */
  ghost predicate PageUnused(s: Store, page: nat) {
    page < |s.meta.index| && forall j | 0 <= j <= |s.txs| :: NoOwner(Stage(s, j), page)
  }

  ghost predicate NoOwner(m: Meta, page: nat) {
    forall o: nat | Live(m, o) :: m.onodes[o].page != page
  }

  ghost function Initialised(s: Store, page: nat): Store
    requires page < |s.meta.index|
  {
    s.(meta := Init(s.meta, page))
  }

  lemma InitStage(s: Store, page: nat, i: nat)
    requires Inv(s) && PageUnused(s, page) && i <= |s.txs|
    ensures page < |Stage(s, i).index| && Stage(Initialised(s, page), i) == Init(Stage(s, i), page)
    ensures StageFine(Initialised(s, page), i)
  {
    FutureInit(s, page, i);
    assert StageFine(s, i) && NoOwner(Stage(s, i), page);
    InitMaps(Stage(s, i), page);
  }

  lemma InitTxFine(s: Store, page: nat, p: nat)
    requires Inv(s) && PageUnused(s, page) && p < |s.txs|
    ensures TxFine(Initialised(s, page), p)
  {
    var m, t := Stage(s, p), s.txs[p];
    InitStage(s, page, p);
    assert TxFine(s, p) && StageFine(s, p) && NoOwner(m, page) && NoOwner(Stage(s, p + 1), page);
    if t.CreateTx? {
      assert Stage(s, p + 1) == Commit(m, t);
      assert Live(Stage(s, p + 1), t.oid);
    }
    InitTx(m, t, page);
  }

  lemma InitFresh(s: Store, page: nat, p: nat, i: nat)
    requires Inv(s) && PageUnused(s, page) && i <= p < |s.txs|
    ensures Fresh(Initialised(s, page), p, i)
  {
    InitStage(s, page, i);
    assert Fresh(s, p, i) && StageFine(s, i) && NoOwner(Stage(s, i), page);
    InitMaps(Stage(s, i), page);
  }

  lemma InitInv(s: Store, page: nat)
    requires Inv(s) && PageUnused(s, page)
    ensures Inv(Initialised(s, page))
  {
    var s' := Initialised(s, page);
    forall i | 0 <= i <= |s.txs| ensures StageFine(s', i) {
      InitStage(s, page, i);
    }
    forall p | 0 <= p < |s'.txs| ensures TxFine(s', p) {
      InitTxFine(s, page, p);
    }
    forall p, i | 0 <= i <= p < |s'.txs| ensures Fresh(s', p, i) {
      InitFresh(s, page, p, i);
    }
    InitStage(s, page, |s.txs|);
    assert StageFine(s, 0) && Stage(s, 0) == s.meta && NoOwner(Stage(s, 0), page);
    InitView(s.meta, s.disk, page);
  }

  lemma InitView(m: Meta, disk: seq<Block>, page: nat)
    requires Sound(m) && page < |m.index| && NoOwner(m, page)
    ensures Shaped(Init(m, page)) && ViewOf(Init(m, page), disk) == ViewOf(m, disk)
  {
    var m' := Init(m, page);
    forall o: nat | Live(m, o) ensures ObjectOf(m', disk, o) == ObjectOf(m, disk, o) {
    }
  }

  /** A page freed by no pending delete belongs to no object, at any stage. */
  lemma PageFree(s: Store)
    requires Inv(s) && PageFound(s) && NewPage(s) !in PagesFreedFrom(s.txs, 0)
    ensures PageUnused(s, NewPage(s))
  {
    VisitFree(s.pm.bits, s.pm.hint, s.pm.hint, 1, false);
    forall j | 0 <= j <= |s.txs| ensures NoOwner(Stage(s, j), NewPage(s)) {
      assert StageFine(s, j);
      FreedEarlier(s.txs, 0, j);
    }
  }

  /** Allocating one page sets its bit. */
  lemma OnePage(bits: seq<bool>, hint: nat)
    requires hint < |bits| && Length(Lap(bits, hint, 1)) == 2
    ensures var page := Lap(bits, hint, 1).head.pos;
            page < |bits| && !bits[page] && GrantOf(bits, hint, 1).bits == bits[page := true]
  {
    var lap := Lap(bits, hint, 1);
    VisitFree(bits, hint, hint, 1, false);
    assert Front(lap, 1) == Cons(lap.head, Nil);
    assert SetHits(bits[lap.head.pos := true], Nil) == bits[lap.head.pos := true];
  }

  /** Commits of other objects' transactions leave an onode alone. */
  lemma OneKept(s: Store, o: nat, i: nat)
    requires Inv(s) && i < |s.txs| && o < |s.meta.onodes| && s.txs[i].oid != o
    ensures |Stage(s, i).onodes| == |Stage(s, i + 1).onodes| == |s.meta.onodes|
    ensures Stage(s, i + 1).onodes[o] == Stage(s, i).onodes[o]
  {
    FutureSizes(s.meta, s.txs, i);
    FutureSizes(s.meta, s.txs, i + 1);
    assert TxFine(s, i);
  }

  lemma {:induction false} KeptOnode(s: Store, o: nat, a: nat, b: nat)
    requires Inv(s) && a <= b <= |s.txs| && o < |s.meta.onodes| && forall p | a <= p < b :: s.txs[p].oid != o
    ensures o < |Stage(s, a).onodes| == |Stage(s, b).onodes| && Stage(s, b).onodes[o] == Stage(s, a).onodes[o]
    decreases b
  {
    if a < b {
      KeptOnode(s, o, a, b - 1);
      OneKept(s, o, b - 1);
    } else {
      FutureSizes(s.meta, s.txs, a);
    }
  }

  /** No pending write goes to a page that is free in DRAM. */
  lemma NoWriteToFree(s: Store, page: nat, p: nat)
    requires Inv(s) && p < |s.txs| && s.txs[p].WriteTx? && page < |s.pm.bits| && !s.pm.bits[page]
    ensures s.txs[p].oe.page != page
  {
    var t, k := s.txs[p], |s.txs|;
    assert TxFine(s, p) && StageFine(s, k) && StageFine(s, p);
    FutureSizes(s.meta, s.txs, p);
    KeptOnode(s, t.oid, p + 1, k);
    assert Live(Stage(s, k), t.oid) && Stage(s, k).onodes[t.oid] == t.oe;
  }

  /** A page of holes that is free in DRAM stays one through every pending commit. */
  lemma {:induction false} HolesKept(s: Store, page: nat, i: nat)
    requires Inv(s) && page < |s.meta.index| && s.meta.index[page] == InitialPage() && i <= |s.txs|
    requires page < |s.pm.bits| && !s.pm.bits[page]
    ensures page < |Stage(s, i).index| && Stage(s, i).index[page] == InitialPage()
    decreases i
  {
    FutureSizes(s.meta, s.txs, i);
    if i > 0 {
      HolesKept(s, page, i - 1);
      assert TxFine(s, i - 1);
      if s.txs[i - 1].WriteTx? {
        NoWriteToFree(s, page, i - 1);
      }
    }
  }

  /** Once the page is filled, and everything pending has committed, it holds nothing but holes and nobody owns it. */
  lemma PageReady(s: Store)
    requires Inv(s) && CreateSafe(s)
    ensures var s1, k, page := Initialised(s, NewPage(s)), |s.txs|, NewPage(s);
            && Inv(s1) && StageFine(s1, k) && NoOwner(Stage(s1, k), page)
            && page < |Stage(s1, k).index| && Stage(s1, k).index[page] == InitialPage()
  {
    var k, page := |s.txs|, NewPage(s);
    OnePage(s.pm.bits, s.pm.hint);
    assert StageFine(s, k);
    if page !in PagesFreedFrom(s.txs, 0) {
      PageFree(s);
      InitInv(s, page);
      InitStage(s, page, k);
      assert NoOwner(Stage(s, k), page);
    } else {
      assert Initialised(s, page) == s;
      HolesKept(s, page, k);
    }
  }

  lemma AcceptCreateInv(s: Store, oid: nat)
    requires Inv(s) && CreateAllowed(s, oid) && CreateSafe(s)
    ensures Inv(AcceptCreate(s, oid))
  {
    OnePage(s.pm.bits, s.pm.hint);
    PageReady(s);
    var k, s1, s' := |s.txs|, Initialised(s, NewPage(s)), AcceptCreate(s, oid);
    var t := s'.txs[k];
    IdleObject(s1, oid, k);
    FutureSizes(s1.meta, s1.txs, k);
    JoinInv(s1, s', t);
  }

  // ---------- deletes ----------

  lemma AcceptDeleteInv(s: Store, oid: nat)
    requires Inv(s) && DeleteAllowed(s, oid)
    ensures Inv(AcceptDelete(s, oid))
  {
    var k, s' := |s.txs|, AcceptDelete(s, oid);
    var t := s'.txs[k];
    assert StageFine(s, k);
    IdleObject(s, oid, k);
    FutureSizes(s.meta, s.txs, k);
    JoinInv(s, s', t);
  }
}
