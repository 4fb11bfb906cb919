/** Index pages are neither lost nor given out twice while the power stays on. */
module StorePages {
  import opened AllocSpec
  import opened StoreModel
  import opened StoreInv
  import opened StoreAccept
  import opened StoreRuns

  /** Once everything pending has committed, the page belongs to an object. */
  ghost predicate Owned(s: Store, g: nat) {
    !NoOwner(Stage(s, |s.txs|), g)
  }

  /** The page is allocated in DRAM and no object has it or is about to get it. */
  ghost predicate Stranded(s: Store, g: nat) {
    g < |s.pm.bits| && s.pm.bits[g] && !Owned(s, g)
  }

  ghost function LastOnodes(s: Store): seq<Onode> {
    Stage(s, |s.txs|).onodes
  }

  lemma SameOwners(m: Meta, m': Meta, g: nat)
    requires m'.onodes == m.onodes
    ensures NoOwner(m', g) <==> NoOwner(m, g)
  {
    assert forall o: nat :: Live(m, o) <==> Live(m', o);
  }

  /** One more transaction changes one onode. */
  lemma LastAppended(s: Store, s': Store, t: Tx)
    requires s'.meta == s.meta && s'.txs == s.txs + [t] && Inv(s')
    ensures TxFits(Stage(s, |s.txs|), t) && Stage(s', |s'.txs|) == Commit(Stage(s, |s.txs|), t)
  {
    FutureAppend(s.meta, s.txs, t, |s.txs|);
    assert TxFine(s', |s.txs|) && Stage(s', |s.txs|) == Stage(s, |s.txs|);
  }

  lemma WritePages(s: Store, oid: nat, bofst: nat, data: seq<Block>)
    requires Good(s) && WriteAllowed(s, oid, bofst, |data|) && WriteSafe(s, oid, bofst, |data|)
    ensures LastOnodes(AcceptWrite(s, oid, bofst, data)) == LastOnodes(s)
  {
    var s', k := AcceptWrite(s, oid, bofst, data), |s.txs|;
    AcceptWriteInv(s, oid, bofst, data);
    LastAppended(s, s', s'.txs[k]);
    IdleObject(s, oid, k);
  }

  lemma CreatePages(s: Store, oid: nat)
    requires Good(s) && CreateAllowed(s, oid) && CreateSafe(s)
    ensures oid < |LastOnodes(s)| && !LastOnodes(s)[oid].valid
    ensures LastOnodes(AcceptCreate(s, oid)) == LastOnodes(s)[oid := Onode(true, NewPage(s))]
  {
    var s', s1, k, page := AcceptCreate(s, oid), Initialised(s, NewPage(s)), |s.txs|, NewPage(s);
    AcceptCreateInv(s, oid);
    LastAppended(s1, s', s'.txs[k]);
    IdleObject(s, oid, k);
    if page !in PagesFreedFrom(s.txs, 0) {
      PageFree(s);
      InitStage(s, page, k);
    } else {
      assert s1 == s;
    }
  }

  lemma DeletePages(s: Store, oid: nat)
    requires Good(s) && DeleteAllowed(s, oid)
    ensures oid < |LastOnodes(s)| && LastOnodes(s)[oid] == s.meta.onodes[oid]
    ensures LastOnodes(AcceptDelete(s, oid)) == LastOnodes(s)[oid := Onode(false, 0)]
  {
    var s', k := AcceptDelete(s, oid), |s.txs|;
    AcceptDeleteInv(s, oid);
    LastAppended(s, s', s'.txs[k]);
    IdleObject(s, oid, k);
  }

  /** A create takes a free page for its object, a delete gives its object's page back, and no other step moves a page:
      what is stranded stays so, and nothing else becomes so. */
  lemma PagesKept(s: Store, e: Event, s': Store, g: nat)
    requires Good(s) && Step(s, e, s') && !e.PowerFails?
    ensures |s'.pm.bits| == |s.pm.bits| && (Stranded(s', g) <==> Stranded(s, g))
  {
    var m, m' := Stage(s, |s.txs|), Stage(s', |s'.txs|);
    match e
    case WriteRequest(oid, bofst, data) =>
      WritePages(s, oid, bofst, data);
      SameOwners(m, m', g);
    case CreateRequest(oid) =>
      CreatePages(s, oid);
      OnePage(s.pm.bits, s.pm.hint);
      OwnerAdded(m, m', oid, NewPage(s), g);
    case DeleteRequest(oid) =>
      DeletePages(s, oid);
      OwnerAdded(m', m, oid, s.meta.onodes[oid].page, g);
    case BlockStored(p, j) =>
      FutureProgress(s.meta, s.txs, p, s.txs[p].pending - {j}, |s.txs|);
    case HeadCommits => FutureShift(s.meta, s.txs, |s.txs| - 1);
    case RequestRefused =>
  }

  lemma OwnerAdded(m: Meta, m': Meta, oid: nat, page: nat, g: nat)
    requires oid < |m.onodes| == |m'.onodes| && !m.onodes[oid].valid && m'.onodes[oid] == Onode(true, page)
    requires forall o | 0 <= o < |m.onodes| && o != oid :: m'.onodes[o] == m.onodes[o]
    ensures NoOwner(m', g) <==> NoOwner(m, g) && g != page
  {
    assert Live(m', oid);
    assert forall o: nat | o != oid :: Live(m, o) <==> Live(m', o);
  }

  ghost predicate PoweredAt(run: seq<Store>, i: nat) {
    i + 1 < |run| && exists e: Event :: !e.PowerFails? && Step(run[i], e, run[i + 1])
  }

  /** As long as the power stays on, the pages allocated in DRAM are those of objects and those stranded before. */
  lemma {:induction false} PagesConserved(run: seq<Store>, i: nat, j: nat, g: nat)
    requires Run(run) && i <= j < |run| && forall k: nat | i <= k < j :: PoweredAt(run, k)
    ensures |run[j].pm.bits| == |run[i].pm.bits| && (Stranded(run[j], g) <==> Stranded(run[i], g))
    decreases j
  {
    if i < j {
      PagesConserved(run, i, j - 1, g);
      RunGood(run, j - 1);
      assert PoweredAt(run, j - 1);
      var e: Event :| !e.PowerFails? && Step(run[j - 1], e, run[j - 1 + 1]);
      PagesKept(run[j - 1], e, run[j], g);
    }
  }

  /** On a store formatted with no page reserved, that means: exactly the pages of objects. */
  lemma PagesExactly(run: seq<Store>, j: nat, g: nat)
    requires Run(run) && j < |run| && forall k: nat | k < j :: PoweredAt(run, k)
    requires g < |run[0].pm.bits| && !run[0].pm.bits[g]
    ensures g < |run[j].pm.bits| && (run[j].pm.bits[g] <==> Owned(run[j], g))
  {
    PagesConserved(run, 0, j, g);
    RunGood(run, j);
    var s := run[j];
    assert StageFine(s, |s.txs|) && PagesFreedFrom(s.txs, |s.txs|) == {};
  }
}
