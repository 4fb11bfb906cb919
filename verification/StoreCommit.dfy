/** One commit at a time: what applying a transaction does to block ownership and to what clients see. */
module StoreCommit {
  import opened Common
  import opened Extents
  import opened StoreModel

  /** Index entry `b` is one the write replaces. */
  predicate Replaced(t: Tx, b: nat)
    requires t.WriteTx?
  {
    t.bofst <= b < t.bofst + |t.lbas|
  }

  /** The transaction fits the metadata it will be applied to. */
  ghost predicate TxOk(m: Meta, t: Tx) {
    && TxFits(m, t)
    && match t
       case WriteTx(oid, oe, bofst, lbas, data, freed, _, _, pending) =>
         && Live(m, oid) && m.onodes[oid] == oe && |data| == |lbas|
         && (forall j | 0 <= j < |lbas| :: lbas[j] < |m.ssd| && !m.ssd[lbas[j]])
         && (forall j, k | 0 <= j < k < |lbas| :: lbas[j] != lbas[k])
         && (forall j | j in pending :: j < |lbas|)
         && (forall x: nat :: x in freed <==> FreedBy(m, t, x))
       case CreateTx(oid, page, _) =>
         && !m.onodes[oid].valid && m.index[page] == InitialPage()
         && forall o: nat | Live(m, o) :: m.onodes[o].page != page
       case DeleteTx(oid, page) => Live(m, oid) && m.onodes[oid].page == page
  }

  /** `x` held one of the blocks the write replaces. */
  ghost predicate FreedBy(m: Meta, t: Tx, x: nat)
    requires Shaped(m) && t.WriteTx?
  {
    exists b: nat :: Replaced(t, b) && Maps(m, t.oid, b, x)
  }

  /** The logged bitmap entries leave exactly the right bits set. */
  ghost predicate BitsOk(m: Meta, t: Tx)
    requires TxFits(m, t)
  {
    match t
    case WriteTx(_, _, _, lbas, _, freed, ids, snap, _) =>
      && Overlay(m.ssd, ids, snap) == snap
      && forall x: nat | x < |m.ssd| :: snap[x] <==> (m.ssd[x] && x !in freed) || x in lbas
    case CreateTx(_, page, snap) =>
      snap[page] && forall o: nat | Live(m, o) :: snap[m.onodes[o].page]
    case DeleteTx(_, _) => true
  }

  // ---------- writes ----------

  lemma WriteShape(m: Meta, t: Tx)
    requires Sound(m) && t.WriteTx? && TxOk(m, t)
    ensures var m' := Commit(m, t);
            Shaped(m') && m'.onodes == m.onodes && m'.pages == m.pages && m'.lost == m.lost
  {
    assert m.onodes[t.oid := t.oe] == m.onodes;
  }

  /** After a write the object maps the new blocks in the range written, and everything else is as before. */
  lemma WriteMaps(m: Meta, t: Tx, o: nat, b: nat, x: nat)
    requires Sound(m) && t.WriteTx? && TxOk(m, t) && Shaped(Commit(m, t)) && Commit(m, t).onodes == m.onodes
    ensures Maps(Commit(m, t), o, b, x)
       <==> if o == t.oid && Replaced(t, b) then x == t.lbas[b - t.bofst] else Maps(m, o, b, x)
  {
    if Live(m, o) && b < OBJ_BLOCKS {
      var s := Splice(m.index[t.oe.page], t.bofst, t.lbas);
      if o == t.oid {
        assert Lba(Commit(m, t), o, b) == s[b];
        if Replaced(t, b) {
          assert s[b] == t.lbas[b - t.bofst];
        }
      }
    }
  }

  lemma WriteSound(m: Meta, t: Tx)
    requires Sound(m) && t.WriteTx? && TxOk(m, t) && BitsOk(m, t)
    ensures Sound(Commit(m, t))
  {
    var m' := Commit(m, t);
    WriteShape(m, t);
    forall o: nat, b: nat, x: nat | Maps(m', o, b, x)
      ensures x < |m'.ssd| && x !in m'.lost && m'.ssd[x]
    {
      WriteBlock(m, t, o, b, x);
    }
    forall o: nat, b: nat, o': nat, b': nat, x: nat | Maps(m', o, b, x) && Maps(m', o', b', x)
      ensures o == o' && b == b'
    {
      WriteInjective(m, t, o, b, o', b', x);
    }
    forall x: nat | x < |m'.ssd| ensures m'.ssd[x] <==> Used(m', x) || x in m'.lost {
      WriteBit(m, t, x);
    }
  }

  lemma WriteBlock(m: Meta, t: Tx, o: nat, b: nat, x: nat)
    requires Sound(m) && t.WriteTx? && TxOk(m, t) && BitsOk(m, t) && Shaped(Commit(m, t))
    requires Commit(m, t).onodes == m.onodes && Maps(Commit(m, t), o, b, x)
    ensures x < |m.ssd| && x !in m.lost && Commit(m, t).ssd[x]
  {
    WriteMaps(m, t, o, b, x);
    if o == t.oid && Replaced(t, b) {
      assert x in t.lbas && !m.ssd[x];
    } else {
      assert Used(m, x);
    }
  }

  lemma WriteInjective(m: Meta, t: Tx, o: nat, b: nat, o': nat, b': nat, x: nat)
    requires Sound(m) && t.WriteTx? && TxOk(m, t) && Shaped(Commit(m, t)) && Commit(m, t).onodes == m.onodes
    requires Maps(Commit(m, t), o, b, x) && Maps(Commit(m, t), o', b', x)
    ensures o == o' && b == b'
  {
    WriteMaps(m, t, o, b, x);
    WriteMaps(m, t, o', b', x);
    assert Maps(m, o, b, x) ==> Used(m, x);
    assert Maps(m, o', b', x) ==> Used(m, x);
  }

  lemma WriteBit(m: Meta, t: Tx, x: nat)
    requires Sound(m) && t.WriteTx? && TxOk(m, t) && BitsOk(m, t) && Shaped(Commit(m, t))
    requires Commit(m, t).onodes == m.onodes && x < |m.ssd|
    ensures Commit(m, t).ssd[x] <==> Used(Commit(m, t), x) || x in m.lost
  {
    var m' := Commit(m, t);
    if x in t.lbas {
      var j :| 0 <= j < |t.lbas| && t.lbas[j] == x;
      WriteMaps(m, t, t.oid, t.bofst + j, x);
      assert Maps(m', t.oid, t.bofst + j, x);
    } else if Used(m', x) {
      var o: nat, b: nat :| Maps(m', o, b, x);
      WriteBlock(m, t, o, b, x);
    } else if m'.ssd[x] && x !in m.lost {
      assert Used(m, x);
      var o: nat, b: nat :| Maps(m, o, b, x);
      WriteMaps(m, t, o, b, x);
      assert FreedBy(m, t, x);
      assert false;
    } else if x in m.lost {
      assert m.ssd[x];
    }
  }

  /** With its data on the device, committing a write makes exactly the abstract write visible. */
  lemma WriteView(m: Meta, disk: seq<Block>, t: Tx)
    requires Sound(m) && t.WriteTx? && TxOk(m, t) && |disk| == |m.ssd|
    requires forall j | 0 <= j < |t.lbas| :: disk[t.lbas[j]] == t.data[j]
    ensures Shaped(Commit(m, t)) && ViewOf(Commit(m, t), disk) == Perform(ViewOf(m, disk), OpOf(t))
  {
    var m' := Commit(m, t);
    WriteShape(m, t);
    var v, v' := ViewOf(m, disk), ViewOf(m', disk);
    assert v'.Keys == v.Keys;
    forall o | o in v' ensures v'[o] == Perform(v, OpOf(t))[o] {
      forall b | 0 <= b < OBJ_BLOCKS
        ensures v'[o][b] == if o == t.oid && Replaced(t, b) then Some(t.data[b - t.bofst]) else v[o][b]
      {
        WriteMaps(m, t, o, b, Lba(m', o, b));
        WriteMaps(m, t, o, b, Lba(m, o, b));
        WriteHole(m, t, o, b);
      }
      if o == t.oid {
        assert v'[o] == Splice(v[o], t.bofst, Somes(t.data));
      } else {
        assert v'[o] == v[o];
      }
    }
  }

  lemma WriteHole(m: Meta, t: Tx, o: nat, b: nat)
    requires Sound(m) && t.WriteTx? && TxOk(m, t) && Shaped(Commit(m, t)) && Commit(m, t).onodes == m.onodes
    requires Live(m, o) && b < OBJ_BLOCKS
    ensures Lba(Commit(m, t), o, b) == if o == t.oid && Replaced(t, b) then t.lbas[b - t.bofst] else Lba(m, o, b)
  {
    var s := Splice(m.index[t.oe.page], t.bofst, t.lbas);
    if o == t.oid {
      assert Lba(Commit(m, t), o, b) == s[b];
    }
  }

  // ---------- creates ----------

  lemma CreateMaps(m: Meta, t: Tx, o: nat, b: nat, x: nat)
    requires Sound(m) && t.CreateTx? && TxOk(m, t)
    ensures Shaped(Commit(m, t)) && (Maps(Commit(m, t), o, b, x) <==> Maps(m, o, b, x))
  {
  }

  lemma CreateSound(m: Meta, t: Tx)
    requires Sound(m) && t.CreateTx? && TxOk(m, t) && BitsOk(m, t)
    ensures Sound(Commit(m, t))
  {
    var m' := Commit(m, t);
    forall o: nat, b: nat, x: nat ensures Maps(m', o, b, x) <==> Maps(m, o, b, x) {
      CreateMaps(m, t, o, b, x);
    }
    forall x: nat ensures Used(m', x) <==> Used(m, x) {
      if Used(m, x) {
        var o: nat, b: nat :| Maps(m, o, b, x);
        assert Maps(m', o, b, x);
      }
    }
  }

  lemma CreateView(m: Meta, disk: seq<Block>, t: Tx)
    requires Sound(m) && t.CreateTx? && TxOk(m, t)
    ensures Shaped(Commit(m, t)) && ViewOf(Commit(m, t), disk) == Perform(ViewOf(m, disk), OpOf(t))
  {
    var m' := Commit(m, t);
    var v, v' := ViewOf(m, disk), ViewOf(m', disk);
    forall o | o in v' ensures o in Perform(v, OpOf(t)) && v'[o] == Perform(v, OpOf(t))[o] {
      if o == t.oid {
        assert v'[o] == Holes();
      } else {
        assert v'[o] == v[o];
      }
    }
  }

  // ---------- deletes ----------

  lemma DeleteMaps(m: Meta, t: Tx, o: nat, b: nat, x: nat)
    requires Sound(m) && t.DeleteTx? && TxOk(m, t)
    ensures Shaped(Commit(m, t)) && (Maps(Commit(m, t), o, b, x) <==> o != t.oid && Maps(m, o, b, x))
  {
  }

  lemma DeleteBlocks(m: Meta, t: Tx, x: nat)
    requires Sound(m) && t.DeleteTx? && TxOk(m, t)
    ensures x in BlocksOf(m, t.oid) <==> exists b: nat :: Maps(m, t.oid, b, x)
  {
    if b: nat :| Maps(m, t.oid, b, x) {
      assert b < OBJ_BLOCKS && Live(m, t.oid) && Lba(m, t.oid, b) != HOLE;
    }
    if x in BlocksOf(m, t.oid) {
      var b: nat :| b < OBJ_BLOCKS && Live(m, t.oid) && Lba(m, t.oid, b) != HOLE && Lba(m, t.oid, b) == x;
      assert Maps(m, t.oid, b, x);
    }
  }

  lemma DeleteSound(m: Meta, t: Tx)
    requires Sound(m) && t.DeleteTx? && TxOk(m, t)
    ensures Sound(Commit(m, t))
  {
    var m' := Commit(m, t);
    forall o: nat, b: nat, x: nat ensures Maps(m', o, b, x) <==> o != t.oid && Maps(m, o, b, x) {
      DeleteMaps(m, t, o, b, x);
    }
    forall x: nat ensures x in BlocksOf(m, t.oid) <==> exists b: nat :: Maps(m, t.oid, b, x) {
      DeleteBlocks(m, t, x);
    }
    forall x: nat | x < |m.ssd| ensures m'.ssd[x] <==> Used(m', x) || x in m'.lost {
      if Used(m, x) {
        var o: nat, b: nat :| Maps(m, o, b, x);
        if o != t.oid {
          assert Maps(m', o, b, x);
        }
      }
      if Used(m', x) {
        var o: nat, b: nat :| Maps(m', o, b, x);
        assert Maps(m, o, b, x);
      }
    }
  }

  lemma DeleteView(m: Meta, disk: seq<Block>, t: Tx)
    requires Sound(m) && t.DeleteTx? && TxOk(m, t)
    ensures Shaped(Commit(m, t)) && ViewOf(Commit(m, t), disk) == Perform(ViewOf(m, disk), OpOf(t))
  {
    var m' := Commit(m, t);
    var v, v' := ViewOf(m, disk), ViewOf(m', disk);
    forall o | o in v' ensures o in Perform(v, OpOf(t)) && v'[o] == Perform(v, OpOf(t))[o] {
      assert v'[o] == v[o];
    }
  }

  // ---------- any transaction ----------

  /** Committing keeps block ownership. */
  lemma CommitSound(m: Meta, t: Tx)
    requires Sound(m) && TxOk(m, t) && BitsOk(m, t)
    ensures Sound(Commit(m, t))
  {
    match t
    case WriteTx(_, _, _, _, _, _, _, _, _) => WriteSound(m, t);
    case CreateTx(_, _, _) => CreateSound(m, t);
    case DeleteTx(_, _) => DeleteSound(m, t);
  }

  ghost predicate Written(disk: seq<Block>, t: Tx) {
    t.WriteTx? ==>
      |t.data| == |t.lbas| && forall j | 0 <= j < |t.lbas| :: t.lbas[j] < |disk| && disk[t.lbas[j]] == t.data[j]
  }

  /** Committing a transaction whose data is on the device makes exactly the abstract operation visible. */
  lemma CommitView(m: Meta, disk: seq<Block>, t: Tx)
    requires Sound(m) && TxOk(m, t) && |disk| == |m.ssd| && Written(disk, t)
    ensures Shaped(Commit(m, t)) && ViewOf(Commit(m, t), disk) == Perform(ViewOf(m, disk), OpOf(t))
  {
    match t
    case WriteTx(_, _, _, _, _, _, _, _, _) => WriteView(m, disk, t);
    case CreateTx(_, _, _) => CreateView(m, disk, t);
    case DeleteTx(_, _) => DeleteView(m, disk, t);
  }
}
