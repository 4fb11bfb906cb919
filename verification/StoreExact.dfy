/** Exactly when accepting or refusing a write keeps the store's invariant, and what goes wrong otherwise. */
module StoreExact {
  import opened Common
  import opened AllocSpec
  import opened AllocScan
  import opened Allocator
  import opened AllocPlain
  import opened Extents
  import opened StoreModel
  import opened StoreCommit
  import opened StoreInv
  import opened StoreAccept
  import opened StoreRuns

  /** The scan found the blocks and one more. */
  ghost predicate Granted(s: Store, oid: nat, bofst: nat, n: nat)
    requires Shaped(s.meta) && Live(s.meta, oid) && bofst + n <= OBJ_BLOCKS
  {
    var bits := FreedBits(s, oid, bofst, n);
    s.ssd.hint < |bits| && Length(Lap(bits, s.ssd.hint, n)) == n + 1
  }

  /** A block freed by a pending write is in use at some stage. */
  lemma {:induction false} FreedUsed(s: Store, i: nat, x: nat) returns (p: nat)
    requires Inv(s) && i <= |s.txs| && x in FreedFrom(s.txs, i)
    ensures i <= p < |s.txs| && Shaped(Stage(s, p)) && Used(Stage(s, p), x)
    decreases |s.txs| - i
  {
    assert i < |s.txs|;
    if s.txs[i].WriteTx? && x in s.txs[i].freed {
      p := i;
      assert TxFine(s, i);
      assert FreedBy(Stage(s, i), s.txs[i], x);
    } else {
      p := FreedUsed(s, i + 1, x);
    }
  }

  /** If accepting the write keeps the invariant, the new transaction fits the last stage. */
  lemma AcceptedFits(s: Store, oid: nat, bofst: nat, data: seq<Block>)
    requires Inv(s) && WriteAllowed(s, oid, bofst, |data|) && Granted(s, oid, bofst, |data|)
    requires Inv(AcceptWrite(s, oid, bofst, data))
    ensures var t := WriteOf(s, oid, bofst, data); TxOk(Stage(s, |s.txs|), t) && BitsOk(Stage(s, |s.txs|), t)
    ensures Stage(s, |s.txs|).ssd == s.ssd.bits
  {
    var k, s', t := |s.txs|, AcceptWrite(s, oid, bofst, data), WriteOf(s, oid, bofst, data);
    FutureAppend(s.meta, s.txs, t, k);
    assert TxFine(s', k) && s'.txs[k] == t;
    assert Stage(s', k) == Stage(s, k);
  }

  lemma NeedsExact(s: Store, oid: nat, bofst: nat, data: seq<Block>)
    requires Inv(s) && WriteAllowed(s, oid, bofst, |data|) && Granted(s, oid, bofst, |data|)
    requires Inv(AcceptWrite(s, oid, bofst, data))
    ensures AllocExact(FreedBits(s, oid, bofst, |data|), s.ssd.hint, |data|)
    ensures forall x | x in WriteOf(s, oid, bofst, data).lbas :: x < |s.ssd.bits| && !s.ssd.bits[x]
  {
    AcceptedFits(s, oid, bofst, data);
    SetAllAt(s.ssd.bits, Flatten(OldExtents(s, oid, bofst, |data|)), false);
    ExactIffFree(FreedBits(s, oid, bofst, |data|), s.ssd.hint, |data|);
  }

  /** ... and its blocks are in use at no stage. */
  lemma AcceptedUnused(s: Store, oid: nat, bofst: nat, data: seq<Block>, p: nat)
    requires Inv(s) && WriteAllowed(s, oid, bofst, |data|) && Granted(s, oid, bofst, |data|)
    requires Inv(AcceptWrite(s, oid, bofst, data)) && p <= |s.txs|
    ensures Unused(Stage(s, p), WriteOf(s, oid, bofst, data).lbas)
  {
    var k, s', t := |s.txs|, AcceptWrite(s, oid, bofst, data), WriteOf(s, oid, bofst, data);
    FutureAppend(s.meta, s.txs, t, p);
    assert Fresh(s', k, p) && s'.txs[k] == t;
  }

  lemma NeedsFresh(s: Store, oid: nat, bofst: nat, data: seq<Block>, x: nat)
    requires Inv(s) && WriteAllowed(s, oid, bofst, |data|) && Granted(s, oid, bofst, |data|)
    requires Inv(AcceptWrite(s, oid, bofst, data)) && x in WriteOf(s, oid, bofst, data).lbas
    ensures x !in FreedFrom(s.txs, 0)
  {
    if x in FreedFrom(s.txs, 0) {
      var p := FreedUsed(s, 0, x);
      AcceptedUnused(s, oid, bofst, data, p);
      assert false;
    }
  }

  /** Accepting the write keeps the invariant exactly when the write is safe. */
  lemma InvExactly(s: Store, oid: nat, bofst: nat, data: seq<Block>)
    requires Inv(s) && WriteAllowed(s, oid, bofst, |data|) && Granted(s, oid, bofst, |data|)
    ensures Inv(AcceptWrite(s, oid, bofst, data)) == WriteSafe(s, oid, bofst, |data|)
  {
    var n, t := |data|, WriteOf(s, oid, bofst, data);
    if WriteSafe(s, oid, bofst, n) {
      AcceptWriteInv(s, oid, bofst, data);
    } else if Inv(AcceptWrite(s, oid, bofst, data)) {
      NeedsExact(s, oid, bofst, data);
      AcceptedFits(s, oid, bofst, data);
      WasSet(s, oid, bofst, n);
      forall x | x in t.lbas ensures x !in Flatten(OldExtents(s, oid, bofst, n)) && x !in FreedFrom(s.txs, 0) {
        NeedsFresh(s, oid, bofst, data, x);
      }
      assert false;
    }
  }

  /** What a write owes its clients: its blocks exist and are in use neither now nor after any pending commit, so
      storing data harms nobody; after its own commit every block has one owner; and the durable bitmap is then the
      DRAM one. */
  ghost predicate Promises(s: Store, oid: nat, bofst: nat, data: seq<Block>)
    requires Inv(s) && WriteAllowed(s, oid, bofst, |data|) && Granted(s, oid, bofst, |data|)
  {
    var k, t := |s.txs|, WriteOf(s, oid, bofst, data);
    && (forall x | x in t.lbas :: x < |s.disk|)
    && (forall i | 0 <= i <= k :: Unused(Stage(s, i), t.lbas))
    && TxFits(Stage(s, k), t) && Sound(Commit(Stage(s, k), t)) && Commit(Stage(s, k), t).ssd == t.snap
  }

  lemma SafePromises(s: Store, oid: nat, bofst: nat, data: seq<Block>)
    requires Inv(s) && WriteAllowed(s, oid, bofst, |data|) && Granted(s, oid, bofst, |data|)
    requires WriteSafe(s, oid, bofst, |data|)
    ensures Promises(s, oid, bofst, data)
  {
    var k, t := |s.txs|, WriteOf(s, oid, bofst, data);
    WriteTxOk(s, oid, bofst, data);
    assert StageFine(s, k);
    FutureSizes(s.meta, s.txs, k);
    CommitSound(Stage(s, k), t);
    forall i | 0 <= i <= k ensures Unused(Stage(s, i), t.lbas) {
      WriteUnused(s, oid, bofst, data, i);
    }
  }

  /** The blocks of a write that keeps its promises were free, each once. */
  lemma PromisedFree(s: Store, oid: nat, bofst: nat, data: seq<Block>)
    requires Inv(s) && WriteAllowed(s, oid, bofst, |data|) && Granted(s, oid, bofst, |data|)
    requires Promises(s, oid, bofst, data) && |WriteOf(s, oid, bofst, data).lbas| == |data|
    ensures FreeSet(s.ssd.bits, WriteOf(s, oid, bofst, data).lbas)
  {
    var k, t := |s.txs|, WriteOf(s, oid, bofst, data);
    var m := Stage(s, k);
    assert StageFine(s, k) && Unused(m, t.lbas);
    IdleObject(s, oid, k);
    FutureSizes(s.meta, s.txs, k);
    forall j | 0 <= j < |t.lbas| ensures t.lbas[j] < |m.ssd| && Maps(Commit(m, t), oid, bofst + j, t.lbas[j]) {
      assert t.lbas[j] in t.lbas;
      NewEntry(m, t, j);
    }
  }

  /** The index range written maps the write's blocks. */
  lemma NewEntry(m: Meta, t: Tx, j: nat)
    requires TxFits(m, t) && t.WriteTx? && Live(m, t.oid) && m.onodes[t.oid] == t.oe && j < |t.lbas|
    requires Shaped(Commit(m, t)) && t.lbas[j] < SSD_BLOCKS_MAX
    ensures Maps(Commit(m, t), t.oid, t.bofst + j, t.lbas[j])
  {
    assert Splice(m.index[t.oe.page], t.bofst, t.lbas)[t.bofst + j] == t.lbas[j];
  }

  lemma GrantSize(bits: seq<bool>, hint: nat, n: nat)
    requires hint < |bits| && Length(Lap(bits, hint, n)) == n + 1
    ensures |Flatten(GrantOf(bits, hint, n).extents)| == n
  {
    var h := Front(Lap(bits, hint, n), n);
    VisitFree(bits, hint, hint, n, false);
    FrontFree(bits, Lap(bits, hint, n), n);
    FirstIsFirst(bits, hint, hint, n);
    FlattenGrows([], h);
  }

  /** A granted write keeps its promises to clients if and only if it is safe. */
  lemma WriteSafeExactly(s: Store, oid: nat, bofst: nat, data: seq<Block>)
    requires Inv(s) && WriteAllowed(s, oid, bofst, |data|) && Granted(s, oid, bofst, |data|)
    ensures Promises(s, oid, bofst, data) == WriteSafe(s, oid, bofst, |data|)
  {
    if WriteSafe(s, oid, bofst, |data|) {
      SafePromises(s, oid, bofst, data);
    } else if Promises(s, oid, bofst, data) {
      PromisedSafe(s, oid, bofst, data);
      assert false;
    }
  }

  lemma PromisedSafe(s: Store, oid: nat, bofst: nat, data: seq<Block>)
    requires Inv(s) && WriteAllowed(s, oid, bofst, |data|) && Granted(s, oid, bofst, |data|)
    requires Promises(s, oid, bofst, data)
    ensures WriteSafe(s, oid, bofst, |data|)
  {
    var k, n, t := |s.txs|, |data|, WriteOf(s, oid, bofst, data);
    var bits, was := FreedBits(s, oid, bofst, n), Flatten(OldExtents(s, oid, bofst, n));
    GrantSize(bits, s.ssd.hint, n);
    PromisedFree(s, oid, bofst, data);
    SetAllAt(s.ssd.bits, was, false);
    ExactIffFree(bits, s.ssd.hint, n);
    WasSet(s, oid, bofst, n);
    assert Stage(s, k).ssd == s.ssd.bits;
    forall x | x in t.lbas ensures !(x in FreedFrom(s.txs, 0)) && x !in was {
      var j :| 0 <= j < |t.lbas| && t.lbas[j] == x;
      if x in FreedFrom(s.txs, 0) {
        var p := FreedUsed(s, 0, x);
        assert false;
      }
    }
  }

  /** The blocks a write frees are allocated until then. */
  lemma WasSet(s: Store, oid: nat, bofst: nat, n: nat)
    requires Inv(s) && WriteAllowed(s, oid, bofst, n)
    ensures var was := Flatten(OldExtents(s, oid, bofst, n));
            Distinct(was) && forall x | x in was :: x < |s.ssd.bits| && s.ssd.bits[x]
  {
    var k := |s.txs|;
    var m := Stage(s, k);
    assert StageFine(s, k);
    IdleObject(s, oid, k);
    var bi := m.index[m.onodes[oid].page][bofst..bofst + n];
    MergeRoundTrip(bi);
    OldBlocks(m, oid, bofst, n, NonHoles(bi));
  }

  /** The logged bitmap entries carry a write's whole change exactly when they include the entry of every block taken.
      (The blocks freed are always covered; only the first entry of each extent taken is logged.) */
  lemma LoggedExactly(s: Store, oid: nat, bofst: nat, n: nat)
    requires Inv(s) && WriteAllowed(s, oid, bofst, n) && s.ssd.hint < |s.ssd.bits|
    requires AllocExact(FreedBits(s, oid, bofst, n), s.ssd.hint, n)
    requires var g := GrantOf(FreedBits(s, oid, bofst, n), s.ssd.hint, n);
             forall x | x in Flatten(g.extents) :: x !in Flatten(OldExtents(s, oid, bofst, n))
    ensures var was, g := OldExtents(s, oid, bofst, n), GrantOf(FreedBits(s, oid, bofst, n), s.ssd.hint, n);
            WriteLogged(s, oid, bofst, n)
            <==> forall x | x in Flatten(g.extents) :: x / 512 in EntryIds(was) + EntryIds(g.extents)
  {
    var was, g := OldExtents(s, oid, bofst, n), GrantOf(FreedBits(s, oid, bofst, n), s.ssd.hint, n);
    MergeRoundTrip(s.meta.index[s.meta.onodes[oid].page][bofst..bofst + n]);
    OnlyTheseChange(s, oid, bofst, n);
    OverlayExact(s.ssd.bits, EntryIds(was) + EntryIds(g.extents), g.bits);
    forall x | x in Flatten(was) ensures x / 512 in EntryIds(was) {
      InOneEntryLogged(was, x);
    }
  }

  /** A write changes the bits of the blocks it takes, and no others but those of the blocks it frees. */
  lemma OnlyTheseChange(s: Store, oid: nat, bofst: nat, n: nat)
    requires Inv(s) && WriteAllowed(s, oid, bofst, n) && s.ssd.hint < |s.ssd.bits|
    requires AllocExact(FreedBits(s, oid, bofst, n), s.ssd.hint, n)
    requires var g := GrantOf(FreedBits(s, oid, bofst, n), s.ssd.hint, n);
             forall x | x in Flatten(g.extents) :: x !in Flatten(OldExtents(s, oid, bofst, n))
    ensures var was, g := OldExtents(s, oid, bofst, n), GrantOf(FreedBits(s, oid, bofst, n), s.ssd.hint, n);
            && |g.bits| == |s.ssd.bits|
            && (forall x | x in Flatten(g.extents) :: x < |s.ssd.bits| && s.ssd.bits[x] != g.bits[x])
            && forall i: nat | i < |s.ssd.bits| && s.ssd.bits[i] != g.bits[i] ::
                 i in Flatten(was) || i in Flatten(g.extents)
  {
    var was, g := OldExtents(s, oid, bofst, n), GrantOf(FreedBits(s, oid, bofst, n), s.ssd.hint, n);
    var freed, taken, bits := Flatten(was), Flatten(g.extents), FreedBits(s, oid, bofst, n);
    SetAllAt(s.ssd.bits, freed, false);
    ExactBlocks(bits, s.ssd.hint, n);
    SetAllAt(bits, taken, true);
    forall x | x in taken ensures x < |s.ssd.bits| && !s.ssd.bits[x] && g.bits[x] {
      var j :| 0 <= j < |taken| && taken[j] == x;
    }
  }

  // ---------- the conditions read off the bitmap ----------

  /** Block `x` lies in a bitmap entry the write logs: one of the old extents', or one in which a run of the next free
      blocks starts. */
  ghost predicate Covered(bits: seq<bool>, hint: nat, n: nat, was: seq<Extent>, x: nat)
    requires hint < |bits|
  {
    x / 512 in EntryIds(was) || exists y: nat :: StartsRun(bits, hint, n, y) && y / 512 == x / 512
  }

  /** The next free blocks are safe to take: none was freed by this write or by one not yet committed, and each lies
      in a bitmap entry that is logged. */
  ghost predicate NextBlocksSafe(s: Store, oid: nat, bofst: nat, n: nat)
    requires Shaped(s.meta) && Live(s.meta, oid) && bofst + n <= OBJ_BLOCKS && s.ssd.hint < |s.ssd.bits|
  {
    var bits, was := FreedBits(s, oid, bofst, n), OldExtents(s, oid, bofst, n);
    forall x: nat | IsNext(bits, s.ssd.hint, n, x) ::
      x !in Flatten(was) && x !in FreedFrom(s.txs, 0) && Covered(bits, s.ssd.hint, n, was, x)
  }

  /** As long as no skip of the scan jumps over a free block, a write is safe if and only if more blocks are free than
      it needs, the scan lands on no free block across a full word or the wrap with an extent open, and the next free
      blocks in cyclic order are safe to take. All of it can be read off the bitmap before the allocation. */
  lemma WriteSafeOnBitmap(s: Store, oid: nat, bofst: nat, n: nat)
    requires Inv(s) && WriteAllowed(s, oid, bofst, n) && s.ssd.hint < |s.ssd.bits|
    requires Lossless(FreedBits(s, oid, bofst, n), s.ssd.hint, s.ssd.hint, n)
    ensures var bits, hint := FreedBits(s, oid, bofst, n), s.ssd.hint;
            WriteSafe(s, oid, bofst, n)
            <==> n < CountClear(bits, |bits|) && Seamless(bits, hint, hint, n, false, false)
                 && NextBlocksSafe(s, oid, bofst, n)
  {
    var bits, was, hint := FreedBits(s, oid, bofst, n), OldExtents(s, oid, bofst, n), s.ssd.hint;
    ExactIffSeamless(bits, hint, n);
    CompleteWhenLossless(bits, hint, n);
    if AllocExact(bits, hint, n) {
      ExactWriteSafe(s, oid, bofst, n);
    }
  }

  /** The same for what a granted write owes its clients. */
  lemma PromisesOnBitmap(s: Store, oid: nat, bofst: nat, data: seq<Block>)
    requires Inv(s) && WriteAllowed(s, oid, bofst, |data|) && Granted(s, oid, bofst, |data|)
    requires Lossless(FreedBits(s, oid, bofst, |data|), s.ssd.hint, s.ssd.hint, |data|)
    ensures Promises(s, oid, bofst, data)
            <==> Seamless(FreedBits(s, oid, bofst, |data|), s.ssd.hint, s.ssd.hint, |data|, false, false)
                 && NextBlocksSafe(s, oid, bofst, |data|)
  {
    WriteSafeExactly(s, oid, bofst, data);
    WriteSafeOnBitmap(s, oid, bofst, |data|);
    CompleteWhenLossless(FreedBits(s, oid, bofst, |data|), s.ssd.hint, |data|);
  }

  lemma ExactWriteSafe(s: Store, oid: nat, bofst: nat, n: nat)
    requires Inv(s) && WriteAllowed(s, oid, bofst, n) && s.ssd.hint < |s.ssd.bits|
    requires Lossless(FreedBits(s, oid, bofst, n), s.ssd.hint, s.ssd.hint, n)
    requires AllocExact(FreedBits(s, oid, bofst, n), s.ssd.hint, n)
    ensures WriteSafe(s, oid, bofst, n) == NextBlocksSafe(s, oid, bofst, n)
  {
    FreshOnBitmap(s, oid, bofst, n);
    if WriteFresh(s, oid, bofst, n) {
      LoggedOnBitmap(s, oid, bofst, n);
    }
  }

  lemma FreshOnBitmap(s: Store, oid: nat, bofst: nat, n: nat)
    requires Inv(s) && WriteAllowed(s, oid, bofst, n) && s.ssd.hint < |s.ssd.bits|
    requires Lossless(FreedBits(s, oid, bofst, n), s.ssd.hint, s.ssd.hint, n)
    requires AllocExact(FreedBits(s, oid, bofst, n), s.ssd.hint, n)
    ensures WriteFresh(s, oid, bofst, n)
            <==> forall x: nat | IsNext(FreedBits(s, oid, bofst, n), s.ssd.hint, n, x) ::
                   x !in Flatten(OldExtents(s, oid, bofst, n)) && x !in FreedFrom(s.txs, 0)
  {
    var bits := FreedBits(s, oid, bofst, n);
    var taken := Flatten(GrantOf(bits, s.ssd.hint, n).extents);
    forall x: nat ensures x in taken <==> IsNext(bits, s.ssd.hint, n, x) {
      TakesNext(bits, s.ssd.hint, n, x, 0);
    }
  }

  lemma LoggedOnBitmap(s: Store, oid: nat, bofst: nat, n: nat)
    requires Inv(s) && WriteAllowed(s, oid, bofst, n) && WriteFresh(s, oid, bofst, n)
    requires Lossless(FreedBits(s, oid, bofst, n), s.ssd.hint, s.ssd.hint, n)
    ensures WriteLogged(s, oid, bofst, n)
            <==> forall x: nat | IsNext(FreedBits(s, oid, bofst, n), s.ssd.hint, n, x) ::
                   Covered(FreedBits(s, oid, bofst, n), s.ssd.hint, n, OldExtents(s, oid, bofst, n), x)
  {
    LoggedExactly(s, oid, bofst, n);
    var bits, was := FreedBits(s, oid, bofst, n), OldExtents(s, oid, bofst, n);
    var es := GrantOf(bits, s.ssd.hint, n).extents;
    forall x: nat
      ensures x in Flatten(es) <==> IsNext(bits, s.ssd.hint, n, x)
      ensures x / 512 in EntryIds(was) + EntryIds(es) <==> Covered(bits, s.ssd.hint, n, was, x)
    {
      TakesNext(bits, s.ssd.hint, n, x, x / 512);
    }
  }

  // ---------- reuse of a block still in use ----------

  /** Some power failure now shows clients something other than the operations committed. */
  ghost predicate MayTear(s: Store) {
    exists s' :: CrashAndMount(s, s') && Shaped(s'.meta) && ViewOf(s'.meta, s'.disk) != Replay(s'.history)
  }

  /** What is durable is what the operations committed so far amount to. */
  ghost predicate Shows(s: Store) {
    && Shaped(s.meta) && |s.disk| == |s.meta.ssd| == |s.ssd.bits| && s.done <= |s.history|
    && ViewOf(s.meta, s.disk) == Replay(s.history[..s.done])
  }

  /** Storing new data into a block the durable metadata still uses can tear what a crash leaves behind. */
  lemma ReuseTears(s: Store, oid: nat, bofst: nat, data: seq<Block>, j: nat)
    requires Shows(s) && WriteAllowed(s, oid, bofst, |data|) && Granted(s, oid, bofst, |data|)
    requires j < |data| && |WriteOf(s, oid, bofst, data).lbas| == |data|
    requires Overwrites(s, WriteOf(s, oid, bofst, data).lbas[j], data[j])
    ensures MayTear(StoreBlock(AcceptWrite(s, oid, bofst, data), |s.txs|, j))
  {
    var s1 := AcceptWrite(s, oid, bofst, data);
    var x, s2 := s1.txs[|s.txs|].lbas[j], StoreBlock(s1, |s.txs|, j);
    RemountIsCrash(s2);
    assert Remounted(s2).history == s.history[..s.done];
    OverwriteShows(s.meta, s.disk, x, data[j]);
  }

  /** The store as a crash between two commits may leave it, losing nothing that was stored. */
  ghost function Remounted(s: Store): Store
    requires s.done <= |s.history|
  {
    Store(s.meta, s.disk, Mounted(s.meta.ssd), Mounted(s.meta.pages), [], s.history[..s.done], s.done)
  }

  lemma RemountIsCrash(s: Store)
    requires Shaped(s.meta) && s.done <= |s.history|
    ensures CrashAndMount(s, Remounted(s))
  {
    assert CrashAfter(s, Remounted(s), 0);
  }

  /** Storing `d` in block `x` would change a block that the durable metadata uses. */
  ghost predicate Overwrites(s: Store, x: nat, d: Block) {
    Shaped(s.meta) && x < |s.disk| && Used(s.meta, x) && s.disk[x] != d
  }

  lemma OverwriteShows(m: Meta, disk: seq<Block>, x: nat, d: Block)
    requires Shaped(m) && x < |disk| && Used(m, x) && disk[x] != d
    ensures ViewOf(m, disk[x := d]) != ViewOf(m, disk)
  {
    var o: nat, b: nat :| Maps(m, o, b, x);
    assert o < |m.onodes| && Live(m, o);
    assert ViewOf(m, disk)[o][b] == Some(disk[x]);
    assert ViewOf(m, disk[x := d])[o][b] == Some(d);
  }

  /** Searching from block 0, with block 0 free, takes block 0. */
  lemma TakesBlockZero(bits: seq<bool>)
    requires |bits| > 0 && !bits[0]
    ensures Flatten(GrantOf(bits, 0, 1).extents) == [0]
  {
    AllSetBits(bits, 0, 64);
    var lap := Lap(bits, 0, 1);
    assert At(|bits|, 0) == 0 && lap.head == Hit(0, true);
    assert Front(lap, 1) == Cons(Hit(0, true), Nil);
    FlattenOne([], Hit(0, true));
    assert AddHits([], Front(lap, 1)) == AddHit([], Hit(0, true));
  }

  /** Freeing a list of blocks that contains block 0 clears its bit. */
  lemma ZeroCleared(bits: seq<bool>, blocks: seq<nat>)
    requires |bits| > 0 && 0 in blocks
    ensures !SetAll(bits, blocks, false)[0]
  {
    SetAllAt(bits, blocks, false);
  }

  lemma OneMapped(bi: seq<nat>)
    requires bi == [0]
    ensures 0 in Flatten(Merge(bi).extents)
  {
    MergeRoundTrip(bi);
    NonHolesMember(bi, 0);
  }

  lemma BlockZeroFreed(s: Store, oid: nat, b: nat)
    requires Shaped(s.meta) && Maps(s.meta, oid, b, 0) && |s.ssd.bits| > 0
    ensures !FreedBits(s, oid, b, 1)[0]
  {
    var bi := s.meta.index[s.meta.onodes[oid].page][b..b + 1];
    assert bi[0] == 0 && bi == [bi[0]];
    OneMapped(bi);
    ZeroCleared(s.ssd.bits, Flatten(OldExtents(s, oid, b, 1)));
  }

  ghost predicate OverwritesBlockZero(s: Store, oid: nat, b: nat, d: Block) {
    && Good(s) && s.ssd.hint == 0 && WriteAllowed(s, oid, b, 1) && Maps(s.meta, oid, b, 0)
    && Granted(s, oid, b, 1) && Overwrites(s, 0, d)
  }

  /** A mount sets the search hint to block 0. If a block of an object is stored there, overwriting it frees block 0 and
      takes it again at once: the old data is overwritten in place and a crash tears the object. */
  lemma OverwriteOfBlockZeroTears(s: Store, oid: nat, b: nat, d: Block)
    requires OverwritesBlockZero(s, oid, b, d)
    ensures WriteOf(s, oid, b, [d]).lbas == [0]
    ensures MayTear(StoreBlock(AcceptWrite(s, oid, b, [d]), |s.txs|, 0))
  {
    BlockZeroFreed(s, oid, b);
    TakesBlockZero(FreedBits(s, oid, b, 1));
    assert WriteOf(s, oid, b, [d]).lbas == [0];
    ReuseTears(s, oid, b, [d], 0);
  }

  // ---------- a bitmap entry that is not logged ----------

  /** The store after a quiet store's write has been stored, has committed, and power has failed: `disk` is the SSD. */
  ghost function CommittedAndMounted(s: Store, t: Tx, disk: seq<Block>): Store
    requires TxFits(s.meta, t)
  {
    var m := Commit(s.meta, t);
    Store(m, disk, Mounted(m.ssd), Mounted(m.pages), [], s.history + [OpOf(t)], s.done + 1)
  }

  /** A block taken whose bitmap entry is not logged is in use after the commit, and free in the allocator after the
      next mount. */
  lemma UnloggedIsFree(s: Store, oid: nat, bofst: nat, data: seq<Block>, disk: seq<Block>, x: nat)
    requires Good(s) && s.txs == [] && WriteAllowed(s, oid, bofst, |data|) && WriteFresh(s, oid, bofst, |data|)
    requires var t := WriteOf(s, oid, bofst, data);
             && x in t.lbas && x / 512 !in t.ids && |disk| == |s.disk| && Written(disk, t)
             && forall y: nat | y < |disk| && disk[y] != s.disk[y] :: y in t.lbas
    ensures var t := WriteOf(s, oid, bofst, data);
            && TxFits(s.meta, t)
            && var s' := CommittedAndMounted(s, t, disk);
               Shows(s') && Used(s'.meta, x) && x < |s'.ssd.bits| && !s'.ssd.bits[x]
  {
    var t := WriteOf(s, oid, bofst, data);
    assert StageFine(s, 0) && Stage(s, 0) == s.meta;
    WriteTxOk(s, oid, bofst, data);
    CommitShows(s, t, disk);
    var j :| 0 <= j < |t.lbas| && t.lbas[j] == x;
    WriteShape(s.meta, t);
    NewEntry(s.meta, t, j);
  }

  /** A commit whose data is stored makes the operation visible, whatever the log leaves of the bitmap. */
  lemma CommitShows(s: Store, t: Tx, disk: seq<Block>)
    requires Good(s) && s.txs == [] && t.WriteTx? && TxOk(s.meta, t) && |disk| == |s.disk| && Written(disk, t)
    requires forall y: nat | y < |disk| && disk[y] != s.disk[y] :: y in t.lbas
    ensures Shows(CommittedAndMounted(s, t, disk))
  {
    assert StageFine(s, 0) && Stage(s, 0) == s.meta && s.history[..s.done] == s.history;
    forall y: nat | y < |s.disk| && s.disk[y] != disk[y] ensures !Used(s.meta, y) {
      assert y in t.lbas;
    }
    SameView(s.meta, s.disk, disk);
    CommitView(s.meta, disk, t);
    assert (s.history + [OpOf(t)])[..s.done + 1] == s.history + [OpOf(t)];
    assert (s.history + [OpOf(t)])[..|s.history|] == s.history;
  }

  /** So the block may be handed out again, and storing into it then tears the object it belongs to. */
  lemma HandedOutAgain(s: Store, x: nat, oid: nat, bofst: nat, data: seq<Block>) returns (j: nat)
    requires Shows(s) && s.txs == [] && Used(s.meta, x) && x < |s.ssd.bits| && s.ssd.hint < |s.ssd.bits|
    requires WriteAllowed(s, oid, bofst, |data|)
    requires var bits := FreedBits(s, oid, bofst, |data|);
             && Lossless(bits, s.ssd.hint, s.ssd.hint, |data|) && AllocExact(bits, s.ssd.hint, |data|)
             && IsNext(bits, s.ssd.hint, |data|, x)
    requires forall i | 0 <= i < |data| :: data[i] != s.disk[x]
    ensures var t := WriteOf(s, oid, bofst, data);
            && j < |t.lbas| == |data| && t.lbas[j] == x && x < |s.disk|
            && MayTear(StoreBlock(AcceptWrite(s, oid, bofst, data), 0, j))
  {
    var bits, t := FreedBits(s, oid, bofst, |data|), WriteOf(s, oid, bofst, data);
    TakesNext(bits, s.ssd.hint, |data|, x, 0);
    GrantSize(bits, s.ssd.hint, |data|);
    j :| 0 <= j < |t.lbas| && t.lbas[j] == x;
    ReuseTears(s, oid, bofst, data, j);
  }

  // ---------- refused writes ----------

  /** Counting the blocks it gives back, the write asks for more than the counter says are free. */
  ghost predicate FewerThanAsked(s: Store, oid: nat, bofst: nat, n: nat)
    requires Shaped(s.meta) && Live(s.meta, oid) && bofst + n <= OBJ_BLOCKS
  {
    s.ssd.free + |Flatten(OldExtents(s, oid, bofst, n))| < n
  }

  /** Which of the two refusals a write meets, read off the bitmap once its old blocks are free: the first if fewer than
      `n` blocks are clear; the second, when no skip jumps over a free block, if exactly `n` are. */
  lemma RefusalsOnBitmap(s: Store, oid: nat, bofst: nat, n: nat)
    requires Good(s) && WriteAllowed(s, oid, bofst, n) && s.ssd.hint < |s.ssd.bits|
    ensures var bits := FreedBits(s, oid, bofst, n);
            && (FewerThanAsked(s, oid, bofst, n) <==> CountClear(bits, |bits|) < n)
            && (Lossless(bits, s.ssd.hint, s.ssd.hint, n) ==>
                  (Granted(s, oid, bofst, n) <==> CountClear(bits, |bits|) > n))
  {
    var bits := FreedBits(s, oid, bofst, n);
    CountFreed(s, oid, bofst, n);
    if Lossless(bits, s.ssd.hint, s.ssd.hint, n) {
      CompleteWhenLossless(bits, s.ssd.hint, n);
    }
  }

  /** What a write refused for lack of space leaves behind: the old blocks are freed, and if the scan ran, the blocks it
      reached are taken. */
  ghost function RefuseWrite(s: Store, oid: nat, bofst: nat, n: nat): Store
    requires Shaped(s.meta) && WriteAllowed(s, oid, bofst, n) && s.ssd.hint < |s.ssd.bits|
  {
    var bits, free := FreedBits(s, oid, bofst, n), s.ssd.free + |Flatten(OldExtents(s, oid, bofst, n))|;
    s.(ssd := Alloc(if free < n then bits else SetHits(bits, Front(Lap(bits, s.ssd.hint, n), n)), free, s.ssd.hint))
  }

  /** A refused write leaves the store as it should be exactly when the object mapped nothing in the range and the scan,
      if it ran at all, met no free block. */
  lemma RefusedExactly(s: Store, oid: nat, bofst: nat, n: nat)
    requires Good(s) && WriteAllowed(s, oid, bofst, n) && s.ssd.hint < |s.ssd.bits| && !Granted(s, oid, bofst, n)
    ensures var bits := FreedBits(s, oid, bofst, n);
            Good(RefuseWrite(s, oid, bofst, n))
            == (OldExtents(s, oid, bofst, n) == [] && (s.ssd.free < n || Lap(bits, s.ssd.hint, n) == Nil))
  {
    var was, bits := Flatten(OldExtents(s, oid, bofst, n)), FreedBits(s, oid, bofst, n);
    var lap, s' := Lap(bits, s.ssd.hint, n), RefuseWrite(s, oid, bofst, n);
    WasSet(s, oid, bofst, n);
    CountFreed(s, oid, bofst, n);
    CounterAfterAlloc(bits, s.ssd.hint, n);
    NoExtents(s, oid, bofst, n);
    SetAllAt(s.ssd.bits, was, false);
    assert was != [] ==> was[0] in was && bits != s.ssd.bits;
    assert was == [] ==> bits == s.ssd.bits;
    assert Stage(s', |s.txs|) == Stage(s, |s.txs|);
    if was == [] && (s.ssd.free < n || lap == Nil) {
      assert s' == s;
    }
    assert Good(s') ==> s'.ssd.bits == s.ssd.bits;
    assert Length(lap) == 0 ==> lap == Nil;
  }

  lemma NoExtents(s: Store, oid: nat, bofst: nat, n: nat)
    requires Shaped(s.meta) && Live(s.meta, oid) && bofst + n <= OBJ_BLOCKS
    ensures Flatten(OldExtents(s, oid, bofst, n)) == [] <==> OldExtents(s, oid, bofst, n) == []
  {
    var bi := s.meta.index[s.meta.onodes[oid].page][bofst..bofst + n];
    MergeRoundTrip(bi);
  }

  // ---------- creates ----------

  /** No crash of a good store tears anything. */
  lemma GoodNeverTears(s: Store)
    requires Good(s)
    ensures !MayTear(s)
  {
    forall s' | CrashAndMount(s, s') ensures Shaped(s'.meta) && ViewOf(s'.meta, s'.disk) == Replay(s'.history) {
      var c: nat :| c <= 1 && CrashAfter(s, s', c);
      CrashShows(s, s', c);
    }
  }

  lemma {:induction false} FreeingDelete(txs: seq<Tx>, i: nat, page: nat) returns (p: nat)
    requires i <= |txs| && page in PagesFreedFrom(txs, i)
    ensures i <= p < |txs| && txs[p].DeleteTx? && txs[p].page == page
    decreases |txs| - i
  {
    if txs[i].DeleteTx? && txs[i].page == page {
      p := i;
    } else {
      p := FreeingDelete(txs, i + 1, page);
    }
  }

  /** The page of a pending delete still belongs to its object in the durable metadata. */
  lemma StillOwned(s: Store, page: nat) returns (o: nat)
    requires Inv(s) && page in PagesFreedFrom(s.txs, 0)
    ensures Live(s.meta, o) && s.meta.onodes[o].page == page
  {
    var p := FreeingDelete(s.txs, 0, page);
    o := s.txs[p].oid;
    assert TxFine(s, p);
    FutureSizes(s.meta, s.txs, p);
    KeptOnode(s, o, 0, p);
  }

  lemma SomeEntry(lbas: seq<nat>) returns (b: nat)
    requires |lbas| == OBJ_BLOCKS && lbas != InitialPage()
    ensures b < OBJ_BLOCKS && lbas[b] != HOLE
  {
    var holes := InitialPage();
    b :| b < OBJ_BLOCKS && lbas[b] != holes[b];
  }

  /** Filling a page that a live object still uses erases the object. */
  lemma FillErases(s: Store, oid: nat)
    requires Inv(s) && CreateAllowed(s, oid) && PageFound(s) && !CreateSafe(s)
    ensures var m' := AcceptCreate(s, oid).meta;
            Shaped(m') && ViewOf(m', s.disk) != ViewOf(s.meta, s.disk)
  {
    var m', page := AcceptCreate(s, oid).meta, NewPage(s);
    assert StageFine(s, 0) && Stage(s, 0) == s.meta;
    var o := StillOwned(s, page);
    var b := SomeEntry(s.meta.index[page]);
    var x := Lba(s.meta, o, b);
    assert Maps(s.meta, o, b, x);
    assert Live(m', o) && Lba(m', o, b) == HOLE;
    assert ViewOf(s.meta, s.disk)[o][b] == Some(s.disk[x]);
    assert ViewOf(m', s.disk)[o][b] == None;
  }

  /** A create keeps the store good, and lets no crash tear an object, if and only if the page it finds is not that of
      an object whose delete is still pending, or that object is all holes anyway. The code checks neither. */
  lemma CreateSafeExactly(s: Store, oid: nat)
    requires Good(s) && CreateAllowed(s, oid) && PageFound(s)
    ensures Good(AcceptCreate(s, oid)) == CreateSafe(s)
    ensures MayTear(AcceptCreate(s, oid)) == !CreateSafe(s)
  {
    var s' := AcceptCreate(s, oid);
    if CreateSafe(s) {
      AcceptCreateInv(s, oid);
      CountCreate(s, oid);
      GoodNeverTears(s');
    } else {
      FillErases(s, oid);
      RemountIsCrash(s');
      assert Remounted(s').history == s.history[..s.done] == s'.history[..s'.done];
    }
  }

  /** What a create refused for lack of an index page leaves: the scan keeps the last free page if it took it. */
  ghost function RefuseCreate(s: Store): Store
    requires s.pm.hint < |s.pm.bits|
  {
    if s.pm.free < 1 then s
    else s.(pm := s.pm.(bits := SetHits(s.pm.bits, Front(Lap(s.pm.bits, s.pm.hint, 1), 1))))
  }

  /** A create refused for lack of a page leaves the store good exactly when no page was free or the scan met none. */
  lemma CreateRefusedExactly(s: Store)
    requires Good(s) && s.pm.hint < |s.pm.bits|
    requires s.pm.free < 1 || Length(Lap(s.pm.bits, s.pm.hint, 1)) != 2
    ensures Good(RefuseCreate(s)) == (s.pm.free < 1 || Lap(s.pm.bits, s.pm.hint, 1) == Nil)
  {
    var lap, s' := Lap(s.pm.bits, s.pm.hint, 1), RefuseCreate(s);
    CounterAfterAlloc(s.pm.bits, s.pm.hint, 1);
    VisitFree(s.pm.bits, s.pm.hint, s.pm.hint, 1, false);
    assert Length(lap) == 0 ==> lap == Nil;
    assert s'.pm == s.pm ==> s' == s;
  }
}
