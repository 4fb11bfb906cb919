/** Power failures during recovery, and transactions applied while earlier stores are still undrained. */
module PmRestart {
  import opened Bytes
  import opened PmDevice
  import opened PmLog
  import opened PmCrash

  /** Storing and draining one entry at a time comes to the same memory as storing them all. */
  lemma {:induction false} SyncApplied(pm: seq<Byte>, es: seq<Entry>)
    requires AllFit(Stores(es), |pm|)
    ensures AllFit(SyncStores(es), |pm|) && At(pm, SyncStores(es), 2 * |es|) == Applied(pm, es)
    decreases |es|
  {
    if es != [] {
      var front, e := es[..|es| - 1], es[|es| - 1];
      assert Stores(es) == Stores(front) + [StoreOf(e)];
      assert AllFit(Stores(front), |pm|) && Fits(StoreOf(e), |pm|) by {
        assert forall i | 0 <= i < |front| :: Stores(front)[i] == Stores(es)[i];
        assert Stores(es)[|es| - 1] == StoreOf(e);
      }
      SyncApplied(pm, front);
      AtSnoc(pm, Stores(front), StoreOf(e));
      StoreThenDrain(pm, SyncStores(front), StoreOf(e));
    }
  }

  lemma {:induction false} StoreThenDrain(pm: seq<Byte>, ops: seq<PmOp>, op: PmOp)
    requires AllFit(ops, |pm|) && Fits(op, |pm|)
    ensures AllFit(ops + [op, Drain], |pm|)
    ensures At(pm, ops + [op, Drain], |ops| + 2) == Step(At(pm, ops, |ops|), op)
  {
    AtSnoc(pm, ops, op);
    AtSnoc(pm, ops + [op], Drain);
    assert ops + [op, Drain] == (ops + [op]) + [Drain];
  }

  /** Recovery's stores are the entries' stores. */
  lemma {:induction false} SyncCovers(es: seq<Entry>, i: nat, a: nat)
    requires i < 2 * |es| && Covers(SyncStores(es)[i], a)
    ensures Touched(Stores(es), a)
    decreases |es|
  {
    var front, e := es[..|es| - 1], es[|es| - 1];
    if i < 2 * |front| {
      SyncCovers(front, i, a);
      var k :| 0 <= k < |front| && Covers(Stores(front)[k], a);
      assert Stores(es)[k] == Stores(front)[k];
    } else {
      assert SyncStores(es)[i] == [StoreOf(e), Drain][i - 2 * |front|];
      assert Stores(es)[|es| - 1] == StoreOf(e);
    }
  }

  lemma RecoverFits(pm: seq<Byte>, es: seq<Entry>, log: nat)
    requires Placed(es, log, |pm|) && AllFit(Stores(es), |pm|)
    ensures AllFit(SyncStores(es), |pm|) && AllFit(RecoverOps(es, log), |pm|)
    ensures At(pm, RecoverOps(es, log), 2 * |es|) == Applied(pm, es)
  {
    SyncApplied(pm, es);
    var a, b := SyncStores(es), [Store(log, Zeros(HEADER_SIZE)), Drain];
    AtPrefix(pm, a, b, 2 * |es|);
  }

  /** The clear at the end. */
  lemma ClearedAt(pm: seq<Byte>, es: seq<Entry>, log: nat, k: nat)
    requires Placed(es, log, |pm|) && AllFit(Stores(es), |pm|) && 2 * |es| < k <= 2 * |es| + 2
    ensures AllFit(RecoverOps(es, log), |pm|)
    ensures At(pm, RecoverOps(es, log), k) == Put(Applied(pm, es), log, Zeros(HEADER_SIZE))
  {
    RecoverFits(pm, es, log);
    var a, b := SyncStores(es), [Store(log, Zeros(HEADER_SIZE)), Drain];
    assert RecoverOps(es, log) == a + b && |a| == 2 * |es|;
    AtConcat(pm, a, b, k - 2 * |es|);
    SyncApplied(pm, es);
    ClearAt(Applied(pm, es), log, k - 2 * |es|);
  }

  lemma ClearAt(pm: seq<Byte>, log: nat, k: nat)
    requires log + REGION_SIZE <= |pm| && 1 <= k <= 2
    ensures AllFit([Store(log, Zeros(HEADER_SIZE)), Drain], |pm|)
    ensures At(pm, [Store(log, Zeros(HEADER_SIZE)), Drain], k) == Put(pm, log, Zeros(HEADER_SIZE))
  {
    var ops := [Store(log, Zeros(HEADER_SIZE)), Drain];
    assert At(pm, ops, 1) == Step(At(pm, ops, 0), ops[0]);
    assert k > 1 ==> At(pm, ops, 2) == Step(At(pm, ops, 1), ops[1]);
  }

  /** When the header is being cleared every entry is already durable. */
  lemma ClearDrained(es: seq<Entry>, log: nat, n: nat)
    requires 2 * |es| <= n <= 2 * |es| + 2
    ensures LastDrain(RecoverOps(es, log), n) >= 2 * |es|
  {
    var ops := RecoverOps(es, log);
    if |es| > 0 {
      assert ops[2 * |es| - 1] == SyncStores(es)[2 * |es| - 1] == Drain;
      DrainAtLeast(ops, n, 2 * |es|);
    }
  }

  lemma {:induction false} DrainAtLeast(ops: seq<PmOp>, n: nat, d: nat)
    requires 0 < d <= n <= |ops| && ops[d - 1].Drain?
    ensures LastDrain(ops, n) >= d
    decreases n
  {
    if n > d && !ops[n - 1].Drain? {
      DrainAtLeast(ops, n - 1, d);
    }
  }

  /** A byte no entry writes, until the clear. */
  lemma RecoverUntouched(pm: seq<Byte>, es: seq<Entry>, log: nat, k: nat, a: nat)
    requires Placed(es, log, |pm|) && AllFit(Stores(es), |pm|) && AllFit(RecoverOps(es, log), |pm|)
    requires k <= 2 * |es| && a < |pm| && !Touched(Stores(es), a)
    ensures At(pm, RecoverOps(es, log), k)[a] == pm[a]
  {
    forall i | 0 <= i < k ensures !Covers(RecoverOps(es, log)[i], a) {
      assert RecoverOps(es, log)[i] == SyncStores(es)[i];
      if Covers(SyncStores(es)[i], a) {
        SyncCovers(es, i, a);
      }
    }
    Untouched(pm, RecoverOps(es, log), k, a);
  }

  lemma RegionNotTouched(es: seq<Entry>, log: nat, size: nat, a: nat)
    requires Placed(es, log, size) && InRegion(log, a)
    ensures !Touched(Stores(es), a)
  {
    forall i | 0 <= i < |es| ensures !Covers(Stores(es)[i], a) {
      assert Stores(es)[i] == StoreOf(es[i]);
    }
  }

  /** The region during recovery: untouched up to the final clear, which only concerns the header. */
  lemma RecoverRegion(pm: seq<Byte>, es: seq<Entry>, log: nat, k: nat, a: nat)
    requires Placed(es, log, |pm|) && AllFit(Stores(es), |pm|) && k <= 2 * |es| + 2 && AllFit(RecoverOps(es, log), |pm|)
    requires InRegion(log, a)
    ensures At(pm, RecoverOps(es, log), k)[a] == if k > 2 * |es| && a < log + HEADER_SIZE then 0 else pm[a]
  {
    RegionNotTouched(es, log, |pm|, a);
    if k <= 2 * |es| {
      RecoverUntouched(pm, es, log, k, a);
    } else {
      ClearedAt(pm, es, log, k);
      PartlyApplied(pm, es, |es|, a);
    }
  }

  lemma RecoverOutside(pm: seq<Byte>, es: seq<Entry>, log: nat, k: nat, a: nat)
    requires Placed(es, log, |pm|) && AllFit(Stores(es), |pm|) && k <= 2 * |es| + 2 && AllFit(RecoverOps(es, log), |pm|)
    requires a < |pm| && !InRegion(log, a)
    ensures !Touched(Stores(es), a) ==> At(pm, RecoverOps(es, log), k)[a] == pm[a]
    ensures k >= 2 * |es| ==> At(pm, RecoverOps(es, log), k)[a] == Applied(pm, es)[a]
  {
    RecoverFits(pm, es, log);
    if k > 2 * |es| {
      ClearedAt(pm, es, log, k);
    }
    if !Touched(Stores(es), a) {
      if k <= 2 * |es| {
        RecoverUntouched(pm, es, log, k, a);
      } else {
        PartlyApplied(pm, es, |es|, a);
      }
    }
  }

  /** A crash inside recovery leaves either the whole log to replay again, or nothing to do and all entries durable. */
  lemma RecoveryImage(lim: Limits, pm: seq<Byte>, es: seq<Entry>, log: nat, n: nat, img: seq<Byte>)
    requires log + REGION_SIZE <= |pm| && ReadLog(lim, pm, log) == Replay(es) && Placed(es, log, |pm|)
    requires AllFit(Stores(es), |pm|) && AllFit(RecoverOps(es, log), |pm|)
    requires n <= 2 * |es| + 2 && CrashImage(pm, RecoverOps(es, log), n, img)
    ensures ReadLog(lim, img, log) == Replay(es)
         || (ReadLog(lim, img, log) == Idle && SameOutside(img, Applied(pm, es), log))
    ensures forall a: nat | a < |pm| && !InRegion(log, a) && !Touched(Stores(es), a) :: img[a] == pm[a]
  {
    var ops := RecoverOps(es, log);
    var kh := CrashByte(pm, ops, n, img, log);
    forall a: nat | a < |pm| && !InRegion(log, a)
      ensures !Touched(Stores(es), a) ==> img[a] == pm[a]
      ensures kh > 2 * |es| ==> img[a] == Applied(pm, es)[a]
    {
      var k := CrashByte(pm, ops, n, img, a);
      RecoverOutside(pm, es, log, k, a);
      if kh > 2 * |es| {
        ClearDrained(es, log, n);
      }
    }
    forall a: nat | log <= a < log + 8 ensures img[a] == if kh > 2 * |es| then 0 else pm[a] {
      assert a / 8 == log / 8;
      RecoverRegion(pm, es, log, kh, a);
    }
    if kh > 2 * |es| {
      assert img[log..log + 8] == Zeros(8);
      ZeroHeader(img[log..log + 8]);
    } else {
      PayloadKept(pm, es, log, n, img);
      assert img[log..log + 8] == pm[log..log + 8];
      SameLog(lim, pm, img, log);
    }
  }

  lemma PayloadKept(pm: seq<Byte>, es: seq<Entry>, log: nat, n: nat, img: seq<Byte>)
    requires Placed(es, log, |pm|) && AllFit(Stores(es), |pm|) && AllFit(RecoverOps(es, log), |pm|)
    requires n <= 2 * |es| + 2 && CrashImage(pm, RecoverOps(es, log), n, img)
    ensures img[log + HEADER_SIZE..log + REGION_SIZE] == pm[log + HEADER_SIZE..log + REGION_SIZE]
  {
    forall a: nat | log + HEADER_SIZE <= a < log + REGION_SIZE ensures img[a] == pm[a] {
      var k := CrashByte(pm, RecoverOps(es, log), n, img, a);
      RecoverRegion(pm, es, log, k, a);
    }
  }

  /** The log is read from its header word and payload alone. */
  lemma SameLog(lim: Limits, pm: seq<Byte>, img: seq<Byte>, log: nat)
    requires log + REGION_SIZE <= |pm| == |img| && img[log..log + 8] == pm[log..log + 8]
    requires img[log + HEADER_SIZE..log + REGION_SIZE] == pm[log + HEADER_SIZE..log + REGION_SIZE]
    ensures ReadLog(lim, img, log) == ReadLog(lim, pm, log)
  {
    var h := DecodeHeader(pm[log..log + 8]);
    if HEADER_SIZE + h.alignLength <= REGION_SIZE {
      SubSlice(pm, log + HEADER_SIZE, log + REGION_SIZE, 0, h.alignLength);
      SubSlice(img, log + HEADER_SIZE, log + REGION_SIZE, 0, h.alignLength);
    }
  }

  // ---------- any number of crashes ----------

  /** Power fails somewhere in the recovery that `a` starts, and leaves `b`. */
  ghost predicate CrashedInRecovery(lim: Limits, a: seq<Byte>, log: nat, b: seq<Byte>)
    requires log + REGION_SIZE <= |a|
  {
    match ReadLog(lim, a, log)
    case Idle => b == a
    case Stuck => false
    case Replay(es) =>
      && AllFit(RecoverOps(es, log), |a|)
      && exists n: nat :: n <= 2 * |es| + 2 && CrashImage(a, RecoverOps(es, log), n, b)
  }

  ghost predicate CrashChain(lim: Limits, imgs: seq<seq<Byte>>, log: nat) {
    && (forall i | 0 <= i < |imgs| :: log + REGION_SIZE <= |imgs[i]|)
    && forall i | 0 < i < |imgs| :: CrashedInRecovery(lim, imgs[i - 1], log, imgs[i])
  }

  predicate LogPlaced(lim: Limits, img: seq<Byte>, log: nat)
    requires log + REGION_SIZE <= |img|
  {
    match ReadLog(lim, img, log)
    case Idle => true
    case Stuck => false
    case Replay(es) => Placed(es, log, |img|)
  }

  lemma RestartOnce(lim: Limits, a: seq<Byte>, log: nat, b: seq<Byte>)
    requires log + REGION_SIZE <= |a| && LogPlaced(lim, a, log) && CrashedInRecovery(lim, a, log, b)
    ensures |b| == |a| && LogPlaced(lim, b, log)
    ensures Recover(lim, a, log).Some? && RecoversTo(lim, b, log, Recover(lim, a, log).value)
  {
    match ReadLog(lim, a, log)
    case Idle =>
    case Replay(es) =>
      var n: nat :| n <= 2 * |es| + 2 && CrashImage(a, RecoverOps(es, log), n, b);
      RecoveryImage(lim, a, es, log, n, b);
      ReplayOver(a, b, es, log);
  }

  /** Recovery is restartable: however often it is cut short, the run that completes ends where an uninterrupted
      first run would have ended. */
  lemma {:induction false} RestartChain(lim: Limits, imgs: seq<seq<Byte>>, log: nat)
    requires |imgs| > 0 && CrashChain(lim, imgs, log) && LogPlaced(lim, imgs[0], log)
    ensures Recover(lim, imgs[0], log).Some? && LogPlaced(lim, imgs[|imgs| - 1], log)
    ensures RecoversTo(lim, imgs[|imgs| - 1], log, Recover(lim, imgs[0], log).value)
    decreases |imgs|
  {
    var last := |imgs| - 1;
    if last > 0 {
      var front := imgs[..last];
      assert front[0] == imgs[0];
      RestartChain(lim, front, log);
      assert CrashedInRecovery(lim, imgs[last - 1], log, imgs[last]);
      RestartOnce(lim, imgs[last - 1], log, imgs[last]);
    }
  }

  // ---------- from the apply to the last recovery ----------

  /** Whatever a crash during an apply leaves, recovery can begin: it finds no log, or one whose entries are clear of
      the log region. */
  lemma CrashPlaced(lim: Limits, pm: seq<Byte>, l: Log, log: nat, n: nat, img: seq<Byte>)
    requires LogOk(l) && Placed(l.entries, log, |pm|) && IdleAt(pm, log) && n <= |l.entries| + 7
    requires AllFit(ApplyOps(l, log), |pm|) && (l.valid ==> Replayable(lim, l))
    requires CrashImage(pm, ApplyOps(l, log), n, img)
    ensures LogPlaced(lim, img, log)
  {
    ImageHeader(pm, l, log, n, img);
    if img[log..log + 8] == Zeros(8) {
      ZeroHeader(img[log..log + 8]);
    } else if img[log..log + 8] != pm[log..log + 8] {
      ImagePayload(pm, l, log, n, img);
      ReadComplete(lim, l, log, img);
    }
  }

  /** A committed transaction through any number of power failures: one during its apply, then any number during the
      recoveries. Recovery at last gives the memory before it or after it, and after it once the header was durable. */
  lemma AtomicThroughRestarts(lim: Limits, pm: seq<Byte>, l: Log, log: nat, n: nat,
                                                 imgs: seq<seq<Byte>>)
    requires LogOk(l) && Placed(l.entries, log, |pm|) && IdleAt(pm, log) && n <= |l.entries| + 7
    requires AllFit(ApplyOps(l, log), |pm|) && AllFit(Stores(l.entries), |pm|) && l.valid && Replayable(lim, l)
    requires |imgs| > 0 && CrashImage(pm, ApplyOps(l, log), n, imgs[0]) && CrashChain(lim, imgs, log)
    ensures var last := imgs[|imgs| - 1];
            && LogPlaced(lim, last, log)
            && (n <= 2 ==> RecoversTo(lim, last, log, pm))
            && (n == 3 ==> RecoversTo(lim, last, log, pm) || RecoversTo(lim, last, log, Applied(pm, l.entries)))
            && (n >= 4 ==> RecoversTo(lim, last, log, Applied(pm, l.entries)))
  {
    CrashPlaced(lim, pm, l, log, n, imgs[0]);
    RestartChain(lim, imgs, log);
    CommittedCrash(lim, pm, l, log, n, imgs[0]);
  }
}
