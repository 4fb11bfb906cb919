/** What power failures do to a transaction: every crash point of applying the log and of recovery itself. */
module PmCrash {
  import opened Bytes
  import opened Common
  import opened PmDevice
  import opened PmLog

  predicate IdleAt(pm: seq<Byte>, log: nat)
    requires log + REGION_SIZE <= |pm|
  {
    !DecodeHeader(pm[log..log + 8]).valid
  }

  /** Recovery can digest this log. */
  predicate Replayable(lim: Limits, l: Log) {
    |Payload(l)| <= lim.capacity && forall e | e in l.entries :: EntryAligned(lim, e)
  }

  // ---------- the memory at each point of an apply ----------

  function WithPayload(pm: seq<Byte>, l: Log, log: nat): (r: seq<Byte>)
    requires LogOk(l) && log + REGION_SIZE <= |pm|
    ensures |r| == |pm|
  {
    Put(pm, log + HEADER_SIZE, Payload(l))
  }

  function WithLog(pm: seq<Byte>, l: Log, log: nat): (r: seq<Byte>)
    requires LogOk(l) && log + REGION_SIZE <= |pm|
    ensures |r| == |pm|
  {
    Put(WithPayload(pm, l, log), log, EncodeHeader(HeaderOf(l)))
  }

  function LogPart(l: Log, log: nat): (ops: seq<PmOp>)
    ensures |ops| == 4
  {
    [Store(log + HEADER_SIZE, Payload(l)), Drain, Store(log, EncodeHeader(HeaderOf(l))), Drain]
  }

  function ClearPart(log: nat): (ops: seq<PmOp>)
    ensures |ops| == 3
  {
    [Drain, Store(log, Zeros(HEADER_SIZE)), Drain]
  }

  lemma ApplyFits(l: Log, log: nat, size: nat)
    requires LogOk(l) && Placed(l.entries, log, size)
    ensures AllFit(LogPart(l, log), size) && AllFit(Stores(l.entries), size) && AllFit(ClearPart(log), size)
    ensures AllFit(ApplyOps(l, log), size)
    ensures ApplyOps(l, log) == LogPart(l, log) + Stores(l.entries) + ClearPart(log)
  {
    var ops := ApplyOps(l, log);
    forall i | 0 <= i < |ops| ensures Fits(ops[i], size) {
      if 4 <= i < 4 + |l.entries| {
        assert ops[i] == StoreOf(l.entries[i - 4]);
      }
    }
  }

  lemma {:induction false} EarlyAt(pm: seq<Byte>, l: Log, log: nat)
    requires LogOk(l) && Placed(l.entries, log, |pm|)
    ensures AllFit(LogPart(l, log), |pm|)
    ensures At(pm, LogPart(l, log), 0) == pm
    ensures At(pm, LogPart(l, log), 1) == At(pm, LogPart(l, log), 2) == WithPayload(pm, l, log)
    ensures At(pm, LogPart(l, log), 3) == At(pm, LogPart(l, log), 4) == WithLog(pm, l, log)
  {
    var ops := LogPart(l, log);
    assert At(pm, ops, 1) == Step(At(pm, ops, 0), ops[0]);
    assert At(pm, ops, 2) == Step(At(pm, ops, 1), ops[1]);
    assert At(pm, ops, 3) == Step(At(pm, ops, 2), ops[2]);
    assert At(pm, ops, 4) == Step(At(pm, ops, 3), ops[3]);
  }

  /** The memory after `n` operations, by phase. */
  function StageAt(pm: seq<Byte>, l: Log, log: nat, n: nat): (r: seq<Byte>)
    requires LogOk(l) && Placed(l.entries, log, |pm|) && n <= |l.entries| + 7
    requires AllFit(Stores(l.entries), |pm|)
    ensures |r| == |pm|
  {
    var m := |l.entries|;
    if n == 0 then pm
    else if n <= 2 then WithPayload(pm, l, log)
    else if n <= 4 then WithLog(pm, l, log)
    else if n <= 4 + m then At(WithLog(pm, l, log), Stores(l.entries), n - 4)
    else if n == 5 + m then At(WithLog(pm, l, log), Stores(l.entries), m)
    else Put(At(WithLog(pm, l, log), Stores(l.entries), m), log, Zeros(HEADER_SIZE))
  }

  lemma {:induction false} ApplyAt(pm: seq<Byte>, l: Log, log: nat, n: nat)
    requires LogOk(l) && Placed(l.entries, log, |pm|) && n <= |l.entries| + 7
    ensures AllFit(ApplyOps(l, log), |pm|) && AllFit(Stores(l.entries), |pm|)
    ensures At(pm, ApplyOps(l, log), n) == StageAt(pm, l, log, n)
  {
    ApplyFits(l, log, |pm|);
    EarlyAt(pm, l, log);
    AtParts(pm, LogPart(l, log), Stores(l.entries), ClearPart(log), n);
    if n > 4 + |l.entries| {
      LateAt(At(WithLog(pm, l, log), Stores(l.entries), |l.entries|), log, n - 4 - |l.entries|);
    }
  }

  lemma LateAt(pm: seq<Byte>, log: nat, k: nat)
    requires log + REGION_SIZE <= |pm| && 1 <= k <= 3
    ensures AllFit(ClearPart(log), |pm|)
    ensures At(pm, ClearPart(log), k) == if k == 1 then pm else Put(pm, log, Zeros(HEADER_SIZE))
  {
    var ops := ClearPart(log);
    assert At(pm, ops, 1) == Step(At(pm, ops, 0), ops[0]);
    assert k > 1 ==> At(pm, ops, 2) == Step(At(pm, ops, 1), ops[1]);
    assert k > 2 ==> At(pm, ops, 3) == Step(At(pm, ops, 2), ops[2]);
  }

  lemma {:induction false} ApplyDrains(l: Log, log: nat, n: nat)
    requires n <= |l.entries| + 7
    ensures LastDrain(ApplyOps(l, log), n)
         == if n < 2 then 0 else if n < 4 then 2 else if n < |l.entries| + 5 then 4
            else if n < |l.entries| + 7 then |l.entries| + 5 else n
    decreases n
  {
    var ops := ApplyOps(l, log);
    if n > 0 && !ops[n - 1].Drain? {
      ApplyDrains(l, log, n - 1);
    }
    if 4 < n <= 4 + |l.entries| {
      assert ops[n - 1] == StoreOf(l.entries[n - 5]);
    }
  }

  // ---------- what a crash image can hold ----------

  predicate InPayload(l: Log, log: nat, a: nat) {
    log + HEADER_SIZE <= a < log + HEADER_SIZE + |Payload(l)|
  }

  lemma RegionUntouched(pm: seq<Byte>, es: seq<Entry>, log: nat, k: nat, a: nat)
    requires Placed(es, log, |pm|) && k <= |es| && InRegion(log, a) && AllFit(Stores(es), |pm|)
    ensures At(pm, Stores(es), k)[a] == pm[a]
  {
    forall i | 0 <= i < k ensures !Covers(Stores(es)[i], a) {
      assert Stores(es)[i] == StoreOf(es[i]);
    }
    Untouched(pm, Stores(es), k, a);
  }

  /** Inside the region: which of the header's three versions is there, and that the payload is complete. */
  lemma StageRegion(pm: seq<Byte>, l: Log, log: nat, n: nat, a: nat)
    requires LogOk(l) && Placed(l.entries, log, |pm|) && n <= |l.entries| + 7
    requires AllFit(Stores(l.entries), |pm|) && InRegion(log, a)
    ensures a < log + HEADER_SIZE ==>
      (StageAt(pm, l, log, n)[a]
      == if n <= 2 then pm[a] else if n <= |l.entries| + 5 then EncodeHeader(HeaderOf(l))[a - log] else 0)
    ensures InPayload(l, log, a) && n >= 1 ==> StageAt(pm, l, log, n)[a] == Payload(l)[a - log - HEADER_SIZE]
  {
    LogBytes(pm, l, log, a);
    if n > 4 {
      EntriesMissRegion(pm, l, log, n, a);
    }
  }

  /** Once the log is complete, only the final clear changes its region. */
  lemma EntriesMissRegion(pm: seq<Byte>, l: Log, log: nat, n: nat, a: nat)
    requires LogOk(l) && Placed(l.entries, log, |pm|) && 4 < n <= |l.entries| + 7
    requires AllFit(Stores(l.entries), |pm|) && InRegion(log, a)
    ensures StageAt(pm, l, log, n)[a]
         == if n > |l.entries| + 5 && a < log + HEADER_SIZE then 0 else WithLog(pm, l, log)[a]
  {
    var m := |l.entries|;
    RegionUntouched(WithLog(pm, l, log), l.entries, log, if n <= 4 + m then n - 4 else m, a);
  }

  lemma LogBytes(pm: seq<Byte>, l: Log, log: nat, a: nat)
    requires LogOk(l) && log + REGION_SIZE <= |pm| && InRegion(log, a)
    ensures a < log + HEADER_SIZE ==> WithPayload(pm, l, log)[a] == pm[a]
    ensures a < log + HEADER_SIZE ==> WithLog(pm, l, log)[a] == EncodeHeader(HeaderOf(l))[a - log]
    ensures InPayload(l, log, a) ==> WithPayload(pm, l, log)[a] == Payload(l)[a - log - HEADER_SIZE]
    ensures InPayload(l, log, a) ==> WithLog(pm, l, log)[a] == Payload(l)[a - log - HEADER_SIZE]
  {
  }

  /** How far the entries have got after `n` operations. */
  function EntriesDone(m: nat, n: nat): (k: nat)
    ensures k <= m
  {
    if n <= 4 then 0 else if n <= 4 + m then n - 4 else m
  }

  /** Outside the region only the entries' own stores count. */
  lemma {:induction false} StageOutside(pm: seq<Byte>, l: Log, log: nat, n: nat, a: nat)
    requires LogOk(l) && Placed(l.entries, log, |pm|) && n <= |l.entries| + 7
    requires AllFit(Stores(l.entries), |pm|) && a < |pm| && !InRegion(log, a)
    ensures StageAt(pm, l, log, n)[a] == At(pm, Stores(l.entries), EntriesDone(|l.entries|, n))[a]
  {
    var p, k := WithLog(pm, l, log), EntriesDone(|l.entries|, n);
    assert WithPayload(pm, l, log)[a] == pm[a];
    assert p[a] == WithPayload(pm, l, log)[a];
    assert At(pm, Stores(l.entries), 0) == pm;
    ReplayByte(pm, p, Stores(l.entries), k, a);
    if n > 4 + |l.entries| {
      assert StageAt(pm, l, log, n)[a] == At(p, Stores(l.entries), k)[a];
    }
  }

  /** The header word of an image is one of the versions written since the last drain. */
  lemma ImageHeader(pm: seq<Byte>, l: Log, log: nat, n: nat, img: seq<Byte>)
    requires LogOk(l) && Placed(l.entries, log, |pm|) && n <= |l.entries| + 7 && AllFit(ApplyOps(l, log), |pm|)
    requires CrashImage(pm, ApplyOps(l, log), n, img)
    ensures n <= 2 ==> img[log..log + 8] == pm[log..log + 8]
    ensures n == 3 ==> img[log..log + 8] == pm[log..log + 8] || img[log..log + 8] == EncodeHeader(HeaderOf(l))[..8]
    ensures 4 <= n <= |l.entries| + 5 ==> img[log..log + 8] == EncodeHeader(HeaderOf(l))[..8]
    ensures n == |l.entries| + 6 ==>
      img[log..log + 8] == EncodeHeader(HeaderOf(l))[..8] || img[log..log + 8] == Zeros(8)
    ensures n == |l.entries| + 7 ==> img[log..log + 8] == Zeros(8)
  {
    ApplyDrains(l, log, n);
    var k := CrashByte(pm, ApplyOps(l, log), n, img, log);
    ApplyAt(pm, l, log, k);
    forall a | log <= a < log + 8 ensures img[a] == StageAt(pm, l, log, k)[a] {
      assert a / 8 == log / 8;
    }
    forall a: nat | log <= a < log + 8
      ensures img[a] == if k <= 2 then pm[a] else if k <= |l.entries| + 5 then EncodeHeader(HeaderOf(l))[a - log] else 0
    {
      StageRegion(pm, l, log, k, a);
    }
  }

  lemma ImagePayload(pm: seq<Byte>, l: Log, log: nat, n: nat, img: seq<Byte>)
    requires LogOk(l) && Placed(l.entries, log, |pm|) && 2 <= n <= |l.entries| + 7 && AllFit(ApplyOps(l, log), |pm|)
    requires CrashImage(pm, ApplyOps(l, log), n, img)
    ensures img[log + HEADER_SIZE..log + HEADER_SIZE + |Payload(l)|] == Payload(l)
  {
    ApplyDrains(l, log, n);
    forall a: nat | InPayload(l, log, a) ensures img[a] == Payload(l)[a - log - HEADER_SIZE] {
      var k := CrashByte(pm, ApplyOps(l, log), n, img, a);
      ApplyAt(pm, l, log, k);
      StageRegion(pm, l, log, k, a);
    }
  }

  /** Outside the region a byte no entry writes keeps its value, and before the entries all bytes do. */
  lemma ImageOutside(pm: seq<Byte>, l: Log, log: nat, n: nat, img: seq<Byte>, a: nat)
    returns (j: nat)
    requires LogOk(l) && Placed(l.entries, log, |pm|) && n <= |l.entries| + 7
    requires AllFit(ApplyOps(l, log), |pm|) && AllFit(Stores(l.entries), |pm|)
    requires CrashImage(pm, ApplyOps(l, log), n, img) && a < |pm| && !InRegion(log, a)
    ensures j <= EntriesDone(|l.entries|, n) && img[a] == At(pm, Stores(l.entries), j)[a]
    ensures n >= |l.entries| + 5 ==> j == |l.entries|
  {
    ApplyDrains(l, log, n);
    var k := CrashByte(pm, ApplyOps(l, log), n, img, a);
    ApplyAt(pm, l, log, k);
    StageOutside(pm, l, log, k, a);
    j := EntriesDone(|l.entries|, k);
  }

  // ---------- recovery of an image ----------

  /** A complete log with its commit bit set is read back as exactly the transaction's entries, or not at all. */
  lemma ReadComplete(lim: Limits, l: Log, log: nat, img: seq<Byte>)
    requires LogOk(l) && Placed(l.entries, log, |img|)
    requires img[log..log + 8] == EncodeHeader(HeaderOf(l))[..8]
    requires l.valid ==> img[log + HEADER_SIZE..log + HEADER_SIZE + |Payload(l)|] == Payload(l)
    ensures ReadLog(lim, img, log)
         == if !l.valid then Idle else if Replayable(lim, l) then Replay(l.entries) else Stuck
  {
    HeaderRead(l, img[log..log + 8]);
    PayloadRead(l);
    forall e | e in l.entries ensures Fits(StoreOf(e), |img|) {
      var i :| 0 <= i < |l.entries| && l.entries[i] == e;
    }
  }

  lemma HeaderRead(l: Log, word: seq<Byte>)
    requires LogOk(l) && word == EncodeHeader(HeaderOf(l))[..8]
    ensures DecodeHeader(word) == HeaderOf(l)
  {
    HeaderRoundTrip(HeaderOf(l));
    assert word[..8] == EncodeHeader(HeaderOf(l))[..8];
  }

  lemma PayloadRead(l: Log)
    requires LogOk(l)
    ensures ParseLog(Payload(l), 0, |l.entries|) == Some(l.entries)
  {
    var n := |EncodeLog(l.entries)|;
    assert Payload(l)[0..0 + n] == EncodeLog(l.entries);
    ParseEncode(l.entries, Payload(l), 0);
  }

  /** Replaying over any image that differs only where the entries write gives the applied memory. */
  lemma ReplayOver(pm: seq<Byte>, img: seq<Byte>, es: seq<Entry>, log: nat)
    requires |img| == |pm| && Placed(es, log, |pm|) && AllFit(Stores(es), |pm|)
    requires forall a: nat | a < |pm| && !InRegion(log, a) && !Touched(Stores(es), a) :: img[a] == pm[a]
    ensures SameOutside(Put(Applied(img, es), log, Zeros(HEADER_SIZE)), Applied(pm, es), log)
  {
    forall a: nat | a < |pm| && !InRegion(log, a) ensures Applied(img, es)[a] == Applied(pm, es)[a] {
      ReplayByte(img, pm, Stores(es), |es|, a);
    }
  }

  lemma PartlyApplied(pm: seq<Byte>, es: seq<Entry>, j: nat, a: nat)
    requires AllFit(Stores(es), |pm|) && j <= |es| && a < |pm| && !Touched(Stores(es), a)
    ensures At(pm, Stores(es), j)[a] == pm[a]
  {
    Untouched(pm, Stores(es), j, a);
  }

  /** The image a crash leaves can be brought to `want` by recovery, as seen outside the log region. */
  predicate RecoversTo(lim: Limits, img: seq<Byte>, log: nat, want: seq<Byte>)
    requires log + REGION_SIZE <= |img|
  {
    var r := Recover(lim, img, log);
    r.Some? && SameOutside(r.value, want, log)
  }

  /** With the commit bit set and a log recovery can digest: before the header is durable a crash undoes the
      transaction, from then on it completes it, and while the header is being written it does one or the other. */
  lemma CommittedCrash(lim: Limits, pm: seq<Byte>, l: Log, log: nat, n: nat, img: seq<Byte>)
    requires LogOk(l) && Placed(l.entries, log, |pm|) && IdleAt(pm, log) && n <= |l.entries| + 7
    requires AllFit(ApplyOps(l, log), |pm|) && AllFit(Stores(l.entries), |pm|)
    requires l.valid && Replayable(lim, l)
    requires CrashImage(pm, ApplyOps(l, log), n, img)
    ensures n <= 2 ==> RecoversTo(lim, img, log, pm)
    ensures n == 3 ==> RecoversTo(lim, img, log, pm) || RecoversTo(lim, img, log, Applied(pm, l.entries))
    ensures n >= 4 ==> RecoversTo(lim, img, log, Applied(pm, l.entries))
  {
    ImageHeader(pm, l, log, n, img);
    OutsideFacts(pm, l, log, n, img);
    assert img[log..log + 8] == pm[log..log + 8] ==> ReadLog(lim, img, log) == Idle;
    if img[log..log + 8] == Zeros(8) {
      ZeroHeader(img[log..log + 8]);
    }
    if n >= 3 && img[log..log + 8] == EncodeHeader(HeaderOf(l))[..8] {
      ImagePayload(pm, l, log, n, img);
      ReadComplete(lim, l, log, img);
      ReplayOver(pm, img, l.entries, log);
    }
  }

  /** Outside the region: untouched before the entries, only their footprint afterwards, all of it at the end. */
  lemma OutsideFacts(pm: seq<Byte>, l: Log, log: nat, n: nat, img: seq<Byte>)
    requires LogOk(l) && Placed(l.entries, log, |pm|) && n <= |l.entries| + 7
    requires AllFit(ApplyOps(l, log), |pm|) && AllFit(Stores(l.entries), |pm|)
    requires CrashImage(pm, ApplyOps(l, log), n, img)
    ensures forall a: nat | a < |pm| && !InRegion(log, a) && !Touched(Stores(l.entries), a) :: img[a] == pm[a]
    ensures n <= 4 ==> SameOutside(img, pm, log)
    ensures n >= |l.entries| + 5 ==> SameOutside(img, Applied(pm, l.entries), log)
  {
    forall a: nat | a < |pm| && !InRegion(log, a)
      ensures !Touched(Stores(l.entries), a) || n <= 4 ==> img[a] == pm[a]
      ensures n >= |l.entries| + 5 ==> img[a] == Applied(pm, l.entries)[a]
    {
      var j := ImageOutside(pm, l, log, n, img, a);
      if !Touched(Stores(l.entries), a) {
        PartlyApplied(pm, l.entries, j, a);
      }
    }
  }

  // ---------- exactly when applying a log is atomic ----------

  /** Whatever the crash point and whatever the medium kept, recovery ends before or after the transaction. */
  ghost predicate CrashAtomic(lim: Limits, pm: seq<Byte>, l: Log, log: nat)
    requires LogOk(l) && Placed(l.entries, log, |pm|)
    requires AllFit(ApplyOps(l, log), |pm|) && AllFit(Stores(l.entries), |pm|)
  {
    forall n: nat, img ::
      n <= |l.entries| + 7 && CrashImage(pm, ApplyOps(l, log), n, img) ==>
        RecoversTo(lim, img, log, pm) || RecoversTo(lim, img, log, Applied(pm, l.entries))
  }

  ghost predicate WordStill(pm: seq<Byte>, es: seq<Entry>, w: nat)
    requires AllFit(Stores(es), |pm|)
  {
    forall k | 0 <= k <= |es| :: SameWord(At(pm, Stores(es), k), pm, w)
  }

  ghost predicate WordInOneStep(pm: seq<Byte>, es: seq<Entry>, w: nat)
    requires AllFit(Stores(es), |pm|)
  {
    forall k | 0 <= k <= |es| ::
      SameWord(At(pm, Stores(es), k), pm, w) || SameWord(At(pm, Stores(es), k), Applied(pm, es), w)
  }

  /** The entries change one 8-byte word at most, and that one in a single step. */
  ghost predicate ChangesOneWord(pm: seq<Byte>, es: seq<Entry>)
    requires AllFit(Stores(es), |pm|)
  {
    exists w: nat :: WordInOneStep(pm, es, w) && forall w': nat | w' != w :: WordStill(pm, es, w')
  }

  /** Without the commit bit recovery finds nothing to do, at every crash point. */
  lemma UncommittedIdle(lim: Limits, pm: seq<Byte>, l: Log, log: nat, n: nat, img: seq<Byte>)
    requires LogOk(l) && Placed(l.entries, log, |pm|) && IdleAt(pm, log) && n <= |l.entries| + 7
    requires AllFit(ApplyOps(l, log), |pm|) && !l.valid
    requires CrashImage(pm, ApplyOps(l, log), n, img)
    ensures ReadLog(lim, img, log) == Idle && Recover(lim, img, log) == Some(img)
  {
    ImageHeader(pm, l, log, n, img);
    if img[log..log + 8] == Zeros(8) {
      ZeroHeader(img[log..log + 8]);
    } else if img[log..log + 8] == EncodeHeader(HeaderOf(l))[..8] {
      ReadComplete(lim, l, log, img);
    } else {
      assert img[log..log + 8] == pm[log..log + 8];
    }
  }

  /** One word of `base` replaced by that word of `over`. */
  function MixWord(base: seq<Byte>, over: seq<Byte>, w: nat): (r: seq<Byte>)
    requires |base| == |over|
    ensures |r| == |base|
  {
    seq(|base|, a requires 0 <= a < |base| => if a / 8 == w then over[a] else base[a])
  }

  /** While the entries are being stored, any one word may be ahead of all the others. */
  lemma MixIsImage(pm: seq<Byte>, l: Log, log: nat, k: nat, w: nat)
    requires LogOk(l) && Placed(l.entries, log, |pm|) && k <= |l.entries|
    requires AllFit(ApplyOps(l, log), |pm|) && AllFit(Stores(l.entries), |pm|)
    ensures CrashImage(pm, ApplyOps(l, log), 4 + |l.entries|,
                       MixWord(StageAt(pm, l, log, 4), StageAt(pm, l, log, 4 + k), w))
  {
    var ops, n := ApplyOps(l, log), 4 + |l.entries|;
    var img := MixWord(StageAt(pm, l, log, 4), StageAt(pm, l, log, 4 + k), w);
    ApplyDrains(l, log, n);
    ApplyAt(pm, l, log, 4);
    ApplyAt(pm, l, log, 4 + k);
    forall w': nat | 8 * w' < |pm| ensures WordFrom(pm, ops, n, img, w') {
      var j := if w' == w then 4 + k else 4;
      assert forall i: nat | 8 * w' <= i < 8 * w' + 8 :: i / 8 == w';
      assert WordAt(pm, ops, j, img, w');
    }
  }

  /** If some word moves at step `k`, every word other than it must end where it began, and it must be final. */
  lemma MovedWord(lim: Limits, pm: seq<Byte>, l: Log, log: nat, k: nat, w: nat)
    requires LogOk(l) && Placed(l.entries, log, |pm|) && IdleAt(pm, log) && k <= |l.entries|
    requires AllFit(ApplyOps(l, log), |pm|) && AllFit(Stores(l.entries), |pm|)
    requires !l.valid && CrashAtomic(lim, pm, l, log)
    requires !SameWord(At(pm, Stores(l.entries), k), pm, w)
    ensures SameWord(At(pm, Stores(l.entries), k), Applied(pm, l.entries), w)
    ensures forall w': nat | w' != w :: SameWord(Applied(pm, l.entries), pm, w')
  {
    var es := l.entries;
    var img := MixWord(StageAt(pm, l, log, 4), StageAt(pm, l, log, 4 + k), w);
    MixIsImage(pm, l, log, k, w);
    UncommittedIdle(lim, pm, l, log, 4 + |es|, img);
    MixOutside(pm, l, log, k, w);
    var now, last := At(pm, Stores(es), k), Applied(pm, es);
    forall a: nat | a < |pm| && InRegion(log, a) ensures now[a] == pm[a] == last[a] {
      RegionUntouched(pm, es, log, k, a);
      RegionUntouched(pm, es, log, |es|, a);
    }
    OneWordMoved(pm, now, last, img, log, w);
  }

  /** `img` is `pm` but for a word of `now` outside the region; recovery leaves it as it is, so it must be `last`. */
  lemma OneWordMoved(pm: seq<Byte>, now: seq<Byte>, last: seq<Byte>, img: seq<Byte>, log: nat,
                                        w: nat)
    requires |now| == |last| == |img| == |pm| && !SameWord(now, pm, w)
    requires forall a: nat | a < |pm| && InRegion(log, a) :: now[a] == pm[a] == last[a]
    requires forall a: nat | a < |pm| && !InRegion(log, a) :: img[a] == if a / 8 == w then now[a] else pm[a]
    requires SameOutside(img, pm, log) || SameOutside(img, last, log)
    ensures SameWord(now, last, w) && forall w': nat | w' != w :: SameWord(last, pm, w')
  {
    var b :| 8 * w <= b < 8 * w + 8 && b < |pm| && now[b] != pm[b];
    assert b / 8 == w && img[b] != pm[b];
    assert SameOutside(img, last, log);
    forall a: nat | a < |pm|
      ensures a / 8 == w ==> now[a] == last[a]
      ensures a / 8 != w ==> last[a] == pm[a]
    {
    }
  }

  lemma {:induction false} MixOutside(pm: seq<Byte>, l: Log, log: nat, k: nat, w: nat)
    requires LogOk(l) && Placed(l.entries, log, |pm|) && k <= |l.entries| && AllFit(Stores(l.entries), |pm|)
    ensures var img := MixWord(StageAt(pm, l, log, 4), StageAt(pm, l, log, 4 + k), w);
            forall a: nat | a < |pm| && !InRegion(log, a) ::
              img[a] == if a / 8 == w then At(pm, Stores(l.entries), k)[a] else pm[a]
  {
    forall a: nat | a < |pm| && !InRegion(log, a)
      ensures StageAt(pm, l, log, 4)[a] == pm[a]
      ensures StageAt(pm, l, log, 4 + k)[a] == At(pm, Stores(l.entries), k)[a]
    {
      StageOutside(pm, l, log, 4, a);
      StageOutside(pm, l, log, 4 + k, a);
    }
  }

  lemma SameWordTrans(a: seq<Byte>, b: seq<Byte>, c: seq<Byte>, w: nat)
    requires |a| == |b| == |c| && SameWord(a, b, w) && SameWord(b, c, w)
    ensures SameWord(a, c, w)
  {
  }

  lemma AtomicImpliesOneWord(lim: Limits, pm: seq<Byte>, l: Log, log: nat)
    requires LogOk(l) && Placed(l.entries, log, |pm|) && IdleAt(pm, log)
    requires AllFit(ApplyOps(l, log), |pm|) && AllFit(Stores(l.entries), |pm|)
    requires !l.valid && CrashAtomic(lim, pm, l, log)
    ensures ChangesOneWord(pm, l.entries)
  {
    var es := l.entries;
    if w: nat, k: nat :| k <= |es| && !SameWord(At(pm, Stores(es), k), pm, w) {
      MovedWord(lim, pm, l, log, k, w);
      forall k' | 0 <= k' <= |es|
        ensures SameWord(At(pm, Stores(es), k'), pm, w) || SameWord(At(pm, Stores(es), k'), Applied(pm, es), w)
      {
        if !SameWord(At(pm, Stores(es), k'), pm, w) {
          MovedWord(lim, pm, l, log, k', w);
        }
      }
      forall w': nat | w' != w ensures WordStill(pm, es, w') {
        OtherWordStill(lim, pm, l, log, k, w, w');
      }
      assert WordInOneStep(pm, es, w);
    } else {
      assert WordInOneStep(pm, es, 0);
      assert forall w': nat | w' != 0 :: WordStill(pm, es, w');
    }
  }

  lemma OtherWordStill(lim: Limits, pm: seq<Byte>, l: Log, log: nat, k: nat, w: nat, w': nat)
    requires LogOk(l) && Placed(l.entries, log, |pm|) && IdleAt(pm, log) && k <= |l.entries|
    requires AllFit(ApplyOps(l, log), |pm|) && AllFit(Stores(l.entries), |pm|)
    requires !l.valid && CrashAtomic(lim, pm, l, log)
    requires !SameWord(At(pm, Stores(l.entries), k), pm, w) && w' != w
    ensures WordStill(pm, l.entries, w')
  {
    MovedWord(lim, pm, l, log, k, w);
    forall k': nat | k' <= |l.entries| ensures SameWord(At(pm, Stores(l.entries), k'), pm, w') {
      if !SameWord(At(pm, Stores(l.entries), k'), pm, w') {
        MovedWord(lim, pm, l, log, k', w');
        SameWordTrans(At(pm, Stores(l.entries), k), Applied(pm, l.entries), pm, w);
        assert false;
      }
    }
  }

  /** Words the entries leave still come through any crash unchanged. */
  lemma StillImage(pm: seq<Byte>, l: Log, log: nat, n: nat, img: seq<Byte>, a: nat)
    requires LogOk(l) && Placed(l.entries, log, |pm|) && n <= |l.entries| + 7 && a < |pm| && !InRegion(log, a)
    requires AllFit(ApplyOps(l, log), |pm|) && AllFit(Stores(l.entries), |pm|)
    requires WordStill(pm, l.entries, a / 8) && CrashImage(pm, ApplyOps(l, log), n, img)
    ensures img[a] == pm[a] == Applied(pm, l.entries)[a]
  {
    var j := ImageOutside(pm, l, log, n, img, a);
    assert SameWord(At(pm, Stores(l.entries), j), pm, a / 8);
    assert SameWord(At(pm, Stores(l.entries), |l.entries|), pm, a / 8);
  }

  lemma OneWordImpliesAtomic(lim: Limits, pm: seq<Byte>, l: Log, log: nat, n: nat, img: seq<Byte>)
    requires LogOk(l) && Placed(l.entries, log, |pm|) && IdleAt(pm, log) && n <= |l.entries| + 7
    requires AllFit(ApplyOps(l, log), |pm|) && AllFit(Stores(l.entries), |pm|)
    requires !l.valid && ChangesOneWord(pm, l.entries)
    requires CrashImage(pm, ApplyOps(l, log), n, img)
    ensures RecoversTo(lim, img, log, pm) || RecoversTo(lim, img, log, Applied(pm, l.entries))
  {
    var es := l.entries;
    UncommittedIdle(lim, pm, l, log, n, img);
    var w: nat :| WordInOneStep(pm, es, w) && forall w': nat | w' != w :: WordStill(pm, es, w');
    forall a: nat | a < |pm| && !InRegion(log, a) && a / 8 != w ensures img[a] == pm[a] == Applied(pm, es)[a] {
      StillImage(pm, l, log, n, img, a);
    }
    if 8 * w < |pm| {
      var j := WordImage(pm, l, log, n, img, w);
      assert SameWord(At(pm, Stores(es), j), pm, w) || SameWord(At(pm, Stores(es), j), Applied(pm, es), w);
    }
  }

  lemma {:induction false} StageWord(pm: seq<Byte>, l: Log, log: nat, k: nat, img: seq<Byte>, w: nat)
    requires LogOk(l) && Placed(l.entries, log, |pm|) && k <= |l.entries| + 7 && AllFit(Stores(l.entries), |pm|)
    requires |img| == |pm| && SameWord(img, StageAt(pm, l, log, k), w)
    ensures var j := EntriesDone(|l.entries|, k);
            forall a: nat | a < |pm| && !InRegion(log, a) && a / 8 == w :: img[a] == At(pm, Stores(l.entries), j)[a]
  {
    var j, stage := EntriesDone(|l.entries|, k), StageAt(pm, l, log, k);
    forall a: nat | a < |pm| && !InRegion(log, a) && a / 8 == w ensures img[a] == At(pm, Stores(l.entries), j)[a] {
      SameWordByte(img, stage, w, a);
      StageOutside(pm, l, log, k, a);
    }
  }

  /** One word of an image, outside the log region, is as it was after some number of the entries. */
  lemma WordImage(pm: seq<Byte>, l: Log, log: nat, n: nat, img: seq<Byte>, w: nat) returns (j: nat)
    requires LogOk(l) && Placed(l.entries, log, |pm|) && n <= |l.entries| + 7 && 8 * w < |pm|
    requires AllFit(ApplyOps(l, log), |pm|) && AllFit(Stores(l.entries), |pm|)
    requires CrashImage(pm, ApplyOps(l, log), n, img)
    ensures j <= |l.entries|
    ensures forall a: nat | a < |pm| && !InRegion(log, a) && a / 8 == w :: img[a] == At(pm, Stores(l.entries), j)[a]
  {
    var k := CrashWord(pm, ApplyOps(l, log), n, img, w);
    ApplyAt(pm, l, log, k);
    j := EntriesDone(|l.entries|, k);
    StageWord(pm, l, log, k, img, w);
  }

  lemma SameWordByte(a: seq<Byte>, b: seq<Byte>, w: nat, i: nat)
    requires |a| == |b| && SameWord(a, b, w) && i < |a| && i / 8 == w
    ensures a[i] == b[i]
  {
  }

  /** Main result on the log. With the commit bit, applying is atomic under every crash exactly for the logs recovery
      can digest. Without it - and the code never sets it - exactly for those that change a single word. */
  lemma CrashAtomicExactly(lim: Limits, pm: seq<Byte>, l: Log, log: nat)
    requires LogOk(l) && Placed(l.entries, log, |pm|) && IdleAt(pm, log)
    ensures AllFit(ApplyOps(l, log), |pm|) && AllFit(Stores(l.entries), |pm|)
    ensures CrashAtomic(lim, pm, l, log)
       <==> if l.valid then Replayable(lim, l) else ChangesOneWord(pm, l.entries)
  {
    ApplyFits(l, log, |pm|);
    if !l.valid {
      if CrashAtomic(lim, pm, l, log) {
        AtomicImpliesOneWord(lim, pm, l, log);
      }
      if ChangesOneWord(pm, l.entries) {
        forall n: nat, img | n <= |l.entries| + 7 && CrashImage(pm, ApplyOps(l, log), n, img)
          ensures RecoversTo(lim, img, log, pm) || RecoversTo(lim, img, log, Applied(pm, l.entries))
        {
          OneWordImpliesAtomic(lim, pm, l, log, n, img);
        }
      }
    } else if Replayable(lim, l) {
      forall n: nat, img | n <= |l.entries| + 7 && CrashImage(pm, ApplyOps(l, log), n, img)
        ensures RecoversTo(lim, img, log, pm) || RecoversTo(lim, img, log, Applied(pm, l.entries))
      {
        CommittedCrash(lim, pm, l, log, n, img);
      }
    } else {
      StuckImage(lim, pm, l, log);
    }
  }

  /** A committed log recovery cannot digest: the crash right after the commit leaves it stuck. */
  lemma StuckImage(lim: Limits, pm: seq<Byte>, l: Log, log: nat)
    requires LogOk(l) && Placed(l.entries, log, |pm|) && IdleAt(pm, log)
    requires AllFit(ApplyOps(l, log), |pm|) && AllFit(Stores(l.entries), |pm|)
    requires l.valid && !Replayable(lim, l)
    ensures !CrashAtomic(lim, pm, l, log)
  {
    var img := MixWord(StageAt(pm, l, log, 4), StageAt(pm, l, log, 4 + 0), 0);
    var n := 4 + |l.entries|;
    MixIsImage(pm, l, log, 0, 0);
    ImageHeader(pm, l, log, n, img);
    ImagePayload(pm, l, log, n, img);
    ReadComplete(lim, l, log, img);
  }
}
