/** Every run of client, rings and server. */
module IpcRuns {
  import opened Common
  import opened Bitmap
  import opened Ipc

  // ---------- nothing is lost ----------

  function SlotsOf(s: seq<Msg>): set<nat> {
    if s == [] then {} else SlotsOf(s[..|s| - 1]) + {s[|s| - 1].slot}
  }

  lemma {:induction false} SlotsCounted(s: seq<Msg>, x: nat)
    ensures x in SlotsOf(s) <==> CountSlot(s, x) > 0
    decreases |s|
  {
    if s != [] {
      SlotsCounted(s[..|s| - 1], x);
    }
  }

  lemma {:induction false} SubsetSize(a: set<nat>, b: set<nat>)
    requires a <= b
    ensures |a| <= |b|
    decreases a
  {
    if x :| x in a {
      SubsetSize(a - {x}, b - {x});
    }
  }

  lemma {:induction false} OneEachSize(s: seq<Msg>)
    requires forall x: nat :: CountSlot(s, x) <= 1
    ensures |SlotsOf(s)| == |s|
    decreases |s|
  {
    if s != [] {
      var front, last := s[..|s| - 1], s[|s| - 1];
      forall x: nat ensures CountSlot(front, x) <= 1 {
        assert CountSlot(s, x) <= 1;
      }
      OneEachSize(front);
      assert CountSlot(s, last.slot) <= 1;
      SlotsCounted(front, last.slot);
    }
  }

  /** Messages for different slots are no more than the slots. */
  lemma Pigeonhole(s: seq<Msg>, n: nat)
    requires forall x: nat :: CountSlot(s, x) <= if x < n then 1 else 0
    ensures |s| <= n
  {
    OneEachSize(s);
    forall x | x in SlotsOf(s) ensures x in Below(n) {
      SlotsCounted(s, x);
    }
    SubsetSize(SlotsOf(s), Below(n));
  }

  lemma AliveTogether(n: Net, more: seq<Msg>, x: nat)
    ensures CountSlot(n.requests + n.serving + n.responses + more, x) == Alive(n, x) + CountSlot(more, x)
  {
    CountAppend(n.requests + n.serving + n.responses, more, x);
    CountAppend(n.requests + n.serving, n.responses, x);
    CountAppend(n.requests, n.serving, x);
  }

  /** The messages alive, and those of waiting operations about to be sent, fit the slots. */
  lemma AllFit(w: World, ops: seq<nat>)
    requires Inv(w) && Submittable(w.ch, ops) && NoRepeats(ops)
    ensures |w.net.requests| + |w.net.serving| + |w.net.responses| + |ops| <= |w.ch.slots|
  {
    var more := Msgs(w.ch.slots, ops);
    var s := w.net.requests + w.net.serving + w.net.responses + more;
    forall i | 0 <= i < |ops| ensures w.ch.slots[ops[i]].msg.slot == ops[i] {
      assert SlotFine(w.ch, ops[i]);
    }
    CountOnce(ops);
    forall x: nat ensures CountSlot(s, x) <= if x < |w.ch.slots| then 1 else 0 {
      AliveTogether(w.net, more, x);
      CountMsgs(w.ch.slots, ops, x);
      CountPositive(ops, x);
      if x >= |w.ch.slots| {
        Beyond(w, x);
      }
    }
    Pigeonhole(s, |w.ch.slots|);
  }

  lemma Beyond(w: World, x: nat)
    requires Inv(w) && x >= |w.ch.slots|
    ensures Alive(w.net, x) == 0
  {
    CountNone(w.net.requests, x);
    CountNone(w.net.serving, x);
    CountNone(w.net.responses, x);
    forall m | m in w.net.requests || m in w.net.serving || m in w.net.responses ensures m.slot != x {
      assert Expected(w.ch, m);
    }
  }

  lemma {:induction false} CountNone(s: seq<Msg>, x: nat)
    ensures (forall m | m in s :: m.slot != x) ==> CountSlot(s, x) == 0
    decreases |s|
  {
    if s != [] {
      CountNone(s[..|s| - 1], x);
    }
  }

  // ---------- reporting completions ----------

  /** Completions are reported once each and none is lost exactly when a poll hands out all of them or none: with a
      smaller limit the list keeps those already handed out and drops the last ones. */
  lemma ReportExactly(c: Chan, most: nat)
    requires NoRepeats(c.cpl)
    ensures var k := Least(|c.cpl|, most);
            Reported(c, most).cpl == c.cpl[k..] <==> k == 0 || k == |c.cpl|
  {
    var k := Least(|c.cpl|, most);
    if 0 < k < |c.cpl| {
      assert c.cpl[..|c.cpl| - k][0] == c.cpl[0] != c.cpl[k] == c.cpl[k..][0];
    }
  }

  /** The callback appends each slot to the list once. */
  predicate CplFine(c: Chan) {
    NoRepeats(c.cpl) && forall i | 0 <= i < |c.cpl| && c.cpl[i] < |c.slots| :: !c.slots[c.cpl[i]].state.InProgress?
  }

  lemma {:induction false} FetchCpl(w: World)
    requires Inv(w) && CplFine(w.ch)
    requires forall i | 0 <= i < |w.net.responses| :: w.net.responses[i].slot < |w.ch.slots|
    ensures NoRepeats(ReceiveAll(w.ch, w.net.responses).cpl)
    ensures |ReceiveAll(w.ch, w.net.responses).cpl| == |w.ch.cpl| + |w.net.responses|
    decreases |w.net.responses|
  {
    var ms := w.net.responses;
    if ms != [] {
      ReceiveInv(w);
      var w' := World(Receive(w.ch, ms[0]), w.net.(responses := ms[1..]));
      assert forall i | 0 <= i < |ms[1..]| :: ms[1..][i] == ms[i + 1];
      FetchCpl(w');
    }
  }

  // ---------- runs ----------

  datatype Event =
    | Prepares(kind: nat, length: nat)
    | Submits(ops: seq<nat>)
    | ServerTakes
    | ServerAnswers(which: nat, status: nat, length: nat)
    | Polls(most: nat)
    | Claims(id: nat)
    | Destroys(id: nat)

  /** A channel just opened on empty rings, of any depth and capacity. */
  predicate Fresh(w: World) {
    && |w.ch.slots| == |w.ch.free| && w.ch.hint == 0 && w.ch.nextSeq == 0 && w.ch.cpl == []
    && (forall x | 0 <= x < |w.ch.slots| :: w.ch.slots[x].state.New? && w.ch.free[x])
    && w.net.requests == [] && w.net.serving == [] && w.net.responses == []
  }

  predicate Answerable(w: World) {
    |w.ch.slots| == |w.ch.free| && w.ch.hint <= |w.ch.free|
    && forall i | 0 <= i < |w.net.responses| :: w.net.responses[i].slot < |w.ch.slots|
  }

  /** One step. Callers list no operation twice in a submission, and destroy only what has ended or is in progress. */
  predicate Step(w: World, e: Event, w': World)
    requires Answerable(w)
  {
    match e
    case Prepares(kind, length) => w' == w.(ch := Prepare(w.ch, kind, length))
    case Submits(ops) => Submittable(w.ch, ops) && NoRepeats(ops) && w' == Submit(w, ops)
    case ServerTakes => w.net.requests != [] && w' == w.(net := Take(w.net))
    case ServerAnswers(i, status, length) => i < |w.net.serving| && w' == w.(net := Respond(w.net, i, status, length))
    case Polls(most) => w' == Fetched(w).(ch := Reported(Fetched(w).ch, most))
    case Claims(id) => id < |w.ch.slots| && w' == w.(ch := Claim(w.ch, id))
    case Destroys(id) => id < |w.ch.slots| && !DestroyAborts(w.ch, id) && w' == w.(ch := Destroy(w.ch, id))
  }

  /** Messages and slots correspond one to one, and no completion is listed twice. */
  predicate Safe(w: World) {
    && Inv(w) && NoRepeats(w.ch.cpl)
    && |w.net.requests| + |w.net.serving| + |w.net.responses| <= |w.ch.slots|
  }

  lemma FreshSafe(w: World)
    requires Fresh(w)
    ensures Safe(w)
  {
    forall x | 0 <= x < |w.ch.slots| ensures SlotFine(w.ch, x) && Alive(w.net, x) == 0 {
    }
  }

  lemma PollSafe(w: World, most: nat)
    requires Safe(w)
    ensures Answerable(w) && Safe(Fetched(w).(ch := Reported(Fetched(w).ch, most)))
  {
    FetchAllInv(w);
    if w.ch.cpl == [] {
      FetchCpl(w);
    }
    ReportInv(Fetched(w), most);
  }

  /** Rings with room for every slot lose nothing, so each step keeps messages and slots in step. */
  lemma StepSafe(w: World, e: Event, w': World)
    requires Safe(w) && |w.ch.slots| <= w.net.capacity && Answerable(w) && Step(w, e, w')
    ensures Safe(w') && |w'.ch.slots| == |w.ch.slots| && w'.net.capacity == w.net.capacity
  {
    AllFit(w, []);
    match e
    case Prepares(kind, length) =>
      NextFreeFinds(w.ch.free, w.ch.hint);
      PrepareInv(w, kind, length);
    case Submits(ops) =>
      AllFit(w, ops);
      SubmitWithRoom(w, ops);
      SentWhat(w.net.requests, w.net.capacity, w.ch.slots, ops);
    case ServerTakes => TakeInv(w);
    case ServerAnswers(i, status, length) => RespondInv(w, i, status, length);
    case Polls(most) => PollSafe(w, most);
    case Claims(id) => ClaimInv(w, id);
    case Destroys(id) => DestroyInv(w, id);
  }

  // ---------- completions that are lost ----------

  /** The operation has completed, and no poll will tell. */
  predicate Lost(w: World, x: nat) {
    && x < |w.ch.slots| && (w.ch.slots[x].state.Completed? || w.ch.slots[x].state.Ended?)
    && x !in w.ch.cpl
  }

  /** A poll that reports some completions but not all loses the last one. */
  lemma PartialReportLoses(w: World, most: nat)
    requires Safe(w) && 0 < most < |w.ch.cpl|
    requires var x := w.ch.cpl[|w.ch.cpl| - 1]; x < |w.ch.slots| && w.ch.slots[x].state.Completed?
    ensures var x := w.ch.cpl[|w.ch.cpl| - 1];
            x !in w.ch.cpl[..most] && Lost(w.(ch := Reported(w.ch, most)), x)
  {
  }

  lemma {:induction false} ReceivesOthers(c: Chan, ms: seq<Msg>, x: nat)
    requires (forall i | 0 <= i < |ms| :: ms[i].slot < |c.slots| && ms[i].slot != x) && x < |c.slots| && x !in c.cpl
    ensures x !in ReceiveAll(c, ms).cpl && ReceiveAll(c, ms).slots[x] == c.slots[x]
    decreases |ms|
  {
    if ms != [] {
      ReceivesOthers(Receive(c, ms[0]), ms[1..], x);
    }
  }

  /** And it stays lost: no later step reports it, until its slot is given back. */
  lemma LostStays(w: World, e: Event, w': World, x: nat)
    requires Safe(w) && Answerable(w) && Step(w, e, w') && Lost(w, x)
    ensures Lost(w', x) || (e == Destroys(x) && w'.ch.slots[x].state.New?)
    ensures e.Polls? ==> x !in Fetched(w).ch.cpl
  {
    NoneAlive(w.net, x);
    assert SlotFine(w.ch, x);
    NextFreeFinds(w.ch.free, w.ch.hint);
    match e
    case Submits(ops) => MarkedAt(w.ch.slots, ops, x);
    case Polls(most) =>
      ReceivesOthers(w.ch, w.net.responses, x);
    case _ =>
  }

  // ---------- all runs ----------

  ghost predicate Next(w: World, w': World) {
    Answerable(w) && exists e :: Step(w, e, w')
  }

  ghost predicate Run(run: seq<World>) {
    && |run| > 0 && Fresh(run[0])
    && forall i | 0 <= i < |run| - 1 :: Next(run[i], run[i + 1])
  }

  lemma {:induction false} RunSafe(run: seq<World>, i: nat)
    requires Run(run) && |run[0].ch.slots| <= run[0].net.capacity && i < |run|
    ensures Safe(run[i]) && |run[i].ch.slots| <= run[i].net.capacity
    decreases i
  {
    if i == 0 {
      FreshSafe(run[0]);
    } else {
      RunSafe(run, i - 1);
      assert Next(run[i - 1], run[i - 1 + 1]);
      var e :| Step(run[i - 1], e, run[i]);
      StepSafe(run[i - 1], e, run[i]);
    }
  }

  // ---------- a queue deeper than the ring ----------

  /** The first `k` slots are prepared, the others free, and nothing has been sent. */
  predicate Prepared(w: World, k: nat) {
    && Inv(w) && k <= |w.ch.slots| && w.ch.hint == k && w.ch.cpl == []
    && w.net.requests == [] && w.net.serving == [] && w.net.responses == []
    && forall x | 0 <= x < |w.ch.slots| :: w.ch.slots[x].state == if x < k then Waiting else New
  }

  lemma {:induction false} FirstFree(free: seq<bool>, a: nat, k: nat)
    requires a <= k < |free| && free[k] && forall j | a <= j < k :: !free[j]
    ensures FirstSet(free, a, |free|) == k
    decreases k - a
  {
    if a < k {
      FirstFree(free, a + 1, k);
    }
  }

  lemma PrepareNext(w: World, k: nat, kind: nat, length: nat)
    requires Prepared(w, k) && k < |w.ch.slots|
    ensures Prepared(w.(ch := Prepare(w.ch, kind, length)), k + 1) && Answerable(w)
    ensures |Prepare(w.ch, kind, length).slots| == |w.ch.slots|
  {
    forall x | 0 <= x < |w.ch.slots| ensures w.ch.free[x] == (x >= k) {
      assert SlotFine(w.ch, x);
    }
    FirstFree(w.ch.free, k / 64 * 64, k);
    NextFreeFinds(w.ch.free, w.ch.hint);
    PrepareInv(w, kind, length);
  }

  /** A run that prepares `k` operations. */
  lemma {:induction false} PrepareRun(w: World, k: nat) returns (run: seq<World>)
    requires Fresh(w) && k <= |w.ch.slots|
    ensures Run(run) && run[0] == w && Prepared(run[|run| - 1], k)
    ensures run[|run| - 1].net.capacity == w.net.capacity && |run[|run| - 1].ch.slots| == |w.ch.slots|
    decreases k
  {
    if k == 0 {
      FreshSafe(w);
      run := [w];
    } else {
      var front := PrepareRun(w, k - 1);
      var last := front[|front| - 1];
      PrepareNext(last, k - 1, 0, 0);
      var next := last.(ch := Prepare(last.ch, 0, 0));
      assert Step(last, Prepares(0, 0), next);
      assert Next(last, next);
      run := front + [next];
    }
  }

  function FirstIds(k: nat): (ops: seq<nat>)
    ensures |ops| == k && forall i | 0 <= i < k :: ops[i] == i
  {
    seq(k, i => i)
  }

  /** Submitting one operation more than the ring holds strands it: its slot stays in progress and no message is alive
      for it, so no response will ever come. */
  lemma Stranded(w: World, k: nat)
    requires Prepared(w, k) && k == w.net.capacity + 1
    ensures Submittable(w.ch, FirstIds(k)) && NoRepeats(FirstIds(k)) && Answerable(w)
    ensures var w' := Submit(w, FirstIds(k));
            w'.ch.slots[k - 1].state.InProgress? && Alive(w'.net, k - 1) == 0 && !Inv(w')
  {
    var ops := FirstIds(k);
    SubmitAlive(w, ops, k - 1);
    MarkedAt(w.ch.slots, ops, k - 1);
    CountPositive(ops[..k - 1], k - 1);
    assert ops[k - 1] == k - 1 && k - 1 in ops;
    assert k - 1 !in ops[..k - 1];
    assert Alive(w.net, k - 1) == 0;
  }

  /** All runs of a channel are safe if and only if its queue is no deeper than the rings. */
  lemma SafeIffRingsHold(w: World)
    requires Fresh(w)
    ensures (forall run, i | Run(run) && run[0] == w && 0 <= i < |run| :: Safe(run[i]))
            <==> |w.ch.slots| <= w.net.capacity
  {
    if |w.ch.slots| <= w.net.capacity {
      forall run, i | Run(run) && run[0] == w && 0 <= i < |run| ensures Safe(run[i]) {
        RunSafe(run, i);
      }
    } else {
      var run, n := StrandingRun(w);
      assert !Safe(run[n]);
    }
  }

  lemma StrandingRun(w: World) returns (run: seq<World>, n: nat)
    requires Fresh(w) && |w.ch.slots| > w.net.capacity
    ensures Run(run) && run[0] == w && n < |run| && w.net.capacity < |run[n].ch.slots|
    ensures run[n].ch.slots[w.net.capacity].state.InProgress? && Alive(run[n].net, w.net.capacity) == 0 && !Safe(run[n])
  {
    var k := w.net.capacity + 1;
    var front := PrepareRun(w, k);
    var last := front[|front| - 1];
    Stranded(last, k);
    var next := Submit(last, FirstIds(k));
    assert Step(last, Submits(FirstIds(k)), next);
    assert Next(last, next);
    run, n := front + [next], |front|;
  }

  /** In every run on rings that hold the queue: a slot is in progress exactly while one message is alive for it, that
      message carries the slot's sequence number and operation, so the assertions on receiving a response never fail;
      and a slot about to be handed out has no message alive. */
  lemma SlotsAndMessages(run: seq<World>, i: nat, kind: nat, length: nat)
    requires Run(run) && |run[0].ch.slots| <= run[0].net.capacity && i < |run|
    ensures var w := run[i];
            && Safe(w)
            && (forall x | 0 <= x < |w.ch.slots| :: Alive(w.net, x) == if w.ch.slots[x].state.InProgress? then 1 else 0)
            && (forall m | m in w.net.responses :: Expected(w.ch, m))
            && (Prepare(w.ch, kind, length) != w.ch ==> Alive(w.net, NextFree(w.ch.free, w.ch.hint)) == 0)
  {
    RunSafe(run, i);
    var w := run[i];
    NextFreeFinds(w.ch.free, w.ch.hint);
    var k := NextFree(w.ch.free, w.ch.hint);
    if k < |w.ch.slots| {
      assert SlotFine(w.ch, k);
    }
  }
}
