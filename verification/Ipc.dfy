/** Operation slots and the messages that travel for them: client, two rings, and a server that answers in any order. */
module Ipc {
  import opened Common
  import opened Bitmap

  datatype SlotState = New | Waiting | InProgress | Completed | Ended

  /** The part of a message the protocol depends on: `length` is that of the data that follows. */
  datatype Msg = Msg(seqNo: nat, kind: nat, slot: nat, status: nat, length: nat)

  datatype Slot = Slot(state: SlotState, msg: Msg)

  /** The client's channel: its slots, the bitmap of free ones with the search hint, the next sequence number, and the
      completed operations not yet reported. */
  datatype Chan = Chan(slots: seq<Slot>, free: seq<bool>, hint: nat, nextSeq: nat, cpl: seq<nat>)

  /** The rings, both of the same capacity, and the requests the server is working on. */
  datatype Net = Net(capacity: nat, requests: seq<Msg>, serving: seq<Msg>, responses: seq<Msg>)

  datatype World = World(ch: Chan, net: Net)

  // ---------- client operations ----------

  /** A ring that is full loses the message. */
  function Enqueue(ring: seq<Msg>, capacity: nat, m: Msg): seq<Msg> {
    if |ring| < capacity then ring + [m] else ring
  }

  function Prepare(c: Chan, kind: nat, length: nat): Chan
    requires |c.slots| == |c.free| && c.hint <= |c.free|
  {
    NextFreeFinds(c.free, c.hint);
    var k := NextFree(c.free, c.hint);
    if k == |c.free| then c
    else c.(slots := c.slots[k := Slot(Waiting, Msg(c.nextSeq, kind, k, 0, length))], free := c.free[k := false],
            hint := k + 1, nextSeq := c.nextSeq + 1)
  }

  predicate Submittable(c: Chan, ops: seq<nat>) {
    forall i | 0 <= i < |ops| :: ops[i] < |c.slots| && c.slots[ops[i]].state.Waiting?
  }

  function Sent(ring: seq<Msg>, capacity: nat, slots: seq<Slot>, ops: seq<nat>): seq<Msg>
    requires forall i | 0 <= i < |ops| :: ops[i] < |slots|
  {
    if ops == [] then ring
    else Enqueue(Sent(ring, capacity, slots, ops[..|ops| - 1]), capacity, slots[ops[|ops| - 1]].msg)
  }

  function Marked(slots: seq<Slot>, ops: seq<nat>): (r: seq<Slot>)
    requires forall i | 0 <= i < |ops| :: ops[i] < |slots|
    ensures |r| == |slots|
  {
    if ops == [] then slots
    else
      var r, k := Marked(slots, ops[..|ops| - 1]), ops[|ops| - 1];
      r[k := r[k].(state := InProgress)]
  }

  function Submit(w: World, ops: seq<nat>): World
    requires Submittable(w.ch, ops)
  {
    w.(ch := w.ch.(slots := Marked(w.ch.slots, ops)),
       net := w.net.(requests := Sent(w.net.requests, w.net.capacity, w.ch.slots, ops)))
  }

  /** What the receive callback asserts about a response. */
  predicate Expected(c: Chan, m: Msg) {
    m.slot < |c.slots| && c.slots[m.slot].msg.seqNo == m.seqNo && c.slots[m.slot].msg.kind == m.kind
  }

  function Receive(c: Chan, m: Msg): Chan
    requires m.slot < |c.slots|
  {
    c.(slots := c.slots[m.slot := Slot(Completed, m)], cpl := c.cpl + [m.slot])
  }

  function ReceiveAll(c: Chan, ms: seq<Msg>): (r: Chan)
    requires forall i | 0 <= i < |ms| :: ms[i].slot < |c.slots|
    ensures |r.slots| == |c.slots|
    decreases |ms|
  {
    if ms == [] then c else ReceiveAll(Receive(c, ms[0]), ms[1..])
  }

  /** Reporting: the first completions are handed out, and as many are dropped from the END of the list. */
  function Reported(c: Chan, most: nat): Chan {
    c.(cpl := c.cpl[..|c.cpl| - Least(|c.cpl|, most)])
  }

  /** Responses are fetched only when no completion is waiting. */
  function Fetched(w: World): World
    requires forall i | 0 <= i < |w.net.responses| :: w.net.responses[i].slot < |w.ch.slots|
  {
    if w.ch.cpl != [] then w
    else World(ReceiveAll(w.ch, w.net.responses), w.net.(responses := []))
  }

  function Claim(c: Chan, id: nat): Chan
    requires id < |c.slots|
  {
    if c.slots[id].state.Completed? then c.(slots := c.slots[id := c.slots[id].(state := Ended)]) else c
  }

  function Freed(c: Chan, id: nat): Chan
    requires id < |c.slots| == |c.free|
  {
    c.(slots := c.slots[id := c.slots[id].(state := New)], free := c.free[id := true], hint := Least(id, c.hint))
  }

  /** Destroying an operation that has not ended and is not in progress aborts the program. */
  predicate DestroyAborts(c: Chan, id: nat)
    requires id < |c.slots|
  {
    !c.slots[id].state.Ended? && !c.slots[id].state.InProgress?
  }

  function Destroy(c: Chan, id: nat): Chan
    requires id < |c.slots| == |c.free| && !DestroyAborts(c, id)
  {
    if c.slots[id].state.Ended? then Freed(c, id) else c
  }

  // ---------- the server ----------

  function Take(n: Net): Net
    requires n.requests != []
  {
    n.(requests := n.requests[1..], serving := n.serving + [n.requests[0]])
  }

  /** The server answers any request it has taken. */
  function Respond(n: Net, i: nat, status: nat, length: nat): Net
    requires i < |n.serving|
  {
    n.(serving := Without(n.serving, i),
       responses := Enqueue(n.responses, n.capacity, n.serving[i].(status := status, length := length)))
  }

  // ---------- the invariant ----------

  /** How many of the messages are for slot `x`. */
  function CountSlot(s: seq<Msg>, x: nat): nat {
    if s == [] then 0 else CountSlot(s[..|s| - 1], x) + if s[|s| - 1].slot == x then 1 else 0
  }

  function Alive(n: Net, x: nat): nat {
    CountSlot(n.requests, x) + CountSlot(n.serving, x) + CountSlot(n.responses, x)
  }

  predicate AllExpected(c: Chan, ms: seq<Msg>) {
    forall m | m in ms :: Expected(c, m)
  }

  predicate SlotFine(c: Chan, x: nat)
    requires x < |c.slots| == |c.free|
  {
    && c.free[x] == c.slots[x].state.New?
    && (!c.free[x] ==> c.slots[x].msg.slot == x && c.slots[x].msg.seqNo < c.nextSeq)
  }

  predicate ChanFine(c: Chan) {
    && |c.slots| == |c.free| && c.hint <= |c.free|
    && (forall x | 0 <= x < |c.slots| :: SlotFine(c, x))
    && (forall x, y | 0 <= x < y < |c.slots| && !c.free[x] && !c.free[y] ::
          c.slots[x].msg.seqNo != c.slots[y].msg.seqNo)
    && forall i | 0 <= i < |c.cpl| :: c.cpl[i] < |c.slots|
  }

  /** One message for each slot in progress, none for any other, and every message fits its slot. */
  predicate OneToOne(w: World) {
    && (forall x | 0 <= x < |w.ch.slots| :: Alive(w.net, x) == if w.ch.slots[x].state.InProgress? then 1 else 0)
    && AllExpected(w.ch, w.net.requests) && AllExpected(w.ch, w.net.serving) && AllExpected(w.ch, w.net.responses)
  }

  predicate Inv(w: World) {
    ChanFine(w.ch) && OneToOne(w)
  }

  // ---------- counting ----------

  lemma {:induction false} CountAppend(a: seq<Msg>, b: seq<Msg>, x: nat)
    ensures CountSlot(a + b, x) == CountSlot(a, x) + CountSlot(b, x)
    decreases |b|
  {
    if b == [] {
      assert a + b == a;
    } else {
      assert (a + b)[..|a + b| - 1] == a + b[..|b| - 1];
      CountAppend(a, b[..|b| - 1], x);
    }
  }

  lemma CountOne(m: Msg, x: nat)
    ensures CountSlot([m], x) == if m.slot == x then 1 else 0
  {
    assert [m][..0] == [];
  }

  lemma {:induction false} CountWithout(s: seq<Msg>, i: nat, x: nat)
    requires i < |s|
    ensures CountSlot(s, x) == CountSlot(Without(s, i), x) + if s[i].slot == x then 1 else 0
  {
    assert s == s[..i] + [s[i]] + s[i + 1..];
    CountAppend(s[..i] + [s[i]], s[i + 1..], x);
    CountAppend(s[..i], [s[i]], x);
    CountAppend(s[..i], s[i + 1..], x);
    CountOne(s[i], x);
  }

  lemma {:induction false} CountPresent(s: seq<Msg>, m: Msg)
    requires m in s
    ensures CountSlot(s, m.slot) > 0
    decreases |s|
  {
    if s[|s| - 1] != m {
      CountPresent(s[..|s| - 1], m);
    }
  }

  lemma {:induction false} CountAbsent(s: seq<Msg>, x: nat)
    requires CountSlot(s, x) == 0
    ensures forall m | m in s :: m.slot != x
  {
    forall m | m in s ensures m.slot != x {
      if m.slot == x {
        CountPresent(s, m);
      }
    }
  }

  /** A slot with no message alive is named by no message. */
  lemma NoneAlive(n: Net, x: nat)
    requires Alive(n, x) == 0
    ensures forall m | m in n.requests || m in n.serving || m in n.responses :: m.slot != x
  {
    CountAbsent(n.requests, x);
    CountAbsent(n.serving, x);
    CountAbsent(n.responses, x);
  }

  // ---------- what each step keeps ----------

  /** A channel changed in one slot, which keeps its number and a sequence number of its own. */
  lemma ChanUpdate(c: Chan, c': Chan, k: nat)
    requires ChanFine(c) && k < |c.slots| && |c'.slots| == |c.slots| == |c'.free| && c'.hint <= |c.free|
    requires forall x | 0 <= x < |c.slots| && x != k :: c'.slots[x] == c.slots[x] && c'.free[x] == c.free[x]
    requires c'.nextSeq >= c.nextSeq && SlotFine(c', k)
    requires !c'.free[k] ==>
      (c'.slots[k].msg.seqNo == c.slots[k].msg.seqNo && !c.free[k]) || c'.slots[k].msg.seqNo == c.nextSeq
    requires forall i | 0 <= i < |c'.cpl| :: c'.cpl[i] < |c.slots|
    ensures ChanFine(c')
  {
    forall x | 0 <= x < |c.slots| ensures SlotFine(c', x) {
      assert SlotFine(c, x);
    }
    forall x, y | 0 <= x < y < |c.slots| && !c'.free[x] && !c'.free[y]
      ensures c'.slots[x].msg.seqNo != c'.slots[y].msg.seqNo
    {
      assert SlotFine(c, x) && SlotFine(c, y);
    }
  }

  lemma PrepareInv(w: World, kind: nat, length: nat)
    requires Inv(w)
    ensures Inv(w.(ch := Prepare(w.ch, kind, length)))
  {
    var c := w.ch;
    NextFreeFinds(c.free, c.hint);
    var k := NextFree(c.free, c.hint);
    if k < |c.free| {
      assert SlotFine(c, k);
      NoneAlive(w.net, k);
      ChanUpdate(c, Prepare(c, kind, length), k);
    }
  }

  /** The slot a new operation gets is free, and no message anywhere is still on its way for it. */
  lemma NoReuseWhileAlive(w: World, kind: nat, length: nat)
    requires Inv(w) && Prepare(w.ch, kind, length) != w.ch
    ensures var k := NextFree(w.ch.free, w.ch.hint);
            && k < |w.ch.slots| && w.ch.slots[k].state.New?
            && (forall m | m in w.net.requests || m in w.net.serving || m in w.net.responses :: m.slot != k)
            && Prepare(w.ch, kind, length).slots[k].msg == Msg(w.ch.nextSeq, kind, k, 0, length)
  {
    NextFreeFinds(w.ch.free, w.ch.hint);
    var k := NextFree(w.ch.free, w.ch.hint);
    assert SlotFine(w.ch, k);
    NoneAlive(w.net, k);
  }

  lemma TakeInv(w: World)
    requires Inv(w) && w.net.requests != []
    ensures Inv(w.(net := Take(w.net)))
  {
    var n, m := w.net, w.net.requests[0];
    forall x ensures Alive(Take(n), x) == Alive(n, x) {
      CountAppend([m], n.requests[1..], x);
      CountAppend(n.serving, [m], x);
      assert n.requests == [m] + n.requests[1..];
    }
  }

  lemma RespondInv(w: World, i: nat, status: nat, length: nat)
    requires Inv(w) && i < |w.net.serving| && |w.net.responses| < w.net.capacity
    ensures Inv(w.(net := Respond(w.net, i, status, length)))
  {
    var n := w.net;
    var m, a := n.serving[i], n.serving[i].(status := status, length := length);
    forall x ensures Alive(Respond(n, i, status, length), x) == Alive(n, x) {
      CountWithout(n.serving, i, x);
      CountAppend(n.responses, [a], x);
      CountOne(a, x);
    }
    assert Expected(w.ch, m);
  }

  lemma ReceiveChan(c: Chan, m: Msg)
    requires ChanFine(c) && Expected(c, m) && c.slots[m.slot].state.InProgress?
    ensures ChanFine(Receive(c, m))
  {
    assert SlotFine(c, m.slot);
    ChanUpdate(c, Receive(c, m), m.slot);
  }

  lemma ReceiveOneToOne(w: World)
    requires OneToOne(w) && w.net.responses != []
    ensures var m := w.net.responses[0];
            && Expected(w.ch, m) && w.ch.slots[m.slot].state.InProgress?
            && OneToOne(World(Receive(w.ch, m), w.net.(responses := w.net.responses[1..])))
  {
    var n, m, rest := w.net, w.net.responses[0], w.net.responses[1..];
    assert n.responses == [m] + rest;
    assert Expected(w.ch, m);
    CountPresent(n.responses, m);
    var n' := n.(responses := rest);
    forall x ensures Alive(n, x) == Alive(n', x) + if x == m.slot then 1 else 0 {
      CountAppend([m], rest, x);
      CountOne(m, x);
    }
    NoneAlive(n', m.slot);
    assert forall u | u in rest :: u in n.responses;
  }

  /** The oldest response passes the assertions of the receive callback. */
  lemma ReceiveInv(w: World)
    requires Inv(w) && w.net.responses != []
    ensures var m := w.net.responses[0];
            && Expected(w.ch, m) && w.ch.slots[m.slot].state.InProgress?
            && Inv(World(Receive(w.ch, m), w.net.(responses := w.net.responses[1..])))
  {
    ReceiveOneToOne(w);
    ReceiveChan(w.ch, w.net.responses[0]);
  }

  /** Fetching all responses: every assertion holds on the way. */
  lemma {:induction false} FetchAllInv(w: World)
    requires Inv(w)
    ensures forall i | 0 <= i < |w.net.responses| :: w.net.responses[i].slot < |w.ch.slots|
    ensures Inv(World(ReceiveAll(w.ch, w.net.responses), w.net.(responses := [])))
    decreases |w.net.responses|
  {
    var ms := w.net.responses;
    forall i | 0 <= i < |ms| ensures ms[i].slot < |w.ch.slots| {
      assert ms[i] in ms;
      assert Expected(w.ch, ms[i]);
    }
    if ms != [] {
      ReceiveInv(w);
      FetchAllInv(World(Receive(w.ch, ms[0]), w.net.(responses := ms[1..])));
    } else {
      assert w.net.(responses := []) == w.net;
    }
  }

  lemma ReportInv(w: World, most: nat)
    requires Inv(w)
    ensures Inv(w.(ch := Reported(w.ch, most)))
  {
    var c := Reported(w.ch, most);
    forall x | 0 <= x < |c.slots| ensures SlotFine(c, x) {
      assert SlotFine(w.ch, x);
    }
  }

  lemma ClaimInv(w: World, id: nat)
    requires Inv(w) && id < |w.ch.slots|
    ensures Inv(w.(ch := Claim(w.ch, id)))
  {
    assert SlotFine(w.ch, id);
    ChanUpdate(w.ch, Claim(w.ch, id), id);
  }

  lemma DestroyInv(w: World, id: nat)
    requires Inv(w) && id < |w.ch.slots| && !DestroyAborts(w.ch, id)
    ensures Inv(w.(ch := Destroy(w.ch, id)))
  {
    assert SlotFine(w.ch, id);
    if w.ch.slots[id].state.Ended? {
      NoneAlive(w.net, id);
      ChanUpdate(w.ch, Destroy(w.ch, id), id);
    }
  }

  // ---------- submitting ----------

  function Msgs(slots: seq<Slot>, ops: seq<nat>): (r: seq<Msg>)
    requires forall i | 0 <= i < |ops| :: ops[i] < |slots|
    ensures |r| == |ops|
  {
    seq(|ops|, i requires 0 <= i < |ops| => slots[ops[i]].msg)
  }

  /** The messages that reach the ring: as many as it has room for. */
  lemma {:induction false} SentWhat(ring: seq<Msg>, capacity: nat, slots: seq<Slot>, ops: seq<nat>)
    requires |ring| <= capacity && forall i | 0 <= i < |ops| :: ops[i] < |slots|
    ensures Sent(ring, capacity, slots, ops) == ring + Msgs(slots, ops[..Least(|ops|, capacity - |ring|)])
    decreases |ops|
  {
    var room := capacity - |ring|;
    if ops == [] {
      assert ring + [] == ring;
    } else {
      var front := ops[..|ops| - 1];
      SentWhat(ring, capacity, slots, front);
      if |ops| <= room {
        assert ops[..|ops|] == ops && front[..|front|] == front;
        assert Msgs(slots, ops) == Msgs(slots, front) + [slots[ops[|ops| - 1]].msg];
      } else {
        assert front[..room] == ops[..room];
      }
    }
  }

  lemma {:induction false} MarkedAt(slots: seq<Slot>, ops: seq<nat>, x: nat)
    requires x < |slots| && forall i | 0 <= i < |ops| :: ops[i] < |slots|
    ensures Marked(slots, ops)[x] == if x in ops then slots[x].(state := InProgress) else slots[x]
    decreases |ops|
  {
    if ops != [] {
      MarkedAt(slots, ops[..|ops| - 1], x);
      assert ops == ops[..|ops| - 1] + [ops[|ops| - 1]];
    }
  }

  /** How often `x` is submitted. */
  function CountId(ops: seq<nat>, x: nat): nat {
    if ops == [] then 0 else CountId(ops[..|ops| - 1], x) + if ops[|ops| - 1] == x then 1 else 0
  }

  lemma {:induction false} CountMsgs(slots: seq<Slot>, ops: seq<nat>, x: nat)
    requires forall i | 0 <= i < |ops| :: ops[i] < |slots| && slots[ops[i]].msg.slot == ops[i]
    ensures CountSlot(Msgs(slots, ops), x) == CountId(ops, x)
    decreases |ops|
  {
    if ops != [] {
      CountMsgs(slots, ops[..|ops| - 1], x);
      assert Msgs(slots, ops)[..|ops| - 1] == Msgs(slots, ops[..|ops| - 1]);
    }
  }

  predicate NoRepeats(ops: seq<nat>) {
    forall i, j | 0 <= i < j < |ops| :: ops[i] != ops[j]
  }

  lemma {:induction false} CountPositive(ops: seq<nat>, x: nat)
    ensures CountId(ops, x) > 0 <==> x in ops
    decreases |ops|
  {
    if ops != [] {
      CountPositive(ops[..|ops| - 1], x);
      assert ops == ops[..|ops| - 1] + [ops[|ops| - 1]];
    }
  }

  lemma {:induction false} CountOnce(ops: seq<nat>)
    ensures NoRepeats(ops) == forall x | x in ops :: CountId(ops, x) == 1
    decreases |ops|
  {
    if ops != [] {
      var front, last := ops[..|ops| - 1], ops[|ops| - 1];
      assert ops == front + [last];
      CountOnce(front);
      CountPositive(front, last);
      if NoRepeats(ops) {
        forall x | x in ops ensures CountId(ops, x) == 1 {
          CountPositive(front, x);
        }
      } else if forall x | x in ops :: CountId(ops, x) == 1 {
        assert CountId(ops, last) == 1;
        forall x | x in front ensures CountId(front, x) == 1 {
          assert CountId(ops, x) == 1;
          CountPositive(front, x);
        }
      }
    }
  }

  /** After a submission, each slot has the messages it had and those just put on the ring. */
  lemma SubmitAlive(w: World, ops: seq<nat>, x: nat)
    requires Inv(w) && Submittable(w.ch, ops) && |w.net.requests| <= w.net.capacity
    ensures var got := ops[..Least(|ops|, w.net.capacity - |w.net.requests|)];
            Alive(Submit(w, ops).net, x) == Alive(w.net, x) + CountId(got, x)
  {
    var got := ops[..Least(|ops|, w.net.capacity - |w.net.requests|)];
    SentWhat(w.net.requests, w.net.capacity, w.ch.slots, ops);
    forall i | 0 <= i < |got| ensures w.ch.slots[got[i]].msg.slot == got[i] {
      assert SlotFine(w.ch, got[i]);
    }
    CountMsgs(w.ch.slots, got, x);
    CountAppend(w.net.requests, Msgs(w.ch.slots, got), x);
  }

  lemma {:induction false} SubmitChan(c: Chan, ops: seq<nat>)
    requires ChanFine(c) && Submittable(c, ops)
    ensures ChanFine(c.(slots := Marked(c.slots, ops)))
    ensures forall m | Expected(c, m) :: Expected(c.(slots := Marked(c.slots, ops)), m)
  {
    var c' := c.(slots := Marked(c.slots, ops));
    forall x: nat | x < |c.slots| ensures SlotFine(c', x) && c'.slots[x].msg == c.slots[x].msg {
      MarkedAt(c.slots, ops, x);
      assert SlotFine(c, x);
    }
  }

  lemma SubmitExpected(w: World, ops: seq<nat>)
    requires Inv(w) && Submittable(w.ch, ops) && |w.net.requests| <= w.net.capacity
    ensures ChanFine(Submit(w, ops).ch) && AllExpected(Submit(w, ops).ch, Submit(w, ops).net.requests)
    ensures AllExpected(Submit(w, ops).ch, w.net.serving) && AllExpected(Submit(w, ops).ch, w.net.responses)
  {
    SubmitChan(w.ch, ops);
    var got := ops[..Least(|ops|, w.net.capacity - |w.net.requests|)];
    SentWhat(w.net.requests, w.net.capacity, w.ch.slots, ops);
    forall m | m in Submit(w, ops).net.requests ensures Expected(w.ch, m) {
      if m in Msgs(w.ch.slots, got) {
        var i :| 0 <= i < |got| && Msgs(w.ch.slots, got)[i] == m;
        assert SlotFine(w.ch, got[i]);
      }
    }
  }

  /** Submitting keeps messages and slots in step exactly when each operation submitted reaches the ring once. */
  lemma SubmitExactly(w: World, ops: seq<nat>)
    requires Inv(w) && Submittable(w.ch, ops) && |w.net.requests| <= w.net.capacity
    ensures var got := ops[..Least(|ops|, w.net.capacity - |w.net.requests|)];
            Inv(Submit(w, ops)) == forall x | x in ops :: CountId(got, x) == 1
  {
    var got, w' := ops[..Least(|ops|, w.net.capacity - |w.net.requests|)], Submit(w, ops);
    SubmitExpected(w, ops);
    forall x: nat | x < |w.ch.slots|
      ensures Alive(w'.net, x) == Alive(w.net, x) + CountId(got, x)
      ensures w'.ch.slots[x] == if x in ops then w.ch.slots[x].(state := InProgress) else w.ch.slots[x]
      ensures CountId(got, x) > 0 ==> x in ops
    {
      SubmitAlive(w, ops, x);
      MarkedAt(w.ch.slots, ops, x);
      CountPositive(got, x);
    }
  }

  /** With room on the ring that means: no operation is listed twice, which the code does not check. */
  lemma SubmitWithRoom(w: World, ops: seq<nat>)
    requires Inv(w) && Submittable(w.ch, ops) && |w.net.requests| + |ops| <= w.net.capacity
    ensures Inv(Submit(w, ops)) == NoRepeats(ops)
  {
    SubmitExactly(w, ops);
    CountOnce(ops);
    assert ops[..|ops|] == ops;
  }
}
