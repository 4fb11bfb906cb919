/** What a client is told about its operations: over every run, the result it claims is the one the server sent. */
module IpcResults {
  import opened Common
  import opened Bitmap
  import opened Ipc
  import opened IpcRuns

  /** A run with the events that made it. */
  ghost predicate History(run: seq<World>, events: seq<Event>) {
    && |run| == |events| + 1 && Fresh(run[0])
    && forall i: nat | i < |events| :: TookAt(run, events, i)
  }

  ghost predicate TookAt(run: seq<World>, events: seq<Event>, i: nat)
    requires |run| == |events| + 1 && i < |events|
  {
    Took(run[i], events[i], run[i + 1])
  }

  ghost predicate Took(w: World, e: Event, w': World) {
    Answerable(w) && Step(w, e, w')
  }

  lemma {:induction false} HistorySafe(run: seq<World>, events: seq<Event>, i: nat)
    requires History(run, events) && |run[0].ch.slots| <= run[0].net.capacity && i < |run|
    ensures Safe(run[i]) && |run[i].ch.slots| <= run[i].net.capacity
    decreases i
  {
    if i == 0 {
      FreshSafe(run[0]);
    } else {
      HistorySafe(run, events, i - 1);
      assert TookAt(run, events, i - 1);
      StepSafe(run[i - 1], events[i - 1], run[i]);
    }
  }

  // ---------- the operations of a history ----------

  datatype Answer = Answer(status: nat, length: nat)

  /** An operation as it was prepared, and what the server answered. */
  datatype Operation = Operation(kind: nat, length: nat, slot: nat, answer: Option<Answer>)

  /** The request the client sends for operation number `q`, and the response that answers it. */
  function RequestOf(q: nat, op: Operation): Msg {
    Msg(q, op.kind, op.slot, 0, op.length)
  }

  function ResponseTo(q: nat, op: Operation): Msg
    requires op.answer.Some?
  {
    Msg(q, op.kind, op.slot, op.answer.value.status, op.answer.value.length)
  }

  /** What an event adds to the book, in which operations stand by their sequence numbers. */
  function Noted(book: seq<Operation>, w: World, e: Event): seq<Operation>
    requires |w.ch.slots| == |w.ch.free| && w.ch.hint <= |w.ch.free|
  {
    NextFreeFinds(w.ch.free, w.ch.hint);
    match e
    case Prepares(kind, length) =>
      var k := NextFree(w.ch.free, w.ch.hint);
      if k == |w.ch.free| then book else book + [Operation(kind, length, k, None)]
    case ServerAnswers(i, status, length) =>
      if i < |w.net.serving| && w.net.serving[i].seqNo < |book| then
        var q := w.net.serving[i].seqNo;
        book[q := book[q].(answer := Some(Answer(status, length)))]
      else book
    case _ => book
  }

  ghost function Book(run: seq<World>, events: seq<Event>, i: nat): seq<Operation>
    requires History(run, events) && i <= |events|
  {
    if i == 0 then []
    else
      assert TookAt(run, events, i - 1);
      Noted(Book(run, events, i - 1), run[i - 1], events[i - 1])
  }

  /** What the book says of the operation in slot `x`. */
  predicate SlotBooked(c: Chan, book: seq<Operation>, x: nat)
    requires x < |c.slots| == |c.free|
  {
    !c.free[x] ==>
      var m := c.slots[x].msg;
      && m.seqNo < |book| && book[m.seqNo].slot == x
      && match c.slots[x].state
         case Waiting => Requested(book, m)
         case InProgress => m == RequestOf(m.seqNo, book[m.seqNo])
         case _ => Responded(book, m)
  }

  predicate Requested(book: seq<Operation>, m: Msg) {
    m.seqNo < |book| && book[m.seqNo].answer.None? && m == RequestOf(m.seqNo, book[m.seqNo])
  }

  predicate Responded(book: seq<Operation>, m: Msg) {
    m.seqNo < |book| && book[m.seqNo].answer.Some? && m == ResponseTo(m.seqNo, book[m.seqNo])
  }

  predicate AllRequested(book: seq<Operation>, ms: seq<Msg>) {
    forall m | m in ms :: Requested(book, m)
  }

  predicate AllResponded(book: seq<Operation>, ms: seq<Msg>) {
    forall m | m in ms :: Responded(book, m)
  }

  /** The book agrees with slots and messages: requests on their way are unanswered, responses say what was answered,
      and so do the slots of completed operations. */
  predicate Booked(w: World, book: seq<Operation>)
    requires |w.ch.slots| == |w.ch.free|
  {
    && |book| == w.ch.nextSeq && (forall x | 0 <= x < |w.ch.slots| :: SlotBooked(w.ch, book, x))
    && AllRequested(book, w.net.requests) && AllRequested(book, w.net.serving) && AllResponded(book, w.net.responses)
  }

  // ---------- what each step keeps ----------

  lemma PrepareBooked(w: World, book: seq<Operation>, kind: nat, length: nat)
    requires Inv(w) && Booked(w, book)
    ensures Booked(w.(ch := Prepare(w.ch, kind, length)), Noted(book, w, Prepares(kind, length)))
  {
    NextFreeFinds(w.ch.free, w.ch.hint);
    var c, book' := Prepare(w.ch, kind, length), Noted(book, w, Prepares(kind, length));
    forall x | 0 <= x < |c.slots| ensures SlotBooked(c, book', x) {
      assert SlotBooked(w.ch, book, x);
    }
  }

  lemma SubmitBooked(w: World, book: seq<Operation>, ops: seq<nat>)
    requires Inv(w) && Booked(w, book) && Submittable(w.ch, ops) && |w.net.requests| <= w.net.capacity
    ensures Booked(Submit(w, ops), book)
  {
    var c := Submit(w, ops).ch;
    forall x | 0 <= x < |c.slots| ensures SlotBooked(c, book, x) {
      MarkedAt(w.ch.slots, ops, x);
      assert SlotBooked(w.ch, book, x);
    }
    var got := ops[..Least(|ops|, w.net.capacity - |w.net.requests|)];
    SentWhat(w.net.requests, w.net.capacity, w.ch.slots, ops);
    forall m | m in Msgs(w.ch.slots, got) ensures Requested(book, m) {
      var i :| 0 <= i < |got| && Msgs(w.ch.slots, got)[i] == m;
      assert SlotFine(w.ch, got[i]) && SlotBooked(w.ch, book, got[i]);
    }
  }

  /** The sequence number of a request the server holds is that of its slot, which is in progress, and of no other
      slot or message. */
  lemma ServedAlone(w: World, i: nat)
    requires Inv(w) && i < |w.net.serving|
    ensures var m := w.net.serving[i];
            && Expected(w.ch, m) && w.ch.slots[m.slot].state.InProgress? && !w.ch.free[m.slot]
            && (forall x | 0 <= x < |w.ch.slots| && !w.ch.free[x] && x != m.slot :: w.ch.slots[x].msg.seqNo != m.seqNo)
            && (forall u | u in w.net.requests || u in Without(w.net.serving, i) || u in w.net.responses ::
                  u.seqNo != m.seqNo)
  {
    var n, m := w.net, w.net.serving[i];
    assert Expected(w.ch, m);
    CountWithout(n.serving, i, m.slot);
    assert Alive(n, m.slot) == 1;
    assert SlotFine(w.ch, m.slot);
    var n' := n.(serving := Without(n.serving, i));
    NoneAlive(n', m.slot);
    forall u | u in n'.requests || u in n'.serving || u in n'.responses ensures u.seqNo != m.seqNo {
      OtherSlot(w, u, m.slot);
    }
  }

  /** A message alive for another slot has another sequence number. */
  lemma OtherSlot(w: World, u: Msg, x: nat)
    requires Inv(w) && x < |w.ch.slots| && !w.ch.free[x] && u.slot != x
    requires u in w.net.requests || u in w.net.serving || u in w.net.responses
    ensures u.seqNo != w.ch.slots[x].msg.seqNo
  {
    assert Expected(w.ch, u);
    if w.ch.free[u.slot] {
      assert SlotFine(w.ch, u.slot);
      NoneAlive(w.net, u.slot);
      assert false;
    }
  }

  lemma AnswerBooked(w: World, book: seq<Operation>, i: nat, status: nat, length: nat)
    requires Inv(w) && Booked(w, book) && i < |w.net.serving| && |w.net.responses| < w.net.capacity
    ensures Booked(w.(net := Respond(w.net, i, status, length)), Noted(book, w, ServerAnswers(i, status, length)))
  {
    var m, book' := w.net.serving[i], Noted(book, w, ServerAnswers(i, status, length));
    ServedAlone(w, i);
    assert m in w.net.serving;
    forall x | 0 <= x < |w.ch.slots| ensures SlotBooked(w.ch, book', x) {
      assert SlotBooked(w.ch, book, x);
    }
    assert forall u | u in Without(w.net.serving, i) :: u in w.net.serving;
  }

  lemma ReceiveBooked(w: World, book: seq<Operation>)
    requires Inv(w) && Booked(w, book) && w.net.responses != [] && w.net.responses[0].slot < |w.ch.slots|
    ensures Booked(World(Receive(w.ch, w.net.responses[0]), w.net.(responses := w.net.responses[1..])), book)
  {
    var m := w.net.responses[0];
    var c := Receive(w.ch, m);
    ReceiveInv(w);
    assert SlotFine(w.ch, m.slot);
    forall x | 0 <= x < |c.slots| ensures SlotBooked(c, book, x) {
      assert SlotBooked(w.ch, book, x);
    }
    assert forall u | u in w.net.responses[1..] :: u in w.net.responses;
  }

  lemma {:induction false} FetchBooked(w: World, book: seq<Operation>)
    requires Inv(w) && Booked(w, book)
    requires forall i | 0 <= i < |w.net.responses| :: w.net.responses[i].slot < |w.ch.slots|
    ensures |ReceiveAll(w.ch, w.net.responses).free| == |w.ch.free|
    ensures Booked(World(ReceiveAll(w.ch, w.net.responses), w.net.(responses := [])), book)
    decreases |w.net.responses|
  {
    var ms := w.net.responses;
    if ms == [] {
      assert w.net.(responses := []) == w.net;
    } else {
      ReceiveInv(w);
      ReceiveBooked(w, book);
      assert forall i | 0 <= i < |ms[1..]| :: ms[1..][i] == ms[i + 1];
      FetchBooked(World(Receive(w.ch, ms[0]), w.net.(responses := ms[1..])), book);
    }
  }

  predicate SlotKept(a: Slot, b: Slot) {
    b == a || (a.state.Completed? && b == a.(state := Ended))
  }

  /** Slots are given back, or change nothing but that their result is claimed. */
  lemma ReportBooked(w: World, book: seq<Operation>, c: Chan)
    requires Inv(w) && Booked(w, book) && |c.slots| == |w.ch.slots| == |c.free| && c.nextSeq == w.ch.nextSeq
    requires forall x | 0 <= x < |c.slots| :: c.free[x] || SlotKept(w.ch.slots[x], c.slots[x])
    requires forall x | 0 <= x < |c.slots| && w.ch.free[x] :: c.free[x]
    ensures Booked(w.(ch := c), book)
  {
    forall x | 0 <= x < |c.slots| ensures SlotBooked(c, book, x) {
      assert SlotBooked(w.ch, book, x) && SlotFine(w.ch, x);
    }
  }

  lemma StepBooked(w: World, e: Event, w': World, book: seq<Operation>)
    requires Safe(w) && |w.ch.slots| <= w.net.capacity && Took(w, e, w') && Booked(w, book)
    ensures |w'.ch.slots| == |w'.ch.free| && Booked(w', Noted(book, w, e))
  {
    match e
    case Prepares(kind, length) => PrepareBooked(w, book, kind, length);
    case Submits(ops) => SubmitBooked(w, book, ops);
    case ServerTakes => assert w.net.requests == [w.net.requests[0]] + w.net.requests[1..];
    case ServerAnswers(i, status, length) => AnswerBooked(w, book, i, status, length);
    case Polls(most) =>
      FetchAllInv(w);
      if w.ch.cpl == [] {
        FetchBooked(w, book);
      }
      ReportBooked(Fetched(w), book, w'.ch);
    case Claims(id) => ReportBooked(w, book, w'.ch);
    case Destroys(id) => ReportBooked(w, book, w'.ch);
  }

  lemma {:induction false} HistoryBooked(run: seq<World>, events: seq<Event>, i: nat)
    requires History(run, events) && |run[0].ch.slots| <= run[0].net.capacity && i <= |events|
    ensures |run[i].ch.slots| == |run[i].ch.free| && Booked(run[i], Book(run, events, i))
    decreases i
  {
    if i > 0 {
      HistoryBooked(run, events, i - 1);
      HistorySafe(run, events, i - 1);
      assert TookAt(run, events, i - 1);
      StepBooked(run[i - 1], events[i - 1], run[i], Book(run, events, i - 1));
    }
  }

  // ---------- what the book says about the events ----------

  /** Event `j` is the server's answer to the operation numbered `q`. */
  ghost predicate Answers(run: seq<World>, events: seq<Event>, j: nat, q: nat)
    requires |run| == |events| + 1 && j < |events|
  {
    && events[j].ServerAnswers? && events[j].which < |run[j].net.serving|
    && run[j].net.serving[events[j].which].seqNo == q
  }

  /** Event `j` prepares the operation numbered `q`, in its slot. */
  ghost predicate PreparesOp(run: seq<World>, events: seq<Event>, j: nat, q: nat, op: Operation)
    requires |run| == |events| + 1 && j < |events|
  {
    && events[j] == Prepares(op.kind, op.length) && run[j].ch.nextSeq == q && run[j].ch.hint <= |run[j].ch.free|
    && NextFree(run[j].ch.free, run[j].ch.hint) == op.slot < |run[j].ch.slots|
  }

  /** An operation in the book was prepared by one event, and answered by the one event whose answer the book has, or by
      none. */
  ghost predicate Recorded(run: seq<World>, events: seq<Event>, i: nat, q: nat, op: Operation)
    requires |run| == |events| + 1 && i <= |events|
  {
    && (exists k | 0 <= k < i :: PreparesOp(run, events, k, q, op))
    && (forall j | 0 <= j < i && Answers(run, events, j, q) ::
          op.answer == Some(Answer(events[j].status, events[j].length)))
    && (forall j, k | 0 <= j < k < i :: !(Answers(run, events, j, q) && Answers(run, events, k, q)))
    && (op.answer.Some? ==> exists j | 0 <= j < i :: Answers(run, events, j, q))
  }

  /** An event leaves the other operations in the book as they were, and answers only what was not answered yet. */
  lemma NotedAt(run: seq<World>, events: seq<Event>, i: nat, q: nat)
    requires History(run, events) && |run[0].ch.slots| <= run[0].net.capacity && i < |events|
    requires q < |Book(run, events, i)|
    ensures q < |Book(run, events, i + 1)|
    ensures var a, b := Book(run, events, i)[q], Book(run, events, i + 1)[q];
            if Answers(run, events, i, q)
            then a.answer.None? && b == a.(answer := Some(Answer(events[i].status, events[i].length)))
            else b == a
  {
    HistoryBooked(run, events, i);
    assert TookAt(run, events, i);
    if Answers(run, events, i, q) {
      assert run[i].net.serving[events[i].which] in run[i].net.serving;
    }
  }

  lemma RecordedOn(run: seq<World>, events: seq<Event>, i: nat, q: nat, a: Operation, b: Operation)
    requires |run| == |events| + 1 && i < |events| && Recorded(run, events, i, q, a)
    requires if Answers(run, events, i, q)
             then a.answer.None? && b == a.(answer := Some(Answer(events[i].status, events[i].length)))
             else b == a
    ensures Recorded(run, events, i + 1, q, b)
  {
    var k :| 0 <= k < i && PreparesOp(run, events, k, q, a);
    assert PreparesOp(run, events, k, q, b);
    if Answers(run, events, i, q) {
      assert forall j | 0 <= j < i :: !Answers(run, events, j, q);
    }
  }

  lemma {:induction false} BookRecords(run: seq<World>, events: seq<Event>, i: nat, q: nat)
    requires History(run, events) && |run[0].ch.slots| <= run[0].net.capacity && i <= |events|
    requires q < |Book(run, events, i)|
    ensures Recorded(run, events, i, q, Book(run, events, i)[q])
    decreases i
  {
    if i > 0 {
      var p := i - 1;
      if q < |Book(run, events, p)| {
        BookRecords(run, events, p, q);
        OldRecord(run, events, p, q);
      } else {
        NewRecord(run, events, p, q);
      }
    }
  }

  /** An operation that was in the book already. */
  lemma OldRecord(run: seq<World>, events: seq<Event>, i: nat, q: nat)
    requires History(run, events) && |run[0].ch.slots| <= run[0].net.capacity && i < |events|
    requires q < |Book(run, events, i)| && Recorded(run, events, i, q, Book(run, events, i)[q])
    ensures q < |Book(run, events, i + 1)| && Recorded(run, events, i + 1, q, Book(run, events, i + 1)[q])
  {
    NotedAt(run, events, i, q);
    RecordedOn(run, events, i, q, Book(run, events, i)[q], Book(run, events, i + 1)[q]);
  }

  /** An operation just prepared. */
  lemma NewRecord(run: seq<World>, events: seq<Event>, i: nat, q: nat)
    requires History(run, events) && |run[0].ch.slots| <= run[0].net.capacity && i < |events|
    requires |Book(run, events, i)| <= q < |Book(run, events, i + 1)|
    ensures Recorded(run, events, i + 1, q, Book(run, events, i + 1)[q])
  {
    HistoryBooked(run, events, i);
    assert TookAt(run, events, i);
    NextFreeFinds(run[i].ch.free, run[i].ch.hint);
    NotYet(run, events, i, q);
    assert PreparesOp(run, events, i, q, Book(run, events, i + 1)[q]);
  }

  /** An operation that is not in the book has not been answered. */
  lemma {:induction false} NotYet(run: seq<World>, events: seq<Event>, i: nat, q: nat)
    requires History(run, events) && |run[0].ch.slots| <= run[0].net.capacity && i <= |events|
    requires q >= |Book(run, events, i)|
    ensures forall j | 0 <= j < i :: !Answers(run, events, j, q)
    decreases i
  {
    if i > 0 {
      var p := i - 1;
      assert |Book(run, events, p)| <= |Book(run, events, i)|;
      NotYet(run, events, p, q);
      if Answers(run, events, p, q) {
        ServedAsBooked(run, events, p, q);
      }
    }
  }

  /** A client that claims a result gets what the server answered: the operation in that slot was prepared by one event,
      and answered by exactly one later one. The request the server then held was what had been prepared, and the result
      has the status and the length of data the server gave. */
  lemma ClaimedIsAnswered(run: seq<World>, events: seq<Event>, i: nat, id: nat)
    returns (k: nat, j: nat, op: Operation)
    requires History(run, events) && |run[0].ch.slots| <= run[0].net.capacity && i < |events|
    requires events[i] == Claims(id) && id < |run[i].ch.slots| && run[i].ch.slots[id].state.Completed?
    ensures var m := run[i].ch.slots[id].msg;
            && op.slot == id && k < j < i && PreparesOp(run, events, k, m.seqNo, op)
            && Answers(run, events, j, m.seqNo)
            && run[j].net.serving[events[j].which] == RequestOf(m.seqNo, op)
            && m == RequestOf(m.seqNo, op).(status := events[j].status, length := events[j].length)
            && forall l | 0 <= l < i && Answers(run, events, l, m.seqNo) :: l == j
  {
    HistoryBooked(run, events, i);
    HistorySafe(run, events, i);
    var book, m := Book(run, events, i), run[i].ch.slots[id].msg;
    assert SlotFine(run[i].ch, id) && SlotBooked(run[i].ch, book, id);
    var q := m.seqNo;
    BookRecords(run, events, i, q);
    j :| 0 <= j < i && Answers(run, events, j, q);
    ServedAsBooked(run, events, j, q);
    BookRecords(run, events, j, q);
    op := Book(run, events, j)[q];
    k :| 0 <= k < j && PreparesOp(run, events, k, q, op);
    BookGrows(run, events, j, i, q);
  }

  /** What the server answers is the request as it stands in the book. */
  lemma ServedAsBooked(run: seq<World>, events: seq<Event>, j: nat, q: nat)
    requires History(run, events) && |run[0].ch.slots| <= run[0].net.capacity && j < |events|
    requires Answers(run, events, j, q)
    ensures q < |Book(run, events, j)|
    ensures run[j].net.serving[events[j].which] == RequestOf(q, Book(run, events, j)[q])
  {
    HistoryBooked(run, events, j);
    assert run[j].net.serving[events[j].which] in run[j].net.serving;
  }

  predicate SameRequest(a: Operation, b: Operation) {
    a.(answer := None) == b.(answer := None)
  }

  /** Only the answer of an operation is ever added to the book. */
  lemma {:induction false} BookGrows(run: seq<World>, events: seq<Event>, j: nat, i: nat, q: nat)
    requires History(run, events) && |run[0].ch.slots| <= run[0].net.capacity && j <= i <= |events|
    requires q < |Book(run, events, j)|
    ensures q < |Book(run, events, i)| && SameRequest(Book(run, events, j)[q], Book(run, events, i)[q])
    decreases i
  {
    if j < i {
      var p := i - 1;
      BookGrows(run, events, j, p, q);
      NotedAt(run, events, p, q);
    }
  }

  // ---------- once each ----------

  /** Operation `q` is over: no slot holds it, unless as ended. */
  predicate Over(w: World, q: nat) {
    q < w.ch.nextSeq && |w.ch.slots| == |w.ch.free|
    && forall x | 0 <= x < |w.ch.slots| && !w.ch.free[x] && w.ch.slots[x].msg.seqNo == q :: w.ch.slots[x].state.Ended?
  }

  lemma {:induction false} FetchOver(w: World, q: nat)
    requires Inv(w) && Over(w, q)
    requires forall i | 0 <= i < |w.net.responses| :: w.net.responses[i].slot < |w.ch.slots|
    ensures Over(w.(ch := ReceiveAll(w.ch, w.net.responses)), q)
    decreases |w.net.responses|
  {
    var ms := w.net.responses;
    if ms != [] {
      ReceiveInv(w);
      assert SlotFine(w.ch, ms[0].slot);
      assert forall i | 0 <= i < |ms[1..]| :: ms[1..][i] == ms[i + 1];
      FetchOver(World(Receive(w.ch, ms[0]), w.net.(responses := ms[1..])), q);
    }
  }

  lemma StepOver(w: World, e: Event, w': World, q: nat)
    requires Safe(w) && Took(w, e, w') && Over(w, q)
    ensures Over(w', q)
  {
    NextFreeFinds(w.ch.free, w.ch.hint);
    match e
    case Submits(ops) =>
      forall x | 0 <= x < |w.ch.slots|
        ensures w'.ch.slots[x] == if x in ops then w.ch.slots[x].(state := InProgress) else w.ch.slots[x]
      {
        MarkedAt(w.ch.slots, ops, x);
      }
    case Polls(most) => FetchOver(w, q);
    case _ =>
  }

  lemma {:induction false} StaysOver(run: seq<World>, events: seq<Event>, i: nat, j: nat, q: nat)
    requires History(run, events) && |run[0].ch.slots| <= run[0].net.capacity && i <= j < |run| && Over(run[i], q)
    ensures Over(run[j], q)
    decreases j
  {
    if i < j {
      var p := j - 1;
      StaysOver(run, events, i, p, q);
      HistorySafe(run, events, p);
      assert TookAt(run, events, p);
      StepOver(run[p], events[p], run[j], q);
    }
  }

  /** No operation's result is handed out twice. */
  lemma ClaimedOnce(run: seq<World>, events: seq<Event>, i: nat, j: nat, x: nat, y: nat)
    requires History(run, events) && |run[0].ch.slots| <= run[0].net.capacity && i < j < |events|
    requires events[i] == Claims(x) && x < |run[i].ch.slots| && run[i].ch.slots[x].state.Completed?
    requires events[j] == Claims(y) && y < |run[j].ch.slots| && run[j].ch.slots[y].state.Completed?
    ensures run[i].ch.slots[x].msg.seqNo != run[j].ch.slots[y].msg.seqNo
  {
    var q := run[i].ch.slots[x].msg.seqNo;
    HistorySafe(run, events, i);
    HistorySafe(run, events, j);
    assert TookAt(run, events, i);
    assert SlotFine(run[i].ch, x) && SlotFine(run[j].ch, y);
    assert Over(run[i + 1], q);
    StaysOver(run, events, i + 1, j, q);
  }

  // ---------- told once ----------

  function SlotList(ms: seq<Msg>): (r: seq<nat>)
    ensures |r| == |ms|
  {
    seq(|ms|, i requires 0 <= i < |ms| => ms[i].slot)
  }

  lemma {:induction false} ReceivedInOrder(c: Chan, ms: seq<Msg>)
    requires forall i | 0 <= i < |ms| :: ms[i].slot < |c.slots|
    ensures ReceiveAll(c, ms).cpl == c.cpl + SlotList(ms)
    decreases |ms|
  {
    if ms != [] {
      ReceivedInOrder(Receive(c, ms[0]), ms[1..]);
      assert SlotList(ms) == [ms[0].slot] + SlotList(ms[1..]);
    }
  }

  lemma {:induction false} ReceivedSlots(c: Chan, ms: seq<Msg>, x: nat)
    requires (forall i | 0 <= i < |ms| :: ms[i].slot < |c.slots|) && x < |c.slots|
    ensures ReceiveAll(c, ms).slots[x].state == if x in SlotList(ms) then Completed else c.slots[x].state
    decreases |ms|
  {
    if ms != [] {
      ReceivedSlots(Receive(c, ms[0]), ms[1..], x);
      assert SlotList(ms) == [ms[0].slot] + SlotList(ms[1..]);
    }
  }

  /** A poll with room for every slot, on a channel with no completion left over, tells of exactly the operations that
      it completes, once each and in the order of their responses, and leaves no completion over. */
  lemma FullPollTells(w: World, most: nat)
    requires Safe(w) && Answerable(w) && w.ch.cpl == [] && |w.ch.slots| <= most
    ensures var told := Fetched(w).ch.cpl;
            && told == SlotList(w.net.responses) && NoRepeats(told) && |told| <= most
            && Reported(Fetched(w).ch, most).cpl == []
            && forall x | 0 <= x < |w.ch.slots| ::
                 x in told <==> w.ch.slots[x].state.InProgress? && Fetched(w).ch.slots[x].state.Completed?
  {
    var ms := w.net.responses;
    ReceivedInOrder(w.ch, ms);
    FetchCpl(w);
    AllFit(w, []);
    forall x: nat | x < |w.ch.slots|
      ensures x in SlotList(ms) <==> w.ch.slots[x].state.InProgress? && Fetched(w).ch.slots[x].state.Completed?
    {
      ReceivedSlots(w.ch, ms, x);
      if x in SlotList(ms) {
        var i :| 0 <= i < |ms| && ms[i].slot == x;
        CountPresent(ms, ms[i]);
      }
    }
  }
}
