/** The transaction pipeline: data I/O completes in any order, metadata commits in the order of arrival, and every
    accepted request gets one callback. A callback may submit further requests before it returns. */
module TxPipeline {
  import opened Common

  datatype Request = ReadRequest(bios: nat) | WriteRequest(bios: nat) | CreateDelete

  datatype State = DataIo | PmTx

  predicate Proper(r: Request) {
    !r.CreateDelete? ==> r.bios > 0
  }

  /** What a user's callbacks do: the n-th of them submits the listed requests before it returns. Every list is
      finite, but nothing bounds their lengths. */
  type Users = f: nat -> seq<Request> | forall n, i | 0 <= i < |f(n)| :: Proper(f(n)[i]) witness (_ => [])

  class Tx {
    const request: Request
    var state: State
    var bios: nat

    constructor (r: Request)
      ensures request == r && state == (if r.CreateDelete? then PmTx else DataIo)
      ensures bios == if r.CreateDelete? then 0 else r.bios
    {
      request := r;
      state := if r.CreateDelete? then PmTx else DataIo;
      bios := if r.CreateDelete? then 0 else r.bios;
    }

    predicate Waiting()
      reads this
    {
      state.DataIo? && bios > 0
    }

    predicate Settled()
      reads this
    {
      state.DataIo? <==> bios > 0
    }

    /** Every data I/O issued for it has completed. */
    predicate Finished()
      reads this
    {
      state.PmTx? && bios == 0
    }
  }

  // ---------- lists of transactions ----------

  predicate AllSettled(s: seq<Tx>)
    reads s
  {
    forall i | 0 <= i < |s| :: s[i].Settled()
  }

  predicate AllWaiting(s: seq<Tx>)
    reads s
  {
    forall i | 0 <= i < |s| :: s[i].Waiting()
  }

  predicate AllFinished(s: seq<Tx>)
    reads s
  {
    forall i | 0 <= i < |s| :: s[i].Finished()
  }

  lemma WithoutOne(s: seq<Tx>, i: nat)
    requires i < |s|
    ensures multiset(Without(s, i)) + multiset{s[i]} == multiset(s)
  {
    assert s == s[..i] + [s[i]] + s[i + 1..];
  }

  lemma FinishedMore(s: seq<Tx>, t: Tx)
    requires AllFinished(s) && t.Finished()
    ensures AllFinished(s + [t])
  {
  }

  /** The head that is ready leaves the list. */
  lemma Leaves(s: seq<Tx>)
    requires AllSettled(s) && s != [] && s[0].state.PmTx?
    ensures AllSettled(s[1..]) && s[0].Finished()
  {
    assert s[0].Settled();
  }

  lemma OthersWaiting(s: seq<Tx>, i: nat)
    requires i < |s| && forall j | 0 <= j < |s| && j != i :: s[j].Waiting()
    ensures AllWaiting(Without(s, i))
  {
  }

  // ---------- the books ----------

  /** Where every accepted transaction is, with the history of arrivals, reads apart, of commits and of callbacks. */
  datatype Ledger = Ledger(txList: seq<Tx>, readList: seq<Tx>, messages: seq<Tx>,
                           all: set<Tx>, arrivals: seq<Tx>, fetches: seq<Tx>, applied: seq<Tx>, called: seq<Tx>)

  predicate OnlyReads(s: seq<Tx>) {
    forall t | t in s :: t.request.ReadRequest?
  }

  predicate NoReads(s: seq<Tx>) {
    forall t | t in s :: !t.request.ReadRequest?
  }

  /** Every transaction is in exactly one place and arrived once; those committed and those queued are the arrivals in
      order. */
  ghost predicate Balanced(l: Ledger) {
    && multiset(l.called) + multiset(l.messages) + multiset(l.txList) + multiset(l.readList) == multiset(l.all)
    && multiset(l.arrivals) + multiset(l.fetches) == multiset(l.all)
    && l.arrivals == l.applied + l.txList
    && OnlyReads(l.fetches) && OnlyReads(l.readList) && NoReads(l.arrivals)
  }

  predicate Grew(a: Ledger, b: Ledger) {
    && a.all <= b.all && a.arrivals <= b.arrivals && a.fetches <= b.fetches
    && a.applied <= b.applied && a.called <= b.called
  }

  lemma GrewOn(a: Ledger, b: Ledger, c: Ledger)
    requires Grew(a, b) && Grew(b, c)
    ensures Grew(a, c)
  {
  }

  /** How often a transaction occurs in the lists and among those called back. */
  ghost function Count(l: Ledger, t: Tx): nat {
    multiset(l.called)[t] + multiset(l.messages)[t] + multiset(l.txList)[t] + multiset(l.readList)[t]
  }

  lemma Placed(l: Ledger, t: Tx)
    requires Balanced(l)
    ensures Count(l, t) == if t in l.all then 1 else 0
    ensures t in l.called || t in l.messages || t in l.txList || t in l.readList ==> t in l.all
    ensures t in l.txList ==> !t.request.ReadRequest?
  {
    assert multiset(l.all)[t] == Count(l, t);
    if t in l.txList {
      assert t in l.arrivals;
    }
  }

  /** A write, create or delete is committed before its user is called or sent a message, and by then one of the two has
      happened. */
  lemma CommittedFirst(l: Ledger, t: Tx)
    requires Balanced(l)
    ensures t in l.applied <==> !t.request.ReadRequest? && (t in l.called || t in l.messages)
  {
    Placed(l, t);
    assert multiset(l.all)[t] == multiset(l.applied)[t] + multiset(l.txList)[t] + multiset(l.fetches)[t];
    if t in l.applied {
      assert t in l.arrivals;
    }
  }

  /** A transaction that joins the list is its head only if the list was empty. */
  lemma HeadAfter(l: Ledger, t: Tx)
    requires Balanced(l) && t !in l.all
    ensures (l.txList + [t])[0] == (if l.txList == [] then t else l.txList[0]) && (l.txList != [] ==> l.txList[0] != t)
  {
    if l.txList != [] {
      Placed(l, l.txList[0]);
    }
  }

  ghost function Arrived(l: Ledger, t: Tx): Ledger {
    var l' := l.(all := l.all + {t});
    if t.request.ReadRequest? then l'.(fetches := l.fetches + [t], readList := l.readList + [t])
    else l'.(arrivals := l.arrivals + [t], txList := l.txList + [t])
  }

  lemma ArrivedBalanced(l: Ledger, t: Tx)
    requires Balanced(l) && t !in l.all
    ensures Balanced(Arrived(l, t))
  {
    assert multiset(l.all + {t}) == multiset(l.all) + multiset{t};
    if !t.request.ReadRequest? {
      assert (l.applied + l.txList) + [t] == l.applied + (l.txList + [t]);
    }
  }

  /** A transaction not accepted yet is nowhere. */
  lemma Newcomer(l: Ledger, t: Tx)
    requires Balanced(l) && t !in l.all
    ensures t !in Arrived(l, t).called && t !in Arrived(l, t).applied
  {
    Placed(l, t);
    CommittedFirst(l, t);
  }

  /** The head commits, and its user is called, or sent a message if the request never left the thread. */
  ghost function Committed(l: Ledger): Ledger
    requires l.txList != []
  {
    var t := l.txList[0];
    var l' := l.(applied := l.applied + [t], txList := l.txList[1..]);
    if t.request.CreateDelete? then l'.(messages := l.messages + [t]) else l'.(called := l.called + [t])
  }

  lemma CommittedBalanced(l: Ledger)
    requires Balanced(l) && l.txList != []
    ensures Balanced(Committed(l)) && Grew(l, Committed(l))
  {
    var t, rest := l.txList[0], l.txList[1..];
    assert l.txList == [t] + rest;
    assert multiset(l.txList) == multiset{t} + multiset(rest);
    assert (l.applied + [t]) + rest == l.applied + ([t] + rest);
  }

  /** The head has committed, and more may have happened since; with no more than a create or delete in the list,
      nothing more has. */
  ghost predicate LedTo(a: Ledger, b: Ledger) {
    && a.txList != [] && Grew(Committed(a), b)
    && (a.txList[0].request.CreateDelete? && |a.txList| == 1 ==> b == Committed(a))
  }

  lemma LedOn(a: Ledger, b: Ledger, c: Ledger)
    requires a.txList != [] && Grew(Committed(a), b) && Grew(b, c)
    requires a.txList[0].request.CreateDelete? ==> b == Committed(a)
    requires b.txList == [] ==> c == b
    ensures LedTo(a, c) && Grew(a, c)
  {
  }

  ghost function ReadEnded(l: Ledger, i: nat): Ledger
    requires i < |l.readList|
  {
    l.(readList := Without(l.readList, i), called := l.called + [l.readList[i]])
  }

  lemma ReadEndedBalanced(l: Ledger, i: nat)
    requires Balanced(l) && i < |l.readList|
    ensures Balanced(ReadEnded(l, i)) && Grew(l, ReadEnded(l, i))
    ensures forall j | 0 <= j < |l.readList| && j != i :: l.readList[j] != l.readList[i]
  {
    var t, l' := l.readList[i], ReadEnded(l, i);
    WithoutOne(l.readList, i);
    Placed(l', t);
    assert multiset(l'.called)[t] >= 1;
    forall j | 0 <= j < |l.readList| && j != i ensures l.readList[j] != t {
      assert l.readList[j] == Without(l.readList, i)[if j < i then j else j - 1];
    }
  }

  ghost function Delivered(l: Ledger): Ledger
    requires l.messages != []
  {
    l.(messages := l.messages[1..], called := l.called + [l.messages[0]])
  }

  lemma DeliveredBalanced(l: Ledger)
    requires Balanced(l) && l.messages != []
    ensures Balanced(Delivered(l))
  {
    assert l.messages == [l.messages[0]] + l.messages[1..];
    assert multiset(l.messages) == multiset{l.messages[0]} + multiset(l.messages[1..]);
  }

  /** Each accepted request is called back at most once, and exactly once when nothing is left in the pipeline: then the
      commits are all the accepted writes, creates and deletes, in the order they came. */
  lemma CalledExactlyOnce(l: Ledger)
    requires Balanced(l)
    ensures forall t | t in l.called :: t in l.all && multiset(l.called)[t] == 1
    ensures l.messages == l.txList == l.readList == [] ==>
              multiset(l.called) == multiset(l.arrivals) + multiset(l.fetches) && l.applied == l.arrivals
  {
    forall t | t in l.called ensures multiset(l.called)[t] == 1 && t in l.all {
      Placed(l, t);
    }
    if l.messages == l.txList == l.readList == [] {
      assert l.applied + [] == l.applied;
    }
  }

  /** How many requests the first `n` callbacks submit. */
  ghost function Scripted(users: Users, n: nat): nat {
    if n == 0 then 0 else Scripted(users, n - 1) + |users(n - 1)|
  }

  // ---------- transactions ready to commit ----------

  predicate ReadyWrite(t: Tx)
    reads t
  {
    t.request.WriteRequest? && t.state.PmTx?
  }

  /** The writes whose data is stored. Only they are called back from inside the commit loop. */
  ghost function ReadyWrites(s: seq<Tx>): nat
    reads s
  {
    if s == [] then 0 else ReadyWrites(s[..|s| - 1]) + if ReadyWrite(s[|s| - 1]) then 1 else 0
  }

  lemma {:induction false} ReadyAppend(s: seq<Tx>, t: Tx)
    ensures ReadyWrites(s + [t]) == ReadyWrites(s) + if ReadyWrite(t) then 1 else 0
  {
    assert (s + [t])[..|s|] == s;
  }

  lemma {:induction false} ReadyFirst(s: seq<Tx>)
    requires s != []
    ensures ReadyWrites(s) == ReadyWrites(s[1..]) + if ReadyWrite(s[0]) then 1 else 0
    decreases |s|
  {
    if |s| > 1 {
      ReadyFirst(s[..|s| - 1]);
      assert s[..|s| - 1][1..] == s[1..][..|s| - 2];
    }
  }

  class Pipeline {
    const users: Users
    var calls: nat
    var txList: seq<Tx>
    var txCount: nat
    var readList: seq<Tx>
    var readCount: nat
    var messages: seq<Tx>
    ghost var books: Ledger
    ghost var given: nat
    ghost var pending: seq<Request>

    /** The books are kept, and agree with the lists and with what the transactions say: whatever has been called back
        or sent a message has no data I/O outstanding. */
    ghost predicate Kept()
      reads this, txList, readList, messages, books.called
    {
      && txCount == |txList| && readCount == |readList|
      && books.txList == txList && books.readList == readList && books.messages == messages && Balanced(books)
      && AllSettled(txList) && AllWaiting(readList) && AllFinished(messages) && AllFinished(books.called)
    }

    /** As many requests were accepted as were submitted from outside and by the first `n` callbacks, but for those that
        running callbacks have yet to submit. */
    ghost predicate Submitted(n: nat)
      reads this
    {
      |books.arrivals| + |books.fetches| + |pending| == given + Scripted(users, n)
    }

    /** One callback was made for each transaction called back. */
    ghost predicate Core()
      reads this, txList, readList, messages, books.called
    {
      Kept() && calls == |books.called| && Submitted(calls)
    }

    /** All is in order but for one callback: that of `t`, which has left its list. */
    ghost predicate Owes(t: Tx)
      reads this, txList, readList, messages, books.called
    {
      Kept() && calls + 1 == |books.called| && books.called[calls] == t && Submitted(calls)
    }

    /** No transaction at the head is ready to commit. */
    ghost predicate HeadWaits()
      reads this, txList
    {
      txList != [] ==> txList[0].state.DataIo?
    }

    /** Between events: nothing that could commit is left uncommitted, and no callback has anything left to submit. */
    ghost predicate Valid()
      reads this, txList, readList, messages, books.called
    {
      Core() && HeadWaits() && pending == []
    }

    constructor (users: Users)
      ensures Valid() && books == Ledger([], [], [], {}, [], [], [], []) && given == 0 && this.users == users
    {
      this.users := users;
      calls := 0;
      txList, txCount, readList, readCount, messages := [], 0, [], 0, [];
      books, given, pending := Ledger([], [], [], {}, [], [], [], []), 0, [];
    }

    /** The transaction joins the end of its list: the next request to be submitted has been. */
    method Enqueue(t: Tx)
      requires Core() && t !in books.all && t.Settled() && pending != [] && t.request == pending[0]
      requires t.request.ReadRequest? ==> t.Waiting()
      modifies this`txList, this`txCount, this`readList, this`readCount, this`books, this`pending
      ensures Core() && books == Arrived(old(books), t) && pending == old(pending)[1..]
    {
      if t.request.ReadRequest? {
        EnqueueRead(t);
      } else {
        EnqueueTx(t);
      }
    }

    method EnqueueRead(t: Tx)
      requires Core() && t !in books.all && pending != [] && t.request == pending[0]
      requires t.request.ReadRequest? && t.Waiting()
      modifies this`readList, this`readCount, this`books, this`pending
      ensures Core() && books == Arrived(old(books), t) && pending == old(pending)[1..]
    {
      ArrivedBalanced(books, t);
      books, pending := Arrived(books, t), pending[1..];
      readList := readList + [t];
      readCount := readCount + 1;
    }

    method EnqueueTx(t: Tx)
      requires Core() && t !in books.all && pending != [] && t.request == pending[0]
      requires !t.request.ReadRequest? && t.Settled()
      modifies this`txList, this`txCount, this`books, this`pending
      ensures Core() && books == Arrived(old(books), t) && pending == old(pending)[1..]
    {
      ArrivedBalanced(books, t);
      books, pending := Arrived(books, t), pending[1..];
      txList := txList + [t];
      txCount := txCount + 1;
    }

    /** A request from outside. */
    method Arrive(r: Request) returns (ghost t: Tx)
      requires Valid() && Proper(r)
      modifies this
      ensures Valid() && fresh(t) && t.request == r && given == old(given) + 1
      ensures var l := Arrived(old(books), t);
              books == if r.CreateDelete? && old(txList) == [] then Committed(l) else l
      ensures !r.CreateDelete? ==> t.state.DataIo? && t.bios == r.bios && t !in books.called && t !in books.applied
    {
      given, pending := given + 1, [r];
      assert pending[1..] == [];
      t := Submit(r);
    }

    /** An accepted request: enqueued, then its data I/O is issued, or its metadata step runs at once. A read or a
        write only joins its list, with all its I/O outstanding. A create or delete waits behind what is there; on an
        empty list it commits at once, and its user is sent a message. */
    method Submit(r: Request) returns (ghost t: Tx)
      requires Core() && Proper(r) && pending != [] && r == pending[0]
      modifies this
      ensures Core() && pending == old(pending)[1..] && given == old(given)
      ensures fresh(books.all - old(books).all) && fresh(t) && t.request == r
      ensures var l := Arrived(old(books), t);
              books == if r.CreateDelete? && old(txList) == [] then Committed(l) else l
      ensures !r.CreateDelete? ==> t.state.DataIo? && t.bios == r.bios && t !in books.called && t !in books.applied
      ensures old(HeadWaits()) ==> HeadWaits()
      ensures ReadyWrites(txList) <= old(ReadyWrites(txList))
      decreases ReadyWrites(txList), 3, 1
    {
      if r.CreateDelete? {
        t := SubmitNow(r);
      } else {
        var tx := Accept(r);
        t := tx;
      }
    }

    /** An operation without data I/O goes to its metadata step at once. */
    method SubmitNow(r: Request) returns (ghost t: Tx)
      requires Core() && r.CreateDelete? && pending != [] && r == pending[0]
      modifies this
      ensures Core() && pending == old(pending)[1..] && given == old(given)
      ensures fresh(books.all - old(books).all) && fresh(t) && t.request == r
      ensures var l := Arrived(old(books), t); books == if old(txList) == [] then Committed(l) else l
      ensures old(HeadWaits()) ==> HeadWaits()
      ensures ReadyWrites(txList) <= old(ReadyWrites(txList))
      decreases ReadyWrites(txList), 3, 0
    {
      var tx := Accept(r);
      t := tx;
      HeadAfter(old(books), tx);
      Metadata(tx);
    }

    /** A new transaction joins its list. It is no ready write. */
    method Accept(r: Request) returns (tx: Tx)
      requires Core() && Proper(r) && pending != [] && r == pending[0]
      modifies this`txList, this`txCount, this`readList, this`readCount, this`books, this`pending
      ensures Core() && fresh(tx) && tx.request == r && books == Arrived(old(books), tx) && pending == old(pending)[1..]
      ensures tx !in old(books).all && tx !in books.called && tx !in books.applied
      ensures tx.state == (if r.CreateDelete? then PmTx else DataIo) && tx.bios == if r.CreateDelete? then 0 else r.bios
      ensures ReadyWrites(txList) == old(ReadyWrites(txList))
    {
      tx := new Tx(r);
      Newcomer(books, tx);
      ReadyAppend(txList, tx);
      Enqueue(tx);
    }

    /** The metadata step of a write, create or delete, whose state says already that it is ready: only the head of the
        list starts the commit loop. */
    method Metadata(t: Tx)
      requires Core() && t in txList && t.bios == 0
      modifies this
      ensures Core() && Grew(old(books), books) && pending == old(pending) && given == old(given)
      ensures fresh(books.all - old(books).all)
      ensures if old(txList[0]) == t then HeadWaits() && LedTo(old(books), books) else books == old(books)
      ensures ReadyWrites(txList) <= old(ReadyWrites(txList))
      decreases ReadyWrites(txList), 2
    {
      if txList[0] == t {
        Drain();
      }
    }

    /** Commits from the head as long as the head is ready. It ends although callbacks submit as much as they like: each
        callback made from here uses up a write that was ready, and what callbacks submit is no ready write. */
    method Drain()
      requires Core() && txList != [] && txList[0].state.PmTx?
      modifies this
      ensures Core() && HeadWaits() && Grew(old(books), books) && pending == old(pending) && given == old(given)
      ensures fresh(books.all - old(books).all) && LedTo(old(books), books)
      ensures ReadyWrites(txList) <= old(ReadyWrites(txList))
      decreases ReadyWrites(txList), 1, 1
    {
      ghost var l0 := books;
      ApplyHead();
      ghost var l1 := books;
      DrainReady();
      LedOn(l0, l1, books);
    }

    method DrainReady()
      requires Core()
      modifies this
      ensures Core() && HeadWaits() && Grew(old(books), books) && pending == old(pending) && given == old(given)
      ensures fresh(books.all - old(books).all)
      ensures old(txList) == [] ==> books == old(books)
      ensures ReadyWrites(txList) <= old(ReadyWrites(txList))
      decreases ReadyWrites(txList), 1, 0
    {
      ghost var l0 := books;
      while txList != [] && txList[0].state.PmTx?
        invariant Core() && Grew(l0, books) && pending == old(pending) && given == old(given)
        invariant fresh(books.all - l0.all)
        invariant l0.txList == [] ==> books == l0
        invariant ReadyWrites(txList) <= old(ReadyWrites(txList))
        decreases ReadyWrites(txList), |txList|
      {
        ghost var l1 := books;
        ApplyHead();
        GrewOn(l0, l1, books);
      }
    }

    /** One commit: the head is applied, leaves the list, and its user is called or sent a message. */
    method ApplyHead()
      requires Core() && txList != [] && txList[0].state.PmTx?
      modifies this
      ensures Core() && Grew(old(books), books) && pending == old(pending) && given == old(given)
      ensures fresh(books.all - old(books).all) && Grew(Committed(old(books)), books)
      ensures old(txList[0]).request.CreateDelete? ==> books == Committed(old(books))
      ensures if old(txList[0]).request.CreateDelete?
              then ReadyWrites(txList) == old(ReadyWrites(txList)) && |txList| < old(|txList|)
              else ReadyWrites(txList) < old(ReadyWrites(txList))
      decreases ReadyWrites(txList), 0
    {
      ReadyFirst(txList);
      ghost var l0 := books;
      var t := TakeHead();
      ghost var l1 := books;
      if !t.request.CreateDelete? {
        UserCallback(t);
        GrewOn(l0, l1, books);
      }
    }

    /** The head leaves the list: its user is sent a message, or is owed a callback. */
    method TakeHead() returns (t: Tx)
      requires Core() && txList != [] && txList[0].state.PmTx?
      modifies this`txList, this`txCount, this`messages, this`books
      ensures t == old(txList[0]) && txList == old(txList)[1..] && books == Committed(old(books))
      ensures Grew(old(books), books)
      ensures if t.request.CreateDelete? then Core() else Owes(t)
    {
      t := txList[0];
      DropHead();
      if t.request.CreateDelete? {
        SendMessage(t);
      }
    }

    /** The user's callback is queued. */
    method SendMessage(t: Tx)
      requires txCount == |txList| && readCount == |readList| && books.txList == txList && books.readList == readList
      requires Balanced(books) && AllSettled(txList) && AllWaiting(readList) && AllFinished(books.called)
      requires books.messages == messages + [t] && AllFinished(messages) && t.Finished()
      requires calls == |books.called| && Submitted(calls)
      modifies this`messages
      ensures Core()
    {
      FinishedMore(messages, t);
      messages := messages + [t];
    }

    /** The head leaves its list. */
    method DropHead()
      requires txCount == |txList| && books.txList == txList && books.readList == readList && Balanced(books)
      requires AllSettled(txList) && AllFinished(books.called) && txList != [] && txList[0].state.PmTx?
      modifies this`txList, this`txCount, this`books
      ensures txList == old(txList)[1..] && txCount == |txList| && books == Committed(old(books))
      ensures Balanced(books) && AllSettled(txList) && old(txList[0]).Finished() && AllFinished(books.called)
      ensures books.readList == readList && Grew(old(books), books)
    {
      CommittedBalanced(books);
      Leaves(txList);
      FinishedMore(books.called, txList[0]);
      books := Committed(books);
      txCount := txCount - 1;
      txList := txList[1..];
    }

    /** The callback of a user: whatever it submits runs before it returns. */
    method UserCallback(t: Tx)
      requires Owes(t)
      modifies this
      ensures Core() && Grew(old(books), books) && pending == old(pending) && given == old(given)
      ensures fresh(books.all - old(books).all)
      ensures old(HeadWaits()) ==> HeadWaits()
      ensures ReadyWrites(txList) <= old(ReadyWrites(txList))
      decreases ReadyWrites(txList), 4
    {
      var requests := users(calls);
      StartCallback(t);
      RunScript(requests, old(pending));
    }

    /** What a callback submits, in order. */
    method RunScript(requests: seq<Request>, ghost rest: seq<Request>)
      requires Core() && pending == requests + rest && forall i | 0 <= i < |requests| :: Proper(requests[i])
      modifies this
      ensures Core() && Grew(old(books), books) && pending == rest && given == old(given)
      ensures fresh(books.all - old(books).all)
      ensures old(HeadWaits()) ==> HeadWaits()
      ensures ReadyWrites(txList) <= old(ReadyWrites(txList))
      decreases ReadyWrites(txList), 3, 3
    {
      ghost var l0 := books;
      assert requests[0..] == requests;
      for i := 0 to |requests|
        invariant Core() && Grew(l0, books) && fresh(books.all - l0.all) && given == old(given)
        invariant pending == requests[i..] + rest
        invariant old(HeadWaits()) ==> HeadWaits()
        invariant ReadyWrites(txList) <= old(ReadyWrites(txList))
      {
        assert requests[i..] == [requests[i]] + requests[i + 1..];
        SubmitAfter(l0, requests[i]);
      }
    }

    /** One more submission, since `l0`. */
    method SubmitAfter(ghost l0: Ledger, r: Request)
      requires Core() && Proper(r) && pending != [] && r == pending[0] && Grew(l0, books)
      modifies this
      ensures Core() && Grew(l0, books) && pending == old(pending)[1..] && given == old(given)
      ensures fresh(books.all - old(books).all)
      ensures old(HeadWaits()) ==> HeadWaits()
      ensures ReadyWrites(txList) <= old(ReadyWrites(txList))
      decreases ReadyWrites(txList), 3, 2
    {
      ghost var t := Submit(r);
      GrewOn(l0, old(books), books);
    }

    /** The callback begins: it has all its requests to submit. */
    method StartCallback(t: Tx)
      requires Owes(t)
      modifies this`calls, this`pending
      ensures Core() && calls == old(calls) + 1 && pending == users(old(calls)) + old(pending)
    {
      pending := users(calls) + pending;
      calls := calls + 1;
    }

    /** One data I/O of a transaction completes. After the last one a read is called back, the head of the list commits,
        and any other transaction waits for the head. */
    method BioDone(t: Tx)
      requires Valid() && (t in txList || t in readList)
      requires t.bios > 0
      modifies this, t
      ensures Valid() && Grew(old(books), books) && given == old(given) && t.bios == old(t.bios) - 1
      ensures old(t.bios) > 1 ==> books == old(books) && t.state.DataIo?
      ensures old(t.bios) == 1 && old(t in readList) ==>
        t !in readList && t !in txList && old(books).called + [t] <= books.called
      ensures old(t.bios) == 1 && old(t in txList) ==>
        if old(txList[0]) == t then LedTo(old(books), books) else books == old(books) && t.state.PmTx?
    {
      Placed(books, t);
      if t.request.ReadRequest? {
        ReadBioDone(t);
      } else {
        TxBioDone(t);
      }
    }

    method TxBioDone(t: Tx)
      requires Valid() && t in txList
      requires t.bios > 0
      modifies this, t
      ensures Valid() && Grew(old(books), books) && given == old(given) && t.bios == old(t.bios) - 1
      ensures old(t.bios) > 1 ==> books == old(books) && t.state.DataIo?
      ensures old(t.bios) == 1 ==>
        if old(txList[0]) == t then LedTo(old(books), books) else books == old(books) && t.state.PmTx?
    {
      Placed(books, t);
      t.bios := t.bios - 1;
      if t.bios == 0 {
        t.state := PmTx;
        Metadata(t);
      }
    }

    method ReadBioDone(t: Tx)
      requires Valid() && t in readList
      requires t.bios > 0
      modifies this, t
      ensures Valid() && Grew(old(books), books) && given == old(given) && t.bios == old(t.bios) - 1
      ensures if old(t.bios) > 1 then books == old(books) && t.state.DataIo?
              else old(books).called + [t] <= books.called
    {
      Placed(books, t);
      t.bios := t.bios - 1;
      if t.bios == 0 {
        t.state := PmTx;
        EndRead(t);
      }
    }

    /** A finished read leaves its list. */
    method EndRead(t: Tx)
      requires KeptBut(t) && HeadWaits() && t in readList && pending == []
      modifies this
      ensures Valid() && Grew(old(books), books) && given == old(given) && old(books).called + [t] <= books.called
    {
      ghost var l0 := books;
      TakeRead(t);
      ghost var l1 := books;
      UserCallback(t);
      GrewOn(l0, l1, books);
    }

    /** All is in order but that the read `t` is finished and still listed. */
    ghost predicate KeptBut(t: Tx)
      reads this, txList, readList, messages, books.called, t
    {
      && txCount == |txList| && readCount == |readList|
      && books.txList == txList && books.readList == readList && books.messages == messages && Balanced(books)
      && AllSettled(txList) && (forall i | 0 <= i < |readList| && readList[i] != t :: readList[i].Waiting())
      && AllFinished(messages) && AllFinished(books.called) && t.Finished()
      && calls == |books.called| && Submitted(calls)
    }

    method TakeRead(t: Tx)
      requires KeptBut(t) && t in readList
      modifies this`readList, this`readCount, this`books
      ensures Owes(t) && books.called == old(books).called + [t] && Grew(old(books), books)
    {
      var i :| 0 <= i < |readList| && readList[i] == t;
      ReadEndedBalanced(books, i);
      FinishedMore(books.called, t);
      OthersWaiting(readList, i);
      books := ReadEnded(books, i);
      readCount := readCount - 1;
      readList := Without(readList, i);
    }

    /** The thread delivers the next queued message: the user of a create or delete is called. */
    method RunMessage()
      requires Valid() && messages != []
      modifies this
      ensures Valid() && Grew(old(books), books) && given == old(given)
      ensures old(books).called + [old(messages[0])] <= books.called
    {
      ghost var l0 := books;
      var t := TakeMessage();
      ghost var l1 := books;
      UserCallback(t);
      GrewOn(l0, l1, books);
    }

    method TakeMessage() returns (t: Tx)
      requires Valid() && messages != []
      modifies this`messages, this`books
      ensures t == old(messages[0]) && Owes(t) && HeadWaits() && books == Delivered(old(books))
    {
      DeliveredBalanced(books);
      t := messages[0];
      books := Delivered(books);
      messages := messages[1..];
    }
  }

  /** Nothing commits, and nobody is called or sent a message, before the last data I/O of the transaction is done. */
  lemma NothingEarly(p: Pipeline, t: Tx)
    requires p.Core() && (t in p.books.applied || t in p.books.called || t in p.books.messages)
    ensures t.Finished()
  {
    CommittedFirst(p.books, t);
  }
}
