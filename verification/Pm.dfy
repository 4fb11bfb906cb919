/** The mapped persistent memory and the transactions logged to it, as the code updates them in place.
    Every store and drain is also recorded in a ghost trace, which is what the crash results speak about. */
module Pm {
  import opened Bytes
  import opened Common
  import opened PmDevice
  import opened PmLog

  /** The log region of a core starts after the superblock page. */
  function LogOffset(cpu: nat): nat {
    4096 + cpu * 8192
  }

  lemma LogOffsetAligned(cpu: nat)
    ensures LogOffset(cpu) % 8 == 0
  {
    assert LogOffset(cpu) == 8 * (512 + cpu * 1024);
  }

  class Pmem {
    const mapped: array<Byte>
    const logOfst: nat
    ghost const base: seq<Byte>
    ghost var trace: seq<PmOp>

    ghost predicate Valid()
      reads this, mapped
    {
      && logOfst % 8 == 0 && logOfst + REGION_SIZE <= mapped.Length == |base|
      && AllFit(trace, |base|)
      && mapped[..] == At(base, trace, |trace|)
    }

    constructor (image: seq<Byte>, cpu: nat)
      requires LogOffset(cpu) + REGION_SIZE <= |image|
      ensures Valid() && fresh(mapped) && mapped[..] == image == base && trace == [] && logOfst == LogOffset(cpu)
    {
      mapped := new Byte[|image|];
      logOfst := LogOffset(cpu);
      base, trace := image, [];
      new;
      forall i | 0 <= i < |image| {
        mapped[i] := image[i];
      }
      assert mapped[..] == image;
      LogOffsetAligned(cpu);
    }

    method Read(ofst: nat, len: nat) returns (s: seq<Byte>)
      requires ofst + len <= mapped.Length
      ensures s == mapped[..][ofst..ofst + len]
    {
      s := mapped[ofst..ofst + len];
      assert s == mapped[..][ofst..ofst + len];
    }

    method Write(sync: bool, src: seq<Byte>, ofst: nat)
      requires Valid() && ofst + |src| <= mapped.Length
      modifies this`trace, mapped
      ensures Valid() && trace == old(trace) + if sync then [Store(ofst, src), PmOp.Drain] else [Store(ofst, src)]
      ensures mapped[..] == Put(old(mapped[..]), ofst, src)
    {
      forall i | 0 <= i < |src| {
        mapped[ofst + i] := src[i];
      }
      AtSnoc(base, trace, Store(ofst, src));
      trace := trace + [Store(ofst, src)];
      assert mapped[..] == Put(old(mapped[..]), ofst, src);
      if sync {
        Drain();
      }
    }

    method Drain()
      requires Valid()
      modifies this`trace
      ensures Valid() && trace == old(trace) + [PmOp.Drain]
    {
      AtSnoc(base, trace, PmOp.Drain);
      trace := trace + [PmOp.Drain];
    }

    /** Replays a committed log. False: an assertion fails, or the log does not fit recovery's buffer. */
    method Recover(lim: Limits) returns (ok: bool)
      requires Valid()
      modifies this`trace, mapped
      ensures Valid()
      ensures ok <==> !ReadLog(lim, old(mapped[..]), logOfst).Stuck?
      ensures match ReadLog(lim, old(mapped[..]), logOfst)
              case Idle => trace == old(trace) && mapped[..] == old(mapped[..])
              case Replay(es) => trace == old(trace) + RecoverOps(es, logOfst)
              case Stuck => true
    {
      ghost var image := mapped[..];
      var word := Read(logOfst, 8);
      var lh := DecodeHeader(word);
      if !lh.valid {
        return true;
      }
      var len := lh.alignLength;
      if len % 256 != 0 || len > lim.capacity || HEADER_SIZE + len > REGION_SIZE {
        return false;
      }
      var pload := Read(logOfst + HEADER_SIZE, len);
      ReadCommitted(lim, image, logOfst, pload);
      ok := ReplayAndClear(lim, pload, lh.nrLogs);
    }

    method ReplayAndClear(lim: Limits, pload: seq<Byte>, n: nat) returns (ok: bool)
      requires Valid()
      modifies this`trace, mapped
      ensures Valid()
      ensures ok == Digestible(lim, mapped.Length, ParseLog(pload, 0, n))
      ensures ok ==> trace == old(trace) + RecoverOps(ParseLog(pload, 0, n).value, logOfst)
    {
      ok := ReplayEntries(lim, pload, n);
      if ok {
        ghost var es := ParseLog(pload, 0, n).value;
        TraceGrows(old(trace), SyncStores(es), [Store(logOfst, Zeros(HEADER_SIZE)), PmOp.Drain]);
        Write(true, Zeros(HEADER_SIZE), logOfst);
      }
    }

    method ReplayEntries(lim: Limits, pload: seq<Byte>, n: nat) returns (ok: bool)
      requires Valid()
      modifies this`trace, mapped
      ensures Valid()
      ensures ok == Digestible(lim, mapped.Length, ParseLog(pload, 0, n))
      ensures ok ==> trace == old(trace) + SyncStores(ParseLog(pload, 0, n).value)
    {
      var cur: nat := 0;
      ghost var before, ops: seq<PmOp> := trace, [];
      ghost var goal := ReplayRun(lim, mapped.Length, pload, 0, n, []);
      ReplayAll(lim, mapped.Length, pload, 0, n, []);
      assert forall es: seq<Entry> :: [] + es == es;
      for i := 0 to n
        invariant Valid() && trace == before + ops
        invariant goal == ReplayRun(lim, mapped.Length, pload, cur, n - i, ops)
      {
        var next := ReplayOne(lim, pload, cur);
        if next.None? {
          return false;
        }
        ghost var e := EntryAt(pload, cur).value;
        TraceGrows(before, ops, [StoreOf(e), PmOp.Drain]);
        ops := ops + [StoreOf(e), PmOp.Drain];
        cur := next.value;
      }
      return true;
    }

    /** Checks and stores the entry at `cur`; returns where the next one starts. */
    method ReplayOne(lim: Limits, pload: seq<Byte>, cur: nat) returns (next: Option<nat>)
      requires Valid()
      modifies this`trace, mapped
      ensures Valid()
      ensures next.Some? <==> EntryAt(pload, cur).Some? && Storable(lim, mapped.Length, EntryAt(pload, cur).value)
      ensures next.Some? ==>
        var e := EntryAt(pload, cur).value;
        next.value == cur + ENTRY_HEADER_SIZE + |e.value| && trace == old(trace) + [StoreOf(e), PmOp.Drain]
    {
      var found := EntryAt(pload, cur);
      if found.None? || !EntryAligned(lim, found.value) || found.value.ofst + |found.value.value| > mapped.Length {
        return None;
      }
      var e := found.value;
      Write(true, e.value, e.ofst);
      return Some(cur + ENTRY_HEADER_SIZE + |e.value|);
    }
  }

  /** Can recovery store this entry? */
  predicate Storable(lim: Limits, size: nat, e: Entry) {
    EntryAligned(lim, e) && Fits(StoreOf(e), size)
  }

  predicate Digestible(lim: Limits, size: nat, parsed: Option<seq<Entry>>) {
    parsed.Some? && forall e | e in parsed.value :: Storable(lim, size, e)
  }

  /** What recovery makes of a committed log whose length is in range. */
  lemma ReadCommitted(lim: Limits, pm: seq<Byte>, log: nat, pload: seq<Byte>)
    requires log + REGION_SIZE <= |pm|
    requires var h := DecodeHeader(pm[log..log + 8]);
             && h.valid && h.alignLength % 256 == 0 && h.alignLength <= lim.capacity
             && HEADER_SIZE + h.alignLength <= REGION_SIZE
             && pload == pm[log + HEADER_SIZE..log + HEADER_SIZE + h.alignLength]
    ensures var parsed := ParseLog(pload, 0, DecodeHeader(pm[log..log + 8]).nrLogs);
            ReadLog(lim, pm, log) == if Digestible(lim, |pm|, parsed) then Replay(parsed.value) else Stuck
  {
    var parsed := ParseLog(pload, 0, DecodeHeader(pm[log..log + 8]).nrLogs);
    if parsed.Some? {
      assert forall e | e in parsed.value :: Storable(lim, |pm|, e) <==> EntryAligned(lim, e) && Fits(StoreOf(e), |pm|);
    }
  }

  datatype Replayed = Stopped | Finished(ops: seq<PmOp>)

  /** The replay loop from its loop variables, with the operations it has issued. */
  ghost function ReplayRun(lim: Limits, size: nat, buf: seq<Byte>, cur: nat, n: nat, ops: seq<PmOp>): Replayed
    decreases n
  {
    if n == 0 then Finished(ops)
    else
      match EntryAt(buf, cur)
      case None => Stopped
      case Some(e) =>
        if !Storable(lim, size, e) then Stopped
        else ReplayRun(lim, size, buf, cur + ENTRY_HEADER_SIZE + |e.value|, n - 1, ops + [StoreOf(e), PmOp.Drain])
  }

  ghost function Replays(lim: Limits, size: nat, done: seq<Entry>, all: Option<seq<Entry>>): Replayed {
    if Digestible(lim, size, all) then Finished(SyncStores(done + all.value))
    else Stopped
  }

  lemma ReplaysStep(lim: Limits, size: nat, done: seq<Entry>, e: Entry, rest: Option<seq<Entry>>)
    ensures Replays(lim, size, done, if rest.Some? then Some([e] + rest.value) else None)
         == if Storable(lim, size, e) then Replays(lim, size, done + [e], rest) else Stopped
  {
    if rest.Some? {
      var all := [e] + rest.value;
      assert done + all == (done + [e]) + rest.value;
      assert all[0] == e && forall i | 0 <= i < |rest.value| :: all[i + 1] == rest.value[i];
    }
  }

  /** It stores exactly the parsed entries, or stops at the first it cannot. */
  lemma {:induction false} ReplayAll(lim: Limits, size: nat, buf: seq<Byte>, cur: nat, n: nat, done: seq<Entry>)
    ensures ReplayRun(lim, size, buf, cur, n, SyncStores(done)) == Replays(lim, size, done, ParseLog(buf, cur, n))
    decreases n
  {
    if n == 0 {
      assert done + [] == done;
    } else if EntryAt(buf, cur).Some? {
      var e := EntryAt(buf, cur).value;
      var next := cur + ENTRY_HEADER_SIZE + |e.value|;
      SyncSnoc(done, e);
      ReplayAll(lim, size, buf, next, n - 1, done + [e]);
      ReplaysStep(lim, size, done, e, ParseLog(buf, next, n - 1));
    }
  }

  lemma TraceGrows(a: seq<PmOp>, b: seq<PmOp>, c: seq<PmOp>)
    ensures (a + b) + c == a + (b + c)
  {
  }

  lemma SyncSnoc(es: seq<Entry>, e: Entry)
    ensures SyncStores(es + [e]) == SyncStores(es) + [StoreOf(e), PmOp.Drain]
  {
    assert (es + [e])[..|es|] == es;
  }

  lemma StoresSnoc(es: seq<Entry>, k: nat)
    requires k < |es|
    ensures Stores(es[..k + 1]) == Stores(es[..k]) + [StoreOf(es[k])]
  {
  }

  lemma {:induction false} LogLength(es: seq<Entry>)
    ensures |EncodeLog(es)| >= ENTRY_HEADER_SIZE * |es|
    decreases es
  {
    if es != [] {
      LogLength(es[1..]);
    }
  }

  /** The k-th entry sits right after the encoding of the ones before it. */
  lemma {:induction false} EntryPosition(es: seq<Entry>, k: nat)
    requires k < |es|
    ensures EncodeLog(es[..k + 1]) == EncodeLog(es[..k]) + EncodeEntry(es[k])
    ensures EncodeLog(es[..k + 1]) <= EncodeLog(es)
  {
    assert es[..k + 1] == es[..k] + [es[k]];
    EncodeAppend(es[..k], es[k]);
    EncodePrefix(es, k + 1);
  }

  lemma {:induction false} EncodePrefix(es: seq<Entry>, k: nat)
    requires k <= |es|
    ensures EncodeLog(es[..k]) <= EncodeLog(es)
    decreases es
  {
    if k > 0 {
      EncodePrefix(es[1..], k - 1);
      assert es[..k][1..] == es[1..][..k - 1];
    }
  }

  lemma ApplyTrace(before: seq<PmOp>, l: Log, log: nat)
    ensures before + [Store(log + HEADER_SIZE, Payload(l)), PmOp.Drain, Store(log, EncodeHeader(HeaderOf(l))),
            PmOp.Drain]
          + Stores(l.entries) + [PmOp.Drain] + [Store(log, Zeros(HEADER_SIZE)), PmOp.Drain]
         == before + ApplyOps(l, log)
  {
    var a := [Store(log + HEADER_SIZE, Payload(l)), PmOp.Drain, Store(log, EncodeHeader(HeaderOf(l))), PmOp.Drain];
    FiveParts(before, a, Stores(l.entries), [PmOp.Drain], [Store(log, Zeros(HEADER_SIZE)), PmOp.Drain]);
    assert [PmOp.Drain] + [Store(log, Zeros(HEADER_SIZE)), PmOp.Drain]
        == [PmOp.Drain, Store(log, Zeros(HEADER_SIZE)), PmOp.Drain];
  }

  lemma FiveParts(b: seq<PmOp>, a: seq<PmOp>, s: seq<PmOp>, d: seq<PmOp>, c: seq<PmOp>)
    ensures b + a + s + d + c == b + (a + s + (d + c))
  {
  }

  /** Copies of the logged values to their DRAM addresses, for the entries that name one. */
  function Refreshed(dram: seq<Byte>, es: seq<Entry>, k: nat): (r: seq<Byte>)
    requires k <= |es| && forall e | e in es :: e.paddr + |e.value| <= |dram|
    ensures |r| == |dram|
  {
    if k == 0 then dram
    else if es[k - 1].paddr == 0 then Refreshed(dram, es, k - 1)
    else Put(Refreshed(dram, es, k - 1), es[k - 1].paddr, es[k - 1].value)
  }

  method CopyTo(dram: array<Byte>, paddr: nat, value: seq<Byte>)
    requires paddr + |value| <= dram.Length
    modifies dram
    ensures dram[..] == Put(old(dram[..]), paddr, value)
  {
    forall k | 0 <= k < |value| {
      dram[paddr + k] := value[k];
    }
    assert dram[..] == Put(old(dram[..]), paddr, value);
  }

  lemma PutEnd(s: seq<Byte>, at: nat, b: seq<Byte>)
    requires at + |b| <= |s|
    ensures Put(s, at, b)[..at + |b|] == s[..at] + b
  {
  }

  class Transaction {
    var lh: Header
    const le: array<Byte>
    ghost var entries: seq<Entry>

    /** No add has been refused: the buffer holds exactly the entries added. */
    ghost predicate Valid()
      reads this, le
    {
      && le.Length == REGION_SIZE
      && lh.alignLength == |EncodeLog(entries)| <= REGION_SIZE && lh.nrLogs == |entries|
      && le[..lh.alignLength] == EncodeLog(entries)
      && forall e | e in entries :: EntryOk(e)
    }

    constructor ()
      ensures Valid() && fresh(le) && entries == [] && lh == Header(false, 0, 0)
    {
      lh := Header(false, 0, 0);
      le := new Byte[REGION_SIZE];
      entries := [];
    }

    /** Appends an entry. A refused add has already moved the header past the end of the region. */
    method Add(ofst: nat, paddr: nat, value: seq<Byte>) returns (ok: bool)
      requires Valid() && EntryOk(Entry(paddr, ofst, value))
      modifies this, le
      ensures ok <==> old(lh.alignLength) + ENTRY_HEADER_SIZE + |value| <= REGION_SIZE
      ensures lh == Header(old(lh.valid), old(lh.nrLogs) + 1, old(lh.alignLength) + ENTRY_HEADER_SIZE + |value|)
      ensures ok ==> Valid() && entries == old(entries) + [Entry(paddr, ofst, value)]
      ensures !ok ==> entries == old(entries) && le[..] == old(le[..])
      ensures old(lh.nrLogs) + 1 < 0x1_0000
    {
      LogLength(entries);
      var pl := lh.alignLength;
      lh := lh.(alignLength := lh.alignLength + ENTRY_HEADER_SIZE + |value|, nrLogs := lh.nrLogs + 1);
      if lh.alignLength > REGION_SIZE {
        return false;
      }
      var e := Entry(paddr, ofst, value);
      var bytes := EncodeEntry(e);
      PutEnd(le[..], pl, bytes);
      CopyTo(le, pl, bytes);
      EncodeAppend(entries, e);
      entries := entries + [e];
      return true;
    }

    /** The log that applying this transaction puts on the medium. */
    ghost function AsLog(): Log
      requires Valid() && CeilAlign256(lh.alignLength) <= REGION_SIZE
      reads this, le
    {
      Log(lh.valid, entries, le[lh.alignLength..CeilAlign256(lh.alignLength)])
    }

    /** Persists the payload, then the header, stores the entries, drains, clears the header, and last refreshes
        DRAM. */
    method Apply(pm: Pmem, dram: array<Byte>)
      requires Valid() && pm.Valid() && pm.mapped != le && dram != le && dram != pm.mapped
      requires HEADER_SIZE + CeilAlign256(lh.alignLength) <= REGION_SIZE
      requires AllFit(Stores(entries), pm.mapped.Length)
      requires forall e | e in entries :: e.paddr + |e.value| <= dram.Length
      modifies this`lh, pm`trace, pm.mapped, dram
      ensures pm.Valid() && pm.trace == old(pm.trace) + ApplyOps(old(AsLog()), pm.logOfst)
      ensures dram[..] == Refreshed(old(dram[..]), entries, |entries|)
      ensures lh == Header(false, 0, 0)
    {
      ghost var l, before := AsLog(), pm.trace;
      var n := lh.nrLogs;
      WriteLog(pm);
      StoreEntries(pm, n);
      pm.Drain();
      lh := Header(false, 0, 0);
      pm.Write(true, Zeros(HEADER_SIZE), pm.logOfst);
      ApplyTrace(before, l, pm.logOfst);
      RefreshDram(dram, n);
    }

    /** The first two steps: the padded payload, then the header that commits it. */
    method WriteLog(pm: Pmem)
      requires Valid() && pm.Valid() && pm.mapped != le && HEADER_SIZE + CeilAlign256(lh.alignLength) <= REGION_SIZE
      modifies this`lh, pm`trace, pm.mapped
      ensures pm.Valid() && Holds(entries)
      ensures var l := old(AsLog());
              pm.trace == old(pm.trace) + [Store(pm.logOfst + HEADER_SIZE, Payload(l)), PmOp.Drain,
                                           Store(pm.logOfst, EncodeHeader(HeaderOf(l))), PmOp.Drain]
    {
      ghost var l, len := AsLog(), lh.alignLength;
      lh := lh.(alignLength := CeilAlign256(lh.alignLength));
      assert le[..lh.alignLength] == le[..len] + le[len..lh.alignLength] == Payload(l);
      assert lh == HeaderOf(l);
      pm.Write(true, le[..lh.alignLength], pm.logOfst + HEADER_SIZE);
      pm.Write(true, EncodeHeader(lh), pm.logOfst);
    }

    /** The buffer as the walks need it, whatever the header says by then. */
    ghost predicate Holds(es: seq<Entry>)
      reads this, le
    {
      && le.Length == REGION_SIZE && entries == es && |EncodeLog(es)| <= REGION_SIZE
      && le[..|EncodeLog(es)|] == EncodeLog(es)
      && forall e | e in es :: EntryOk(e)
    }

    /** The walk's reading of entry `i`, which starts at byte `cur`. */
    lemma WalkEntry(i: nat, cur: nat)
      requires Holds(entries) && i < |entries| && cur == |EncodeLog(entries[..i])|
      ensures cur + ENTRY_HEADER_SIZE + |entries[i].value| == |EncodeLog(entries[..i + 1])| <= REGION_SIZE
      ensures LeAt(le[..], cur, 8) == entries[i].paddr && LeAt(le[..], cur + 8, 8) == entries[i].ofst
      ensures LeAt(le[..], cur + 16, 8) == |entries[i].value|
      ensures le[cur + 24..cur + 24 + |entries[i].value|] == entries[i].value
    {
      EntryPosition(entries, i);
      var e, n := entries[i], |EncodeLog(entries)|;
      var all := le[..];
      assert all[..n] == EncodeLog(entries);
      assert all[cur..cur + |EncodeEntry(e)|] == EncodeLog(entries[..i + 1])[cur..] == EncodeEntry(e);
      EntryFields(e, all, cur);
    }

    method StoreEntries(pm: Pmem, n: nat)
      requires Holds(entries) && n == |entries| && pm.Valid() && pm.mapped != le
      requires AllFit(Stores(entries), pm.mapped.Length)
      modifies pm`trace, pm.mapped
      ensures pm.Valid() && pm.trace == old(pm.trace) + Stores(entries)
    {
      var pl: nat := 0;
      ghost var before := pm.trace;
      for i := 0 to n
        invariant pm.Valid() && Holds(entries) && pl == |EncodeLog(entries[..i])|
        invariant pm.trace == before + Stores(entries[..i])
      {
        pl := StoreEntry(pm, i, pl);
        StoresSnoc(entries, i);
        TraceGrows(before, Stores(entries[..i]), [StoreOf(entries[i])]);
      }
      assert entries[..n] == entries;
    }

    method StoreEntry(pm: Pmem, ghost i: nat, pl: nat) returns (next: nat)
      requires Holds(entries) && i < |entries| && pl == |EncodeLog(entries[..i])| && pm.Valid() && pm.mapped != le
      requires AllFit(Stores(entries), pm.mapped.Length)
      modifies pm`trace, pm.mapped
      ensures pm.Valid() && next == |EncodeLog(entries[..i + 1])|
      ensures pm.trace == old(pm.trace) + [StoreOf(entries[i])]
    {
      WalkEntry(i, pl);
      assert Fits(Stores(entries)[i], pm.mapped.Length);
      var length := LeAt(le[..], pl + 16, 8);
      pm.Write(false, le[pl + 24..pl + 24 + length], LeAt(le[..], pl + 8, 8));
      next := pl + ENTRY_HEADER_SIZE + length;
    }

    method RefreshDram(dram: array<Byte>, n: nat)
      requires Holds(entries) && n == |entries| && dram != le
      requires forall e | e in entries :: e.paddr + |e.value| <= dram.Length
      modifies dram
      ensures dram[..] == Refreshed(old(dram[..]), entries, |entries|)
    {
      var pl: nat := 0;
      ghost var before := dram[..];
      for i := 0 to n
        invariant Holds(entries) && pl == |EncodeLog(entries[..i])|
        invariant dram[..] == Refreshed(before, entries, i)
      {
        pl := RefreshEntry(dram, i, pl);
      }
    }

    method RefreshEntry(dram: array<Byte>, ghost i: nat, pl: nat) returns (next: nat)
      requires Holds(entries) && i < |entries| && pl == |EncodeLog(entries[..i])| && dram != le
      requires entries[i].paddr + |entries[i].value| <= dram.Length
      modifies dram
      ensures next == |EncodeLog(entries[..i + 1])|
      ensures dram[..] == if entries[i].paddr == 0 then old(dram[..])
                          else Put(old(dram[..]), entries[i].paddr, entries[i].value)
    {
      WalkEntry(i, pl);
      var paddr, length := LeAt(le[..], pl, 8), LeAt(le[..], pl + 16, 8);
      if paddr != 0 {
        CopyTo(dram, paddr, le[pl + 24..pl + 24 + length]);
      }
      next := pl + ENTRY_HEADER_SIZE + length;
    }
  }
}
