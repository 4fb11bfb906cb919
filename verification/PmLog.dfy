/** The redo log: its byte layout, the operations that apply a transaction, and what recovery makes of an image. */
module PmLog {
  import opened Bytes
  import opened Common
  import opened PmDevice

  const REGION_SIZE: nat := 8192
  const HEADER_SIZE: nat := 64
  const ENTRY_HEADER_SIZE: nat := 24

  // ---------- header ----------

  /** The three fields share the first 8-byte word of the region; the reserved bits stay zero. */
  datatype Header = Header(valid: bool, nrLogs: nat, alignLength: nat)

  predicate HeaderOk(h: Header) {
    h.nrLogs < 0x1_0000 && h.alignLength < 0x1_0000_0000
  }

  function HeaderWord(h: Header): nat {
    (if h.valid then 1 else 0) + 0x1_0000 * h.nrLogs + 0x1_0000_0000 * h.alignLength
  }

  function EncodeHeader(h: Header): (s: seq<Byte>)
    ensures |s| == HEADER_SIZE
  {
    EncodeLe(HeaderWord(h), 8) + Zeros(56)
  }

  function DecodeHeader(s: seq<Byte>): Header
    requires |s| >= 8
  {
    var w := DecodeLe(s[..8]);
    Header(w % 2 == 1, w / 0x1_0000 % 0x1_0000, w / 0x1_0000_0000)
  }

  lemma HeaderRoundTrip(h: Header)
    requires HeaderOk(h)
    ensures DecodeHeader(EncodeHeader(h)) == h
  {
    WordFields(if h.valid then 1 else 0, h.nrLogs, h.alignLength);
    Word64(HeaderWord(h));
    assert EncodeHeader(h)[..8] == EncodeLe(HeaderWord(h), 8);
  }

  /** Which bytes of the header say what. */
  lemma HeaderLayout(h: Header)
    requires HeaderOk(h)
    ensures var s := EncodeHeader(h);
            && s[0] == (if h.valid then 1 else 0) && s[1] == 0
            && DecodeLe(s[2..4]) == h.nrLogs && DecodeLe(s[4..8]) == h.alignLength
            && s[8..] == Zeros(56)
  {
    var v, n, l := if h.valid then 1 else 0, h.nrLogs, h.alignLength;
    WordBytesOf(v, n, l);
    assert EncodeHeader(h)[..8] == EncodeLe(v, 2) + EncodeLe(n, 2) + EncodeLe(l, 4);
    assert EncodeHeader(h)[2..4] == EncodeLe(n, 2) && EncodeHeader(h)[4..8] == EncodeLe(l, 4);
    FlagBytes(v);
    assert EncodeHeader(h)[..2] == [v, 0];
    Powers();
    DecodeEncode(n, 2);
    DecodeEncode(l, 4);
  }

  lemma WordBytesOf(v: nat, n: nat, l: nat)
    requires v < 2 && n < 0x1_0000
    ensures EncodeLe(v + 0x1_0000 * n + 0x1_0000_0000 * l, 8) == EncodeLe(v, 2) + EncodeLe(n, 2) + EncodeLe(l, 4)
  {
    var high := n + 0x1_0000 * l;
    SplitTwo(v, high, v + 0x1_0000 * n + 0x1_0000_0000 * l, 8);
    SplitTwo(n, l, high, 6);
  }

  lemma WordFields(v: nat, n: nat, l: nat)
    requires v < 2 && n < 0x1_0000 && l < 0x1_0000_0000
    ensures var w := v + 0x1_0000 * n + 0x1_0000_0000 * l;
            w < 0x1_0000_0000_0000_0000 && w % 2 == v && w / 0x1_0000 % 0x1_0000 == n && w / 0x1_0000_0000 == l
  {
    var w := v + 0x1_0000 * n + 0x1_0000_0000 * l;
    var high := n + 0x1_0000 * l;
    ValidBit(v, high, w);
    UpperFields(v, high, w);
    HighFields(n, l);
    LengthField(v + 0x1_0000 * n, l);
    assert w == v + 0x1_0000 * high;
  }

  lemma ValidBit(v: nat, high: nat, w: nat)
    requires v < 2 && w == v + 0x1_0000 * high
    ensures w % 2 == v
  {
    assert w == v + 2 * (0x8000 * high);
  }

  lemma UpperFields(v: nat, high: nat, w: nat)
    requires v < 2 && w == v + 0x1_0000 * high
    ensures w / 0x1_0000 == high
  {
  }

  lemma HighFields(n: nat, l: nat)
    requires n < 0x1_0000
    ensures (n + 0x1_0000 * l) % 0x1_0000 == n
  {
  }

  lemma LengthField(low: nat, l: nat)
    requires low < 0x1_0000_0000 && l < 0x1_0000_0000
    ensures (low + 0x1_0000_0000 * l) / 0x1_0000_0000 == l && low + 0x1_0000_0000 * l < 0x1_0000_0000_0000_0000
  {
  }

  lemma ZeroHeader(s: seq<Byte>)
    requires |s| >= 8 && s[..8] == Zeros(8)
    ensures DecodeHeader(s) == Header(false, 0, 0)
  {
    DecodeZeros(8);
  }

  // ---------- entries ----------

  /** One logged update: `value` goes to offset `ofst`; `paddr`, when not zero, is the DRAM copy to refresh. */
  datatype Entry = Entry(paddr: nat, ofst: nat, value: seq<Byte>)

  predicate EntryOk(e: Entry) {
    e.paddr < 0x1_0000_0000_0000_0000 && e.ofst < 0x1_0000_0000_0000_0000 && |e.value| < 0x1_0000_0000_0000_0000
  }

  function EncodeEntry(e: Entry): (s: seq<Byte>)
    ensures |s| == ENTRY_HEADER_SIZE + |e.value|
  {
    EncodeLe(e.paddr, 8) + EncodeLe(e.ofst, 8) + EncodeLe(|e.value|, 8) + e.value
  }

  function EncodeLog(es: seq<Entry>): seq<Byte> {
    if es == [] then [] else EncodeEntry(es[0]) + EncodeLog(es[1..])
  }

  function LeAt(buf: seq<Byte>, a: nat, n: nat): nat
    requires a + n <= |buf|
  {
    DecodeLe(buf[a..a + n])
  }

  /** The entry that starts at byte `cur`; None when it runs past the buffer. */
  function EntryAt(buf: seq<Byte>, cur: nat): (r: Option<Entry>)
    ensures r.Some? ==> cur + ENTRY_HEADER_SIZE + |r.value.value| <= |buf|
  {
    if cur + ENTRY_HEADER_SIZE > |buf| then None
    else
      var len := LeAt(buf, cur + 16, 8);
      var next := cur + ENTRY_HEADER_SIZE + len;
      if next > |buf| then None else Some(Entry(LeAt(buf, cur, 8), LeAt(buf, cur + 8, 8), buf[next - len..next]))
  }

  /** The walk both loops make: `n` entries starting at byte `cur`. */
  function ParseLog(buf: seq<Byte>, cur: nat, n: nat): (r: Option<seq<Entry>>)
    ensures r.Some? ==> |r.value| == n
    decreases n
  {
    if n == 0 then Some([])
    else
      match EntryAt(buf, cur)
      case None => None
      case Some(e) =>
        match ParseLog(buf, cur + ENTRY_HEADER_SIZE + |e.value|, n - 1)
        case None => None
        case Some(rest) => Some([e] + rest)
  }

  lemma EntryFields(e: Entry, buf: seq<Byte>, cur: nat)
    requires EntryOk(e) && cur + |EncodeEntry(e)| <= |buf|
    requires buf[cur..cur + |EncodeEntry(e)|] == EncodeEntry(e)
    ensures LeAt(buf, cur, 8) == e.paddr && LeAt(buf, cur + 8, 8) == e.ofst && LeAt(buf, cur + 16, 8) == |e.value|
    ensures buf[cur + 24..cur + 24 + |e.value|] == e.value
    ensures EntryAt(buf, cur) == Some(e)
  {
    EntrySlices(e);
    FieldSlices(buf, cur, EncodeEntry(e));
    NumberAt(buf, cur, e.paddr);
    NumberAt(buf, cur + 8, e.ofst);
    NumberAt(buf, cur + 16, |e.value|);
    EntryFromFields(buf, cur, e);
  }

  lemma NumberAt(buf: seq<Byte>, a: nat, v: nat)
    requires v < 0x1_0000_0000_0000_0000 && a + 8 <= |buf| && buf[a..a + 8] == EncodeLe(v, 8)
    ensures LeAt(buf, a, 8) == v
  {
    Word64(v);
  }

  lemma EntryFromFields(buf: seq<Byte>, cur: nat, e: Entry)
    requires cur + 24 + |e.value| <= |buf| && LeAt(buf, cur, 8) == e.paddr && LeAt(buf, cur + 8, 8) == e.ofst
    requires LeAt(buf, cur + 16, 8) == |e.value| && buf[cur + 24..cur + 24 + |e.value|] == e.value
    ensures EntryAt(buf, cur) == Some(e)
  {
  }

  lemma FieldSlices(buf: seq<Byte>, cur: nat, s: seq<Byte>)
    requires |s| >= 24 && cur + |s| <= |buf| && buf[cur..cur + |s|] == s
    ensures buf[cur..cur + 8] == s[0..8] && buf[cur + 8..cur + 16] == s[8..16]
    ensures buf[cur + 16..cur + 24] == s[16..24] && buf[cur + 24..cur + |s|] == s[24..]
  {
    SubSlice(buf, cur, cur + |s|, 0, 8);
    SubSlice(buf, cur, cur + |s|, 8, 16);
    SubSlice(buf, cur, cur + |s|, 16, 24);
    SubSlice(buf, cur, cur + |s|, 24, |s|);
  }

  lemma EntrySlices(e: Entry)
    ensures var s := EncodeEntry(e);
            && s[0..8] == EncodeLe(e.paddr, 8) && s[8..16] == EncodeLe(e.ofst, 8)
            && s[16..24] == EncodeLe(|e.value|, 8) && s[24..] == e.value
  {
  }

  lemma ParseStep(buf: seq<Byte>, cur: nat, n: nat, e: Entry, rest: seq<Entry>)
    requires n > 0 && EntryAt(buf, cur) == Some(e) && |rest| == n - 1
    requires ParseLog(buf, cur + ENTRY_HEADER_SIZE + |e.value|, n - 1) == Some(rest)
    ensures ParseLog(buf, cur, n) == Some([e] + rest)
  {
  }

  /** The bytes `s` stand in `buf` from `cur` on. */
  predicate Found(buf: seq<Byte>, cur: nat, s: seq<Byte>) {
    cur + |s| <= |buf| && forall i | 0 <= i < |s| :: s[i] == buf[cur + i]
  }

  lemma FoundSlice(buf: seq<Byte>, cur: nat, s: seq<Byte>)
    ensures Found(buf, cur, s) <==> cur + |s| <= |buf| && buf[cur..cur + |s|] == s
  {
    if cur + |s| <= |buf| && buf[cur..cur + |s|] == s {
      assert forall i | 0 <= i < |s| :: s[i] == buf[cur..cur + |s|][i];
    }
  }

  lemma FoundParts(buf: seq<Byte>, cur: nat, a: seq<Byte>, b: seq<Byte>)
    requires Found(buf, cur, a + b)
    ensures Found(buf, cur, a) && Found(buf, cur + |a|, b)
  {
    assert forall i | 0 <= i < |a| :: a[i] == (a + b)[i];
    assert forall i | 0 <= i < |b| :: b[i] == (a + b)[|a| + i];
  }

  lemma FirstEntry(e: Entry, rest: seq<Byte>, buf: seq<Byte>, cur: nat)
    requires EntryOk(e) && Found(buf, cur, EncodeEntry(e) + rest)
    ensures EntryAt(buf, cur) == Some(e) && Found(buf, cur + ENTRY_HEADER_SIZE + |e.value|, rest)
  {
    FoundParts(buf, cur, EncodeEntry(e), rest);
    FoundSlice(buf, cur, EncodeEntry(e));
    EntryFields(e, buf, cur);
  }

  lemma HeadAndRest(es: seq<Entry>)
    requires es != [] && forall e | e in es :: EntryOk(e)
    ensures EntryOk(es[0]) && forall e | e in es[1..] :: EntryOk(e)
    ensures es == [es[0]] + es[1..] && EncodeLog(es) == EncodeEntry(es[0]) + EncodeLog(es[1..])
  {
  }

  lemma {:induction false} ParseFound(es: seq<Entry>, buf: seq<Byte>, cur: nat)
    requires (forall e | e in es :: EntryOk(e)) && Found(buf, cur, EncodeLog(es))
    ensures ParseLog(buf, cur, |es|) == Some(es)
    decreases es
  {
    if es != [] {
      var e, rest := es[0], es[1..];
      HeadAndRest(es);
      FirstEntry(e, EncodeLog(rest), buf, cur);
      ParseFound(rest, buf, cur + ENTRY_HEADER_SIZE + |e.value|);
      ParseStep(buf, cur, |es|, e, rest);
    }
  }

  /** Walking the bytes of a log gives back exactly its entries, in order, whatever follows them. */
  lemma ParseEncode(es: seq<Entry>, buf: seq<Byte>, cur: nat)
    requires forall e | e in es :: EntryOk(e)
    requires cur + |EncodeLog(es)| <= |buf| && buf[cur..cur + |EncodeLog(es)|] == EncodeLog(es)
    ensures ParseLog(buf, cur, |es|) == Some(es)
  {
    FoundSlice(buf, cur, EncodeLog(es));
    ParseFound(es, buf, cur);
  }

  /** And nothing else parses: any bytes the walk accepts are the encoding of what it returns. */
  lemma {:induction false} EncodeParse(buf: seq<Byte>, cur: nat, n: nat)
    requires cur <= |buf| && ParseLog(buf, cur, n).Some?
    ensures var es := ParseLog(buf, cur, n).value;
            cur + |EncodeLog(es)| <= |buf| && EncodeLog(es) == buf[cur..cur + |EncodeLog(es)|]
    decreases n
  {
    if n > 0 {
      var e := EntryAt(buf, cur).value;
      var next := cur + ENTRY_HEADER_SIZE + |e.value|;
      EncodeParse(buf, next, n - 1);
      var rest := ParseLog(buf, next, n - 1).value;
      EntryBytes(buf, cur);
      EncodeFirst(e, rest);
      JoinSlices(buf, cur, next, next + |EncodeLog(rest)|);
    }
  }

  lemma EncodeFirst(e: Entry, rest: seq<Entry>)
    ensures EncodeLog([e] + rest) == EncodeEntry(e) + EncodeLog(rest)
  {
    assert ([e] + rest)[1..] == rest;
  }

  lemma JoinSlices(buf: seq<Byte>, a: nat, b: nat, c: nat)
    requires a <= b <= c <= |buf|
    ensures buf[a..b] + buf[b..c] == buf[a..c]
  {
  }

  lemma EntryBytes(buf: seq<Byte>, cur: nat)
    requires EntryAt(buf, cur).Some?
    ensures var e := EntryAt(buf, cur).value; EncodeEntry(e) == buf[cur..cur + ENTRY_HEADER_SIZE + |e.value|]
  {
    var next := cur + ENTRY_HEADER_SIZE + |EntryAt(buf, cur).value.value|;
    WordBytes(buf, cur);
    WordBytes(buf, cur + 8);
    WordBytes(buf, cur + 16);
    JoinSlices(buf, cur, cur + 8, cur + 16);
    JoinSlices(buf, cur, cur + 16, cur + 24);
    JoinSlices(buf, cur, cur + 24, next);
  }

  lemma WordBytes(buf: seq<Byte>, a: nat)
    requires a + 8 <= |buf|
    ensures EncodeLe(LeAt(buf, a, 8), 8) == buf[a..a + 8]
  {
    EncodeDecode(buf[a..a + 8]);
  }

  lemma {:induction false} EncodeAppend(es: seq<Entry>, e: Entry)
    ensures EncodeLog(es + [e]) == EncodeLog(es) + EncodeEntry(e)
    decreases es
  {
    if es == [] {
      assert (es + [e])[1..] == [];
      assert EncodeLog([e]) == EncodeEntry(e) + EncodeLog([]);
    } else {
      assert (es + [e])[1..] == es[1..] + [e];
      EncodeAppend(es[1..], e);
    }
  }

  // ---------- a transaction's log ----------

  function CeilAlign256(n: nat): (r: nat)
    ensures n <= r < n + 256 && r % 256 == 0
  {
    (n + 255) / 256 * 256
  }

  /** A log as it is applied: the header's commit bit, the entries, and the bytes that pad them to 256. */
  datatype Log = Log(valid: bool, entries: seq<Entry>, pad: seq<Byte>)

  function Payload(l: Log): seq<Byte> {
    EncodeLog(l.entries) + l.pad
  }

  function HeaderOf(l: Log): Header {
    Header(l.valid, |l.entries|, |Payload(l)|)
  }

  /** What `pmem_transaction_add` and the padding step leave behind, for a log that fits the region. */
  predicate LogOk(l: Log) {
    && (forall e | e in l.entries :: EntryOk(e))
    && |l.entries| < 0x1_0000
    && |Payload(l)| == CeilAlign256(|EncodeLog(l.entries)|)
    && HEADER_SIZE + |Payload(l)| <= REGION_SIZE
  }

  predicate InRegion(log: nat, a: nat) {
    log <= a < log + REGION_SIZE
  }

  /** Every entry lands inside the memory and clear of the log region. */
  predicate Placed(es: seq<Entry>, log: nat, size: nat) {
    && log % 8 == 0 && log + REGION_SIZE <= size
    && forall i | 0 <= i < |es| ::
         && es[i].ofst + |es[i].value| <= size
         && (es[i].ofst + |es[i].value| <= log || log + REGION_SIZE <= es[i].ofst)
  }

  function StoreOf(e: Entry): PmOp {
    Store(e.ofst, e.value)
  }

  function Stores(es: seq<Entry>): (ops: seq<PmOp>)
    ensures |ops| == |es| && forall i | 0 <= i < |es| :: ops[i] == StoreOf(es[i])
  {
    seq(|es|, i requires 0 <= i < |es| => StoreOf(es[i]))
  }

  /** The memory with all of a transaction's entries stored in order. */
  function Applied(pm: seq<Byte>, es: seq<Entry>): (r: seq<Byte>)
    requires AllFit(Stores(es), |pm|)
    ensures |r| == |pm|
  {
    At(pm, Stores(es), |es|)
  }

  /** Payload, drain, header, drain, the entries without drain, drain, cleared header, drain. */
  function ApplyOps(l: Log, log: nat): (ops: seq<PmOp>)
    ensures |ops| == |l.entries| + 7
  {
    [Store(log + HEADER_SIZE, Payload(l)), Drain, Store(log, EncodeHeader(HeaderOf(l))), Drain]
    + Stores(l.entries) + [Drain, Store(log, Zeros(HEADER_SIZE)), Drain]
  }

  // ---------- recovery ----------

  /** What recovery can digest: the size of its payload buffer, and the alignment its assertions demand. */
  datatype Limits = Limits(capacity: nat, grain: nat)

  /** The limits in the code. */
  const CODE_LIMITS := Limits(4096, 64)

  /** The limits of the log region itself. */
  const REGION_LIMITS := Limits(REGION_SIZE - HEADER_SIZE, 1)

  datatype LogState = Idle | Replay(entries: seq<Entry>) | Stuck

  predicate EntryAligned(lim: Limits, e: Entry) {
    lim.grain > 0 && |e.value| % lim.grain == 0 && e.ofst % lim.grain == 0
  }

  /** How recovery reads the region. Stuck: an assertion fails, or the walk leaves its buffer or the memory. */
  function ReadLog(lim: Limits, pm: seq<Byte>, log: nat): LogState
    requires log + REGION_SIZE <= |pm|
  {
    var h := DecodeHeader(pm[log..log + 8]);
    if !h.valid then Idle
    else if h.alignLength % 256 != 0 || h.alignLength > lim.capacity || HEADER_SIZE + h.alignLength > REGION_SIZE
    then Stuck
    else
      match ParseLog(pm[log + HEADER_SIZE..log + HEADER_SIZE + h.alignLength], 0, h.nrLogs)
      case None => Stuck
      case Some(es) =>
        if forall e | e in es :: EntryAligned(lim, e) && Fits(StoreOf(e), |pm|) then Replay(es) else Stuck
  }

  /** Each entry stored and drained in turn. */
  function SyncStores(es: seq<Entry>): (ops: seq<PmOp>)
    ensures |ops| == 2 * |es|
  {
    if es == [] then [] else SyncStores(es[..|es| - 1]) + [StoreOf(es[|es| - 1]), Drain]
  }

  function RecoverOps(es: seq<Entry>, log: nat): (ops: seq<PmOp>)
    ensures |ops| == 2 * |es| + 2
  {
    SyncStores(es) + [Store(log, Zeros(HEADER_SIZE)), Drain]
  }

  /** The memory after recovery; None when recovery cannot finish. */
  function Recover(lim: Limits, pm: seq<Byte>, log: nat): (r: Option<seq<Byte>>)
    requires log + REGION_SIZE <= |pm|
    ensures r.Some? ==> |r.value| == |pm|
  {
    match ReadLog(lim, pm, log)
    case Idle => Some(pm)
    case Stuck => None
    case Replay(es) => Some(Put(Applied(pm, es), log, Zeros(HEADER_SIZE)))
  }

  /** The two memories agree everywhere outside the log region. */
  predicate SameOutside(a: seq<Byte>, b: seq<Byte>, log: nat) {
    |a| == |b| && forall i | 0 <= i < |a| && !InRegion(log, i) :: a[i] == b[i]
  }
}
