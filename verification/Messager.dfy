/** Sending and receiving messages over a stream that may stop at any byte. */
module Messager {
  import opened Bytes
  import opened Common
  import opened Wire

  datatype Outcome = RwOk | Again

  /** One direction of a connection. How many bytes each call moves is up to the network: `cuts` lists what it will
      allow, call by call. `short` tells whether the last call moved fewer bytes than asked for. */
  class Stream {
    var transit: seq<Byte>
    var cuts: seq<nat>
    ghost var written: seq<Byte>
    ghost var taken: seq<Byte>
    ghost var short: bool

    ghost predicate Valid()
      reads this
    {
      written == taken + transit
    }

    constructor (cuts: seq<nat>)
      ensures Valid() && written == [] && taken == [] && transit == [] && this.cuts == cuts
    {
      transit, this.cuts, written, taken, short := [], cuts, [], [], false;
    }

    method NextCut(most: nat) returns (n: nat)
      modifies this`cuts
      ensures n <= most && |cuts| <= old(|cuts|)
    {
      n := if cuts == [] then 0 else if cuts[0] < most then cuts[0] else most;
      cuts := if cuts == [] then [] else cuts[1..];
    }

    method Writev(bytes: seq<Byte>) returns (n: nat)
      requires Valid()
      modifies this
      ensures Valid() && n <= |bytes| && taken == old(taken) && written == old(written) + bytes[..n]
      ensures short == (n < |bytes|)
    {
      n := NextCut(|bytes|);
      transit := transit + bytes[..n];
      written := written + bytes[..n];
      short := n < |bytes|;
    }

    method Readv(len: nat) returns (bytes: seq<Byte>)
      requires Valid()
      modifies this
      ensures Valid() && |bytes| <= len && written == old(written) && taken == old(taken) + bytes
      ensures old(transit) == bytes + transit && short == (|bytes| < len)
    {
      var n := NextCut(if len < |transit| then len else |transit|);
      bytes := transit[..n];
      transit := transit[n..];
      taken := taken + bytes;
      short := |bytes| < len;
    }
  }

  /** A message being moved, with the bytes of each part still to go. `head` reads the header's bytes as fields, once
      they are all there. */
  class Msg {
    var head: Header
    var hdrRem: nat
    var metaRem: nat
    var dataRem: nat
    var header: seq<Byte>
    var meta: seq<Byte>
    var data: seq<Byte>

    ghost predicate Sized()
      reads this
    {
      |header| == HEADER_LEN && hdrRem <= HEADER_LEN && metaRem <= |meta| && dataRem <= |data|
    }

    /** Parts move in order: no later part is begun before the earlier ones are finished. */
    ghost predicate InOrder()
      reads this
    {
      && Sized()
      && (hdrRem > 0 ==> metaRem == |meta| && dataRem == |data|)
      && (metaRem > 0 ==> dataRem == |data|)
    }

    /** On the receiving side the later parts exist only once the header is complete. */
    ghost predicate Incoming()
      reads this
    {
      && InOrder()
      && if hdrRem > 0 then meta == [] && data == []
         else HeaderOk(head) && header == EncodeHeader(head) && |meta| == head.metaLength && |data| == head.dataLength
    }

    /** What has been moved so far. */
    ghost function Moved(): seq<Byte>
      reads this
      requires Sized()
    {
      header[..HEADER_LEN - hdrRem] + meta[..|meta| - metaRem] + data[..|data| - dataRem]
    }

    ghost function Value(): Message
      reads this
    {
      Message(head, meta, data)
    }

    /** A message to send, all of it still to go. */
    constructor Outgoing(m: Message)
      requires MessageOk(m)
      ensures InOrder() && Value() == m && hdrRem == HEADER_LEN && metaRem == |meta| && dataRem == |data|
      ensures Moved() == [] && header == EncodeHeader(m.header)
    {
      hdrRem, metaRem, dataRem := HEADER_LEN, |m.meta|, |m.data|;
      head, header, meta, data := m.header, EncodeHeader(m.header), m.meta, m.data;
    }

    /** A message to receive: only the header is known to be coming. */
    constructor Expected()
      ensures Incoming() && hdrRem == HEADER_LEN && meta == [] && data == [] && Moved() == []
    {
      hdrRem, metaRem, dataRem := HEADER_LEN, 0, 0;
      head := Header(0, 0, 0, 0, 0, 0, 0, 0, 0);
      header, meta, data := Zeros(HEADER_LEN), [], [];
    }

    /** The code adds the three lengths in 32 bits. */
    function RemainingTotal(): nat
      reads this
    {
      (hdrRem + metaRem + dataRem) % 0x1_0000_0000
    }

    predicate SeemsComplete()
      reads this
    {
      RemainingTotal() == 0
    }
  }

  /** The completeness test is right in every state of a message exactly when its two lengths add up to less than 2^32;
      otherwise some cut of the stream makes the receiver hand over a message it has not got. */
  lemma CompletenessExactly(metaLength: nat, dataLength: nat)
    requires metaLength < 0x100 && dataLength < 0x1_0000_0000
    ensures (forall h: nat, m: nat, d: nat | Reached(metaLength, dataLength, h, m, d) ::
               (h + m + d) % 0x1_0000_0000 == 0 ==> h == m == d == 0)
       <==> metaLength + dataLength < 0x1_0000_0000
  {
    if metaLength + dataLength >= 0x1_0000_0000 {
      var m := 0x1_0000_0000 - dataLength;
      assert Reached(metaLength, dataLength, 0, m, dataLength);
      assert (0 + m + dataLength) % 0x1_0000_0000 == 0;
    }
  }

  /** The remaining lengths a receiver passes through. */
  predicate Reached(metaLength: nat, dataLength: nat, h: nat, m: nat, d: nat) {
    || (0 < h <= HEADER_LEN && m == 0 && d == 0)
    || (h == 0 && 0 < m <= metaLength && d == dataLength)
    || (h == 0 && m == 0 && d <= dataLength)
  }

  // ---------- one message ----------

  /** Offers what is left of one part to the stream. */
  method SendPart(st: Stream, part: seq<Byte>, rem: nat) returns (rc: Outcome, left: nat)
    requires st.Valid() && 0 < rem <= |part|
    modifies st
    ensures st.Valid() && st.taken == old(st.taken) && left <= rem
    ensures st.written == old(st.written) + part[|part| - rem..|part| - left]
    ensures rc == (if left == 0 then RwOk else Again) && (rc.Again? ==> st.short)
  {
    var n := st.Writev(part[|part| - rem..]);
    left := rem - n;
    rc := if left == 0 then RwOk else Again;
    assert part[|part| - rem..][..n] == part[|part| - rem..|part| - left];
  }

  /** Fills what is missing of one part from the stream. */
  method RecvPart(st: Stream, part: seq<Byte>, rem: nat) returns (rc: Outcome, left: nat, filled: seq<Byte>)
    requires st.Valid() && 0 < rem <= |part|
    modifies st
    ensures st.Valid() && st.written == old(st.written) && left <= rem && |filled| == |part|
    ensures filled[..|part| - rem] == part[..|part| - rem]
    ensures st.taken == old(st.taken) + filled[|part| - rem..|part| - left]
    ensures rc == (if left == 0 then RwOk else Again) && (rc.Again? ==> st.short)
    ensures |st.transit| == |old(st.transit)| - (rem - left)
  {
    var bytes := st.Readv(rem);
    left := rem - |bytes|;
    filled := Splice(part, |part| - rem, bytes);
    rc := if left == 0 then RwOk else Again;
    assert filled[|part| - rem..|part| - left] == bytes;
  }

  lemma HeaderMoved(base: seq<Byte>, s: seq<Byte>, a: nat, b: nat, m: seq<Byte>, d: seq<Byte>)
    requires a <= b <= |s| && m == [] && d == []
    ensures (base + (s[..a] + m + d)) + s[a..b] == base + (s[..b] + m + d)
  {
  }

  lemma MetaMoved(base: seq<Byte>, h: seq<Byte>, s: seq<Byte>, a: nat, b: nat, d: seq<Byte>)
    requires a <= b <= |s| && d == []
    ensures (base + (h + s[..a] + d)) + s[a..b] == base + (h + s[..b] + d)
  {
  }

  lemma DataMoved(base: seq<Byte>, h: seq<Byte>, m: seq<Byte>, s: seq<Byte>, a: nat, b: nat)
    requires a <= b <= |s|
    ensures (base + (h + m + s[..a])) + s[a..b] == base + (h + m + s[..b])
  {
  }

  method SendHeader(m: Msg, st: Stream, ghost base: seq<Byte>) returns (rc: Outcome)
    requires st.Valid() && m.InOrder() && st.written == base + m.Moved()
    modifies m`hdrRem, st
    ensures st.Valid() && m.InOrder() && st.taken == old(st.taken)
    ensures st.written == base + m.Moved()
    ensures rc == (if m.hdrRem == 0 then RwOk else Again) && (rc.Again? ==> st.short)
  {
    rc := RwOk;
    if m.hdrRem > 0 {
      ghost var rem := m.hdrRem;
      rc, m.hdrRem := SendPart(st, m.header, m.hdrRem);
      HeaderMoved(base, m.header, HEADER_LEN - rem, HEADER_LEN - m.hdrRem, m.meta[..|m.meta| - m.metaRem],
                  m.data[..|m.data| - m.dataRem]);
    }
  }

  method SendMeta(m: Msg, st: Stream, ghost base: seq<Byte>) returns (rc: Outcome)
    requires st.Valid() && m.InOrder() && m.hdrRem == 0 && st.written == base + m.Moved()
    modifies m`metaRem, st
    ensures st.Valid() && m.InOrder() && st.taken == old(st.taken)
    ensures st.written == base + m.Moved()
    ensures rc == (if m.metaRem == 0 then RwOk else Again) && (rc.Again? ==> st.short)
  {
    rc := RwOk;
    if m.metaRem > 0 {
      ghost var rem := m.metaRem;
      rc, m.metaRem := SendPart(st, m.meta, m.metaRem);
      MetaMoved(base, m.header[..HEADER_LEN - m.hdrRem], m.meta, |m.meta| - rem, |m.meta| - m.metaRem,
                m.data[..|m.data| - m.dataRem]);
    }
  }

  method SendData(m: Msg, st: Stream, ghost base: seq<Byte>) returns (rc: Outcome)
    requires st.Valid() && m.InOrder() && m.hdrRem == 0 && m.metaRem == 0 && st.written == base + m.Moved()
    modifies m`dataRem, st
    ensures st.Valid() && m.InOrder() && st.taken == old(st.taken)
    ensures st.written == base + m.Moved()
    ensures rc == (if m.dataRem == 0 then RwOk else Again) && (rc.Again? ==> st.short)
  {
    rc := RwOk;
    if m.dataRem > 0 {
      ghost var rem := m.dataRem;
      rc, m.dataRem := SendPart(st, m.data, m.dataRem);
      DataMoved(base, m.header[..HEADER_LEN - m.hdrRem], m.meta[..|m.meta| - m.metaRem], m.data, |m.data| - rem,
                |m.data| - m.dataRem);
    }
  }

  /** Sends as much of the message as the stream takes. */
  method DoSendMessage(m: Msg, st: Stream, ghost base: seq<Byte>) returns (rc: Outcome)
    requires st.Valid() && m.InOrder() && st.written == base + m.Moved()
    modifies m`hdrRem, m`metaRem, m`dataRem, st
    ensures st.Valid() && m.InOrder() && st.taken == old(st.taken)
    ensures st.written == base + m.Moved()
    ensures rc == if m.hdrRem == 0 && m.metaRem == 0 && m.dataRem == 0 then RwOk else Again
    ensures rc.Again? ==> st.short
  {
    rc := SendHeader(m, st, base);
    if rc.Again? {
      return;
    }
    rc := SendMeta(m, st, base);
    if rc.Again? {
      return;
    }
    rc := SendData(m, st, base);
  }

  /** Receives the header. */
  method RecvHeader(m: Msg, st: Stream, ghost base: seq<Byte>) returns (rc: Outcome)
    requires st.Valid() && m.Incoming() && st.taken == base + m.Moved()
    modifies m, st
    ensures st.Valid() && m.Incoming() && st.written == old(st.written) && st.taken == base + m.Moved()
    ensures old(m.hdrRem) == 0 ==> m.header == old(m.header)
    ensures |st.transit| == |old(st.transit)| - (old(m.hdrRem) - m.hdrRem) && m.hdrRem <= old(m.hdrRem)
    ensures rc == (if m.hdrRem == 0 then RwOk else Again) && (rc.Again? ==> st.short)
    ensures old(m.hdrRem) == 0 ==> m.metaRem == old(m.metaRem) && m.dataRem == old(m.dataRem)
  {
    rc := RwOk;
    if m.hdrRem > 0 {
      ghost var rem := m.hdrRem;
      rc, m.hdrRem, m.header := RecvPart(st, m.header, m.hdrRem);
      HeaderMoved(base, m.header, HEADER_LEN - rem, HEADER_LEN - m.hdrRem, m.meta[..|m.meta| - m.metaRem],
                  m.data[..|m.data| - m.dataRem]);
      if m.hdrRem == 0 {
        HeaderArrived(m);
      }
    }
  }

  /** The header is complete: buffers of the lengths it gives are allocated for the rest. */
  method HeaderArrived(m: Msg)
    requires m.Sized() && m.hdrRem == 0 && m.meta == [] && m.data == []
    modifies m`head, m`metaRem, m`dataRem, m`meta, m`data
    ensures m.Incoming() && m.Moved() == old(m.Moved())
  {
    HeaderBytes(m.header);
    m.head := DecodeHeader(m.header);
    m.metaRem, m.dataRem := m.head.metaLength, m.head.dataLength;
    m.meta, m.data := Zeros(m.head.metaLength), Zeros(m.head.dataLength);
    assert m.Moved() == m.header;
  }

  method RecvMeta(m: Msg, st: Stream, ghost base: seq<Byte>) returns (rc: Outcome)
    requires st.Valid() && m.Incoming() && m.hdrRem == 0 && st.taken == base + m.Moved()
    modifies m`metaRem, m`meta, st
    ensures st.Valid() && m.Incoming() && st.written == old(st.written) && st.taken == base + m.Moved()
    ensures |st.transit| == |old(st.transit)| - (old(m.metaRem) - m.metaRem) && m.metaRem <= old(m.metaRem)
    ensures rc == (if m.metaRem == 0 then RwOk else Again) && (rc.Again? ==> st.short)
  {
    rc := RwOk;
    if m.metaRem > 0 {
      ghost var rem := m.metaRem;
      rc, m.metaRem, m.meta := RecvPart(st, m.meta, m.metaRem);
      MetaMoved(base, m.header[..HEADER_LEN - m.hdrRem], m.meta, |m.meta| - rem, |m.meta| - m.metaRem,
                m.data[..|m.data| - m.dataRem]);
    }
  }

  method RecvData(m: Msg, st: Stream, ghost base: seq<Byte>) returns (rc: Outcome)
    requires st.Valid() && m.Incoming() && m.hdrRem == 0 && m.metaRem == 0 && st.taken == base + m.Moved()
    modifies m`dataRem, m`data, st
    ensures st.Valid() && m.Incoming() && st.written == old(st.written) && st.taken == base + m.Moved()
    ensures |st.transit| == |old(st.transit)| - (old(m.dataRem) - m.dataRem) && m.dataRem <= old(m.dataRem)
    ensures rc == (if m.dataRem == 0 then RwOk else Again) && (rc.Again? ==> st.short)
  {
    rc := RwOk;
    if m.dataRem > 0 {
      ghost var rem := m.dataRem;
      rc, m.dataRem, m.data := RecvPart(st, m.data, m.dataRem);
      DataMoved(base, m.header[..HEADER_LEN - m.hdrRem], m.meta[..|m.meta| - m.metaRem], m.data, |m.data| - rem,
                |m.data| - m.dataRem);
    }
  }

  /** Receives as much of the message as has arrived. */
  method DoRecvMessage(m: Msg, st: Stream, ghost base: seq<Byte>) returns (rc: Outcome)
    requires st.Valid() && m.Incoming() && st.taken == base + m.Moved()
    modifies m, st
    ensures st.Valid() && m.Incoming() && st.written == old(st.written) && st.taken == base + m.Moved()
    ensures |st.transit| <= |old(st.transit)|
    ensures rc.RwOk? && old(m.hdrRem > 0 || m.metaRem > 0 || m.dataRem > 0) ==> |st.transit| < |old(st.transit)|
    ensures rc == if m.hdrRem == 0 && m.metaRem == 0 && m.dataRem == 0 then RwOk else Again
    ensures rc.Again? ==> st.short
  {
    rc := RecvHeader(m, st, base);
    if rc.Again? {
      return;
    }
    rc := RecvMeta(m, st, base);
    if rc.Again? {
      return;
    }
    rc := RecvData(m, st, base);
  }

  predicate Apart(q: seq<Msg>) {
    forall i, j | 0 <= i < j < |q| :: q[i] != q[j]
  }

  // ---------- sending ----------

  class Sender {
    const st: Stream
    var sendQ: seq<Msg>
    ghost var pushed: seq<Message>
    ghost var sent: nat

    /** Message `m` of the queue stands for `v`. */
    ghost predicate Holds(m: Msg, v: Message)
      reads m
    {
      m.InOrder() && m.header == EncodeHeader(v.header) && m.meta == v.meta && m.data == v.data
    }

    ghost predicate Untouched(m: Msg)
      reads m
    {
      m.hdrRem == HEADER_LEN && m.metaRem == |m.meta| && m.dataRem == |m.data|
    }

    /** The messages behind the head of the queue, all of them still to be sent in full. */
    ghost predicate Behind()
      reads this, set i | 0 < i < |sendQ| :: sendQ[i]
    {
      && Apart(sendQ) && sent + |sendQ| == |pushed|
      && forall i | 0 < i < |sendQ| :: Holds(sendQ[i], pushed[sent + i]) && Untouched(sendQ[i])
    }

    ghost predicate Valid()
      reads this, sendQ, st
    {
      && st.Valid() && AllOk(pushed) && Behind() && (sendQ != [] ==> Holds(sendQ[0], pushed[sent]))
      && st.written == EncodeAll(pushed[..sent]) + if sendQ == [] then [] else sendQ[0].Moved()
    }

    constructor (st: Stream)
      requires st.Valid() && st.written == []
      ensures Valid() && this.st == st && pushed == [] && sent == 0
    {
      this.st := st;
      sendQ, pushed, sent := [], [], 0;
    }

    /** Queues a message. */
    method PushMsg(v: Message)
      requires Valid() && MessageOk(v)
      modifies this
      ensures Valid() && sent == old(sent) && pushed == old(pushed) + [v] && st.written == old(st.written)
    {
      var m := new Msg.Outgoing(v);
      Append(m, v);
    }

    method Append(m: Msg, v: Message)
      requires Valid() && MessageOk(v) && Holds(m, v) && Untouched(m) && m.Moved() == [] && m !in sendQ
      modifies this
      ensures Valid() && sent == old(sent) && pushed == old(pushed) + [v]
    {
      assert (pushed + [v])[..sent] == pushed[..sent];
      AddBehind(m, v);
    }

    method AddBehind(m: Msg, v: Message)
      requires Behind() && Holds(m, v) && Untouched(m) && m !in sendQ
      modifies this
      ensures Behind() && sent == old(sent) && pushed == old(pushed) + [v] && sendQ == old(sendQ) + [m]
    {
      sendQ := sendQ + [m];
      pushed := pushed + [v];
    }

    /** Sends from the head of the queue until the queue is empty or the stream takes no more. */
    method FlushMsg() returns (cnt: nat)
      requires Valid()
      modifies this, sendQ, st
      ensures sendQ == [] || st.short
      ensures Valid() && pushed == old(pushed) && sent == old(sent) + cnt && st.taken == old(st.taken)
    {
      cnt := 0;
      ghost var q := sendQ;
      while sendQ != []
        invariant Valid() && pushed == old(pushed) && sent == old(sent) + cnt && st.taken == old(st.taken)
        invariant cnt <= |q| && sendQ == q[cnt..]
        decreases |sendQ|
      {
        var rc := SendHead();
        if rc.Again? {
          return;
        }
        cnt := cnt + 1;
      }
    }

    /** Sends what the stream takes of the head, and drops the head once it is complete. */
    method SendHead() returns (rc: Outcome)
      requires Valid() && sendQ != []
      modifies this, sendQ[0], st
      ensures Valid() && pushed == old(pushed) && st.taken == old(st.taken)
      ensures if rc.Again? then sent == old(sent) && sendQ == old(sendQ) && st.short
              else sent == old(sent) + 1 && sendQ == old(sendQ)[1..]
    {
      var m := sendQ[0];
      rc := DoSendMessage(m, st, EncodeAll(pushed[..sent]));
      if rc.RwOk? {
        SentWhole(m, pushed[sent]);
        PopHead();
      }
    }

    method PopHead()
      requires st.Valid() && AllOk(pushed) && Behind() && sendQ != []
      requires st.written == EncodeAll(pushed[..sent]) + Encode(pushed[sent])
      modifies this
      ensures Valid() && pushed == old(pushed) && sent == old(sent) + 1 && sendQ == old(sendQ)[1..]
    {
      OneMoreSent(pushed, sent);
      DropHead();
      if sendQ != [] {
        FirstUntouched(sendQ[0], pushed[sent]);
      }
    }

    method DropHead()
      requires Behind() && sendQ != []
      modifies this
      ensures Behind() && (sendQ != [] ==> Holds(sendQ[0], pushed[sent]) && Untouched(sendQ[0]))
      ensures pushed == old(pushed) && sent == old(sent) + 1 && sendQ == old(sendQ)[1..]
    {
      ghost var q := sendQ;
      sendQ := sendQ[1..];
      sent := sent + 1;
      assert forall i | 0 <= i < |sendQ| :: sendQ[i] == q[i + 1];
    }

    lemma OneMoreSent(ms: seq<Message>, n: nat)
      requires n < |ms|
      ensures EncodeAll(ms[..n + 1]) == EncodeAll(ms[..n]) + Encode(ms[n])
    {
      EncodeSnoc(ms[..n], ms[n]);
      assert ms[..n + 1] == ms[..n] + [ms[n]];
    }

    lemma FirstUntouched(m: Msg, v: Message)
      requires Holds(m, v) && Untouched(m)
      ensures m.Moved() == []
    {
    }

    lemma SentWhole(m: Msg, v: Message)
      requires Holds(m, v) && m.hdrRem == m.metaRem == m.dataRem == 0
      ensures m.Moved() == Encode(v)
    {
    }

    /** What has been written is the beginning of everything pushed, and all of it once the queue is empty. */
    lemma WrittenPrefix()
      requires Valid()
      ensures st.written <= EncodeAll(pushed) && (sent == |pushed| ==> st.written == EncodeAll(pushed))
    {
      EncodePrefix(pushed, sent);
      if sendQ == [] {
        assert pushed[..sent] == pushed;
      } else {
        MovedPrefix(sendQ[0], pushed[sent]);
        var a := EncodeAll(pushed[..sent]);
        PrefixOf(a + sendQ[0].Moved(), a + Encode(pushed[sent]), EncodeAll(pushed));
      }
    }

    lemma MovedPrefix(m: Msg, v: Message)
      requires Holds(m, v)
      ensures m.Moved() <= Encode(v)
    {
    }
  }

  // ---------- receiving ----------

  predicate AllSmall(ms: seq<Message>) {
    forall i | 0 <= i < |ms| :: ms[i].header.metaLength + ms[i].header.dataLength < 0x1_0000_0000
  }

  class Receiver {
    const st: Stream
    var recvQ: seq<Msg>
    ghost var got: seq<Message>
    ghost var delivered: seq<Message>

    ghost predicate Complete(m: Msg, v: Message)
      reads m
    {
      m.hdrRem == m.metaRem == m.dataRem == 0 && m.Value() == v
    }

    ghost predicate Partial(m: Msg)
      reads m
    {
      m.Incoming() && (m.hdrRem > 0 || m.metaRem > 0 || m.dataRem > 0)
    }

    /** Messages received in full and not yet handed over. */
    ghost function Waiting(): int
      reads this
    {
      |got| - |delivered|
    }

    ghost function Objects(): set<Msg>
      reads this
    {
      set m | m in recvQ
    }

    /** The front of the queue: the messages received in full. */
    ghost predicate Front()
      reads this, set i | 0 <= i < Waiting() && i < |recvQ| :: recvQ[i]
    {
      && Apart(recvQ) && delivered <= got && Waiting() <= |recvQ| <= Waiting() + 1
      && forall i | 0 <= i < Waiting() && i < |recvQ| :: Complete(recvQ[i], got[|delivered| + i])
    }

    /** Behind them there may be one that is still arriving. */
    ghost predicate Reading()
      reads this, recvQ, st
    {
      && st.Valid() && AllOk(got) && Front()
      && (|recvQ| == Waiting() + 1 ==> Partial(recvQ[Waiting()]))
      && st.taken == EncodeAll(got) + if |recvQ| == Waiting() + 1 then recvQ[Waiting()].Moved() else []
    }

    /** Between events: nothing complete is left in the queue. */
    ghost predicate Valid()
      reads this, recvQ, st
    {
      Reading() && delivered == got
    }

    constructor (st: Stream)
      requires st.Valid() && st.taken == []
      ensures Valid() && this.st == st && delivered == []
    {
      this.st := st;
      recvQ, got, delivered := [], [], [];
    }

    /** The peer has pushed `pushed`, and the stream carries nothing else. */
    ghost predicate Peer(pushed: seq<Message>)
      reads st
    {
      AllOk(pushed) && AllSmall(pushed) && st.written <= EncodeAll(pushed)
    }

    /** A message that is still arriving looks complete exactly when its header has arrived and 2^32 bytes are
        missing, so only if its two lengths add up to at least that. */
    lemma PartialLooksComplete(m: Msg)
      requires Partial(m)
      ensures m.SeemsComplete() <==> m.hdrRem == 0 && m.metaRem + m.dataRem == 0x1_0000_0000
      ensures m.hdrRem == 0 ==>
        && HeaderOk(m.head) && Reached(m.head.metaLength, m.head.dataLength, 0, m.metaRem, m.dataRem)
        && (m.SeemsComplete() ==> m.head.metaLength + m.head.dataLength >= 0x1_0000_0000)
    {
      if m.hdrRem == 0 {
        assert m.metaRem + m.dataRem < 2 * 0x1_0000_0000;
      }
    }

    /** A message that is still arriving does not look complete. */
    lemma PartialShows(pushed: seq<Message>, m: Msg)
      requires st.Valid() && AllOk(got) && Peer(pushed) && Partial(m) && st.taken == EncodeAll(got) + m.Moved()
      ensures !m.SeemsComplete()
    {
      if m.hdrRem == 0 {
        HeaderRoundTrip(m.head);
        NextBegun(got, m.Moved(), pushed);
        assert m.Moved()[..HEADER_LEN] == m.header;
      }
    }

    /** The tail of the queue looks complete exactly when nothing is arriving. */
    lemma TailShows(pushed: seq<Message>)
      requires Reading() && Peer(pushed) && recvQ != []
      ensures recvQ[|recvQ| - 1].SeemsComplete() == (|recvQ| == Waiting())
    {
      if |recvQ| == Waiting() {
        assert Complete(recvQ[|recvQ| - 1], got[|delivered| + (|recvQ| - 1)]);
      } else {
        PartialShows(pushed, recvQ[|recvQ| - 1]);
      }
    }

    /** The message at the tail of the queue, a new one if that is complete. */
    method TailRecvMsg(ghost pushed: seq<Message>) returns (m: Msg)
      requires Reading() && Peer(pushed)
      modifies this`recvQ
      ensures Reading() && |recvQ| == Waiting() + 1 && m == recvQ[Waiting()]
      ensures Objects() == old(Objects()) + {m} && (m in old(Objects()) || fresh(m))
    {
      if recvQ != [] {
        TailShows(pushed);
        m := recvQ[|recvQ| - 1];
        if !m.SeemsComplete() {
          return;
        }
      }
      m := AddTail();
    }

    method AddTail() returns (m: Msg)
      requires Reading() && |recvQ| == Waiting()
      modifies this`recvQ
      ensures Reading() && |recvQ| == Waiting() + 1 && m == recvQ[Waiting()]
      ensures fresh(m) && Objects() == old(Objects()) + {m}
    {
      m := new Msg.Expected();
      AppendTail(m);
    }

    method AppendTail(m: Msg)
      requires Front() && |recvQ| == Waiting() && m !in recvQ
      modifies this`recvQ
      ensures Front() && |recvQ| == Waiting() + 1 && m == recvQ[Waiting()] && Objects() == old(Objects()) + {m}
    {
      ghost var q := recvQ;
      recvQ := recvQ + [m];
      assert forall i | 0 <= i < |q| :: recvQ[i] == q[i];
      assert recvQ[|q|] == m;
    }

    /** The message that was arriving is complete. */
    lemma NowComplete(m: Msg)
      requires st.Valid() && AllOk(got) && m.Incoming() && m.hdrRem == m.metaRem == m.dataRem == 0
      requires st.taken == EncodeAll(got) + m.Moved()
      ensures MessageOk(m.Value()) && st.taken == EncodeAll(got + [m.Value()])
    {
      assert m.Moved() == Encode(m.Value());
      EncodeSnoc(got, m.Value());
    }

    /** Receives into the message at the tail of the queue, whose front is complete. */
    method FillTail(m: Msg) returns (rc: Outcome)
      requires Reading() && |recvQ| == Waiting() + 1 && m == recvQ[Waiting()]
      modifies m, st
      ensures Front() && st.Valid() && st.written == old(st.written)
      ensures m.Incoming() && st.taken == EncodeAll(got) + m.Moved()
      ensures rc == if m.hdrRem == 0 && m.metaRem == 0 && m.dataRem == 0 then RwOk else Again
      ensures |st.transit| <= |old(st.transit)|
      ensures if rc.RwOk? then |st.transit| < |old(st.transit)| else st.short
    {
      rc := DoRecvMessage(m, st, EncodeAll(got));
    }

    /** The message at the tail counts as received. */
    ghost method Gather(m: Msg)
      requires st.Valid() && AllOk(got) && Front() && |recvQ| == Waiting() + 1 && m == recvQ[Waiting()]
      requires m.Incoming() && m.hdrRem == m.metaRem == m.dataRem == 0 && st.taken == EncodeAll(got) + m.Moved()
      modifies this`got
      ensures Reading() && got == old(got) + [m.Value()]
    {
      NowComplete(m);
      got := got + [m.Value()];
    }

    /** Receives into the message `m` at the tail of the queue, which counts as received once it is complete. */
    method ReceiveInto(m: Msg) returns (rc: Outcome)
      requires Reading() && |recvQ| == Waiting() + 1 && m == recvQ[Waiting()]
      modifies this`got, m, st
      ensures Reading() && st.written == old(st.written)
      ensures old(got) <= got && |st.transit| <= |old(st.transit)|
      ensures if rc.RwOk? then |st.transit| < |old(st.transit)| else st.short
    {
      rc := FillTail(m);
      if rc.RwOk? {
        Gather(m);
      }
    }

    /** Receives into the message at the tail of the queue. */
    method ReceiveTail(ghost pushed: seq<Message>) returns (rc: Outcome)
      requires Reading() && Peer(pushed)
      modifies this`recvQ, this`got, Objects(), st
      ensures Reading() && st.written == old(st.written) && fresh(Objects() - old(Objects()))
      ensures old(got) <= got && delivered == old(delivered) && |st.transit| <= |old(st.transit)|
      ensures if rc.RwOk? then |st.transit| < |old(st.transit)| else st.short
    {
      var m := TailRecvMsg(pushed);
      rc := ReceiveInto(m);
    }

    /** Receives all that has arrived. */
    method ReceiveAll(ghost pushed: seq<Message>)
      requires Reading() && Peer(pushed)
      modifies this`recvQ, this`got, Objects(), st
      ensures Reading() && st.written == old(st.written) && old(got) <= got && delivered == old(delivered) && st.short
    {
      var rc := RwOk;
      while rc.RwOk?
        invariant Reading() && st.written == old(st.written) && old(got) <= got && delivered == old(delivered)
        invariant fresh(Objects() - old(Objects())) && (rc.Again? ==> st.short)
        decreases |st.transit|, rc.RwOk?
      {
        rc := ReceiveTail(pushed);
      }
    }

    /** The head of the queue looks complete exactly when some message is waiting to be handed over. */
    lemma HeadShows(pushed: seq<Message>)
      requires Reading() && Peer(pushed) && recvQ != []
      ensures recvQ[0].SeemsComplete() == (Waiting() > 0)
    {
      if Waiting() > 0 {
        assert Complete(recvQ[0], got[|delivered| + 0]);
      } else {
        PartialShows(pushed, recvQ[0]);
      }
    }

    /** Hands over the complete messages at the head of the queue. */
    method PopAll(ghost pushed: seq<Message>) returns (cnt: nat)
      requires Reading() && Peer(pushed)
      modifies this`recvQ, this`delivered
      ensures Valid() && got == old(got) && cnt == old(Waiting())
    {
      cnt := 0;
      while recvQ != []
        invariant Reading() && cnt + Waiting() == old(Waiting())
        decreases |recvQ|
      {
        HeadShows(pushed);
        if !recvQ[0].SeemsComplete() {
          break;
        }
        PopOne();
        cnt := cnt + 1;
      }
    }

    method PopOne()
      requires Reading() && Waiting() > 0
      modifies this`recvQ, this`delivered
      ensures Reading() && recvQ == old(recvQ)[1..] && |delivered| == |old(delivered)| + 1
    {
      ghost var q := recvQ;
      DropFirst();
      if |recvQ| == Waiting() + 1 {
        assert recvQ[Waiting()] == q[Waiting() + 1];
      }
    }

    method DropFirst()
      requires Front() && Waiting() > 0
      modifies this`recvQ, this`delivered
      ensures Front() && recvQ == old(recvQ)[1..] && |delivered| == |old(delivered)| + 1
    {
      ghost var q := recvQ;
      delivered := delivered + [recvQ[0].Value()];
      recvQ := recvQ[1..];
      assert forall i | 0 <= i < |recvQ| :: recvQ[i] == q[i + 1];
    }

    /** The socket is readable: bytes are received until it yields fewer than asked for, and the messages that are
        complete are handed over. Those handed over so far are always the first of the messages pushed. */
    method ReadEvent(ghost pushed: seq<Message>) returns (cnt: nat)
      requires Valid() && Peer(pushed)
      modifies this, Objects(), st
      ensures Valid() && st.written == old(st.written) && st.short
      ensures old(delivered) <= delivered && |delivered| == old(|delivered|) + cnt
      ensures |delivered| <= |pushed| && delivered == pushed[..|delivered|]
      ensures st.taken == EncodeAll(pushed) ==> delivered == pushed
    {
      ReceiveAll(pushed);
      cnt := PopAll(pushed);
      Received(pushed);
    }

    lemma {:induction false} Received(pushed: seq<Message>)
      requires Valid() && Peer(pushed)
      ensures |delivered| <= |pushed| && delivered == pushed[..|delivered|]
      ensures st.taken == EncodeAll(pushed) ==> delivered == pushed
    {
      var part := if |recvQ| == 1 then recvQ[0].Moved() else [];
      PrefixOf(st.taken, st.written, EncodeAll(pushed));
      Decoded(got, part, pushed);
      if st.taken == EncodeAll(pushed) {
        if |recvQ| == 1 && recvQ[0].hdrRem == 0 {
          HeaderRoundTrip(recvQ[0].head);
          assert recvQ[0].Moved()[..HEADER_LEN] == recvQ[0].header;
        }
        AllDecoded(got, part, pushed);
      }
    }
  }

  /** The two ends of one stream: whatever the network cut, the messages handed over are the first of those pushed,
      field for field, and all of them once the sender's queue and the stream are empty. */
  lemma EndToEnd(s: Sender, r: Receiver)
    requires s.st == r.st && s.Valid() && r.Valid() && AllSmall(s.pushed)
    ensures |r.delivered| <= |s.pushed| && r.delivered == s.pushed[..|r.delivered|]
    ensures s.sent == |s.pushed| && s.st.transit == [] ==> r.delivered == s.pushed
  {
    s.WrittenPrefix();
    r.Received(s.pushed);
  }
}
