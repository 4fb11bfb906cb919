/** Messages as bytes on a stream. */
module Wire {
  import opened Bytes

  const HEADER_LEN: nat := 26

  /** The packed header; the two lengths say what follows it. */
  datatype Header = Header(seqNo: nat, kind: nat, status: nat, magic: nat, metaLength: nat, dataLength: nat,
                           slo: nat, rsv0: nat, rsv1: nat)

  /** The widths of the fields: 8, 1, 1, 1, 1, 4, 2, 4 and 4 bytes. */
  predicate HeaderOk(h: Header) {
    && h.seqNo < 0x1_0000_0000_0000_0000
    && h.kind < 0x100 && h.status < 0x100 && h.magic < 0x100 && h.metaLength < 0x100
    && h.dataLength < 0x1_0000_0000 && h.slo < 0x1_0000 && h.rsv0 < 0x1_0000_0000 && h.rsv1 < 0x1_0000_0000
  }

  /** A packed record: unsigned little-endian fields, one after the other. */
  datatype Fields = End | Field(value: nat, width: nat, rest: Fields)

  function Size(f: Fields): nat {
    if f.End? then 0 else f.width + Size(f.rest)
  }

  function Pack(f: Fields): (s: seq<Byte>)
    ensures |s| == Size(f)
  {
    if f.End? then [] else EncodeLe(f.value, f.width) + Pack(f.rest)
  }

  /** The `n` bytes from the `i`-th on, read in place. */
  function FieldAt(s: seq<Byte>, i: nat, n: nat): (v: nat)
    requires i + n <= |s|
    decreases n, s
  {
    if n == 0 then 0 else s[i] + 256 * FieldAt(s, i + 1, n - 1)
  }

  lemma {:induction false} FieldValue(s: seq<Byte>, i: nat, n: nat)
    requires i + n <= |s|
    ensures FieldAt(s, i, n) == DecodeLe(s[i..i + n])
    decreases n
  {
    if n > 0 {
      FieldValue(s, i + 1, n - 1);
      assert s[i..i + n][1..] == s[i + 1..i + n];
    }
  }

  /** The record of shape `f` found in the bytes. */
  function Unpack(s: seq<Byte>, at: nat, f: Fields): (r: Fields)
    requires at + Size(f) <= |s|
    decreases f, s
  {
    if f.End? then End
    else Field(FieldAt(s, at, f.width), f.width, Unpack(s, at + f.width, f.rest))
  }

  predicate InRange(f: Fields) {
    f.End? || (f.value < Pow256(f.width) && InRange(f.rest))
  }

  predicate SameShape(f: Fields, g: Fields) {
    if f.End? then g.End? else g.Field? && f.width == g.width && SameShape(f.rest, g.rest)
  }

  lemma FirstField(f: Fields, s: seq<Byte>, at: nat)
    requires f.Field? && f.value < Pow256(f.width) && at + Size(f) <= |s| && s[at..at + Size(f)] == Pack(f)
    ensures FieldAt(s, at, f.width) == f.value
    ensures s[at + f.width..at + f.width + Size(f.rest)] == Pack(f.rest)
  {
    var n, p := f.width, Pack(f);
    DecodeEncode(f.value, n);
    FieldValue(s, at, n);
    assert p[0..n] == EncodeLe(f.value, n) && p[n..Size(f)] == Pack(f.rest);
    SubSlice(s, at, at + Size(f), 0, n);
    SubSlice(s, at, at + Size(f), n, Size(f));
  }

  lemma {:induction false} UnpackPack(f: Fields, g: Fields, s: seq<Byte>, at: nat)
    requires InRange(f) && SameShape(f, g) && at + Size(f) <= |s| && s[at..at + Size(f)] == Pack(f)
    ensures Size(f) == Size(g) && Unpack(s, at, g) == f
    decreases f
  {
    if f.Field? {
      FirstField(f, s, at);
      UnpackPack(f.rest, g.rest, s, at + f.width);
    }
  }

  lemma {:induction false} PackUnpack(s: seq<Byte>, at: nat, f: Fields)
    requires at + Size(f) <= |s|
    ensures var r := Unpack(s, at, f);
            InRange(r) && SameShape(r, f) && Size(r) == Size(f) && Pack(r) == s[at..at + Size(f)]
    decreases f
  {
    if f.Field? {
      EncodeDecode(s[at..at + f.width]);
      FieldValue(s, at, f.width);
      PackUnpack(s, at + f.width, f.rest);
      assert s[at..at + Size(f)] == s[at..at + f.width] + s[at + f.width..at + Size(f)];
    }
  }

  // ---------- the header ----------

  function FieldsOf(h: Header): Fields {
    Field(h.seqNo, 8, Field(h.kind, 1, Field(h.status, 1, Field(h.magic, 1, Field(h.metaLength, 1,
      Field(h.dataLength, 4, Field(h.slo, 2, Field(h.rsv0, 4, Field(h.rsv1, 4, End)))))))))
  }

  function HeaderFrom(f: Fields): Header {
    match f
    case Field(a, _, Field(b, _, Field(c, _, Field(d, _, Field(e, _,
           Field(g, _, Field(i, _, Field(j, _, Field(k, _, End)))))))))
      => Header(a, b, c, d, e, g, i, j, k)
    case _ => Header(0, 0, 0, 0, 0, 0, 0, 0, 0)
  }

  function EncodeHeader(h: Header): (s: seq<Byte>)
    ensures |s| == HEADER_LEN
  {
    HeaderSize(h);
    Pack(FieldsOf(h))
  }

  function DecodeHeader(s: seq<Byte>): Header
    requires |s| == HEADER_LEN
  {
    var shape := FieldsOf(Header(0, 0, 0, 0, 0, 0, 0, 0, 0));
    HeaderSize(Header(0, 0, 0, 0, 0, 0, 0, 0, 0));
    HeaderFrom(Unpack(s, 0, shape))
  }

  lemma HeaderSize(h: Header)
    ensures Size(FieldsOf(h)) == HEADER_LEN
  {
    var f2 := FieldsOf(h).rest.rest;
    var f4 := f2.rest.rest;
    var f6 := f4.rest.rest;
    assert Size(f6.rest.rest) == 4;
    assert Size(f6) == 10;
    assert Size(f4) == 15;
    assert Size(f2) == 17;
  }

  lemma HeaderInRange(h: Header)
    ensures HeaderOk(h) <==> InRange(FieldsOf(h))
  {
    Powers();
    var f2 := FieldsOf(h).rest.rest;
    var f4 := f2.rest.rest;
    var f6 := f4.rest.rest;
    assert InRange(f6.rest.rest) == (h.rsv1 < 0x1_0000_0000);
    assert InRange(f6.rest) == (h.rsv0 < 0x1_0000_0000 && h.rsv1 < 0x1_0000_0000);
    assert InRange(f6) == (h.slo < 0x1_0000 && InRange(f6.rest));
    assert InRange(f4) == (h.metaLength < 0x100 && h.dataLength < 0x1_0000_0000 && InRange(f6));
    assert InRange(f2) == (h.status < 0x100 && h.magic < 0x100 && InRange(f4));
  }

  lemma SameHeaderShape(h: Header, g: Header)
    ensures SameShape(FieldsOf(h), FieldsOf(g))
  {
    var f2, e2 := FieldsOf(h).rest.rest, FieldsOf(g).rest.rest;
    var f4, e4 := f2.rest.rest, e2.rest.rest;
    var f6, e6 := f4.rest.rest, e4.rest.rest;
    assert SameShape(f6.rest, e6.rest);
    assert SameShape(f4, e4);
    assert SameShape(f2, e2);
  }

  lemma HeaderRoundTrip(h: Header)
    requires HeaderOk(h)
    ensures DecodeHeader(EncodeHeader(h)) == h
  {
    var zero := Header(0, 0, 0, 0, 0, 0, 0, 0, 0);
    HeaderSize(zero);
    HeaderInRange(h);
    SameHeaderShape(h, zero);
    UnpackPack(FieldsOf(h), FieldsOf(zero), EncodeHeader(h), 0);
  }

  /** The record stands in the bytes from `at` on. */
  predicate Stands(f: Fields, s: seq<Byte>, at: nat) {
    InRange(f) && at + Size(f) <= |s| && s[at..at + Size(f)] == Pack(f)
  }

  lemma NextField(f: Fields, s: seq<Byte>, at: nat)
    requires f.Field? && Stands(f, s, at)
    ensures at + f.width <= |s| && DecodeLe(s[at..at + f.width]) == f.value && Stands(f.rest, s, at + f.width)
  {
    FirstField(f, s, at);
    FieldValue(s, at, f.width);
  }

  lemma NextByte(f: Fields, s: seq<Byte>, at: nat)
    requires f.Field? && f.width == 1 && Stands(f, s, at)
    ensures s[at] == f.value && Stands(f.rest, s, at + 1)
  {
    FirstField(f, s, at);
    assert FieldAt(s, at, 1) == s[at] + 256 * FieldAt(s, at + 1, 0);
  }

  /** Which bytes of a header say what. */
  lemma HeaderLayout(h: Header)
    requires HeaderOk(h)
    ensures var s := EncodeHeader(h);
            && DecodeLe(s[0..8]) == h.seqNo
            && s[8] == h.kind && s[9] == h.status && s[10] == h.magic && s[11] == h.metaLength
            && DecodeLe(s[12..16]) == h.dataLength && DecodeLe(s[16..18]) == h.slo
            && DecodeLe(s[18..22]) == h.rsv0 && DecodeLe(s[22..26]) == h.rsv1
  {
    var f, s := FieldsOf(h), EncodeHeader(h);
    HeaderInRange(h);
    HeaderSize(h);
    NextField(f, s, 0);
    FourBytes(f.rest, s, 8);
    FourFields(f.rest.rest.rest.rest.rest, s, 12);
  }

  lemma FourBytes(f: Fields, s: seq<Byte>, at: nat)
    requires Stands(f, s, at) && f.Field? && f.rest.Field? && f.rest.rest.Field? && f.rest.rest.rest.Field?
    requires f.width == f.rest.width == f.rest.rest.width == f.rest.rest.rest.width == 1
    ensures at + 4 <= |s| && s[at] == f.value && s[at + 1] == f.rest.value
    ensures s[at + 2] == f.rest.rest.value && s[at + 3] == f.rest.rest.rest.value
    ensures Stands(f.rest.rest.rest.rest, s, at + 4)
  {
    NextByte(f, s, at);
    NextByte(f.rest, s, at + 1);
    NextByte(f.rest.rest, s, at + 2);
    NextByte(f.rest.rest.rest, s, at + 3);
  }

  lemma FourFields(f: Fields, s: seq<Byte>, at: nat)
    requires Stands(f, s, at) && f.Field? && f.rest.Field? && f.rest.rest.Field? && f.rest.rest.rest.Field?
    requires f.width == f.rest.rest.width == f.rest.rest.rest.width == 4 && f.rest.width == 2
    ensures at + 14 <= |s|
    ensures DecodeLe(s[at..at + 4]) == f.value && DecodeLe(s[at + 4..at + 6]) == f.rest.value
    ensures DecodeLe(s[at + 6..at + 10]) == f.rest.rest.value && DecodeLe(s[at + 10..at + 14]) == f.rest.rest.rest.value
  {
    NextField(f, s, at);
    NextField(f.rest, s, at + 4);
    NextField(f.rest.rest, s, at + 6);
    NextField(f.rest.rest.rest, s, at + 10);
  }

  lemma RestSameShape(f: Fields, g: Fields)
    requires SameShape(f, g) && g.Field?
    ensures f.Field? && f.width == g.width && SameShape(f.rest, g.rest)
  {
  }

  lemma FromShape(f: Fields, h: Header)
    requires SameShape(f, FieldsOf(h))
    ensures FieldsOf(HeaderFrom(f)) == f
  {
    var g := FieldsOf(h);
    RestSameShape(f, g);
    RestSameShape(f.rest, g.rest);
    var f2, g2 := f.rest.rest, g.rest.rest;
    RestSameShape(f2, g2);
    RestSameShape(f2.rest, g2.rest);
    var f4, g4 := f2.rest.rest, g2.rest.rest;
    RestSameShape(f4, g4);
    RestSameShape(f4.rest, g4.rest);
    var f6, g6 := f4.rest.rest, g4.rest.rest;
    RestSameShape(f6, g6);
    RestSameShape(f6.rest, g6.rest);
    RestSameShape(f6.rest.rest, g6.rest.rest);
  }

  /** Any 26 bytes are the header they decode to. */
  lemma HeaderBytes(s: seq<Byte>)
    requires |s| == HEADER_LEN
    ensures EncodeHeader(DecodeHeader(s)) == s && HeaderOk(DecodeHeader(s))
  {
    var zero := Header(0, 0, 0, 0, 0, 0, 0, 0, 0);
    HeaderSize(zero);
    PackUnpack(s, 0, FieldsOf(zero));
    FromShape(Unpack(s, 0, FieldsOf(zero)), zero);
    assert s[0..HEADER_LEN] == s;
    HeaderInRange(DecodeHeader(s));
  }

  datatype Message = Message(header: Header, meta: seq<Byte>, data: seq<Byte>)

  predicate MessageOk(m: Message) {
    HeaderOk(m.header) && |m.meta| == m.header.metaLength && |m.data| == m.header.dataLength
  }

  predicate AllOk(ms: seq<Message>) {
    forall i | 0 <= i < |ms| :: MessageOk(ms[i])
  }

  function Encode(m: Message): seq<Byte> {
    EncodeHeader(m.header) + m.meta + m.data
  }

  function EncodeAll(ms: seq<Message>): seq<Byte> {
    if ms == [] then [] else EncodeAll(ms[..|ms| - 1]) + Encode(ms[|ms| - 1])
  }

  lemma {:induction false} EncodeSnoc(ms: seq<Message>, m: Message)
    ensures EncodeAll(ms + [m]) == EncodeAll(ms) + Encode(m)
  {
    assert (ms + [m])[..|ms|] == ms;
  }

  lemma {:induction false} EncodePrefix(ms: seq<Message>, k: nat)
    requires k <= |ms|
    ensures EncodeAll(ms[..k]) <= EncodeAll(ms)
    ensures k < |ms| ==> EncodeAll(ms[..k]) + Encode(ms[k]) <= EncodeAll(ms)
    decreases |ms|
  {
    if k < |ms| {
      var front := ms[..|ms| - 1];
      if k < |front| {
        EncodePrefix(front, k);
        assert front[..k] == ms[..k];
        PrefixOf(EncodeAll(front[..k]) + Encode(front[k]), EncodeAll(front), EncodeAll(ms));
      } else {
        assert ms[..k] == front;
      }
      PrefixOf(EncodeAll(ms[..k]), EncodeAll(ms[..k]) + Encode(ms[k]), EncodeAll(ms));
    } else {
      assert ms[..k] == ms;
    }
  }

  lemma PrefixOf(a: seq<Byte>, b: seq<Byte>, c: seq<Byte>)
    requires a <= b && b <= c
    ensures a <= c
  {
  }

  // ---------- unique decoding ----------

  /** The bytes of a message that has been transferred in part. */
  predicate Begun(part: seq<Byte>) {
    |part| < HEADER_LEN
    || var h := DecodeHeader(part[..HEADER_LEN]); |part| < HEADER_LEN + h.metaLength + h.dataLength
  }

  /** Two messages whose bytes lie at the same place of the same stream are the same message. */
  lemma SameStart(stream: seq<Byte>, at: nat, m: Message, p: Message)
    requires MessageOk(m) && MessageOk(p)
    requires at + |Encode(m)| <= |stream| && at + |Encode(p)| <= |stream|
    requires stream[at..at + |Encode(m)|] == Encode(m) && stream[at..at + |Encode(p)|] == Encode(p)
    ensures m == p
  {
    SameHeader(stream, at, m);
    SameHeader(stream, at, p);
    assert |Encode(m)| == |Encode(p)|;
    MessageParts(m);
    MessageParts(p);
  }

  lemma SameHeader(stream: seq<Byte>, at: nat, m: Message)
    requires MessageOk(m) && at + |Encode(m)| <= |stream| && stream[at..at + |Encode(m)|] == Encode(m)
    ensures DecodeHeader(stream[at..at + HEADER_LEN]) == m.header
  {
    SubSlice(stream, at, at + |Encode(m)|, 0, HEADER_LEN);
    MessageParts(m);
    HeaderRoundTrip(m.header);
  }

  lemma MessageParts(m: Message)
    ensures var s, n := Encode(m), HEADER_LEN + |m.meta|;
            s[0..HEADER_LEN] == EncodeHeader(m.header) && s[HEADER_LEN..n] == m.meta && s[n..] == m.data
  {
  }

  lemma PrefixSlice(a: seq<Byte>, b: seq<Byte>, s: seq<Byte>)
    requires a + b <= s
    ensures s[|a|..|a| + |b|] == b
  {
    assert s[..|a| + |b|] == a + b;
    assert s[|a|..|a| + |b|] == s[..|a| + |b|][|a|..];
  }

  /** Decoding never outruns encoding. */
  lemma {:induction false} NotPast(pushed: seq<Message>, n: nat, part: seq<Byte>)
    requires n <= |pushed| && EncodeAll(pushed[..n]) + part <= EncodeAll(pushed) && part != []
    ensures n < |pushed|
  {
    assert pushed[..|pushed|] == pushed;
  }

  lemma {:induction false} NextSame(pushed: seq<Message>, n: nat, m: Message, part: seq<Byte>)
    requires n < |pushed| && AllOk(pushed) && MessageOk(m)
    requires EncodeAll(pushed[..n]) + (Encode(m) + part) <= EncodeAll(pushed)
    ensures m == pushed[n]
  {
    var a, p, s := EncodeAll(pushed[..n]), pushed[n], EncodeAll(pushed);
    EncodePrefix(pushed, n);
    PrefixSlice(a, Encode(p), s);
    assert a + (Encode(m) + part) == (a + Encode(m)) + part;
    PrefixSlice(a, Encode(m), s);
    SameStart(s, |a|, m, p);
  }

  lemma Regroup(a: seq<Byte>, b: seq<Byte>, c: seq<Byte>)
    ensures a + (b + c) == (a + b) + c
  {
  }

  lemma OneMore(ms: seq<Message>, pushed: seq<Message>, n: nat)
    requires |ms| == n + 1 && n < |pushed| && ms[..n] == pushed[..n] && ms[n] == pushed[n]
    ensures ms == pushed[..n + 1]
  {
    assert ms == ms[..n] + [ms[n]];
    assert pushed[..n + 1] == pushed[..n] + [pushed[n]];
  }

  /** The messages decoded from a stream are, one by one, those encoded into it. */
  lemma {:induction false} Decoded(ms: seq<Message>, part: seq<Byte>, pushed: seq<Message>)
    requires AllOk(ms) && AllOk(pushed) && EncodeAll(ms) + part <= EncodeAll(pushed)
    ensures |ms| <= |pushed| && ms == pushed[..|ms|]
    decreases |ms|
  {
    if ms != [] {
      var n := |ms| - 1;
      var front, m := ms[..n], ms[n];
      Regroup(EncodeAll(front), Encode(m), part);
      Decoded(front, Encode(m) + part, pushed);
      NotPast(pushed, n, Encode(m) + part);
      NextSame(pushed, n, m, part);
      OneMore(ms, pushed, n);
    }
  }

  /** A partly transferred message is the beginning of the next one. */
  lemma {:induction false} NextBegun(ms: seq<Message>, part: seq<Byte>, pushed: seq<Message>)
    requires AllOk(ms) && AllOk(pushed) && EncodeAll(ms) + part <= EncodeAll(pushed) && part != []
    ensures |ms| < |pushed|
    ensures |part| >= HEADER_LEN ==> DecodeHeader(part[..HEADER_LEN]) == pushed[|ms|].header
  {
    Decoded(ms, part, pushed);
    var n, s := |ms|, EncodeAll(pushed);
    if n == |pushed| {
      assert pushed[..n] == pushed;
    }
    EncodePrefix(pushed, n);
    PrefixSlice(EncodeAll(ms), part, s);
    PrefixSlice(EncodeAll(ms), Encode(pushed[n]), s);
    if |part| >= HEADER_LEN {
      var at := |EncodeAll(ms)|;
      SameHeader(s, at, pushed[n]);
      assert part[..HEADER_LEN] == s[at..at + HEADER_LEN] by {
        SubSlice(s, at, at + |part|, 0, HEADER_LEN);
      }
    }
  }

  /** Once every byte has been transferred nothing is left over: all messages were decoded. */
  lemma {:induction false} AllDecoded(ms: seq<Message>, part: seq<Byte>, pushed: seq<Message>)
    requires AllOk(ms) && AllOk(pushed) && EncodeAll(ms) + part == EncodeAll(pushed) && Begun(part)
    ensures ms == pushed && part == []
  {
    Decoded(ms, part, pushed);
    var n := |ms|;
    if n < |pushed| {
      EncodePrefix(pushed, n);
      assert |part| >= |Encode(pushed[n])| >= HEADER_LEN;
      NextBegun(ms, part, pushed);
      assert false;
    }
    assert pushed[..n] == pushed;
  }
}
