/** How the server answers a request: the request's own structure is rewritten into the response. */
module Server {
  import opened Common

  const PING: nat := 1
  const OSS_MIN: nat := 10
  const STAT: nat := 11
  const CREATE: nat := 12
  const READ: nat := 13
  const WRITE: nat := 14
  const DELETE: nat := 15
  const OSS_MAX: nat := 74

  const LOCAL: nat := 0x11
  const REMOTE: nat := 0x22

  const SUCCESS: nat := 0
  const UNKNOWN_OP: nat := 1
  const INVALID_OP: nat := 2

  const STAT_RESULT_SIZE: nat := 20

  /** The arguments a meta buffer carries, as far as the server reads them. */
  datatype Args = Args(len: nat)

  /** What a message says: header fields, and which buffers hang off it. */
  datatype Rec = Rec(seqNo: nat, kind: nat, status: nat, magic: nat, metaLength: nat, dataLength: nat, slot: nat,
                     meta: Option<Args>, data: bool)

  predicate IsOss(kind: nat) {
    OSS_MIN < kind < OSS_MAX
  }

  predicate OssOpValid(r: Rec) {
    if r.kind == STAT then r.dataLength == 0 && r.metaLength == 0 && !r.data && r.meta.None?
    else if r.kind == CREATE || r.kind == DELETE then r.dataLength == 0 && r.metaLength == 8 && !r.data && r.meta.Some?
    else if r.kind == WRITE then
      r.data && r.meta.Some? && r.dataLength == r.meta.value.len && r.metaLength > 0
    else r.kind == READ && r.dataLength == 0 && r.metaLength > 0 && !r.data && r.meta.Some?
  }

  /** A message as the client's library builds it. */
  predicate FromClient(r: Rec) {
    && r.kind in {STAT, CREATE, READ, WRITE, DELETE} && r.magic in {LOCAL, REMOTE}
    && (r.meta.Some? <==> r.metaLength > 0)
    && (r.kind == STAT <==> r.metaLength == 0) && (r.kind in {CREATE, DELETE} ==> r.metaLength == 8)
    && (r.kind != WRITE ==> r.dataLength == 0 && !r.data)
    && (r.kind == WRITE ==> r.data && r.dataLength == r.meta.value.len < 0x1_0000_0000)
  }

  /** `a` answers `r`: the same slot, sequence number and operation, to the session the request came from. */
  predicate Answers(a: Rec, r: Rec) {
    a.seqNo == r.seqNo && a.kind == r.kind && a.slot == r.slot && a.magic == r.magic
  }

  /** The response carries nothing but its status. */
  predicate Bare(a: Rec) {
    a.metaLength == 0 && a.dataLength == 0 && a.meta.None? && !a.data
  }

  predicate KnownSession(magic: nat) {
    magic == LOCAL || magic == REMOTE
  }

  /** How many bytes of data a success is answered with: what a stat reports, or all a read asked for, whose length the
      header keeps in 32 bits. */
  function ReplyLength(r: Rec): nat {
    if r.kind == STAT then STAT_RESULT_SIZE
    else if r.kind == READ && r.meta.Some? then r.meta.value.len % 0x1_0000_0000
    else 0
  }

  class Request {
    var seqNo: nat
    var kind: nat
    var status: nat
    var magic: nat
    var metaLength: nat
    var dataLength: nat
    var slot: nat
    var meta: Option<Args>
    var data: bool

    function View(): Rec
      reads this
    {
      Rec(seqNo, kind, status, magic, metaLength, dataLength, slot, meta, data)
    }

    constructor (r: Rec)
      ensures View() == r
    {
      seqNo, kind, status, magic := r.seqNo, r.kind, r.status, r.magic;
      metaLength, dataLength, slot, meta, data := r.metaLength, r.dataLength, r.slot, r.meta, r.data;
    }

    /** Buffers whose length is zero are released, and no other. */
    method FreeResource()
      modifies this`meta, this`data
      ensures metaLength == 0 ==> meta.None?
      ensures metaLength > 0 ==> meta == old(meta)
      ensures data ==> dataLength > 0
      ensures dataLength > 0 ==> data == old(data)
    {
      if metaLength == 0 && meta.Some? {
        meta := None;
      }
      if dataLength == 0 && data {
        data := false;
      }
    }

    /** Sends the request back as the response; None when it came from neither kind of session. What is sent has no
        buffer of length zero. */
    method ResponseWithReusingRequest(code: nat) returns (out: Option<Rec>)
      modifies this`status, this`meta, this`data
      ensures out == if KnownSession(magic) then Some(View()) else None
      ensures status == code % 256 && meta == (if metaLength == 0 then None else old(meta))
      ensures data <==> old(data) && dataLength > 0
    {
      status := code % 256;
      FreeResource();
      if magic == LOCAL {
        out := Some(View());
      } else if magic == REMOTE {
        out := Some(View());
      } else {
        out := None;
      }
    }

    method ResponseBrokenOp(code: nat) returns (out: Option<Rec>)
      modifies this`metaLength, this`dataLength, this`status, this`meta, this`data
      ensures out == (if KnownSession(magic) then Some(View()) else None) && Bare(View()) && status == code % 256
    {
      dataLength := 0;
      metaLength := 0;
      out := ResponseWithReusingRequest(code);
    }

    /** Prepares the request to carry the result: no arguments any more, and a data buffer as long as the result. */
    method RefillRequestWithResponse()
      requires OssOpValid(View())
      modifies this`metaLength, this`dataLength, this`data
      ensures metaLength == 0 && dataLength == ReplyLength(old(View())) && (dataLength > 0 ==> data)
    {
      if kind == STAT {
        metaLength, dataLength, data := 0, STAT_RESULT_SIZE, true;
      } else if kind == CREATE || kind == DELETE {
        metaLength := 0;
      } else if kind == WRITE {
        metaLength, dataLength := 0, 0;
      } else {
        metaLength, dataLength, data := 0, meta.value.len % 0x1_0000_0000, true;
      }
    }

    /** The store is done with an operation it had accepted. A failure is answered bare; a success with the data
        prepared for it. */
    method OssOpCb(code: nat) returns (out: Option<Rec>)
      modifies this`metaLength, this`dataLength, this`status, this`meta, this`data
      ensures out == (if KnownSession(magic) then Some(View()) else None) && status == code % 256
      ensures code != SUCCESS ==> Bare(View())
      ensures code == SUCCESS && old(metaLength) == 0 ==> metaLength == 0 && meta.None?
      ensures code == SUCCESS ==> dataLength == old(dataLength) && (data <==> old(data) && dataLength > 0)
    {
      if code != SUCCESS {
        out := ResponseBrokenOp(code);
      } else {
        out := ResponseWithReusingRequest(code);
      }
    }

    /** Executes a request. `submit` is the store's answer to the call; when it is SUCCESS the response comes later, and
        the request then holds what a success will be answered with. Any other request is answered at once: bare, except
        for a ping. */
    method OpExecute(submit: nat) returns (later: bool, out: Option<Rec>)
      modifies this`metaLength, this`dataLength, this`status, this`meta, this`data
      ensures later == (IsOss(kind) && OssOpValid(old(View())) && submit == SUCCESS)
      ensures out == if !later && KnownSession(magic) then Some(View()) else None
      ensures later ==>
        metaLength == 0 && dataLength == ReplyLength(old(View())) && (dataLength > 0 ==> data)
      ensures !later && kind == PING ==>
        && status == SUCCESS && metaLength == old(metaLength) && dataLength == old(dataLength)
        && meta == (if metaLength == 0 then None else old(meta)) && (data <==> old(data) && dataLength > 0)
      ensures !later && kind != PING ==>
        && Bare(View())
        && status == (if !IsOss(kind) then UNKNOWN_OP else if OssOpValid(old(View())) then submit else INVALID_OP) % 256
    {
      later := false;
      if kind == PING {
        out := ResponseWithReusingRequest(SUCCESS);
      } else if IsOss(kind) {
        if !OssOpValid(View()) {
          out := ResponseBrokenOp(INVALID_OP);
          return;
        }
        RefillRequestWithResponse();
        if submit == SUCCESS {
          return true, None;
        }
        out := ResponseBrokenOp(submit);
      } else {
        out := ResponseBrokenOp(UNKNOWN_OP);
      }
    }

    /** A client's request from arrival to response, whichever way it ends: the response names the request's slot,
        sequence number and operation, has no meta buffer, reports the store's status, and carries all the bytes a
        successful read asked for, the result of a successful stat, and nothing otherwise. */
    method Serve(submit: nat, code: nat) returns (out: Option<Rec>)
      requires FromClient(View())
      modifies this`metaLength, this`dataLength, this`status, this`meta, this`data
      ensures out.Some? && Answers(out.value, old(View()))
      ensures out.value.meta.None? && out.value.metaLength == 0
      ensures out.value.status == (if submit == SUCCESS then code else submit) % 256
      ensures out.value.data <==> out.value.dataLength > 0
      ensures out.value.dataLength == if submit == SUCCESS && code == SUCCESS then ReplyLength(old(View())) else 0
    {
      ClientRequestValid(View());
      var later;
      later, out := OpExecute(submit);
      if later {
        out := OssOpCb(code);
      }
    }
  }

  /** A message as the messager delivers it: a meta buffer exactly for a length of meta data, from a known session. */
  predicate Delivered(r: Rec) {
    KnownSession(r.magic) && (r.meta.Some? <==> r.metaLength > 0) && r.dataLength < 0x1_0000_0000
  }

  /** The server executes exactly the requests that the client's library builds. */
  lemma ClientRequestValid(r: Rec)
    requires Delivered(r)
    ensures IsOss(r.kind) && OssOpValid(r) <==> FromClient(r)
  {
  }
}
