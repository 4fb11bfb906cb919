/** The client's channel as the library updates it in place. */
module Channel {
  import opened Common
  import opened Bitmap
  import opened Ipc

  class Ring {
    var q: seq<Msg>
    const capacity: nat

    constructor (capacity: nat)
      ensures q == [] && this.capacity == capacity
    {
      q, this.capacity := [], capacity;
    }

    /** A full ring drops the message; nobody looks at the result. */
    method Put(m: Msg)
      modifies this
      ensures q == Enqueue(old(q), capacity, m)
    {
      if |q| < capacity {
        q := q + [m];
      }
    }

    /** Everything on the ring, in order. */
    method TakeAll() returns (ms: seq<Msg>)
      modifies this
      ensures ms == old(q) && q == []
    {
      ms := q;
      q := [];
    }
  }

  datatype Prepared = Op(id: nat) | NoMemory | Aborts

  datatype Destroyed = Done | Busy | Invalid | DestroyAborted

  class IoChannel {
    const slots: array<Slot>
    const bitmap: SlotBitmap
    const cpl: array<nat>
    var hint: nat
    var seqNo: nat
    var cplNr: nat

    ghost predicate Valid()
      reads this, bitmap
    {
      && bitmap.Valid() && bitmap.bits.Length == slots.Length == cpl.Length
      && hint <= slots.Length && cplNr <= cpl.Length
    }

    ghost function State(): Chan
      reads this, bitmap, slots, cpl, bitmap.bits
      requires Valid()
    {
      Chan(slots[..], bitmap.bits[..], hint, seqNo, cpl[..cplNr])
    }

    /** A channel of a whole number of bitmap words. */
    constructor (depth: nat)
      requires depth % 64 == 0
      ensures Valid() && fresh(slots) && fresh(cpl) && fresh(bitmap) && fresh(bitmap.bits) && slots.Length == depth
      ensures State().hint == 0 && State().nextSeq == 0 && State().cpl == []
      ensures forall x | 0 <= x < depth :: State().slots[x].state.New? && State().free[x]
    {
      bitmap := new SlotBitmap(depth, true);
      slots := new Slot[depth](_ => Slot(New, Msg(0, 0, 0, 0, 0)));
      cpl := new nat[depth](_ => 0);
      hint, seqNo, cplNr := 0, 0, 0;
    }

    method AllocOp() returns (id: int)
      requires Valid()
      modifies this`hint, bitmap.bits
      ensures Valid() && State().slots == old(State().slots) && State().cpl == old(State().cpl)
      ensures var k := NextFree(old(bitmap.bits[..]), old(hint));
              if k < slots.Length then id == k && bitmap.bits[..] == old(bitmap.bits[..])[k := false] && hint == k + 1
              else id == -1 && State() == old(State())
    {
      NextFreeFinds(bitmap.bits[..], hint);
      id := bitmap.FindNextSetAndClr(hint);
      if id >= 0 {
        hint := id + 1;
      }
    }

    /** Prepares an operation. With more than 255 bytes of arguments it tries to give back a slot that has not ended,
        which aborts. */
    method PrepareOp(kind: nat, metaSize: nat, length: nat) returns (r: Prepared)
      requires Valid()
      modifies this`hint, this`seqNo, slots, bitmap.bits
      ensures Valid()
      ensures var k := NextFree(old(bitmap.bits[..]), old(hint));
              r == if k == slots.Length then NoMemory else if metaSize > 255 then Aborts else Op(k)
      ensures !r.Aborts? ==> State() == Prepare(old(State()), kind, length)
    {
      NextFreeFinds(bitmap.bits[..], hint);
      var id := AllocOp();
      if id < 0 {
        return NoMemory;
      }
      if metaSize > 255 {
        return Aborts;
      }
      slots[id] := Slot(Waiting, Msg(seqNo, kind, id, 0, length));
      seqNo := seqNo + 1;
      assert slots[..] == old(slots[..])[id := slots[id]];
      return Op(id);
    }

    predicate CanSubmit(ops: seq<int>)
      reads slots
    {
      forall i | 0 <= i < |ops| :: 0 <= ops[i] < slots.Length && slots[ops[i]].state.Waiting?
    }

    /** Checks all operations, sends all, then marks all in progress. (The bound check lets through one number too many,
        for which the code reads past the table; callers must not pass it.) */
    method Submit(out: Ring, ops: seq<int>) returns (ok: bool)
      requires Valid() && forall i | 0 <= i < |ops| :: ops[i] != slots.Length
      modifies out, slots
      ensures Valid() && ok == old(CanSubmit(ops))
      ensures !ok ==> State() == old(State()) && out.q == old(out.q)
      ensures ok ==> var ids := Ids(ops, slots.Length);
        && State() == old(State()).(slots := Marked(old(State()).slots, ids))
        && out.q == Sent(old(out.q), out.capacity, old(State()).slots, ids)
    {
      for i := 0 to |ops|
        invariant forall j | 0 <= j < i :: 0 <= ops[j] < slots.Length && slots[ops[j]].state.Waiting?
      {
        var opd := ops[i];
        if !(0 <= opd <= slots.Length && slots[opd].state.Waiting?) {
          return false;
        }
      }
      SendAll(out, ops);
      MarkAll(ops);
      return true;
    }

    method SendAll(out: Ring, ops: seq<int>)
      requires forall i | 0 <= i < |ops| :: 0 <= ops[i] < slots.Length
      modifies out
      ensures out.q == Sent(old(out.q), out.capacity, slots[..], Ids(ops, slots.Length))
    {
      for i := 0 to |ops|
        invariant out.q == Sent(old(out.q), out.capacity, slots[..], Ids(ops[..i], slots.Length))
      {
        IdsSnoc(ops, i, slots.Length);
        out.Put(slots[ops[i]].msg);
      }
      assert ops[..|ops|] == ops;
    }

    method MarkAll(ops: seq<int>)
      requires forall i | 0 <= i < |ops| :: 0 <= ops[i] < slots.Length
      modifies slots
      ensures slots[..] == Marked(old(slots[..]), Ids(ops, slots.Length))
    {
      for i := 0 to |ops|
        invariant slots[..] == Marked(old(slots[..]), Ids(ops[..i], slots.Length))
      {
        IdsSnoc(ops, i, slots.Length);
        ghost var before := slots[..];
        slots[ops[i]] := slots[ops[i]].(state := InProgress);
        assert slots[..] == before[ops[i] := before[ops[i]].(state := InProgress)];
      }
      assert ops[..|ops|] == ops;
    }

    /** A response arrives. False: an assertion of the callback fails. */
    method OnRecvMsg(m: Msg) returns (ok: bool)
      requires Valid() && m.slot < slots.Length && cplNr < cpl.Length
      modifies this`cplNr, slots, cpl
      ensures Valid() && ok == Expected(old(State()), m) && (ok ==> State() == Receive(old(State()), m))
      ensures cplNr <= old(cplNr) + 1
    {
      ok := slots[m.slot].msg.seqNo == m.seqNo && slots[m.slot].msg.kind == m.kind;
      if ok {
        slots[m.slot] := Slot(Completed, m);
        cpl[cplNr] := m.slot;
        cplNr := cplNr + 1;
        assert slots[..] == old(slots[..])[m.slot := Slot(Completed, m)];
        assert cpl[..cplNr] == old(cpl[..cplNr]) + [m.slot];
      }
    }

    /** Fetches all responses. */
    method RecvPoll(inq: Ring, ghost net: Net)
      requires Valid() && net.responses == inq.q && Inv(World(State(), net)) && cplNr + |inq.q| <= cpl.Length
      modifies this`cplNr, slots, cpl, inq
      ensures Valid() && inq.q == [] && (forall i | 0 <= i < |old(inq.q)| :: old(inq.q)[i].slot < slots.Length)
      ensures State() == ReceiveAll(old(State()), old(inq.q))
    {
      FetchAllInv(World(State(), net));
      ghost var goal := ReceiveAll(State(), inq.q);
      var ms := inq.TakeAll();
      for i := 0 to |ms|
        invariant Valid() && cplNr + (|ms| - i) <= cpl.Length && inq.q == []
        invariant Inv(World(State(), net.(responses := ms[i..])))
        invariant (forall j | 0 <= j < |ms[i..]| :: ms[i..][j].slot < slots.Length)
                  && goal == ReceiveAll(State(), ms[i..])
      {
        ReceiveInv(World(State(), net.(responses := ms[i..])));
        var ok := OnRecvMsg(ms[i]);
        assert ms[i..][1..] == ms[i + 1..];
        FetchAllInv(World(State(), net.(responses := ms[i + 1..])));
      }
    }

    /** One poll that does not wait: fetches the responses if no completion is left over, then reports up to `most`. */
    method Poll(inq: Ring, most: nat, ghost net: Net) returns (ids: seq<nat>)
      requires Valid() && net.responses == inq.q && Inv(World(State(), net)) && |inq.q| <= cpl.Length
      modifies this`cplNr, slots, cpl, inq
      ensures Valid() && (forall i | 0 <= i < |old(inq.q)| :: old(inq.q)[i].slot < slots.Length)
      ensures var c := if old(cplNr) != 0 then old(State()) else ReceiveAll(old(State()), old(inq.q));
              && State() == Reported(c, Least(most, cpl.Length)) && |ids| == Least(|c.cpl|, Least(most, cpl.Length))
              && (forall i | 0 <= i < |c.cpl| :: c.cpl[i] < |c.slots|)
              && forall i | 0 <= i < |ids| :: ids[i] == c.slots[c.cpl[i]].msg.slot
      ensures inq.q == if old(cplNr) != 0 then old(inq.q) else []
    {
      FetchAllInv(World(State(), net));
      var nrReap := Least(most, cpl.Length);
      if cplNr == 0 {
        RecvPoll(inq, net);
      }
      ids := Report(nrReap);
    }

    /** Hands out the first completions; the list is shortened by their number at its end. */
    method Report(nrReap: nat) returns (ids: seq<nat>)
      requires Valid() && forall i | 0 <= i < cplNr :: cpl[i] < slots.Length
      modifies this`cplNr
      ensures Valid() && State() == Reported(old(State()), nrReap) && |ids| == Least(old(cplNr), nrReap)
      ensures forall i | 0 <= i < |ids| :: ids[i] == slots[cpl[i]].msg.slot
    {
      ids := [];
      var n := Least(cplNr, nrReap);
      for i := 0 to n
        invariant |ids| == i && forall j | 0 <= j < i :: ids[j] == slots[cpl[j]].msg.slot
      {
        ids := ids + [slots[cpl[i]].msg.slot];
      }
      cplNr := cplNr - n;
      assert cpl[..cplNr] == cpl[..cplNr + n][..cplNr];
    }

    /** Hands out a completed operation's result, once. */
    method ClaimResult(id: int) returns (r: Option<Msg>)
      requires Valid()
      modifies slots
      ensures Valid()
      ensures r == if 0 <= id < slots.Length && old(slots[..])[id].state.Completed?
                   then Some(old(slots[..])[id].msg) else None
      ensures State() == if 0 <= id < slots.Length then Claim(old(State()), id) else old(State())
    {
      if 0 <= id < slots.Length && slots[id].state.Completed? {
        r := Some(slots[id].msg);
        slots[id] := slots[id].(state := Ended);
        assert slots[..] == old(slots[..])[id := slots[id]];
      } else {
        r := None;
      }
    }

    /** Gives a slot back. The slot has ended and its bit is clear: the code asserts both. */
    method FreeOp(id: nat)
      requires Valid() && id < slots.Length && slots[id].state.Ended? && !bitmap.GetBit(id)
      modifies this`hint, slots, bitmap.bits
      ensures Valid() && State() == Freed(old(State()), id)
    {
      bitmap.SetBit(id);
      hint := if id < hint then id else hint;
      slots[id] := slots[id].(state := New);
      assert slots[..] == old(slots[..])[id := slots[id]];
    }

    /** Destroys an operation. The branches for operations not yet submitted and for results not yet claimed say they
        drop them, but the slot can only be given back once ended, so they abort. */
    method DestroyOp(id: int) returns (r: Destroyed)
      requires Valid() && ChanFine(State())
      modifies this`hint, slots, bitmap.bits
      ensures Valid()
      ensures !(0 <= id < slots.Length) ==> r == Invalid && State() == old(State())
      ensures 0 <= id < slots.Length ==>
        (r.DestroyAborted? <==> DestroyAborts(old(State()), id)) && !r.Invalid?
        && (!r.DestroyAborted? ==>
              State() == Destroy(old(State()), id) && (r.Busy? <==> old(slots[..])[id].state.InProgress?))
    {
      if 0 <= id < slots.Length {
        var st := slots[id].state;
        assert SlotFine(State(), id);
        if st.Ended? {
          FreeOp(id);
          return Done;
        } else if st.InProgress? {
          return Busy;
        } else {
          return DestroyAborted;
        }
      }
      return Invalid;
    }
  }

  /** The operation numbers of a checked submission. */
  function Ids(ops: seq<int>, n: nat): (r: seq<nat>)
    requires forall i | 0 <= i < |ops| :: 0 <= ops[i] < n
    ensures |r| == |ops| && forall i | 0 <= i < |r| :: r[i] == ops[i]
  {
    seq(|ops|, i requires 0 <= i < |ops| => ops[i])
  }

  lemma IdsSnoc(ops: seq<int>, i: nat, n: nat)
    requires i < |ops| && forall j | 0 <= j < |ops| :: 0 <= ops[j] < n
    ensures Ids(ops[..i + 1], n) == Ids(ops[..i], n) + [ops[i]]
    ensures Ids(ops[..i + 1], n)[..i] == Ids(ops[..i], n)
  {
  }
}
