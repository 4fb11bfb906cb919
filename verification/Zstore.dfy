/** Preparing requests: the store's own checks and updates, step by step, against the state machine. */
module Zstore {
  import opened Bytes
  import opened Common
  import opened PmDevice
  import opened PmLog
  import opened AllocSpec
  import opened AllocScan
  import opened Allocator
  import opened Extents
  import opened Layout
  import opened MetaLog
  import opened Prepare
  import S = StoreModel
  import StoreInv
  import StoreAccept
  import StoreExact
  import MetaCrash
  import StoreBytes
  import StoreReads
  import StoreRuns
  import PmRestart
  import Pm

  const NOT_ENOUGH: int := -1
  const INVALID_OP: int := 2
  const NO_SPACE: int := 21
  const NO_NODE: int := 22
  const WRITE_OUT_MAX_SIZE: int := 23
  const READ_HOLE: int := 24

  const ONODES_RSV: nat := 0x10_0000

  /** The code a refused request returns, or the data I/O and the log of an accepted one. */
  datatype Prepared = Refused(code: int) | Write(extents: seq<Extent>, dib: seq<nat>, tx: Pm.Transaction)
                    | Metadata(tx: Pm.Transaction) | Read(extents: seq<Extent>)

  class Context {
    const ssd: BlockAllocator
    const pages: BlockAllocator
    const pm: Pm.Pmem
    const otable: array<Byte>
    const table: nat

    constructor (ssd: BlockAllocator, pages: BlockAllocator, pm: Pm.Pmem, otable: array<Byte>, table: nat)
      ensures this.ssd == ssd && this.pages == pages && this.pm == pm && this.otable == otable && this.table == table
    {
      this.ssd, this.pages, this.pm, this.otable, this.table := ssd, pages, pm, otable, table;
    }

    /** The bytes and the allocators are those of `s`. */
    ghost predicate Represents(s: S.Store)
      reads this, ssd, pages, pm, ssd.bits, pages.bits, pm.mapped, otable
    {
      && ssd.Valid() && pages.Valid() && pm.Valid() && ssd != pages && ssd.bits != pages.bits && pm.mapped != otable
      && SameAlloc(ssd, s.ssd) && SameAlloc(pages, s.pm)
      && Holds(pm.mapped[..], s.meta) && TableHolds(otable[..], table, s.meta.onodes) && |s.meta.onodes| == ONODES_RSV
      && 0 < table < 0x1_0000_0000_0000
    }

    ghost predicate SameAlloc(a: BlockAllocator, v: S.Alloc)
      reads a, a.bits
    {
      a.bits[..] == v.bits && a.nrFree == v.free && a.hint == v.hint
    }

    function Onode(oid: nat): S.Onode
      requires table + 64 * oid + 64 <= otable.Length
      reads otable
    {
      DecodeOnode(otable[table + 64 * oid..table + 64 * oid + 64])
    }

    /** Reads `n` entries of the object's index from entry `bofst`. */
    method ReadIndex(page: nat, bofst: nat, n: nat) returns (dib: seq<nat>)
      requires PAGES + 4096 * page + 4 * (bofst + n) <= pm.mapped.Length
      ensures |dib| == n
      ensures forall j | 0 <= j < n :: dib[j] == LbaAt(pm.mapped[..], PAGES + 4096 * page + 4 * (bofst + j))
    {
      dib := [];
      for j := 0 to n
        invariant |dib| == j
        invariant forall k | 0 <= k < j :: dib[k] == LbaAt(pm.mapped[..], PAGES + 4096 * page + 4 * (bofst + k))
      {
        var a := PAGES + 4096 * page + 4 * (bofst + j);
        var word := pm.Read(a, 4);
        assert word == pm.mapped[..][a..a + 4];
        dib := dib + [DecodeLe(word)];
      }
    }

    /** Prepares a read: the length and offset are checked first, then the object. The extents to read are those
        merged from the object's index entries, holes read from block 0, so the refusal of a range with holes is never
        taken. (The code does not ask whether the object exists or the range ends inside its index page, and only 32
        blocks fit its buffers.) */
    method PrepareRead(oid: nat, ofst: nat, len: nat, ghost s: S.Store) returns (r: Prepared)
      requires Represents(s) && len / 4096 <= 32
      requires oid < ONODES_RSV ==> IndexInMemory(s, oid, ofst / 4096 + len / 4096)
      ensures len == 0 || len % 4096 != 0 || ofst % 4096 != 0 ==> r == Refused(INVALID_OP)
      ensures len > 0 && len % 4096 == 0 && ofst % 4096 == 0 && oid >= ONODES_RSV ==> r == Refused(NO_NODE)
      ensures len > 0 && len % 4096 == 0 && ofst % 4096 == 0 && oid < ONODES_RSV ==>
        && r.Read? && |Flatten(r.extents)| == len / 4096 && AllInOneEntry(r.extents)
        && var page, b, n := s.meta.onodes[oid].page, ofst / 4096, len / 4096;
           (page < |s.meta.index| && b + n <= |s.meta.index[page]| ==>
              Flatten(r.extents) == StoreReads.HolesToZero(s.meta.index[page][b..b + n]))
    {
      if len == 0 || len % 4096 != 0 || ofst % 4096 != 0 {
        return Refused(INVALID_OP);
      }
      if oid >= ONODES_RSV {
        return Refused(NO_NODE);
      }
      var oe := Onode(oid);
      WholeBlocks(ofst, len);
      var ok, e := ReadableExtents(oe.page, ofst / 4096, len / 4096, s);
      r := if ok then Prepared.Read(e) else Refused(READ_HOLE);
    }

    /** The extents merged from an index range, with holes read from block 0. */
    method ReadableExtents(page: nat, bofst: nat, blen: nat, ghost s: S.Store) returns (ok: bool, e: seq<Extent>)
      requires Holds(pm.mapped[..], s.meta) && blen > 0 && PAGES + 4096 * page + 4 * (bofst + blen) <= pm.mapped.Length
      ensures ok && |Flatten(e)| == blen && AllInOneEntry(e)
      ensures page < |s.meta.index| && bofst + blen <= |s.meta.index[page]| ==>
                Flatten(e) == StoreReads.HolesToZero(s.meta.index[page][bofst..bofst + blen])
    {
      var dib := ReadIndex(page, bofst, blen);
      var bi := StoreReads.HolesToZero(dib);
      var mapped;
      e, mapped := LbaMergeTo(bi);
      MergeRoundTrip(bi);
      StoreReads.NoHoles(bi);
      IndexEntries(s, page, bofst, blen, pm.mapped[..], dib);
      ok := |e| != 0 && mapped == blen;
    }

    /** Prepares a write of an object with nothing in flight. The length and offset are checked first, then the
        object, then the size; the old blocks are freed before the new ones are taken, so a refusal for lack of space
        leaves them freed. (For the code the object need not exist, and only 32 blocks fit its buffers.) */
    method PrepareWrite(oid: nat, ofst: nat, len: nat, ghost s: S.Store, ghost data: seq<S.Block>)
      returns (r: Prepared, ghost ids: seq<nat>)
      requires Represents(s) && StoreInv.Inv(s) && |data| == len / 4096 <= 32
      requires oid < ONODES_RSV ==> S.Live(s.meta, oid) && S.Idle(s.txs, oid)
      requires oid < ONODES_RSV ==> IndexInMemory(s, oid, ofst / 4096 + len / 4096)
      modifies ssd, ssd.bits
      ensures len == 0 || len % 4096 != 0 || ofst % 4096 != 0 ==> r == Refused(INVALID_OP) && Represents(s)
      ensures len > 0 && len % 4096 == 0 && ofst % 4096 == 0 && oid >= ONODES_RSV ==>
        r == Refused(NO_NODE) && Represents(s)
      ensures len > 0 && len % 4096 == 0 && ofst % 4096 == 0 && oid < ONODES_RSV ==>
        if ofst + len > 0x40_0000 then r == Refused(WRITE_OUT_MAX_SIZE) && Represents(s)
        else S.WriteAllowed(s, oid, ofst / 4096, |data|) && WriteOutcome(s, oid, ofst / 4096, data, r, ids)
    {
      ids := [];
      if len == 0 || len % 4096 != 0 || ofst % 4096 != 0 {
        return Refused(INVALID_OP), ids;
      }
      if oid >= ONODES_RSV {
        return Refused(NO_NODE), ids;
      }
      WholeBlocks(ofst, len);
      r, ids := PrepareBlocks(oid, ofst / 4096, len / 4096, s, data);
    }

    ghost predicate IndexInMemory(s: S.Store, oid: nat, n: nat)
      reads pm
    {
      oid < |s.meta.onodes| && PAGES + 4096 * s.meta.onodes[oid].page + 4 * n <= pm.mapped.Length
    }

    /** A write in whole blocks. The index is read before the size is checked. */
    method PrepareBlocks(oid: nat, bofst: nat, blen: nat, ghost s: S.Store, ghost data: seq<S.Block>)
      returns (r: Prepared, ghost ids: seq<nat>)
      requires Represents(s) && StoreInv.Inv(s) && 1 <= |data| == blen <= 32
      requires S.Live(s.meta, oid) && S.Idle(s.txs, oid) && IndexInMemory(s, oid, bofst + blen)
      modifies ssd, ssd.bits
      ensures if bofst + blen > S.OBJ_BLOCKS then r == Refused(WRITE_OUT_MAX_SIZE) && Represents(s)
              else S.WriteAllowed(s, oid, bofst, blen) && WriteOutcome(s, oid, bofst, data, r, ids)
    {
      var oe := Onode(oid);
      var e := ReadExtents(oid, oe, bofst, blen, s);
      if bofst + blen > S.OBJ_BLOCKS {
        return Refused(WRITE_OUT_MAX_SIZE), [];
      }
      r, ids := Reallocate(oid, oe, bofst, blen, e, s, data);
    }

    /** The extents merged from the object's index range. */
    method ReadExtents(oid: nat, oe: S.Onode, bofst: nat, blen: nat, ghost s: S.Store) returns (e: seq<Extent>)
      requires Holds(pm.mapped[..], s.meta) && S.Shaped(s.meta) && S.Live(s.meta, oid) && oe == s.meta.onodes[oid]
      requires IndexInMemory(s, oid, bofst + blen)
      ensures bofst + blen <= S.OBJ_BLOCKS ==> e == S.OldExtents(s, oid, bofst, blen)
    {
      var dib := ReadIndex(oe.page, bofst, blen);
      if bofst + blen <= S.OBJ_BLOCKS {
        IndexRead(s, oid, bofst, blen, pm.mapped[..], dib);
      }
      var mapped;
      e, mapped := LbaMergeTo(dib);
    }

    /** A write that passes the checks is accepted exactly when the allocation is granted. Refusals have two codes:
        one if the counter shows too few blocks, old ones included, and one if the scan ran and did not end at a free
        block. */
    ghost predicate WriteOutcome(s: S.Store, oid: nat, bofst: nat, data: seq<S.Block>, r: Prepared, ids: seq<nat>)
      requires S.Shaped(s.meta) && S.WriteAllowed(s, oid, bofst, |data|)
      reads this, ssd, pages, pm, ssd.bits, pages.bits, pm.mapped, otable, if r.Write? then {r.tx} else {}
      reads if r.Write? then {r.tx.le} else {}
    {
      if StoreExact.Granted(s, oid, bofst, |data|) && !StoreExact.FewerThanAsked(s, oid, bofst, |data|)
      then Accepted(s, oid, bofst, data, r, ids)
      else
        && r == Refused(if StoreExact.FewerThanAsked(s, oid, bofst, |data|) then NOT_ENOUGH else NO_SPACE)
        && s.ssd.hint < |s.ssd.bits| && Represents(StoreExact.RefuseWrite(s, oid, bofst, |data|))
    }

    /** What an accepted write returns: the I/O goes to the extents granted, and the log says what the state machine's
        transaction says. */
    ghost predicate Accepted(s: S.Store, oid: nat, bofst: nat, data: seq<S.Block>, r: Prepared, ids: seq<nat>)
      requires S.Shaped(s.meta) && S.WriteAllowed(s, oid, bofst, |data|)
      reads this, ssd, pages, pm, ssd.bits, pages.bits, pm.mapped, otable, if r.Write? then {r.tx} else {}
      reads if r.Write? then {r.tx.le} else {}
    {
      && s.ssd.hint < |s.ssd.bits| && Represents(S.AcceptWrite(s, oid, bofst, data))
      && var t := StoreAccept.WriteOf(s, oid, bofst, data);
         && r.Write? && r.dib == t.lbas == Flatten(r.extents)
         && IdsIn(ids, t.snap) && SetOf(ids) == t.ids
         && r.tx.Valid() && r.tx.entries == EntriesOf(t, ids, table)
         && HEADER_SIZE + CeilAlign256(r.tx.lh.alignLength) <= REGION_SIZE
    }

    /** Prepares the creation of an object. Its index page is filled with holes at once, in persistent memory, and is
        not part of the log. */
    method PrepareCreate(rawOid: nat, ghost s: S.Store) returns (r: Prepared)
      requires Represents(s) && StoreInv.Inv(s)
      requires PageGranted(s) ==> Lap(s.pm.bits, s.pm.hint, 1).head.pos < |s.meta.index|
      modifies pages, pages.bits, pm`trace, pm.mapped
      ensures var oid := rawOid % 0x1_0000_0000_0000;
        if oid >= ONODES_RSV || s.meta.onodes[oid].valid then r == Refused(NO_NODE) && Represents(s)
        else if PageGranted(s) then Created(s, oid, r)
        else r == Refused(NO_NODE) && s.pm.hint < |s.pm.bits| && Represents(StoreExact.RefuseCreate(s))
      ensures r.Metadata? ==> PageGranted(s)
      ensures pm.trace == old(pm.trace)
                          + if r.Metadata? then [MetaCrash.PageFill(Lap(s.pm.bits, s.pm.hint, 1).head.pos)] else []
    {
      var oid := rawOid % 0x1_0000_0000_0000;
      if oid >= ONODES_RSV {
        return Refused(NO_NODE);
      }
      var oe := Onode(oid);
      if oe.valid {
        return Refused(NO_NODE);
      }
      var granted, page := TakePage(s);
      if !granted {
        return Refused(NO_NODE);
      }
      r := CreateIn(oid, page, s);
    }

    /** The create is accepted: the state machine's step has been taken, and the log is that of its transaction. */
    ghost predicate Created(s: S.Store, oid: nat, r: Prepared)
      requires PageGranted(s)
      reads this, ssd, pages, pm, ssd.bits, pages.bits, pm.mapped, otable
      reads if r.Metadata? then {r.tx} else {}, if r.Metadata? then {r.tx.le} else {}
    {
      && S.PageFound(s) && Represents(S.AcceptCreate(s, oid))
      && r.Metadata? && r.tx.Valid() && HEADER_SIZE + CeilAlign256(r.tx.lh.alignLength) <= REGION_SIZE
      && var t := S.AcceptCreate(s, oid).txs[|s.txs|];
         Loggable(t, []) && r.tx.entries == EntriesOf(t, [], table)
    }

    /** Allocates an index page. */
    method TakePage(ghost s: S.Store) returns (granted: bool, page: nat)
      requires Represents(s)
      modifies pages, pages.bits
      ensures pages.Valid() && granted == PageGranted(s) && s.pm.hint < |s.pm.bits|
      ensures SameAlloc(pages, if granted then PageTaken(s) else StoreExact.RefuseCreate(s).pm)
      ensures granted ==> page == Lap(s.pm.bits, s.pm.hint, 1).head.pos
    {
      var rc, ze := pages.AllocSpace(1);
      if rc != Granted {
        return false, 0;
      }
      OnePageExtent(s.pm.bits, s.pm.hint);
      return true, ze[0].lba;
    }

    /** Fills the page and logs the onode and the page's bitmap entry. */
    method CreateIn(oid: nat, page: nat, ghost s: S.Store) returns (r: Prepared)
      requires Represents(s.(pm := if PageGranted(s) then PageTaken(s) else s.pm)) && oid < ONODES_RSV
      requires PageGranted(s) && page == Lap(s.pm.bits, s.pm.hint, 1).head.pos && page < |s.meta.index|
      requires |s.pm.bits| == |s.meta.pages|
      modifies pm`trace, pm.mapped
      ensures Created(s, oid, r) && pm.trace == old(pm.trace) + [MetaCrash.PageFill(page)]
    {
      FillNewPage(page, s);
      PageInBitmap(s);
      r := LogCreate(oid, page, s);
    }

    /** Every entry of the page a hole; not drained. */
    method FillNewPage(page: nat, ghost s: S.Store)
      requires PageGranted(s) && Represents(s.(pm := PageTaken(s))) && page < |s.meta.index|
      modifies pm`trace, pm.mapped
      ensures Represents(s.(pm := PageTaken(s), meta := MetaCrash.Filled(s.meta, page)))
      ensures pm.trace == old(pm.trace) + [MetaCrash.PageFill(page)]
    {
      MetaCrash.FillPage(pm.mapped[..], s.meta, page);
      pm.Write(false, seq(4096, _ => 255), PAGES + 4096 * page);
    }

    method LogCreate(oid: nat, page: nat, ghost s: S.Store) returns (r: Prepared)
      requires PageGranted(s) && page == Lap(s.pm.bits, s.pm.hint, 1).head.pos && oid < ONODES_RSV
      requires pages.Valid() && SameAlloc(pages, PageTaken(s)) && table < 0x1_0000_0000_0000
      requires |s.pm.bits| <= 0x1_0000_0000 && page < 0x1_0000_0000 && 512 * (page / 512) + 512 <= |s.pm.bits|
      ensures r.Metadata? && fresh(r.tx) && fresh(r.tx.le)
      ensures r.tx.Valid() && HEADER_SIZE + CeilAlign256(r.tx.lh.alignLength) <= REGION_SIZE
      ensures Loggable(CreateTxOf(s, oid), []) && r.tx.entries == EntriesOf(CreateTxOf(s, oid), [], table)
    {
      var tx := new Pm.Transaction();
      LogCreateDelete(tx, oid, Some(page), pages.bits[..], table);
      r := Metadata(tx);
    }

    /** Prepares the deletion of an object. Its index page is freed in DRAM only, its blocks not at all. */
    method PrepareDelete(rawOid: nat, ghost s: S.Store) returns (r: Prepared)
      requires Represents(s) && StoreInv.Inv(s)
      modifies pages, pages.bits
      ensures var oid := rawOid % 0x1_0000_0000_0000;
        if oid >= ONODES_RSV || !s.meta.onodes[oid].valid then r == Refused(NO_NODE) && Represents(s)
        else
          && r.Metadata? && r.tx.Valid() && HEADER_SIZE + CeilAlign256(r.tx.lh.alignLength) <= REGION_SIZE
          && r.tx.entries == EntriesOf(S.DeleteTx(oid, 0), [], table)
          && Represents(S.AcceptDelete(s, oid))
    {
      var oid := rawOid % 0x1_0000_0000_0000;
      if oid >= ONODES_RSV {
        return Refused(NO_NODE);
      }
      var oe := Onode(oid);
      if !oe.valid {
        return Refused(NO_NODE);
      }
      assert S.Live(s.meta, oid);
      FreePage(oe.page, s);
      r := LogDelete(oid, s);
    }

    /** Gives the index page back to the allocator. */
    method FreePage(page: nat, ghost s: S.Store)
      requires Represents(s) && page < |s.pm.bits|
      modifies pages`nrFree, pages.bits
      ensures Represents(s.(pm := PageFreed(s, page)))
    {
      FreeOnePage(s.pm.bits, page);
      pages.FreeSpace([Extent(page, 1)]);
    }

    method LogDelete(oid: nat, ghost s: S.Store) returns (r: Prepared)
      requires pages.Valid() && pages.bits.Length <= 0x1_0000_0000 && table < 0x1_0000_0000_0000 && oid < ONODES_RSV
      ensures r.Metadata? && fresh(r.tx) && fresh(r.tx.le)
      ensures r.tx.Valid() && HEADER_SIZE + CeilAlign256(r.tx.lh.alignLength) <= REGION_SIZE
      ensures r.tx.entries == EntriesOf(S.DeleteTx(oid, 0), [], table)
    {
      var tx := new Pm.Transaction();
      LogCreateDelete(tx, oid, None, pages.bits[..], table);
      r := Metadata(tx);
    }

    /** The oldest transaction's log is applied: the state machine's commit. */
    method CommitHead(tx: Pm.Transaction, ghost s: S.Store, ghost ids: seq<nat>)
      requires Represents(s) && StoreInv.Inv(s) && |s.txs| > 0 && S.Ready(s.txs[0]) && StoreBytes.Lists(ids, s.txs[0])
      requires tx.Valid() && tx.le != pm.mapped && tx.le != otable && pm.logOfst + REGION_SIZE <= SSD_BITMAP
      requires tx.le != ssd.bits as object && tx.le != pages.bits as object
      requires HEADER_SIZE + CeilAlign256(tx.lh.alignLength) <= REGION_SIZE
      requires Loggable(s.txs[0], ids) ==> tx.entries == EntriesOf(s.txs[0], ids, table)
      modifies tx`lh, pm`trace, pm.mapped, otable
      ensures S.TxFits(s.meta, s.txs[0]) && Represents(S.CommitHead(s))
      ensures pm.trace == old(pm.trace) + ApplyOps(old(tx.AsLog()), pm.logOfst)
    {
      assert StoreInv.TxFine(s, 0) && StoreInv.Stage(s, 0) == s.meta;
      ghost var t := s.txs[0];
      StoreBytes.OkMatches(s.meta, t, ids);
      EntriesReach(t, ids, table, otable.Length);
      Prepare.Commit(pm, otable, tx, s.meta, t, ids, table);
    }

    /** Frees the old blocks, takes new ones, and logs the change. */
    method Reallocate(oid: nat, oe: S.Onode, bofst: nat, blen: nat, e: seq<Extent>, ghost s: S.Store,
                      ghost data: seq<S.Block>) returns (r: Prepared, ghost ids: seq<nat>)
      requires Represents(s) && StoreInv.Inv(s) && S.WriteAllowed(s, oid, bofst, blen) && |data| == blen
      requires oe == s.meta.onodes[oid] && e == S.OldExtents(s, oid, bofst, blen)
      modifies ssd, ssd.bits
      ensures WriteOutcome(s, oid, bofst, data, r, ids)
    {
      var code, enew := TakeBlocks(oid, bofst, blen, e, s);
      if code != 0 {
        return Refused(code), [];
      }
      OldFew(s, oid, bofst, blen);
      TakenFew(S.FreedBits(s, oid, bofst, blen), s.ssd.hint, blen);
      r, ids := LogBlocks(oid, oe, bofst, e, enew, s, data);
    }

    /** The free, then the allocation; 0 when it is granted. */
    method TakeBlocks(oid: nat, bofst: nat, blen: nat, e: seq<Extent>, ghost s: S.Store)
      returns (code: int, enew: seq<Extent>)
      requires Represents(s) && StoreInv.Inv(s) && S.WriteAllowed(s, oid, bofst, blen)
      requires e == S.OldExtents(s, oid, bofst, blen)
      modifies ssd, ssd.bits
      ensures ssd.Valid() && s.ssd.hint < |s.ssd.bits|
      ensures code == if StoreExact.FewerThanAsked(s, oid, bofst, blen) then NOT_ENOUGH
                      else if StoreExact.Granted(s, oid, bofst, blen) then 0 else NO_SPACE
      ensures SameAlloc(ssd, if code == 0 then BlocksTaken(s, oid, bofst, blen)
                             else StoreExact.RefuseWrite(s, oid, bofst, blen).ssd)
      ensures code == 0 ==> enew == S.GrantOf(S.FreedBits(s, oid, bofst, blen), s.ssd.hint, blen).extents
    {
      StoreExact.WasSet(s, oid, bofst, blen);
      assert InRange(Flatten(e), ssd.nrTotal) by {
        forall k | 0 <= k < |Flatten(e)| ensures Flatten(e)[k] < ssd.nrTotal {
          assert Flatten(e)[k] in Flatten(e);
        }
      }
      assert e == [] ==> Flatten(e) == [] && SetAll(s.ssd.bits, Flatten(e), false) == s.ssd.bits;
      if |e| != 0 {
        ssd.FreeSpace(e);
      }
      var rc;
      rc, enew := ssd.AllocSpace(blen);
      code := if rc == Granted then 0 else if rc.TooFew? then NOT_ENOUGH else NO_SPACE;
    }

    method LogBlocks(oid: nat, oe: S.Onode, bofst: nat, e: seq<Extent>, enew: seq<Extent>, ghost s: S.Store,
                     ghost data: seq<S.Block>) returns (r: Prepared, ghost ids: seq<nat>)
      requires S.Shaped(s.meta) && S.WriteAllowed(s, oid, bofst, |data|) && s.ssd.hint < |s.ssd.bits|
      requires var n := |data|;
               && Represents(s.(ssd := BlocksTaken(s, oid, bofst, n))) && e == S.OldExtents(s, oid, bofst, n)
               && enew == S.GrantOf(S.FreedBits(s, oid, bofst, n), s.ssd.hint, n).extents
      requires oe == s.meta.onodes[oid] && |s.ssd.bits| == |s.meta.ssd|
      requires |e| <= 32 && InBitmap(e, |s.ssd.bits|) && |enew| <= 32 && |Flatten(enew)| <= 32
               && InBitmap(enew, |s.ssd.bits|)
      ensures Accepted(s, oid, bofst, data, r, ids)
    {
      var tx := new Pm.Transaction();
      var ok, dib;
      ok, dib, ids := LogWrite(tx, ssd.bits[..], e, enew, oid, oe, bofst, table);
      r := Prepared.Write(enew, dib, tx);
    }
  }

  /** The block allocator once the write's blocks are taken. */
  ghost function BlocksTaken(s: S.Store, oid: nat, bofst: nat, n: nat): S.Alloc
    requires S.Shaped(s.meta) && S.Live(s.meta, oid) && bofst + n <= S.OBJ_BLOCKS && s.ssd.hint < |s.ssd.bits|
  {
    var g := S.GrantOf(S.FreedBits(s, oid, bofst, n), s.ssd.hint, n);
    S.Alloc(g.bits, s.ssd.free + |Flatten(S.OldExtents(s, oid, bofst, n))| - n, g.hint)
  }

  ghost function PageFreed(s: S.Store, page: nat): S.Alloc
    requires page < |s.pm.bits|
  {
    s.pm.(bits := s.pm.bits[page := false], free := s.pm.free + 1)
  }

  /** An index page is granted. */
  ghost predicate PageGranted(s: S.Store) {
    s.pm.hint < |s.pm.bits| && s.pm.free >= 1 && Length(Lap(s.pm.bits, s.pm.hint, 1)) == 2
  }

  /** The page allocator once the page is taken. */
  ghost function PageTaken(s: S.Store): S.Alloc
    requires PageGranted(s)
  {
    var g := S.GrantOf(s.pm.bits, s.pm.hint, 1);
    S.Alloc(g.bits, s.pm.free - 1, g.hint)
  }

  ghost function CreateTxOf(s: S.Store, oid: nat): S.Tx
    requires PageGranted(s)
  {
    S.CreateTx(oid, Lap(s.pm.bits, s.pm.hint, 1).head.pos, PageTaken(s).bits)
  }

  // ---------- mounting ----------

  /** The 512 bits of a 64-byte bitmap entry. */
  function EntryBits(bytes: seq<Byte>): (bits: seq<bool>)
    requires |bytes| == 64
    ensures |bits| == 512
  {
    seq(512, j requires 0 <= j < 512 => BitOf(bytes[j / 8], j % 8))
  }

  lemma EntryRead(pm: seq<Byte>, base: nat, e: nat, n: nat)
    requires 512 * e + 512 <= n && n % 512 == 0 && base + n / 8 <= |pm|
    ensures base + 64 * e + 64 <= base + n / 8
    ensures EntryBits(pm[base + 64 * e..base + 64 * e + 64]) == StoreBytes.ReadBits(pm, base, n)[512 * e..512 * e + 512]
  {
    var bytes, all := pm[base + 64 * e..base + 64 * e + 64], StoreBytes.ReadBits(pm, base, n);
    forall j | 0 <= j < 512 ensures EntryBits(bytes)[j] == all[512 * e..512 * e + 512][j] {
      BitPlace(e, j);
      assert bytes[j / 8] == pm[base + (512 * e + j) / 8];
      assert all[512 * e + j] == BitAt(pm, base, 512 * e + j);
    }
  }

  lemma BitPlace(e: nat, j: nat)
    requires j < 512
    ensures (512 * e + j) / 8 == 64 * e + j / 8 && (512 * e + j) % 8 == j % 8
  {
    assert 512 * e + j == 8 * (64 * e + j / 8) + j % 8;
  }

  /** Loads a bitmap from persistent memory, one 64-byte entry at a time. */
  method LoadBitmap(a: BlockAllocator, pm: Pm.Pmem, base: nat)
    requires a.Valid() && a.nrFree == 0 && base + a.nrTotal / 8 <= pm.mapped.Length
    modifies a`nrFree, a.bits
    ensures a.Valid() && a.Counted() && a.bits[..] == StoreBytes.ReadBits(pm.mapped[..], base, a.nrTotal)
  {
    ghost var image := StoreBytes.ReadBits(pm.mapped[..], base, a.nrTotal);
    var n := a.nrTotal / 512;
    assert n * 512 == a.nrTotal;
    for e := 0 to n
      invariant a.Valid() && a.bits[..e * 512] == image[..e * 512] && a.nrFree == CountClear(a.bits[..], e * 512)
    {
      LoadOneEntry(a, pm, base, e, image);
    }
    assert a.bits[..n * 512] == a.bits[..] && image[..n * 512] == image;
  }

  method LoadOneEntry(a: BlockAllocator, pm: Pm.Pmem, base: nat, e: nat, ghost image: seq<bool>)
    requires a.Valid() && 512 * e + 512 <= a.nrTotal && base + a.nrTotal / 8 <= pm.mapped.Length
    requires image == StoreBytes.ReadBits(pm.mapped[..], base, a.nrTotal)
    requires a.bits[..e * 512] == image[..e * 512] && a.nrFree == CountClear(a.bits[..], e * 512)
    modifies a`nrFree, a.bits
    ensures a.Valid() && a.bits[..(e + 1) * 512] == image[..(e + 1) * 512]
    ensures a.nrFree == CountClear(a.bits[..], (e + 1) * 512)
  {
    ghost var b := a.bits[..];
    EntryRead(pm.mapped[..], base, e, a.nrTotal);
    var se := pm.Read(base + 64 * e, 64);
    assert se == pm.mapped[..][base + 64 * e..base + 64 * e + 64];
    a.InitBitmapEntry(e, EntryBits(se));
    EntryPlaced(b, a.bits[..], image, e * 512);
    CountPrefix(b, a.bits[..], e * 512);
  }

  lemma EntryPlaced(b: seq<bool>, b': seq<bool>, image: seq<bool>, at: nat)
    requires at + 512 <= |image| == |b| && b[..at] == image[..at]
    requires b' == b[..at] + image[at..at + 512] + b[at + 512..]
    ensures |b'| == |b| && b'[..at] == b[..at] && b'[..at + 512] == image[..at + 512]
  {
    assert image[..at + 512] == image[..at] + image[at..at + 512];
  }

  /** Reads the onode table into DRAM. */
  method LoadTable(pm: Pm.Pmem, otable: array<Byte>, table: nat, n: nat)
    requires pm.mapped != otable && table + 64 * n <= otable.Length && ONODES + 64 * n <= pm.mapped.Length
    modifies otable
    ensures otable[table..table + 64 * n] == pm.mapped[ONODES..ONODES + 64 * n]
  {
    for i := 0 to n
      invariant forall j :: table <= j < table + 64 * i ==> otable[j] == pm.mapped[ONODES + (j - table)]
    {
      var at := 64 * i;
      assert at + 64 <= 64 * n;
      var oe := pm.Read(ONODES + at, 64);
      forall j | table + at <= j < table + at + 64 {
        otable[j] := oe[j - table - at];
      }
    }
  }

  lemma TableRead(dram: seq<Byte>, table: nat, pm: seq<Byte>, onodes: seq<S.Onode>)
    requires OnodesHold(pm, onodes) && table + 64 * |onodes| <= |dram|
    requires dram[table..table + 64 * |onodes|] == pm[ONODES..ONODES + 64 * |onodes|]
    ensures TableHolds(dram, table, onodes)
  {
    var n := 64 * |onodes|;
    forall o | 0 <= o < |onodes| ensures DecodeOnode(dram[table + 64 * o..table + 64 * o + 64]) == onodes[o] {
      SubSlice(dram, table, table + n, 64 * o, 64 * o + 64);
      SubSlice(pm, ONODES, ONODES + n, 64 * o, 64 * o + 64);
    }
  }

  /** Recovery leaves the memory the log's specification says. */
  method RecoverMemory(lim: Limits, pm: Pm.Pmem) returns (ok: bool)
    requires pm.Valid() && PmRestart.LogPlaced(lim, pm.mapped[..], pm.logOfst)
    modifies pm`trace, pm.mapped
    ensures ok && pm.Valid() && Recover(lim, old(pm.mapped[..]), pm.logOfst) == Some(pm.mapped[..])
  {
    ghost var was, trace, state := pm.mapped[..], pm.trace, ReadLog(lim, pm.mapped[..], pm.logOfst);
    ok := pm.Recover(lim);
    if state.Replay? {
      RecoverEnds(pm.base, trace, was, state.entries, pm.logOfst);
    }
  }

  lemma {:induction false} RecoverEnds(base: seq<Byte>, trace: seq<PmOp>, pm: seq<Byte>, es: seq<Entry>, log: nat)
    requires AllFit(trace, |base|) && pm == PmDevice.At(base, trace, |trace|) && Placed(es, log, |pm|)
    ensures AllFit(Stores(es), |pm|) && AllFit(trace + RecoverOps(es, log), |base|)
    ensures var all := trace + RecoverOps(es, log);
            PmDevice.At(base, all, |all|) == PmDevice.Put(Applied(pm, es), log, Zeros(HEADER_SIZE))
  {
    assert AllFit(Stores(es), |pm|);
    PmRestart.ClearedAt(pm, es, log, 2 * |es| + 2);
    Prepare.WholeTrace(base, trace, RecoverOps(es, log));
  }

  /** Mount: the log is recovered, both bitmaps and the onode table are loaded from the memory, and the result is the
      state machine's store after a mount. `s` is that store, with the metadata the recovered memory holds. */
  method Mount(lim: Limits, pm: Pm.Pmem, ssdBlocks: nat, pageBlocks: nat, otable: array<Byte>, table: nat,
               ghost s: S.Store) returns (ok: bool, c: Context)
    requires pm.Valid() && PmRestart.LogPlaced(lim, pm.mapped[..], pm.logOfst) && pm.mapped != otable
    requires match Recover(lim, pm.mapped[..], pm.logOfst) case Some(image) => Holds(image, s.meta) case None => true
    requires ssdBlocks == |s.meta.ssd| > 0 && pageBlocks == |s.meta.pages| > 0 && |s.meta.onodes| == ONODES_RSV
    requires ssdBlocks % 512 == 0 && pageBlocks % 512 == 0
    requires s.ssd == S.Mounted(s.meta.ssd) && s.pm == S.Mounted(s.meta.pages)
    requires 0 < table < 0x1_0000_0000_0000 && table + 64 * ONODES_RSV <= otable.Length
    modifies pm`trace, pm.mapped, otable
    ensures ok && c.Represents(s) && c.pm == pm && Recover(lim, old(pm.mapped[..]), pm.logOfst) == Some(pm.mapped[..])
  {
    ok := RecoverMemory(lim, pm);
    var ssd := new BlockAllocator(ssdBlocks);
    LoadBitmap(ssd, pm, SSD_BITMAP);
    var pages := new BlockAllocator(pageBlocks);
    LoadBitmap(pages, pm, PAGE_BITMAP);
    LoadTable(pm, otable, table, ONODES_RSV);
    TableRead(otable[..], table, pm.mapped[..], s.meta.onodes);
    StoreBytes.ReadHeld(pm.mapped[..], s.meta, s.meta);
    c := new Context(ssd, pages, pm, otable, table);
  }

  /** The mount after a power failure, itself perhaps cut short and begun again: whatever image the medium holds, the
      context represents a store that the state machine's power failure allows. */
  method MountAfterCrash(pm: Pm.Pmem, ssdBlocks: nat, pageBlocks: nat, otable: array<Byte>, table: nat,
                         ghost b: StoreBytes.Machine, ghost disk: seq<S.Block>, ghost c: nat)
    returns (ok: bool, ctx: Context)
    requires pm.Valid() && pm.mapped != otable
    requires b.s.done + c <= |b.s.history| && S.Shaped(b.s.meta)
    requires c == 1 ==> |b.s.txs| > 0 && S.TxFits(b.s.meta, b.s.txs[0])
    requires StoreBytes.MountAllowed(b, pm.logOfst, pm.mapped[..], disk, c)
    requires ssdBlocks == |b.s.meta.ssd| > 0 && pageBlocks == |b.s.meta.pages| > 0 && |b.s.meta.onodes| == ONODES_RSV
    requires 0 < table < 0x1_0000_0000_0000 && table + 64 * ONODES_RSV <= otable.Length
    modifies pm`trace, pm.mapped, otable
    ensures ok && ctx.pm == pm && StoreBytes.Sizes(pm.mapped[..], b.s.meta)
    ensures var s' := StoreBytes.MountFrom(b.s, pm.mapped[..], disk, c);
            && ctx.Represents(s') && StoreRuns.Step(b.s, StoreRuns.PowerFails, s')
            && StoreBytes.Backed(StoreBytes.Machine(s', pm.mapped[..], []), pm.logOfst)
  {
    ghost var pm' := Recover(REGION_LIMITS, pm.mapped[..], pm.logOfst).value;
    ok, ctx := Mount(REGION_LIMITS, pm, ssdBlocks, pageBlocks, otable, table, StoreBytes.MountFrom(b.s, pm', disk, c));
  }

  // ---------- facts for the steps ----------

  /** Every entry's DRAM copy lies inside the table. */
  lemma EntriesReach(t: S.Tx, ids: seq<nat>, table: nat, size: nat)
    requires Loggable(t, ids) && t.oid < ONODES_RSV && table + 64 * ONODES_RSV <= size
    requires t.WriteTx? ==> |t.lbas| <= 0x10_0000
    ensures forall e | e in EntriesOf(t, ids, table) :: e.paddr + |e.value| <= size
  {
  }

  lemma WholeBlocks(ofst: nat, len: nat)
    requires ofst % 4096 == 0 && len % 4096 == 0
    ensures ofst + len > 0x40_0000 <==> ofst / 4096 + len / 4096 > S.OBJ_BLOCKS
    ensures len > 0 ==> len / 4096 > 0
  {
  }

  lemma PageInBitmap(s: S.Store)
    requires PageGranted(s) && |s.pm.bits| % 512 == 0
    ensures 512 * (Lap(s.pm.bits, s.pm.hint, 1).head.pos / 512) + 512 <= |s.pm.bits|
  {
    StoreAccept.OnePage(s.pm.bits, s.pm.hint);
    EntryIndex(Lap(s.pm.bits, s.pm.hint, 1).head.pos, |s.pm.bits|);
  }

  /** The one page an allocation of one page returns. */
  lemma OnePageExtent(bits: seq<bool>, hint: nat)
    requires hint < |bits| && Length(Lap(bits, hint, 1)) == 2
    ensures AddHits([], Front(Lap(bits, hint, 1), 1)) == [Extent(Lap(bits, hint, 1).head.pos, 1)]
  {
    var lap := Lap(bits, hint, 1);
    FirstIsFirst(bits, hint, hint, 1);
    assert Front(lap, 1) == Cons(lap.head, Nil);
    assert AddHits(AddHit([], lap.head), Nil) == AddHit([], lap.head);
  }

  lemma FreeOnePage(bits: seq<bool>, page: nat)
    requires page < |bits|
    ensures Flatten([Extent(page, 1)]) == [page] && SetAll(bits, [page], false) == bits[page := false]
  {
    var e := [Extent(page, 1)];
    assert e[..0] == [] && Blocks(e[0]) == [page];
    assert [page][..0] == [];
  }

  lemma {:induction false} IndexRead(s: S.Store, oid: nat, bofst: nat, n: nat, pm: seq<Byte>, dib: seq<nat>)
    requires Holds(pm, s.meta) && S.Shaped(s.meta) && S.Live(s.meta, oid) && bofst + n <= S.OBJ_BLOCKS && |dib| == n
    requires var page := s.meta.onodes[oid].page;
             && PAGES + 4096 * page + 4 * (bofst + n) <= |pm|
             && forall j | 0 <= j < n :: dib[j] == LbaAt(pm, PAGES + 4096 * page + 4 * (bofst + j))
    ensures Merge(dib).extents == S.OldExtents(s, oid, bofst, n)
  {
    IndexEntries(s, s.meta.onodes[oid].page, bofst, n, pm, dib);
  }

  /** What is read from an index page's bytes is the range of the index. */
  lemma IndexEntries(s: S.Store, page: nat, bofst: nat, n: nat, pm: seq<Byte>, dib: seq<nat>)
    requires Holds(pm, s.meta) && |dib| == n && PAGES + 4096 * page + 4 * (bofst + n) <= |pm|
    requires forall j | 0 <= j < n :: dib[j] == LbaAt(pm, PAGES + 4096 * page + 4 * (bofst + j))
    ensures page < |s.meta.index| && bofst + n <= |s.meta.index[page]| ==> dib == s.meta.index[page][bofst..bofst + n]
  {
    if page < |s.meta.index| && bofst + n <= |s.meta.index[page]| {
      assert PageHolds(pm, PAGES + 4096 * page, s.meta.index[page]);
      assert dib == s.meta.index[page][bofst..bofst + n];
    }
  }

  /** The old extents are few, and each starts inside the bitmap. */
  lemma OldFew(s: S.Store, oid: nat, bofst: nat, n: nat)
    requires StoreInv.Inv(s) && S.WriteAllowed(s, oid, bofst, n) && |s.ssd.bits| % 512 == 0
    ensures var e := S.OldExtents(s, oid, bofst, n); |e| <= n && InBitmap(e, |s.ssd.bits|)
  {
    var e := S.OldExtents(s, oid, bofst, n);
    var bi := s.meta.index[s.meta.onodes[oid].page][bofst..bofst + n];
    MergeRoundTrip(bi);
    StoreExact.WasSet(s, oid, bofst, n);
    forall i | 0 <= i < |e| ensures 512 * (e[i].lba / 512) + 512 <= |s.ssd.bits| {
      FlattenMember(e, e[i].lba);
      assert InOneEntry(e[i]);
      EntryIndex(e[i].lba, |s.ssd.bits|);
    }
  }

  /** Each extent built by the scan starts at one of its hits. */
  lemma {:induction false} StartsAtHits(bits: seq<bool>, es: seq<Extent>, h: List<Hit>, n: nat)
    requires FreeInTurn(bits, h) && |bits| == n && forall i | 0 <= i < |es| :: es[i].lba < n
    ensures |AddHits(es, h)| <= |es| + Length(h) && forall i | 0 <= i < |AddHits(es, h)| :: AddHits(es, h)[i].lba < n
    decreases h
  {
    if h.Cons? {
      StartsAtHits(bits[h.head.pos := true], AddHit(es, h.head), h.tail, n);
    }
  }

  /** The new extents are no more than the blocks asked for, and each starts inside the bitmap. */
  lemma TakenFew(bits: seq<bool>, hint: nat, n: nat)
    requires hint < |bits| && |bits| % 512 == 0 && Length(Lap(bits, hint, n)) == n + 1
    ensures var e := AddHits([], Front(Lap(bits, hint, n), n));
            |e| <= n && |Flatten(e)| == n && InBitmap(e, |bits|)
  {
    var h := Front(Lap(bits, hint, n), n);
    VisitFree(bits, hint, hint, n, false);
    FrontFree(bits, Lap(bits, hint, n), n);
    FirstIsFirst(bits, hint, hint, n);
    StartsAtHits(bits, [], h, |bits|);
    FlattenGrows([], h);
    var e := AddHits([], h);
    forall i | 0 <= i < |e| ensures 512 * (e[i].lba / 512) + 512 <= |bits| {
      EntryIndex(e[i].lba, |bits|);
    }
  }
}
