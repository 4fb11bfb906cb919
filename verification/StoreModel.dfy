/** The object store as a state machine: durable metadata in persistent memory, blocks on the SSD, the DRAM allocators,
    and the write transactions between acceptance and commit. */
module StoreModel {
  import opened Bytes
  import opened Common
  import opened AllocSpec
  import opened AllocScan
  import opened Extents

  const OBJ_BLOCKS: nat := 1024
  const TX_BLOCKS_MAX: nat := 32

  /** No more SSD blocks than this are used. */
  const SSD_BLOCKS_MAX: nat := 0x1000_0000

  type Block = seq<Byte>

  datatype Onode = Onode(valid: bool, page: nat)

  /** Durable metadata: the onode table, the index pages, and the two bitmaps. `lost` is not stored anywhere: it names
      the blocks of deleted objects, which stay allocated for ever. */
  datatype Meta = Meta(onodes: seq<Onode>, index: seq<seq<nat>>, ssd: seq<bool>, pages: seq<bool>, lost: set<nat>)

  datatype Tx =
    | WriteTx(oid: nat, oe: Onode, bofst: nat, lbas: seq<nat>, data: seq<Block>, freed: set<nat>,
              ids: set<nat>, snap: seq<bool>, pending: set<nat>)
    | CreateTx(oid: nat, page: nat, snap: seq<bool>)
    | DeleteTx(oid: nat, page: nat)

  datatype Op = Write(oid: nat, bofst: nat, data: seq<Block>) | Create(oid: nat) | Delete(oid: nat)

  /** A DRAM allocator: its bitmap, free counter and search hint. */
  datatype Alloc = Alloc(bits: seq<bool>, free: int, hint: nat)

  datatype Store = Store(meta: Meta, disk: seq<Block>, ssd: Alloc, pm: Alloc, txs: seq<Tx>, history: seq<Op>, done: nat)

  /** The allocator a mount builds from a durable bitmap. */
  function Mounted(bits: seq<bool>): Alloc {
    Alloc(bits, CountClear(bits, |bits|), 0)
  }

  // ---------- metadata ----------

  predicate Live(m: Meta, o: nat) {
    o < |m.onodes| && m.onodes[o].valid
  }

  ghost predicate Shaped(m: Meta) {
    && (forall p | 0 <= p < |m.index| :: |m.index[p]| == OBJ_BLOCKS)
    && |m.index| <= |m.pages|
    && (forall o: nat | Live(m, o) :: m.onodes[o].page < |m.index|)
  }

  /** Index entry `b` of live object `o`. */
  function Lba(m: Meta, o: nat, b: nat): nat
    requires Shaped(m) && Live(m, o) && b < OBJ_BLOCKS
  {
    m.index[m.onodes[o].page][b]
  }

  /** Block `b` of object `o` is stored in SSD block `x`. */
  predicate Maps(m: Meta, o: nat, b: nat, x: nat)
    requires Shaped(m)
  {
    Live(m, o) && b < OBJ_BLOCKS && Lba(m, o, b) == x && x != HOLE
  }

  ghost predicate Used(m: Meta, x: nat)
    requires Shaped(m)
  {
    exists o: nat, b: nat :: Maps(m, o, b, x)
  }

  /** Block ownership: live objects have their own index pages and their own blocks, and the durable SSD bitmap has
      set exactly the blocks in use and those lost to deletes. */
  ghost predicate Sound(m: Meta) {
    && Shaped(m) && |m.ssd| <= SSD_BLOCKS_MAX
    && (forall o: nat, o': nat | Live(m, o) && Live(m, o') && o != o' :: m.onodes[o].page != m.onodes[o'].page)
    && (forall o: nat | Live(m, o) :: m.pages[m.onodes[o].page])
    && (forall o: nat, b: nat, o': nat, b': nat, x: nat | Maps(m, o, b, x) && Maps(m, o', b', x) :: o == o' && b == b')
    && (forall o: nat, b: nat, x: nat | Maps(m, o, b, x) :: x < |m.ssd| && x !in m.lost)
    && (forall x: nat | x < |m.ssd| :: m.ssd[x] <==> Used(m, x) || x in m.lost)
    && (forall x: nat | x in m.lost :: x < |m.ssd|)
  }

  /** The blocks of an object that is being deleted. */
  ghost function BlocksOf(m: Meta, o: nat): set<nat>
    requires Shaped(m)
  {
    set b: nat | b < OBJ_BLOCKS && Live(m, o) && Lba(m, o, b) != HOLE :: Lba(m, o, b)
  }

  ghost predicate TxFits(m: Meta, t: Tx) {
    && Shaped(m) && t.oid < |m.onodes|
    && match t
       case WriteTx(_, oe, bofst, lbas, _, _, _, snap, _) =>
         oe.page < |m.index| && bofst + |lbas| <= OBJ_BLOCKS && |snap| == |m.ssd|
       case CreateTx(_, page, snap) => page < |m.index| && |snap| == |m.pages|
       case DeleteTx(_, _) => true
  }

  /** What applying a transaction's log does to the durable metadata. */
  ghost function Commit(m: Meta, t: Tx): Meta
    requires TxFits(m, t)
  {
    match t
    case WriteTx(oid, oe, bofst, lbas, _, _, ids, snap, _) =>
      m.(ssd := Overlay(m.ssd, ids, snap),
         index := m.index[oe.page := Splice(m.index[oe.page], bofst, lbas)],
         onodes := m.onodes[oid := oe])
    case CreateTx(oid, page, snap) =>
      m.(onodes := m.onodes[oid := Onode(true, page)], pages := Overlay(m.pages, {page / 512}, snap))
    case DeleteTx(oid, _) =>
      m.(onodes := m.onodes[oid := Onode(false, 0)], lost := m.lost + BlocksOf(m, oid))
  }

  // ---------- what a client sees ----------

  type View = map<nat, seq<Option<Block>>>

  function BlockAt(m: Meta, disk: seq<Block>, o: nat, b: nat): Option<Block>
    requires Shaped(m) && Live(m, o) && b < OBJ_BLOCKS
  {
    var x := Lba(m, o, b);
    if x != HOLE && x < |disk| then Some(disk[x]) else None
  }

  function ObjectOf(m: Meta, disk: seq<Block>, o: nat): seq<Option<Block>>
    requires Shaped(m) && Live(m, o)
  {
    seq(OBJ_BLOCKS, b requires 0 <= b < OBJ_BLOCKS => BlockAt(m, disk, o, b))
  }

  ghost function ViewOf(m: Meta, disk: seq<Block>): View
    requires Shaped(m)
  {
    map o: nat | o < |m.onodes| && Live(m, o) :: ObjectOf(m, disk, o)
  }

  function Somes(data: seq<Block>): (s: seq<Option<Block>>)
    ensures |s| == |data|
  {
    seq(|data|, i requires 0 <= i < |data| => Some(data[i]))
  }

  function Holes(): (s: seq<Option<Block>>)
    ensures |s| == OBJ_BLOCKS
  {
    seq(OBJ_BLOCKS, _ => None)
  }

  /** The abstract store: a map from object ids to arrays of optional blocks. */
  function Perform(v: View, op: Op): View {
    match op
    case Write(oid, bofst, data) =>
      if oid in v && bofst + |data| <= |v[oid]| then v[oid := Splice(v[oid], bofst, Somes(data))] else v
    case Create(oid) => v[oid := Holes()]
    case Delete(oid) => map o | o in v && o != oid :: v[o]
  }

  function Replay(ops: seq<Op>): View {
    if ops == [] then map[] else Perform(Replay(ops[..|ops| - 1]), ops[|ops| - 1])
  }

  function OpOf(t: Tx): Op {
    match t
    case WriteTx(oid, _, bofst, _, data, _, _, _, _) => Write(oid, bofst, data)
    case CreateTx(oid, _, _) => Create(oid)
    case DeleteTx(oid, _) => Delete(oid)
  }

  // ---------- accepting operations ----------

  predicate Idle(txs: seq<Tx>, oid: nat) {
    forall p | 0 <= p < |txs| :: txs[p].oid != oid
  }

  /** Blocks freed, and index pages freed, by transactions that have not committed. */
  ghost function FreedFrom(txs: seq<Tx>, i: nat): set<nat>
    decreases |txs| - i
  {
    if i >= |txs| then {} else (if txs[i].WriteTx? then txs[i].freed else {}) + FreedFrom(txs, i + 1)
  }

  ghost function PagesFreedFrom(txs: seq<Tx>, i: nat): set<nat>
    decreases |txs| - i
  {
    if i >= |txs| then {} else (if txs[i].DeleteTx? then {txs[i].page} else {}) + PagesFreedFrom(txs, i + 1)
  }

  function InitialPage(): (s: seq<nat>)
    ensures |s| == OBJ_BLOCKS
  {
    seq(OBJ_BLOCKS, _ => HOLE)
  }

  /** A write's parameters are in range and its object exists and has nothing in flight: the code checks only the
      upper bound, and reads the object's index from durable memory. */
  predicate WriteAllowed(s: Store, oid: nat, bofst: nat, n: nat) {
    && 1 <= n <= TX_BLOCKS_MAX && bofst + n <= OBJ_BLOCKS
    && Live(s.meta, oid) && Idle(s.txs, oid)
  }

  /** The extents the write frees, merged from the durable index. */
  function OldExtents(s: Store, oid: nat, bofst: nat, n: nat): seq<Extent>
    requires Shaped(s.meta) && Live(s.meta, oid) && bofst + n <= OBJ_BLOCKS
  {
    Merge(s.meta.index[s.meta.onodes[oid].page][bofst..bofst + n]).extents
  }

  /** The SSD bitmap after the free, which comes before the allocation. */
  function FreedBits(s: Store, oid: nat, bofst: nat, n: nat): seq<bool>
    requires Shaped(s.meta) && Live(s.meta, oid) && bofst + n <= OBJ_BLOCKS
  {
    SetAll(s.ssd.bits, Flatten(OldExtents(s, oid, bofst, n)), false)
  }

  /** The allocation a write makes. */
  datatype Grant = Grant(bits: seq<bool>, extents: seq<Extent>, hint: nat)

  function GrantOf(bits: seq<bool>, hint: nat, n: nat): Grant
    requires hint < |bits|
  {
    var lap := Lap(bits, hint, n);
    var taken := Front(lap, n);
    Grant(SetHits(bits, taken), AddHits([], taken), if lap.Nil? then hint else Last(lap).pos)
  }

  /** The allocation is exact and reuses no block freed by this write or by one that has not committed. */
  ghost predicate WriteFresh(s: Store, oid: nat, bofst: nat, n: nat)
    requires Shaped(s.meta) && Live(s.meta, oid) && bofst + n <= OBJ_BLOCKS
  {
    var bits := FreedBits(s, oid, bofst, n);
    && s.ssd.hint < |bits| && AllocExact(bits, s.ssd.hint, n)
    && forall x | x in Flatten(GrantOf(bits, s.ssd.hint, n).extents) ::
         x !in Flatten(OldExtents(s, oid, bofst, n)) && x !in FreedFrom(s.txs, 0)
  }

  /** The bitmap entries logged carry the whole change of the bitmap. */
  ghost predicate WriteLogged(s: Store, oid: nat, bofst: nat, n: nat)
    requires Shaped(s.meta) && Live(s.meta, oid) && bofst + n <= OBJ_BLOCKS && s.ssd.hint < |s.ssd.bits|
  {
    var g := GrantOf(FreedBits(s, oid, bofst, n), s.ssd.hint, n);
    Overlay(s.ssd.bits, EntryIds(OldExtents(s, oid, bofst, n)) + EntryIds(g.extents), g.bits) == g.bits
  }

  /** Conditions under which a write keeps the store's promises. */
  ghost predicate WriteSafe(s: Store, oid: nat, bofst: nat, n: nat)
    requires Shaped(s.meta) && Live(s.meta, oid) && bofst + n <= OBJ_BLOCKS
  {
    WriteFresh(s, oid, bofst, n) && WriteLogged(s, oid, bofst, n)
  }

  ghost function AcceptWrite(s: Store, oid: nat, bofst: nat, data: seq<Block>): Store
    requires Shaped(s.meta) && WriteAllowed(s, oid, bofst, |data|) && s.ssd.hint < |s.ssd.bits|
  {
    var n := |data|;
    var was := OldExtents(s, oid, bofst, n);
    var g := GrantOf(FreedBits(s, oid, bofst, n), s.ssd.hint, n);
    var t := WriteTx(oid, s.meta.onodes[oid], bofst, Flatten(g.extents), data, (set x | x in Flatten(was)),
                     EntryIds(was) + EntryIds(g.extents), g.bits, Below(n));
    s.(ssd := Alloc(g.bits, s.ssd.free + |Flatten(was)| - n, g.hint),
       txs := s.txs + [t], history := s.history + [Write(oid, bofst, data)])
  }

  predicate CreateAllowed(s: Store, oid: nat) {
    oid < |s.meta.onodes| && !s.meta.onodes[oid].valid && Idle(s.txs, oid)
  }

  /** One page is found, and it lies inside the memory: the page bitmap covers the whole file, not just the part that
      holds pages. */
  predicate PageFound(s: Store) {
    && s.pm.hint < |s.pm.bits| && Length(Lap(s.pm.bits, s.pm.hint, 1)) == 2
    && Lap(s.pm.bits, s.pm.hint, 1).head.pos < |s.meta.index|
  }

  /** The page a create will get. */
  function NewPage(s: Store): nat
    requires PageFound(s)
  {
    Lap(s.pm.bits, s.pm.hint, 1).head.pos
  }

  /** The page found is not the page of an object whose delete has not committed, unless it holds nothing but holes. */
  ghost predicate CreateSafe(s: Store) {
    PageFound(s) && (NewPage(s) !in PagesFreedFrom(s.txs, 0) || s.meta.index[NewPage(s)] == InitialPage())
  }

  /** The new index page is filled with holes at once, outside the log. */
  ghost function AcceptCreate(s: Store, oid: nat): Store
    requires PageFound(s)
  {
    var g, page := GrantOf(s.pm.bits, s.pm.hint, 1), NewPage(s);
    s.(pm := Alloc(g.bits, s.pm.free - 1, g.hint), meta := s.meta.(index := s.meta.index[page := InitialPage()]),
       txs := s.txs + [CreateTx(oid, page, g.bits)], history := s.history + [Create(oid)])
  }

  predicate DeleteAllowed(s: Store, oid: nat) {
    Live(s.meta, oid) && Idle(s.txs, oid)
  }

  /** The page is freed in DRAM only; the bitmap entry is not logged and the data blocks stay allocated. */
  ghost function AcceptDelete(s: Store, oid: nat): Store
    requires Shaped(s.meta) && Live(s.meta, oid) && |s.pm.bits| == |s.meta.pages|
  {
    var page := s.meta.onodes[oid].page;
    s.(pm := s.pm.(bits := s.pm.bits[page := false], free := s.pm.free + 1),
       txs := s.txs + [DeleteTx(oid, page)], history := s.history + [Delete(oid)])
  }

  // ---------- the other steps ----------

  /** The device stores one more block of a transaction; blocks may be stored in any order. */
  ghost function StoreBlock(s: Store, p: nat, j: nat): Store
    requires p < |s.txs| && s.txs[p].WriteTx? && j in s.txs[p].pending
    requires j < |s.txs[p].lbas| == |s.txs[p].data| && s.txs[p].lbas[j] < |s.disk|
  {
    var t := s.txs[p];
    s.(disk := s.disk[t.lbas[j] := t.data[j]], txs := s.txs[p := t.(pending := t.pending - {j})])
  }

  predicate Ready(t: Tx) {
    t.WriteTx? ==> t.pending == {}
  }

  /** The oldest transaction commits. */
  ghost function CommitHead(s: Store): Store
    requires |s.txs| > 0 && TxFits(s.meta, s.txs[0])
  {
    s.(meta := Commit(s.meta, s.txs[0]), txs := s.txs[1..], done := s.done + 1)
  }

  /** What a power failure may do to the SSD: only blocks still being written are in doubt. */
  ghost predicate DiskAfterCrash(s: Store, disk: seq<Block>) {
    && |disk| == |s.disk|
    && forall x | 0 <= x < |disk| :: disk[x] == s.disk[x] || InDoubt(s, x)
  }

  ghost predicate InDoubt(s: Store, x: nat) {
    exists p, j :: 0 <= p < |s.txs| && WritingTo(s.txs[p], j, x)
  }

  predicate WritingTo(t: Tx, j: nat, x: nat) {
    t.WriteTx? && j < |t.lbas| && t.lbas[j] == x && j in t.pending
  }

  /** Index pages of no live object may hold anything after a crash. */
  ghost predicate MetaAfterCrash(m: Meta, m': Meta) {
    && Shaped(m) && m'.onodes == m.onodes && m'.ssd == m.ssd && m'.pages == m.pages && m'.lost == m.lost
    && |m'.index| == |m.index| && (forall p | 0 <= p < |m'.index| :: |m'.index[p]| == OBJ_BLOCKS)
    && forall o: nat | Live(m, o) :: m'.index[m.onodes[o].page] == m.index[m.onodes[o].page]
  }

  /** Power fails, possibly while the oldest transaction is being applied, and the store is mounted again: the
      allocators are reloaded from the durable bitmaps and nothing is in flight. */
  ghost predicate CrashAndMount(s: Store, s': Store) {
    exists c: nat :: c <= 1 && CrashAfter(s, s', c)
  }

  ghost predicate CrashAfter(s: Store, s': Store, c: nat) {
    && c <= |s.txs| && s.done + c <= |s.history|
    && (c == 1 ==> Ready(s.txs[0]) && TxFits(s.meta, s.txs[0]))
    && var m := if c == 1 then Commit(s.meta, s.txs[0]) else s.meta;
       && MetaAfterCrash(m, s'.meta) && DiskAfterCrash(s, s'.disk)
       && s'.ssd == Mounted(m.ssd)
       && s'.pm == Mounted(m.pages)
       && s'.txs == [] && s'.history == s.history[..s.done + c] && s'.done == s.done + c
  }
}
