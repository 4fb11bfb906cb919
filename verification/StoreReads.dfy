/** Reading an object back. */
module StoreReads {
  import opened Common
  import opened AllocSpec
  import opened Extents
  import opened StoreModel
  import opened StoreInv
  import opened StoreRuns

  /** For a read, holes are read from block 0. */
  function HolesToZero(bi: seq<nat>): (r: seq<nat>)
    ensures |r| == |bi|
  {
    seq(|bi|, i requires 0 <= i < |bi| => if bi[i] == HOLE then 0 else bi[i])
  }

  datatype ReadResult = Data(blocks: seq<Block>) | ReadHole

  predicate OnDisk(disk: seq<Block>, lbas: seq<nat>) {
    forall j | 0 <= j < |lbas| :: lbas[j] < |disk|
  }

  /** The contents of the given blocks, in order. */
  function Fetched(disk: seq<Block>, lbas: seq<nat>): (blocks: seq<Block>)
    requires OnDisk(disk, lbas)
    ensures |blocks| == |lbas|
  {
    seq(|lbas|, j requires 0 <= j < |lbas| => disk[lbas[j]])
  }

  /** What a read of an abstract block yields: a hole reads as block 0. */
  function Expected(disk: seq<Block>, b: Option<Block>): Block
    requires |disk| > 0
  {
    if b.Some? then b.value else disk[0]
  }

  ghost predicate AllOnDisk(m: Meta, disk: seq<Block>, oid: nat)
    requires Shaped(m) && Live(m, oid)
  {
    |disk| > 0 && forall b: nat | b < OBJ_BLOCKS && Lba(m, oid, b) != HOLE :: Lba(m, oid, b) < |disk|
  }

  /** A read of `n` blocks: the extents merged from the durable index, each read into the next part of the buffer.
      Every range of one to 32 blocks, which is what the index buffers hold, can be read: the refusal of a range with
      holes is never taken. */
  method Read(m: Meta, disk: seq<Block>, oid: nat, bofst: nat, n: nat) returns (r: ReadResult)
    requires Shaped(m) && Live(m, oid) && 1 <= n <= TX_BLOCKS_MAX && bofst + n <= OBJ_BLOCKS && AllOnDisk(m, disk, oid)
    ensures r.Data? && |r.blocks| == n
    ensures forall j | 0 <= j < n :: r.blocks[j] == Expected(disk, ObjectOf(m, disk, oid)[bofst + j])
  {
    var dib := m.index[m.onodes[oid].page][bofst..bofst + n];
    var bi := HolesToZero(dib);
    var extents, mapped := LbaMergeTo(bi);
    MergeRoundTrip(bi);
    NoHoles(bi);
    if |extents| == 0 || mapped != n {
      return ReadHole;
    }
    LbasOnDisk(m, disk, oid, bofst, n);
    var blocks := ReadExtents(disk, extents);
    return Data(blocks);
  }

  lemma LbasOnDisk(m: Meta, disk: seq<Block>, oid: nat, bofst: nat, n: nat)
    requires Shaped(m) && Live(m, oid) && bofst + n <= OBJ_BLOCKS && AllOnDisk(m, disk, oid)
    ensures var bi := HolesToZero(m.index[m.onodes[oid].page][bofst..bofst + n]);
            && OnDisk(disk, bi) && |bi| == n
            && forall j | 0 <= j < n :: disk[bi[j]] == Expected(disk, ObjectOf(m, disk, oid)[bofst + j])
  {
    var dib := m.index[m.onodes[oid].page][bofst..bofst + n];
    forall j | 0 <= j < n
      ensures HolesToZero(dib)[j] < |disk|
      ensures disk[HolesToZero(dib)[j]] == Expected(disk, ObjectOf(m, disk, oid)[bofst + j])
    {
      assert dib[j] == Lba(m, oid, bofst + j);
    }
  }

  method ReadExtents(disk: seq<Block>, extents: seq<Extent>) returns (blocks: seq<Block>)
    requires OnDisk(disk, Flatten(extents)) && AllInOneEntry(extents)
    ensures blocks == Fetched(disk, Flatten(extents))
  {
    blocks := [];
    for i := 0 to |extents|
      invariant OnDisk(disk, Flatten(extents[..i])) && blocks == Fetched(disk, Flatten(extents[..i]))
    {
      FlattenPrefix(extents, i);
      var e := extents[i];
      PrefixOnDisk(disk, Flatten(extents[..i + 1]), Flatten(extents));
      assert InOneEntry(e);
      FetchMore(disk, Flatten(extents[..i]), e);
      blocks := blocks + disk[e.lba..e.lba + e.len];
    }
    assert extents[..|extents|] == extents;
  }

  lemma PrefixOnDisk(disk: seq<Block>, f: seq<nat>, lbas: seq<nat>)
    requires f <= lbas && OnDisk(disk, lbas)
    ensures OnDisk(disk, f)
  {
  }

  lemma FetchMore(disk: seq<Block>, f: seq<nat>, e: Extent)
    requires e.len > 0 && OnDisk(disk, f + Blocks(e))
    ensures OnDisk(disk, f) && e.lba + e.len <= |disk|
    ensures Fetched(disk, f + Blocks(e)) == Fetched(disk, f) + disk[e.lba..e.lba + e.len]
  {
    var s := f + Blocks(e);
    assert s[|s| - 1] == e.lba + e.len - 1;
    PrefixOnDisk(disk, f, s);
  }

  lemma {:induction false} FlattenPrefix(es: seq<Extent>, i: nat)
    requires i < |es|
    ensures Flatten(es[..i + 1]) == Flatten(es[..i]) + Blocks(es[i]) && Flatten(es[..i + 1]) <= Flatten(es)
    decreases |es|
  {
    assert es[..i + 1][..i] == es[..i];
    if i + 1 < |es| {
      FlattenPrefix(es[..|es| - 1], i);
      assert es[..|es| - 1][..i + 1] == es[..i + 1] && es[..|es| - 1][..i] == es[..i];
    } else {
      assert es[..i + 1] == es;
    }
  }

  lemma {:induction false} NoHoles(bi: seq<nat>)
    requires forall j | 0 <= j < |bi| :: bi[j] != HOLE
    ensures NonHoles(bi) == bi
  {
    if bi != [] {
      NoHoles(bi[..|bi| - 1]);
      assert bi == bi[..|bi| - 1] + [bi[|bi| - 1]];
    }
  }

  /** In a quiet store a read returns, block by block, what the abstract store holds: the last data written there. */
  method ReadBack(ghost run: seq<Store>, s: Store, oid: nat, bofst: nat, n: nat) returns (r: ReadResult)
    requires Run(run) && s == run[|run| - 1] && s.txs == []
    requires Live(s.meta, oid) && 1 <= n <= TX_BLOCKS_MAX && bofst + n <= OBJ_BLOCKS && |s.disk| > 0
    ensures r.Data? && |r.blocks| == n && oid in Replay(s.history) && |Replay(s.history)[oid]| == OBJ_BLOCKS
    ensures forall j | 0 <= j < n && Replay(s.history)[oid][bofst + j].Some? ::
      r.blocks[j] == Replay(s.history)[oid][bofst + j].value
  {
    QuietOwnership(run, |run| - 1);
    RunGood(run, |run| - 1);
    forall b: nat | b < OBJ_BLOCKS && Lba(s.meta, oid, b) != HOLE ensures Lba(s.meta, oid, b) < |s.disk| {
      assert Maps(s.meta, oid, b, Lba(s.meta, oid, b));
    }
    r := Read(s.meta, s.disk, oid, bofst, n);
    assert Replay(s.history)[oid] == ObjectOf(s.meta, s.disk, oid);
  }

  // ---------- a read that takes its time ----------

  /** A step changes a block only if some accepted write is still to store it. */
  lemma DiskStep(s: Store, e: Event, s': Store, x: nat)
    requires Step(s, e, s') && x < |s.disk| && !InDoubt(s, x)
    ensures x < |s'.disk| && s'.disk[x] == s.disk[x]
  {
    match e
    case BlockStored(p, j) => assert !WritingTo(s.txs[p], j, x);
    case _ =>
  }

  lemma {:induction false} DiskKept(run: seq<Store>, i: nat, j: nat, x: nat)
    requires Run(run) && i <= j < |run| && x < |run[i].disk|
    requires forall k: nat | i <= k < j :: !InDoubt(run[k], x)
    ensures x < |run[j].disk| && run[j].disk[x] == run[i].disk[x]
    decreases j
  {
    if i < j {
      DiskKept(run, i, j - 1, x);
      assert NextAt(run, j - 1);
      var e :| Step(run[j - 1], e, run[j]);
      DiskStep(run[j - 1], e, run[j], x);
    }
  }

  /** The index is read when the read is prepared, at `i`, and the block when its I/O is done, at `j`. The block is what
      the object held at `i` if meanwhile it was in use all the time, or at least no accepted write was still to store
      it; a commit or a delete that only frees it does no harm. */
  lemma LateRead(run: seq<Store>, i: nat, j: nat, oid: nat, b: nat, x: nat)
    requires Run(run) && i <= j < |run|
    requires Shaped(run[i].meta) && Maps(run[i].meta, oid, b, x)
    requires forall k: nat | i <= k < j :: (Shaped(run[k].meta) && Used(run[k].meta, x)) || !InDoubt(run[k], x)
    ensures x < |run[j].disk| && ViewOf(run[i].meta, run[i].disk)[oid][b] == Some(run[j].disk[x])
  {
    forall k: nat | i <= k < j ensures !InDoubt(run[k], x) {
      RunGood(run, k);
      if Used(run[k].meta, x) && InDoubt(run[k], x) {
        DoubtUnused(run[k], 0, x);
      }
    }
    RunGood(run, i);
    assert StageFine(run[i], 0) && Stage(run[i], 0) == run[i].meta;
    DiskKept(run, i, j, x);
  }
}
