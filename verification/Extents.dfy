/** From index entries to device extents, and from extents to the bitmap entries a write logs. */
module Extents {
  import opened AllocSpec

  /** An index entry that maps nothing. */
  const HOLE: nat := 0xFFFF_FFFF

  /** The largest extent the merge builds, in blocks. */
  const IO_UNIT_MAX: nat := 131072

  function NonHoles(bi: seq<nat>): (s: seq<nat>)
    ensures |s| <= |bi|
  {
    if bi == [] then []
    else
      var front := NonHoles(bi[..|bi| - 1]);
      if bi[|bi| - 1] == HOLE then front else front + [bi[|bi| - 1]]
  }

  datatype Merged = Merged(extents: seq<Extent>, open: bool)

  /** Can block `ba` join extent `e`? It follows it, in the same 512-block bitmap entry, within the size limit. */
  predicate Joins(e: Extent, ba: nat) {
    e.lba + e.len == ba && e.lba / 512 == ba / 512 && e.len < IO_UNIT_MAX
  }

  function MergeOne(m: Merged, ba: nat): Merged {
    if ba == HOLE then Merged(m.extents, false)
    else if m.open && m.extents != [] && Joins(m.extents[|m.extents| - 1], ba) then Merged(Grow(m.extents), true)
    else Merged(m.extents + [Extent(ba, 1)], true)
  }

  /** The index entries merged from the left. */
  function Merge(bi: seq<nat>): Merged {
    if bi == [] then Merged([], false) else MergeOne(Merge(bi[..|bi| - 1]), bi[|bi| - 1])
  }

  /** Entry `i` starts an extent: it is mapped, and is first, or behind a hole, or not the block after the one before
      it, or the first block of a bitmap entry. */
  predicate StartsExtent(bi: seq<nat>, i: nat)
    requires i < |bi|
  {
    bi[i] != HOLE && (i == 0 || bi[i - 1] == HOLE || bi[i] != bi[i - 1] + 1 || bi[i] % 512 == 0)
  }

  /** The blocks that start an extent, in order. */
  function Starts(bi: seq<nat>): seq<nat> {
    if bi == [] then []
    else Starts(bi[..|bi| - 1]) + if StartsExtent(bi, |bi| - 1) then [bi[|bi| - 1]] else []
  }

  function FirstBlocks(es: seq<Extent>): (s: seq<nat>)
    ensures |s| == |es|
  {
    seq(|es|, i requires 0 <= i < |es| => es[i].lba)
  }

  /** The extents are as long as they can be: one begins only where no block could be joined to the one before. The
      limit on an extent's size is never met. */
  lemma {:induction false} MergedMaximally(bi: seq<nat>)
    ensures var m := Merge(bi);
            && FirstBlocks(m.extents) == Starts(bi)
            && (m.open <==> bi != [] && bi[|bi| - 1] != HOLE)
            && (m.open ==> m.extents != [] && EndsAt(m.extents[|m.extents| - 1], bi[|bi| - 1]))
    decreases |bi|
  {
    if bi != [] {
      var front, ba := bi[..|bi| - 1], bi[|bi| - 1];
      MergedMaximally(front);
      var m := Merge(front);
      if ba != HOLE && m.open {
        JoinsExactly(m.extents[|m.extents| - 1], front[|front| - 1], ba);
      }
      assert FirstBlocks(m.extents + [Extent(ba, 1)]) == FirstBlocks(m.extents) + [ba];
      assert m.extents != [] ==> FirstBlocks(Grow(m.extents)) == FirstBlocks(m.extents);
    }
  }

  predicate EndsAt(e: Extent, last: nat) {
    InOneEntry(e) && e.lba + e.len == last + 1
  }

  lemma JoinsExactly(e: Extent, last: nat, ba: nat)
    requires EndsAt(e, last)
    ensures Joins(e, ba) <==> ba == last + 1 && ba % 512 != 0
  {
  }

  method LbaMergeTo(bi: seq<nat>) returns (extents: seq<Extent>, mapped: nat)
    ensures extents == Merge(bi).extents && mapped == |NonHoles(bi)|
    ensures Flatten(extents) == NonHoles(bi) && FirstBlocks(extents) == Starts(bi)
  {
    extents, mapped := [], 0;
    var inFound := false;
    for i := 0 to |bi|
      invariant Merged(extents, inFound) == Merge(bi[..i]) && (inFound ==> extents != [])
      invariant mapped == |NonHoles(bi[..i])|
    {
      assert bi[..i + 1][..i] == bi[..i];
      var ba := bi[i];
      if ba == HOLE {
        inFound := false;
      } else if inFound {
        mapped := mapped + 1;
        var p := |extents| - 1;
        if extents[p].len + extents[p].lba == ba && extents[p].lba / 512 == ba / 512 && extents[p].len < IO_UNIT_MAX {
          extents := extents[p := Extent(extents[p].lba, extents[p].len + 1)];
        } else {
          extents := extents + [Extent(ba, 1)];
        }
      } else {
        mapped := mapped + 1;
        extents := extents + [Extent(ba, 1)];
        inFound := true;
      }
    }
    assert bi[..|bi|] == bi;
    MergeRoundTrip(bi);
    MergedMaximally(bi);
  }

  /** The extent lies in a single bitmap entry. */
  predicate InOneEntry(e: Extent) {
    e.len > 0 && e.lba / 512 == (e.lba + e.len - 1) / 512
  }

  predicate AllInOneEntry(es: seq<Extent>) {
    forall i | 0 <= i < |es| :: InOneEntry(es[i])
  }

  /** Flattening the merged extents gives back exactly the mapped entries, in order, and no merged extent spans two
      bitmap entries. */
  lemma {:induction false} MergeRoundTrip(bi: seq<nat>)
    ensures Flatten(Merge(bi).extents) == NonHoles(bi) && AllInOneEntry(Merge(bi).extents)
    ensures |Merge(bi).extents| <= |NonHoles(bi)|
    ensures bi != [] && bi[|bi| - 1] != HOLE ==> Merge(bi).open
    decreases |bi|
  {
    if bi != [] {
      var front, ba := bi[..|bi| - 1], bi[|bi| - 1];
      MergeRoundTrip(front);
      if ba != HOLE {
        MergeOneMore(Merge(front), ba);
      }
    }
  }

  lemma MergeOneMore(m: Merged, ba: nat)
    requires AllInOneEntry(m.extents) && ba != HOLE
    ensures var r := MergeOne(m, ba).extents;
            Flatten(r) == Flatten(m.extents) + [ba] && AllInOneEntry(r) && |r| <= |m.extents| + 1
  {
    if m.open && m.extents != [] && Joins(m.extents[|m.extents| - 1], ba) {
      FlattenOne(m.extents, Hit(ba, false));
    } else {
      FlattenOne(m.extents, Hit(ba, true));
      assert AddHit(m.extents, Hit(ba, true)) == m.extents + [Extent(ba, 1)];
    }
  }

  /** Nothing is merged across a hole: what lies on either side is merged on its own. */
  lemma {:induction false} HoleSplits(a: seq<nat>, b: seq<nat>)
    ensures Merge(a + [HOLE] + b).extents == Merge(a).extents + Merge(b).extents
    ensures Merge(a + [HOLE] + b).open == Merge(b).open
    ensures Merge(b).open ==> Merge(b).extents != []
    decreases |b|
  {
    var s := a + [HOLE] + b;
    if b == [] {
      assert s[..|s| - 1] == a;
      assert Merge(a).extents + [] == Merge(a).extents;
    } else {
      var front, ba := b[..|b| - 1], b[|b| - 1];
      HoleSplits(a, front);
      assert s[..|s| - 1] == a + [HOLE] + front;
      MergeAfter(Merge(a).extents, Merge(front), ba);
    }
  }

  lemma MergeAfter(es: seq<Extent>, m: Merged, ba: nat)
    requires m.open ==> m.extents != []
    ensures MergeOne(Merged(es + m.extents, m.open), ba)
         == Merged(es + MergeOne(m, ba).extents, MergeOne(m, ba).open)
  {
    if ba != HOLE && m.open && Joins(m.extents[|m.extents| - 1], ba) {
      assert Grow(es + m.extents) == es + Grow(m.extents);
    } else if ba != HOLE {
      assert (es + m.extents) + [Extent(ba, 1)] == es + (m.extents + [Extent(ba, 1)]);
    }
  }

  // ---------- bitmap entries ----------

  predicate FirstEntryOfSome(es: seq<Extent>, id: nat) {
    exists i :: 0 <= i < |es| && es[i].lba / 512 == id
  }

  /** The bitmap entries of the first blocks of the extents, each once. */
  method LbaToBitmapId(es: seq<Extent>) returns (ids: seq<nat>)
    ensures forall id :: id in ids <==> FirstEntryOfSome(es, id)
    ensures forall j, k | 0 <= j < k < |ids| :: ids[j] != ids[k]
    ensures |ids| <= |es|
  {
    ids := [];
    for i := 0 to |es|
      invariant forall id :: id in ids <==> FirstEntryOfSome(es[..i], id)
      invariant forall j, k | 0 <= j < k < |ids| :: ids[j] != ids[k]
      invariant |ids| <= i
    {
      var found := false;
      for j := 0 to |ids|
        invariant found <==> exists k :: 0 <= k < j && ids[k] == es[i].lba / 512
      {
        if es[i].lba / 512 == ids[j] {
          found := true;
          break;
        }
      }
      assert found <==> es[i].lba / 512 in ids;
      FirstEntryNext(es, i);
      if !found {
        ids := ids + [es[i].lba / 512];
      }
    }
    assert es[..|es|] == es;
  }

  lemma FirstEntryNext(es: seq<Extent>, i: nat)
    requires i < |es|
    ensures forall id: nat ::
              FirstEntryOfSome(es[..i + 1], id) <==> FirstEntryOfSome(es[..i], id) || id == es[i].lba / 512
  {
    forall id: nat
      ensures FirstEntryOfSome(es[..i + 1], id) <==> FirstEntryOfSome(es[..i], id) || id == es[i].lba / 512
    {
      if FirstEntryOfSome(es[..i], id) {
        var k :| 0 <= k < |es[..i]| && es[..i][k].lba / 512 == id;
        assert es[..i + 1][k].lba / 512 == id;
      }
      assert es[..i + 1][i] == es[i];
    }
  }

  /** The set the method computes. */
  ghost function EntryIds(es: seq<Extent>): (ids: set<nat>)
    ensures forall id :: id in ids <==> FirstEntryOfSome(es, id)
  {
    set i | 0 <= i < |es| :: es[i].lba / 512
  }

  // ---------- which bitmap entries a write must log ----------

  /** The entries in `ids` taken from `snap`, the others from `bits`. */
  function Overlay(bits: seq<bool>, ids: set<nat>, snap: seq<bool>): (r: seq<bool>)
    requires |snap| == |bits|
    ensures |r| == |bits|
  {
    seq(|bits|, i requires 0 <= i < |bits| => if i / 512 in ids then snap[i] else bits[i])
  }

  /** Logging the given entries carries the whole change exactly when no bit outside them changed. */
  lemma OverlayExact(bits: seq<bool>, ids: set<nat>, snap: seq<bool>)
    requires |snap| == |bits|
    ensures Overlay(bits, ids, snap) == snap <==> forall i: nat | i < |bits| && bits[i] != snap[i] :: i / 512 in ids
  {
    if Overlay(bits, ids, snap) == snap {
      forall i: nat | i < |bits| && bits[i] != snap[i] ensures i / 512 in ids {
        assert Overlay(bits, ids, snap)[i] == snap[i];
      }
    }
  }

  predicate InExtent(e: Extent, x: nat) {
    e.lba <= x < e.lba + e.len
  }

  lemma {:induction false} FlattenMember(es: seq<Extent>, x: nat)
    ensures x in Flatten(es) <==> exists i :: 0 <= i < |es| && InExtent(es[i], x)
    decreases |es|
  {
    if es != [] {
      var front, last := es[..|es| - 1], es[|es| - 1];
      FlattenMember(front, x);
      BlocksMember(last, x);
      HolderAmong(front, last, x);
      assert es == front + [last];
    }
  }

  lemma BlocksMember(e: Extent, x: nat)
    ensures x in Blocks(e) <==> e.lba <= x < e.lba + e.len
  {
    if e.lba <= x < e.lba + e.len {
      assert Blocks(e)[x - e.lba] == x;
    }
  }

  lemma HolderAmong(front: seq<Extent>, last: Extent, x: nat)
    ensures (exists i :: 0 <= i < |front + [last]| && InExtent((front + [last])[i], x))
       <==> (exists i :: 0 <= i < |front| && InExtent(front[i], x)) || InExtent(last, x)
  {
    var es := front + [last];
    if i :| 0 <= i < |front| && InExtent(front[i], x) {
      assert InExtent(es[i], x);
    }
    if InExtent(last, x) {
      assert InExtent(es[|front|], x);
    }
  }

  /** Extents inside single bitmap entries are fully logged by the entries of their first blocks. */
  lemma {:induction false} InOneEntryLogged(es: seq<Extent>, x: nat)
    requires AllInOneEntry(es) && x in Flatten(es)
    ensures x / 512 in EntryIds(es)
  {
    FlattenMember(es, x);
    var i :| 0 <= i < |es| && InExtent(es[i], x);
    assert InOneEntry(es[i]);
    assert es[i].lba / 512 <= x / 512 <= (es[i].lba + es[i].len - 1) / 512;
  }

  /** The extent runs past the start of bitmap entry `id`. */
  predicate RunsInto(e: Extent, id: nat) {
    e.lba < 512 * id < e.lba + e.len
  }

  /** The entries of the first blocks cover every block of the extents exactly when each entry boundary an extent
      crosses is in an entry where some extent starts. */
  lemma {:induction false} CoveredExactly(es: seq<Extent>)
    ensures (forall x | x in Flatten(es) :: x / 512 in EntryIds(es))
       <==> forall i: nat, id: nat | i < |es| && RunsInto(es[i], id) :: FirstEntryOfSome(es, id)
  {
    if forall x | x in Flatten(es) :: x / 512 in EntryIds(es) {
      forall i: nat, id: nat | i < |es| && RunsInto(es[i], id) ensures FirstEntryOfSome(es, id) {
        BoundaryBlock(es, i, id);
        assert 512 * id / 512 in EntryIds(es);
      }
    }
    if forall i: nat, id: nat | i < |es| && RunsInto(es[i], id) :: FirstEntryOfSome(es, id) {
      forall x | x in Flatten(es) ensures x / 512 in EntryIds(es) {
        FlattenMember(es, x);
        var i :| 0 <= i < |es| && InExtent(es[i], x);
        if es[i].lba / 512 < x / 512 {
          EntryStart(es[i].lba, x);
          assert RunsInto(es[i], x / 512);
        }
      }
    }
  }

  lemma BoundaryBlock(es: seq<Extent>, i: nat, id: nat)
    requires i < |es| && RunsInto(es[i], id)
    ensures 512 * id in Flatten(es) && 512 * id / 512 == id
  {
    FlattenMember(es, 512 * id);
    assert InExtent(es[i], 512 * id);
  }

  lemma EntryStart(a: nat, x: nat)
    requires a / 512 < x / 512
    ensures a < 512 * (x / 512) <= x
  {
  }

  /** An extent across an entry boundary, as the allocator may return it, leaves the second entry unlogged. */
  lemma CrossingNotLogged(e: Extent)
    requires e.len > 0 && !InOneEntry(e)
    ensures !forall x | x in Flatten([e]) :: x / 512 in EntryIds([e])
  {
    var id := e.lba / 512 + 1;
    EntryStart(e.lba, e.lba + e.len - 1);
    assert RunsInto([e][0], id) && !FirstEntryOfSome([e], id);
    CoveredExactly([e]);
  }
}
