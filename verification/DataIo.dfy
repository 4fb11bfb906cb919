/** The data I/O of a request: one transfer for each extent, each with its part of the client's buffer. */
module DataIo {
  import opened AllocSpec
  import opened StoreModel
  import opened StoreReads

  /** A transfer: the first block on the device, how many, and where in the buffer they are, counted in blocks. */
  datatype Bio = Bio(lba: nat, len: nat, at: nat)

  /** Issues the transfers, moving along the buffer. */
  method IssueBios(extents: seq<Extent>) returns (bios: seq<Bio>)
    ensures |bios| == |extents|
    ensures forall i | 0 <= i < |bios| ::
              bios[i] == Bio(extents[i].lba, extents[i].len, |Flatten(extents[..i])|)
  {
    bios := [];
    var buf := 0;
    for i := 0 to |extents|
      invariant |bios| == i && buf == |Flatten(extents[..i])|
      invariant forall k | 0 <= k < i :: bios[k] == Bio(extents[k].lba, extents[k].len, |Flatten(extents[..k])|)
    {
      bios := bios + [Bio(extents[i].lba, extents[i].len, buf)];
      buf := buf + extents[i].len;
      FlattenPrefix(extents, i);
    }
  }

  /** Transfer `b` moves block `j` of the buffer. */
  predicate Carries(b: Bio, j: nat) {
    b.at <= j < b.at + b.len
  }

  /** Every block of the buffer is moved by exactly one transfer, between its place in the buffer and the device block
      that the index entry logged for it names. */
  lemma {:induction false} CarriedOnce(extents: seq<Extent>, bios: seq<Bio>, j: nat) returns (i: nat)
    requires |bios| == |extents| && j < |Flatten(extents)|
    requires forall i | 0 <= i < |bios| :: bios[i] == Bio(extents[i].lba, extents[i].len, |Flatten(extents[..i])|)
    ensures i < |bios| && Carries(bios[i], j) && bios[i].lba + (j - bios[i].at) == Flatten(extents)[j]
    ensures forall k | 0 <= k < |bios| && k != i :: !Carries(bios[k], j)
  {
    assert extents[..|extents|] == extents;
    i := Holding(extents, j, |extents|);
    FlattenPrefix(extents, i);
    var before := Flatten(extents[..i]);
    assert Flatten(extents)[j] == Flatten(extents[..i + 1])[j] == Blocks(extents[i])[j - |before|];
    forall k | 0 <= k < |bios| && k != i ensures !Carries(bios[k], j) {
      FlattenPrefix(extents, k);
      if k < i {
        FlattenGrows(extents, k + 1, i);
      } else {
        FlattenGrows(extents, i + 1, k);
      }
    }
  }

  /** The extent among the first `n` that holds block `j` of them all. */
  lemma {:induction false} Holding(es: seq<Extent>, j: nat, n: nat) returns (i: nat)
    requires n <= |es| && j < |Flatten(es[..n])|
    ensures i < n && |Flatten(es[..i])| <= j < |Flatten(es[..i + 1])|
    decreases n
  {
    if j < |Flatten(es[..n - 1])| {
      i := Holding(es, j, n - 1);
    } else {
      i := n - 1;
    }
  }

  lemma {:induction false} FlattenGrows(es: seq<Extent>, a: nat, b: nat)
    requires a <= b <= |es|
    ensures |Flatten(es[..a])| <= |Flatten(es[..b])|
    decreases b
  {
    if a < b {
      FlattenGrows(es, a, b - 1);
      FlattenPrefix(es, b - 1);
    }
  }

  /** What a write's transfers put on the device, in whatever order they end, is what the state machine stores: block
      `j` of the data in the block logged for it. */
  lemma {:induction false} TransferStores(s: Store, p: nat, extents: seq<Extent>, bios: seq<Bio>, i: nat, j: nat)
    requires p < |s.txs| && s.txs[p].WriteTx? && s.txs[p].lbas == Flatten(extents) && |bios| == |extents|
    requires |s.txs[p].data| == |s.txs[p].lbas|
    requires forall k | 0 <= k < |bios| :: bios[k] == Bio(extents[k].lba, extents[k].len, |Flatten(extents[..k])|)
    requires i < |bios| && Carries(bios[i], j)
    ensures j < |s.txs[p].lbas| && s.txs[p].lbas[j] == bios[i].lba + (j - bios[i].at)
    ensures j in s.txs[p].pending && s.txs[p].lbas[j] < |s.disk| ==>
              StoreBlock(s, p, j).disk == s.disk[bios[i].lba + (j - bios[i].at) := s.txs[p].data[j]]
  {
    FlattenPrefix(extents, i);
    var before := Flatten(extents[..i]);
    assert Flatten(extents)[j] == Flatten(extents[..i + 1])[j] == Blocks(extents[i])[j - |before|];
  }
}
