/** Persistent memory under power failure.

    A store issued with `sync` set is durable on return; without it, each aligned 8-byte word may reach
    the medium at any later moment up to the next drain. A program's effect on the memory is recorded as
    a list of operations, and a crash may happen between any two of them or inside a store. */
module PmDevice {
  import opened Bytes

  datatype PmOp = Store(ofst: nat, bytes: seq<Byte>) | Drain

  predicate Fits(op: PmOp, size: nat) {
    op.Store? ==> op.ofst + |op.bytes| <= size
  }

  predicate AllFit(ops: seq<PmOp>, size: nat) {
    forall i | 0 <= i < |ops| :: Fits(ops[i], size)
  }

  function Put(pm: seq<Byte>, ofst: nat, bytes: seq<Byte>): (r: seq<Byte>)
    requires ofst + |bytes| <= |pm|
    ensures |r| == |pm|
  {
    pm[..ofst] + bytes + pm[ofst + |bytes|..]
  }

  function Step(pm: seq<Byte>, op: PmOp): (r: seq<Byte>)
    requires Fits(op, |pm|)
    ensures |r| == |pm|
  {
    match op
    case Store(ofst, bytes) => Put(pm, ofst, bytes)
    case Drain => pm
  }

  /** What a reader of the memory sees after the first `k` operations. */
  function At(pm: seq<Byte>, ops: seq<PmOp>, k: nat): (r: seq<Byte>)
    requires k <= |ops| && AllFit(ops, |pm|)
    ensures |r| == |pm|
  {
    if k == 0 then pm else Step(At(pm, ops, k - 1), ops[k - 1])
  }

  /** The number of operations up to and including the last drain among the first `n`. */
  function LastDrain(ops: seq<PmOp>, n: nat): (d: nat)
    requires n <= |ops|
    ensures d <= n
  {
    if n == 0 then 0 else if ops[n - 1].Drain? then n else LastDrain(ops, n - 1)
  }

  predicate SameWord(a: seq<Byte>, b: seq<Byte>, w: nat)
    requires |a| == |b|
  {
    forall i | 8 * w <= i < 8 * w + 8 && i < |a| :: a[i] == b[i]
  }

  ghost predicate WordAt(pm: seq<Byte>, ops: seq<PmOp>, k: nat, img: seq<Byte>, w: nat) {
    k <= |ops| && AllFit(ops, |pm|) && |img| == |pm| && SameWord(img, At(pm, ops, k), w)
  }

  /** Word `w` of `img` holds what it held after some operation no older than the last drain. */
  ghost predicate WordFrom(pm: seq<Byte>, ops: seq<PmOp>, n: nat, img: seq<Byte>, w: nat)
    requires n <= |ops|
  {
    exists k: nat :: LastDrain(ops, n) <= k <= n && WordAt(pm, ops, k, img, w)
  }

  /** `img` may be found on the medium when power fails after `n` operations were issued. */
  ghost predicate CrashImage(pm: seq<Byte>, ops: seq<PmOp>, n: nat, img: seq<Byte>)
    requires n <= |ops| && AllFit(ops, |pm|)
  {
    && |img| == |pm|
    && forall w: nat | 8 * w < |pm| :: WordFrom(pm, ops, n, img, w)
  }

  lemma CrashWord(pm: seq<Byte>, ops: seq<PmOp>, n: nat, img: seq<Byte>, w: nat) returns (k: nat)
    requires n <= |ops| && AllFit(ops, |pm|) && CrashImage(pm, ops, n, img) && 8 * w < |pm|
    ensures LastDrain(ops, n) <= k <= n && SameWord(img, At(pm, ops, k), w)
  {
    assert WordFrom(pm, ops, n, img, w);
    k :| LastDrain(ops, n) <= k <= n && WordAt(pm, ops, k, img, w);
  }

  lemma CrashByte(pm: seq<Byte>, ops: seq<PmOp>, n: nat, img: seq<Byte>, a: nat) returns (k: nat)
    requires n <= |ops| && AllFit(ops, |pm|) && CrashImage(pm, ops, n, img)
    requires a < |pm|
    ensures LastDrain(ops, n) <= k <= n
    ensures SameWord(img, At(pm, ops, k), a / 8) && img[a] == At(pm, ops, k)[a]
  {
    k := CrashWord(pm, ops, n, img, a / 8);
  }

  lemma {:induction false} AtConcat(pm: seq<Byte>, a: seq<PmOp>, b: seq<PmOp>, k: nat)
    requires k <= |b| && AllFit(a, |pm|) && AllFit(b, |pm|)
    ensures AllFit(a + b, |pm|)
    ensures At(pm, a + b, |a| + k) == At(At(pm, a, |a|), b, k)
    decreases k
  {
    if k == 0 {
      AtPrefix(pm, a, b, |a|);
    } else {
      AtConcat(pm, a, b, k - 1);
      assert (a + b)[|a| + k - 1] == b[k - 1];
    }
  }

  lemma {:induction false} AtPrefix(pm: seq<Byte>, a: seq<PmOp>, b: seq<PmOp>, k: nat)
    requires k <= |a| && AllFit(a, |pm|) && AllFit(b, |pm|)
    ensures AllFit(a + b, |pm|)
    ensures At(pm, a + b, k) == At(pm, a, k)
    decreases k
  {
    if k > 0 {
      AtPrefix(pm, a, b, k - 1);
      assert (a + b)[k - 1] == a[k - 1];
    }
  }

  lemma {:induction false} AtSnoc(pm: seq<Byte>, ops: seq<PmOp>, op: PmOp)
    requires AllFit(ops, |pm|) && Fits(op, |pm|)
    ensures AllFit(ops + [op], |pm|)
    ensures At(pm, ops + [op], |ops| + 1) == Step(At(pm, ops, |ops|), op)
  {
    AtPrefix(pm, ops, [op], |ops|);
    assert (ops + [op])[|ops|] == op;
  }

  lemma AtParts(pm: seq<Byte>, a: seq<PmOp>, b: seq<PmOp>, c: seq<PmOp>, n: nat)
    requires n <= |a| + |b| + |c| && AllFit(a, |pm|) && AllFit(b, |pm|) && AllFit(c, |pm|)
    ensures AllFit(a + b + c, |pm|)
    ensures n <= |a| ==> At(pm, a + b + c, n) == At(pm, a, n)
    ensures |a| <= n <= |a| + |b| ==> At(pm, a + b + c, n) == At(At(pm, a, |a|), b, n - |a|)
    ensures |a| + |b| <= n ==> At(pm, a + b + c, n) == At(At(At(pm, a, |a|), b, |b|), c, n - |a| - |b|)
  {
    assert AllFit(a + b, |pm|) && AllFit(a + b + c, |pm|);
    AtConcat(pm, a, b, |b|);
    if n <= |a| {
      AtPrefix(pm, a, b, n);
    }
    if |a| <= n <= |a| + |b| {
      AtConcat(pm, a, b, n - |a|);
    }
    if n <= |a| + |b| {
      AtPrefix(pm, a + b, c, n);
    }
    if |a| + |b| <= n {
      AtConcat(pm, a + b, c, n - |a| - |b|);
    }
  }

  lemma {:induction false} LastDrainConcat(a: seq<PmOp>, b: seq<PmOp>, n: nat)
    requires n <= |b|
    ensures LastDrain(a + b, |a| + n) == if LastDrain(b, n) > 0 then |a| + LastDrain(b, n) else LastDrain(a, |a|)
    decreases n
  {
    if n == 0 {
      LastDrainPrefix(a, b, |a|);
    } else {
      assert (a + b)[|a| + n - 1] == b[n - 1];
      if !b[n - 1].Drain? {
        LastDrainConcat(a, b, n - 1);
      }
    }
  }

  lemma {:induction false} LastDrainPrefix(a: seq<PmOp>, b: seq<PmOp>, n: nat)
    requires n <= |a|
    ensures LastDrain(a + b, n) == LastDrain(a, n)
    decreases n
  {
    if n > 0 {
      assert (a + b)[n - 1] == a[n - 1];
      LastDrainPrefix(a, b, n - 1);
    }
  }

  lemma {:induction false} WordAtShift(pm: seq<Byte>, a: seq<PmOp>, b: seq<PmOp>, k: nat, img: seq<Byte>, w: nat)
    requires k <= |b| && AllFit(a, |pm|) && AllFit(b, |pm|)
    requires WordAt(pm, a + b, |a| + k, img, w)
    ensures WordAt(At(pm, a, |a|), b, k, img, w)
  {
    AtConcat(pm, a, b, k);
  }

  /** Once a drain has happened in `b`, a crash forgets how `a` was persisted. */
  lemma {:induction false} CrashAfterDrain(pm: seq<Byte>, a: seq<PmOp>, b: seq<PmOp>, n: nat, img: seq<Byte>)
    requires n <= |b| && AllFit(a, |pm|) && AllFit(b, |pm|) && AllFit(a + b, |pm|)
    requires LastDrain(b, n) > 0 && CrashImage(pm, a + b, |a| + n, img)
    ensures CrashImage(At(pm, a, |a|), b, n, img)
  {
    LastDrainConcat(a, b, n);
    forall w: nat | 8 * w < |pm| ensures WordFrom(At(pm, a, |a|), b, n, img, w) {
      assert WordFrom(pm, a + b, |a| + n, img, w);
      var k: nat :| LastDrain(a + b, |a| + n) <= k <= |a| + n && WordAt(pm, a + b, k, img, w);
      var j: nat := k - |a|;
      WordAtShift(pm, a, b, j, img, w);
    }
  }

  /** The bytes of one store, seen through a list of stores: the last one that covers an address wins. */
  predicate Covers(op: PmOp, a: nat) {
    op.Store? && op.ofst <= a < op.ofst + |op.bytes|
  }

  predicate Touched(ops: seq<PmOp>, a: nat) {
    exists i :: 0 <= i < |ops| && Covers(ops[i], a)
  }

  lemma {:induction false} Untouched(pm: seq<Byte>, ops: seq<PmOp>, k: nat, a: nat)
    requires k <= |ops| && AllFit(ops, |pm|) && a < |pm|
    requires forall i | 0 <= i < k :: !Covers(ops[i], a)
    ensures At(pm, ops, k)[a] == pm[a]
    decreases k
  {
    if k > 0 {
      Untouched(pm, ops, k - 1, a);
      assert !Covers(ops[k - 1], a);
    }
  }

  /** Addresses some store covers end up the same whatever the memory held before; the others keep what it held. */
  lemma {:induction false} ReplayByte(pm: seq<Byte>, pm': seq<Byte>, ops: seq<PmOp>, k: nat, a: nat)
    requires |pm| == |pm'| && k <= |ops| && AllFit(ops, |pm|) && a < |pm|
    requires (exists i :: 0 <= i < k && Covers(ops[i], a)) || pm[a] == pm'[a]
    ensures At(pm, ops, k)[a] == At(pm', ops, k)[a]
    decreases k
  {
    if k > 0 && !Covers(ops[k - 1], a) {
      ReplayByte(pm, pm', ops, k - 1, a);
    }
  }
}
