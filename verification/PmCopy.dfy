/** Copying into persistent memory with streaming stores, front to back. */
module PmCopy {
  import opened Bytes

  /** `m` with the bytes `reg` stored at `dest`. */
  function Put(m: seq<Byte>, dest: nat, reg: seq<Byte>): (r: seq<Byte>)
    requires dest + |reg| <= |m|
    ensures |r| == |m|
  {
    seq(|m|, i requires 0 <= i < |m| => if dest <= i < dest + |reg| then reg[i - dest] else m[i])
  }

  /** `len` bytes of `m` copied from `src` to `dest` as if through a buffer. */
  function Moved(m: seq<Byte>, dest: nat, src: nat, len: nat): (r: seq<Byte>)
    requires dest + len <= |m| && src + len <= |m|
    ensures |r| == |m|
  {
    Put(m, dest, m[src..src + len])
  }

  lemma MovedAt(m: seq<Byte>, dest: nat, src: nat, len: nat, i: nat)
    requires dest + len <= |m| && src + len <= |m| && i < |m|
    ensures Moved(m, dest, src, len)[i] == if dest <= i < dest + len then m[src + (i - dest)] else m[i]
  {
  }

  /** The condition under which the forward copy is chosen: in unsigned arithmetic, dest - src >= len. */
  predicate ForwardSafe(dest: nat, src: nat, len: nat) {
    dest < src || src + len <= dest
  }

  lemma ForwardChoice(dest: nat, src: nat, len: nat)
    requires dest < 0x1_0000_0000_0000_0000 && src < 0x1_0000_0000_0000_0000
    requires src + len <= 0x1_0000_0000_0000_0000 && dest + len <= 0x1_0000_0000_0000_0000
    ensures (dest - src) % 0x1_0000_0000_0000_0000 >= len <==> ForwardSafe(dest, src, len)
  {
    if dest < src {
      assert (dest - src) % 0x1_0000_0000_0000_0000 == dest - src + 0x1_0000_0000_0000_0000;
    }
  }

  /** Copying a first chunk and then the rest is copying the whole, even when the ranges overlap. */
  lemma ChunkThenRest(m: seq<Byte>, dest: nat, src: nat, n: nat, len: nat)
    requires dest + len <= |m| && src + len <= |m| && n <= len && ForwardSafe(dest, src, len)
    ensures Moved(Moved(m, dest, src, n), dest + n, src + n, len - n) == Moved(m, dest, src, len)
  {
    var a, b := Moved(Moved(m, dest, src, n), dest + n, src + n, len - n), Moved(m, dest, src, len);
    forall i | 0 <= i < |m| ensures a[i] == b[i] {
      MovedAt(m, dest, src, n, i);
      MovedAt(m, dest, src, len, i);
      MovedAt(Moved(m, dest, src, n), dest + n, src + n, len - n, i);
      if dest + n <= i < dest + len {
        MovedAt(m, dest, src, n, src + (i - dest));
      }
    }
  }

  /** Two pieces that together cover the range, loaded before either is stored. */
  lemma TwoStores(m: seq<Byte>, dest: nat, src: nat, len: nat, n: nat, t: nat)
    requires dest + len <= |m| && src + len <= |m| && n <= len && t <= len <= n + t
    ensures Put(Put(m, dest, m[src..src + n]), dest + len - t, m[src + len - t..src + len]) == Moved(m, dest, src, len)
  {
    var a := Put(m, dest, m[src..src + n]);
    var b := Put(a, dest + len - t, m[src + len - t..src + len]);
    forall i | 0 <= i < |m| ensures b[i] == Moved(m, dest, src, len)[i] {
      MovedAt(m, dest, src, len, i);
      MovedAt(m, dest, src, n, i);
    }
  }

  lemma PutMore(m: seq<Byte>, dest: nat, regs: seq<Byte>, k: nat, n: nat)
    requires k + n <= |regs| && dest + |regs| <= |m|
    ensures Put(Put(m, dest, regs[..k]), dest + k, regs[k..k + n]) == Put(m, dest, regs[..k + n])
  {
    var a, b := Put(Put(m, dest, regs[..k]), dest + k, regs[k..k + n]), Put(m, dest, regs[..k + n]);
    forall i | 0 <= i < |m| ensures a[i] == b[i] {
    }
  }

  lemma LinesAligned(a: nat, n: nat)
    requires a % 64 == 0 && n % 64 == 0
    ensures a % 16 == 0 && n % 16 == 0 && (a + n) % 64 == 0
  {
    var i, j := a / 64, n / 64;
    assert a == 16 * (4 * i) && n == 16 * (4 * j) && a + n == 64 * (i + j);
  }

  // ---------- which bytes are still in the cache ----------

  /** The marks of `n` bytes from `a` set to `v`. */
  function Mark(d: seq<bool>, a: nat, n: nat, v: bool): (r: seq<bool>)
    ensures |r| == |d|
  {
    seq(|d|, i requires 0 <= i < |d| => if a <= i < a + n then v else d[i])
  }

  predicate Clean(d: seq<bool>, a: nat, n: nat) {
    forall i | a <= i < a + n && i < |d| :: !d[i]
  }

  predicate Fewer(d: seq<bool>, was: seq<bool>) {
    |d| == |was| && forall i | 0 <= i < |d| :: d[i] ==> was[i]
  }

  /** No more is cached than at first, and the first `o` bytes of the destination are not. */
  predicate Out(d: seq<bool>, was: seq<bool>, dest: nat, o: nat) {
    Fewer(d, was) && Clean(d, dest, o)
  }

  lemma MarkTwice(d: seq<bool>, a: nat, len: nat, n: nat, t: nat, v: bool)
    requires n <= len && t <= len <= n + t
    ensures Mark(Mark(d, a, n, v), a + len - t, t, v) == Mark(d, a, len, v)
  {
  }

  lemma StreamedOut(d: seq<bool>, was: seq<bool>, dest: nat, o: nat, n: nat)
    requires Out(d, was, dest, o)
    ensures Out(Mark(d, dest + o, n, false), was, dest, o + n)
  {
  }

  lemma FlushedOut(d: seq<bool>, was: seq<bool>, dest: nat, o: nat, n: nat, d': seq<bool>)
    requires Out(d, was, dest, o) && Fewer(d', Mark(d, dest + o, n, true)) && Clean(d', dest + o, n)
    ensures Out(d', was, dest, o + n)
  {
  }

  /** The lines of the range from the first up to `line` have been flushed. */
  predicate FlushedTo(d: seq<bool>, was: seq<bool>, addr: nat, line: nat) {
    Fewer(d, was) && Clean(d, addr, if line < addr then 0 else line - addr)
  }

  lemma FlushLine(d: seq<bool>, was: seq<bool>, addr: nat, line: nat)
    requires FlushedTo(d, was, addr, line) && line + 64 > addr
    ensures FlushedTo(Mark(d, line, 64, false), was, addr, line + 64)
  {
  }

  /** Memory with a cache in front of it: `dirty` marks the addresses whose newest value is still in the cache.
      Address 0 starts a cache line. */
  class Memory {
    const bytes: array<Byte>
    ghost var dirty: seq<bool>

    ghost predicate Valid()
      reads this
    {
      |dirty| == bytes.Length
    }

    constructor (size: nat)
      ensures Valid() && fresh(bytes) && bytes.Length == size && Clean(dirty, 0, size)
    {
      bytes := new Byte[size](_ => 0);
      dirty := seq(size, _ => false);
    }

    method Load(src: nat, n: nat) returns (reg: seq<Byte>)
      requires src + n <= bytes.Length
      ensures reg == bytes[src..src + n]
    {
      reg := bytes[src..src + n];
    }

    /** An ordinary store. */
    method Store(dest: nat, reg: seq<Byte>)
      requires dest + |reg| <= bytes.Length
      modifies this, bytes
      ensures bytes[..] == Put(old(bytes[..]), dest, reg) && dirty == Mark(old(dirty), dest, |reg|, true)
    {
      Overwrite(dest, reg);
      dirty := Mark(dirty, dest, |reg|, true);
    }

    /** A streaming store goes past the cache; a 16-byte one must be aligned. */
    method Stream(dest: nat, reg: seq<Byte>)
      requires dest + |reg| <= bytes.Length && (|reg| == 16 ==> dest % 16 == 0)
      modifies this, bytes
      ensures bytes[..] == Put(old(bytes[..]), dest, reg) && dirty == Mark(old(dirty), dest, |reg|, false)
    {
      Overwrite(dest, reg);
      dirty := Mark(dirty, dest, |reg|, false);
    }

    method Overwrite(dest: nat, reg: seq<Byte>)
      requires dest + |reg| <= bytes.Length
      modifies bytes
      ensures bytes[..] == Put(old(bytes[..]), dest, reg)
    {
      forall i | 0 <= i < |reg| {
        bytes[dest + i] := reg[i];
      }
      ghost var m, m' := old(bytes[..]), bytes[..];
      assert forall i | dest <= i < dest + |reg| :: m'[i] == reg[i - dest];
      assert m' == Put(m, dest, reg);
    }

    /** Flushes every cache line the range touches. */
    method Flush(addr: nat, len: nat)
      modifies this
      ensures Fewer(dirty, old(dirty)) && Clean(dirty, addr, len)
    {
      var line := addr / 64 * 64;
      while line < addr + len
        invariant line + 64 > addr && FlushedTo(dirty, old(dirty), addr, line)
        decreases addr + len - line
      {
        FlushLine(dirty, old(dirty), addr, line);
        dirty := Mark(dirty, line, 64, false);
        line := line + 64;
      }
    }

    /** Loads `n` bytes from the front and `t` from the end, then stores both: the pieces may overlap, since everything
        is loaded first. */
    method FrontAndTail(dest: nat, src: nat, len: nat, n: nat, t: nat)
      requires dest + len <= bytes.Length && src + len <= bytes.Length && n <= len && t <= len <= n + t
      modifies this, bytes
      ensures bytes[..] == Moved(old(bytes[..]), dest, src, len) && dirty == Mark(old(dirty), dest, len, true)
    {
      ghost var m := bytes[..];
      var front := Load(src, n);
      var tail := Load(src + len - t, t);
      TwoStores(m, dest, src, len, n, t);
      MarkTwice(dirty, dest, len, n, t, true);
      Store(dest, front);
      Store(dest + len - t, tail);
    }

    /** Up to 64 bytes, through registers of fixed sizes. With nothing to copy it still copies one byte. */
    method SmallNoFlush(dest: nat, src: nat, len: nat)
      requires len <= 64
      requires var n := if len == 0 then 1 else len; dest + n <= bytes.Length && src + n <= bytes.Length
      modifies this, bytes
      ensures var n := if len == 0 then 1 else len;
              bytes[..] == Moved(old(bytes[..]), dest, src, n) && dirty == Mark(old(dirty), dest, n, true)
    {
      if len <= 8 {
        if len <= 2 {
          var n := if len == 2 then 2 else 1;
          var r := Load(src, n);
          Store(dest, r);
        } else if len > 4 {
          FrontAndTail(dest, src, len, 4, 4);
        } else {
          FrontAndTail(dest, src, len, 2, 2);
        }
      } else if len <= 32 {
        if len > 16 {
          FrontAndTail(dest, src, len, 16, 16);
        } else {
          FrontAndTail(dest, src, len, 8, 8);
        }
      } else {
        FrontAndTail(dest, src, len, if len > 48 then 48 else 32, 16);
      }
    }

    method Small(dest: nat, src: nat, len: nat)
      requires len <= 64
      requires var n := if len == 0 then 1 else len; dest + n <= bytes.Length && src + n <= bytes.Length
      modifies this, bytes
      ensures var n := if len == 0 then 1 else len;
              bytes[..] == Moved(old(bytes[..]), dest, src, n) && Fewer(dirty, Mark(old(dirty), dest, n, true))
      ensures Clean(dirty, dest, len)
    {
      SmallNoFlush(dest, src, len);
      Flush(dest, len);
    }

    /** Loads `n` bytes into registers of 16 and streams them out. */
    method MovNt(dest: nat, src: nat, n: nat)
      requires dest + n <= bytes.Length && src + n <= bytes.Length && n % 16 == 0 && dest % 16 == 0
      modifies this, bytes
      ensures bytes[..] == Moved(old(bytes[..]), dest, src, n) && dirty == Mark(old(dirty), dest, n, false)
    {
      ghost var m := bytes[..];
      var regs := Load(src, n);
      var k := 0;
      assert Put(m, dest, regs[..0]) == m && Mark(dirty, dest, 0, false) == dirty;
      while k < n
        invariant k <= n && k % 16 == 0 && dirty == Mark(old(dirty), dest, k, false)
        invariant bytes[..] == Put(m, dest, regs[..k])
      {
        PutMore(m, dest, regs, k, 16);
        MarkTwice(old(dirty), dest, k + 16, k, 16, false);
        Stream(dest + k, regs[k..k + 16]);
        k := k + 16;
      }
      assert regs[..n] == regs;
    }

    /** A single 8- or 4-byte streaming store. */
    method MovNtWord(dest: nat, src: nat, n: nat)
      requires dest + n <= bytes.Length && src + n <= bytes.Length && n < 16
      modifies this, bytes
      ensures bytes[..] == Moved(old(bytes[..]), dest, src, n) && dirty == Mark(old(dirty), dest, n, false)
    {
      var r := Load(src, n);
      Stream(dest, r);
    }

    /** The first `o` bytes of a copy are in place and out of the cache. `m` and `was` are memory and cache before
        it. */
    ghost predicate Done(m: seq<Byte>, was: seq<bool>, dest: nat, src: nat, o: nat)
      reads this, bytes
    {
      dest + o <= |m| && src + o <= |m| && bytes[..] == Moved(m, dest, src, o) && Out(dirty, was, dest, o)
    }

    /** Streams whole 16-byte units, or one word. */
    method StreamPiece(dest: nat, src: nat, n: nat)
      requires dest + n <= bytes.Length && src + n <= bytes.Length && (n < 16 || (dest % 16 == 0 && n % 16 == 0))
      modifies this, bytes
      ensures bytes[..] == Moved(old(bytes[..]), dest, src, n) && dirty == Mark(old(dirty), dest, n, false)
    {
      if n < 16 {
        MovNtWord(dest, src, n);
      } else {
        MovNt(dest, src, n);
      }
    }

    /** Streams the next `n` bytes. */
    method StreamChunk(dest: nat, src: nat, o: nat, n: nat, ghost m: seq<Byte>, ghost was: seq<bool>)
      requires Done(m, was, dest, src, o) && ForwardSafe(dest, src, o + n)
      requires dest + o + n <= |m| && src + o + n <= |m|
      requires n < 16 || ((dest + o) % 16 == 0 && n % 16 == 0)
      modifies this, bytes
      ensures Done(m, was, dest, src, o + n)
    {
      ChunkThenRest(m, dest, src, o, o + n);
      StreamedOut(dirty, was, dest, o, n);
      StreamPiece(dest + o, src + o, n);
    }

    /** Copies the next `n` bytes through the cache and flushes them. */
    method SmallChunk(dest: nat, src: nat, o: nat, n: nat, ghost m: seq<Byte>, ghost was: seq<bool>)
      requires Done(m, was, dest, src, o) && ForwardSafe(dest, src, o + n)
      requires dest + o + n <= |m| && src + o + n <= |m| && 0 < n <= 64
      modifies this, bytes
      ensures Done(m, was, dest, src, o + n)
    {
      ghost var d := dirty;
      ChunkThenRest(m, dest, src, o, o + n);
      Small(dest + o, src + o, n);
      FlushedOut(d, was, dest, o, n, dirty);
    }

    /** The forward copy: bytes up to a cache line boundary, then whole lines, then the rest. Called with nothing to
        copy and an unaligned destination it copies one byte; otherwise it is a memmove, whatever the overlap, and
        leaves nothing of the destination in the cache. Every 16-byte streaming store is aligned. */
    method ForwardCopy(dest: nat, src: nat, len: nat)
      requires Valid() && ForwardSafe(dest, src, len) && dest + len <= bytes.Length && src + len <= bytes.Length
      requires len == 0 && dest % 64 != 0 ==> dest < bytes.Length && src < bytes.Length
      modifies this, bytes
      ensures bytes[..] == Moved(old(bytes[..]), dest, src, if len == 0 && dest % 64 != 0 then 1 else len)
      ensures Valid() && (len > 0 ==> Fewer(dirty, old(dirty)) && Clean(dirty, dest, len))
    {
      var cnt := dest % 64;
      if cnt > 0 {
        cnt := if 64 - cnt > len then len else 64 - cnt;
        if cnt == 0 {
          Small(dest, src, 0);
          return;
        }
      }
      AlignedCopy(dest, src, cnt, len);
    }

    /** The copy itself, given how many bytes come before the first whole line. */
    method AlignedCopy(dest: nat, src: nat, cnt: nat, len: nat)
      requires ForwardSafe(dest, src, len) && dest + len <= bytes.Length && src + len <= bytes.Length
      requires cnt <= len && cnt < 64 && (cnt == len || (dest + cnt) % 64 == 0)
      modifies this, bytes
      ensures bytes[..] == Moved(old(bytes[..]), dest, src, len) && Out(dirty, old(dirty), dest, len)
    {
      ghost var m, was := bytes[..], dirty;
      assert Moved(m, dest, src, 0) == m;
      if cnt > 0 {
        SmallChunk(dest, src, 0, cnt, m, was);
      }
      Lines(dest, src, cnt, len, m, was);
    }

    /** Whole lines, four at a time, then two, then one, then what is left of the last line. */
    method Lines(dest: nat, src: nat, cnt: nat, len: nat, ghost m: seq<Byte>, ghost was: seq<bool>)
      requires Done(m, was, dest, src, cnt) && ForwardSafe(dest, src, len) && dest + len <= |m| && src + len <= |m|
      requires cnt <= len && (cnt == len || (dest + cnt) % 64 == 0)
      modifies this, bytes
      ensures Done(m, was, dest, src, len)
    {
      var o, rem: nat := cnt, len - cnt;
      while rem >= 256
        invariant o + rem == len && Done(m, was, dest, src, o) && (rem == 0 || (dest + o) % 64 == 0)
      {
        o, rem := WholeLines(dest, src, o, rem, 256, len, m, was);
      }
      if rem >= 128 {
        o, rem := WholeLines(dest, src, o, rem, 128, len, m, was);
      }
      if rem >= 64 {
        o, rem := WholeLines(dest, src, o, rem, 64, len, m, was);
      }
      LastLine(dest, src, o, rem, m, was);
    }

    method WholeLines(dest: nat, src: nat, o: nat, rem: nat, n: nat, len: nat, ghost m: seq<Byte>, ghost was: seq<bool>)
      returns (o': nat, rem': nat)
      requires Done(m, was, dest, src, o) && ForwardSafe(dest, src, len) && dest + len <= |m| && src + len <= |m|
      requires o + rem == len && (dest + o) % 64 == 0 && n % 64 == 0 && n <= rem
      modifies this, bytes
      ensures o' == o + n && rem' == rem - n && Done(m, was, dest, src, o') && (dest + o') % 64 == 0
    {
      LinesAligned(dest + o, n);
      StreamChunk(dest, src, o, n, m, was);
      o', rem' := o + n, rem - n;
    }

    method LastLine(dest: nat, src: nat, o: nat, rem: nat, ghost m: seq<Byte>, ghost was: seq<bool>)
      requires Done(m, was, dest, src, o) && ForwardSafe(dest, src, o + rem)
      requires dest + o + rem <= |m| && src + o + rem <= |m| && rem < 64 && (rem == 0 || (dest + o) % 64 == 0)
      modifies this, bytes
      ensures Done(m, was, dest, src, o + rem)
    {
      if rem == 0 {
        return;
      }
      if rem == 32 || rem == 16 || rem == 8 || rem == 4 {
        StreamChunk(dest, src, o, rem, m, was);
      } else {
        SmallChunk(dest, src, o, rem, m, was);
      }
    }
  }

  /** With nothing to copy the forward copy leaves memory alone exactly when the destination starts a cache line or
      holds the source's byte already. */
  lemma EmptyCopyExactly(m: seq<Byte>, dest: nat, src: nat)
    requires dest < |m| && src < |m|
    ensures Moved(m, dest, src, if dest % 64 != 0 then 1 else 0) == m <==> dest % 64 == 0 || m[dest] == m[src]
  {
    assert Moved(m, dest, src, 0) == m;
    MovedAt(m, dest, src, 1, dest);
    if m[dest] == m[src] {
      assert Moved(m, dest, src, 1) == m;
    }
  }
}
