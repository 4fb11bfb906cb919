/** Bytes and the little-endian integers the store keeps in persistent memory and on the wire. */
module Bytes {

  type Byte = b: int | 0 <= b < 256

  /** 256 to the n-th power: the number of values n bytes can hold. */
  function Pow256(n: nat): (p: nat)
    ensures p > 0
  {
    if n == 0 then 1 else 256 * Pow256(n - 1)
  }

  function EncodeLe(v: nat, n: nat): (s: seq<Byte>)
    ensures |s| == n
    decreases n, v
  {
    if n == 0 then [] else [v % 256] + EncodeLe(v / 256, n - 1)
  }

  function DecodeLe(s: seq<Byte>): (v: nat) {
    if s == [] then 0 else s[0] + 256 * DecodeLe(s[1..])
  }

  function Zeros(n: nat): (s: seq<Byte>)
    ensures |s| == n
  {
    seq(n, _ => 0)
  }

  lemma {:induction false} DecodeEncode(v: nat, n: nat)
    requires v < Pow256(n)
    ensures DecodeLe(EncodeLe(v, n)) == v
    decreases n
  {
    if n == 0 {
    } else {
      DecodeEncode(v / 256, n - 1);
      assert EncodeLe(v, n)[1..] == EncodeLe(v / 256, n - 1);
    }
  }

  lemma {:induction false} EncodeDecode(s: seq<Byte>)
    ensures DecodeLe(s) < Pow256(|s|)
    ensures EncodeLe(DecodeLe(s), |s|) == s
  {
    if s == [] {
    } else {
      var rest := DecodeLe(s[1..]);
      EncodeDecode(s[1..]);
      ByteAndRest(s[0], rest);
      assert DecodeLe(s) == s[0] + 256 * rest;
      assert EncodeLe(DecodeLe(s), |s|) == [s[0]] + EncodeLe(rest, |s| - 1);
    }
  }

  lemma ByteAndRest(b: Byte, rest: nat)
    ensures (b + 256 * rest) % 256 == b && (b + 256 * rest) / 256 == rest
  {
  }

  lemma {:induction false} DecodeZeros(n: nat)
    ensures DecodeLe(Zeros(n)) == 0
  {
    if n == 0 {
    } else {
      assert Zeros(n)[1..] == Zeros(n - 1);
      DecodeZeros(n - 1);
    }
  }

  /** The sizes that occur: 4-byte block numbers and 8-byte words. */
  lemma Powers()
    ensures Pow256(1) == 256
    ensures Pow256(2) == 0x1_0000
    ensures Pow256(4) == 0x1_0000_0000
    ensures Pow256(8) == 0x1_0000_0000_0000_0000
  {
    assert Pow256(3) == 256 * Pow256(2);
    assert Pow256(5) == 256 * Pow256(4);
    assert Pow256(6) == 256 * Pow256(5);
    assert Pow256(7) == 256 * Pow256(6);
  }

  /** The 8-byte words of the log and the 4-byte block numbers of the index. */
  lemma Word64(v: nat)
    requires v < 0x1_0000_0000_0000_0000
    ensures DecodeLe(EncodeLe(v, 8)) == v
  {
    Powers();
    DecodeEncode(v, 8);
  }

  lemma Word32(v: nat)
    requires v < 0x1_0000_0000
    ensures DecodeLe(EncodeLe(v, 4)) == v
  {
    Powers();
    DecodeEncode(v, 4);
  }

  /** A number made of two has the bytes of the lower one, then those of the higher one. */
  lemma {:induction false} SplitLe(low: nat, high: nat, a: nat, b: nat)
    requires low < Pow256(a)
    ensures EncodeLe(low + Pow256(a) * high, a + b) == EncodeLe(low, a) + EncodeLe(high, b)
    decreases a, low
  {
    if a == 0 {
      assert low + Pow256(0) * high == high;
    } else {
      var p := Pow256(a - 1) * high;
      LowHigh(low, a, high);
      SplitLe(low / 256, high, a - 1, b);
    }
  }

  /** The two lowest bytes and the rest. */
  lemma SplitTwo(low: nat, high: nat, w: nat, n: nat)
    requires low < 0x1_0000 && n >= 2 && w == low + 0x1_0000 * high
    ensures EncodeLe(w, n) == EncodeLe(low, 2) + EncodeLe(high, n - 2)
  {
    Powers();
    SplitLe(low, high, 2, n - 2);
  }

  lemma FlagBytes(v: nat)
    requires v < 2
    ensures EncodeLe(v, 2) == [v, 0]
  {
    assert EncodeLe(v / 256, 1) == [0];
  }

  lemma LowHigh(low: nat, a: nat, high: nat)
    requires a > 0
    ensures var w := low + Pow256(a) * high;
            w % 256 == low % 256 && w / 256 == low / 256 + Pow256(a - 1) * high
  {
    var p := Pow256(a - 1) * high;
    assert Pow256(a) * high == 256 * p;
  }

  /** A slice of a slice. */
  lemma SubSlice<T>(s: seq<T>, a: nat, b: nat, c: nat, d: nat)
    requires a <= b <= |s| && c <= d <= b - a
    ensures s[a..b][c..d] == s[a + c..a + d]
  {
    var t := s[a..b];
    assert forall i | 0 <= i < b - a :: t[i] == s[a + i];
    assert forall i | 0 <= i < d - c :: t[c..d][i] == s[a + c + i];
    assert |t[c..d]| == |s[a + c..a + d]|;
  }
}
