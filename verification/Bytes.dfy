/** Bytes, big-endian integers, and what it means for a byte string to stand at an offset of a buffer. */
module Bytes {

  type byte = x: int | 0 <= x < 256
  type bytes = seq<byte>

  /** A value that may be absent. */
  datatype Option<+T> = None | Some(value: T)

  function Pow256(n: nat): (p: nat)
    ensures p >= 1
  {
    if n == 0 then 1 else 256 * Pow256(n - 1)
  }

  /** The low `8 * width` bits of `v`, most significant byte first. A C cast to a
      `width`-byte unsigned type before the write is the truncation done here. */
  function BE(width: nat, v: nat): (s: bytes)
    ensures |s| == width
  {
    if width == 0 then [] else BE(width - 1, v / 256) + [v % 256]
  }

  function FromBE(s: bytes): nat {
    if s == [] then 0 else FromBE(s[..|s| - 1]) * 256 + s[|s| - 1]
  }

  lemma {:induction false} FromBEInvertsBE(width: nat, v: nat)
    requires v < Pow256(width)
    ensures FromBE(BE(width, v)) == v
  {
    if width > 0 {
      FromBEInvertsBE(width - 1, v / 256);
      var s := BE(width, v);
      assert s[..|s| - 1] == BE(width - 1, v / 256);
    }
  }

  lemma {:induction false} BEInvertsFromBE(s: bytes)
    ensures FromBE(s) < Pow256(|s|)
    ensures BE(|s|, FromBE(s)) == s
  {
    if s != [] {
      var front := s[..|s| - 1];
      BEInvertsFromBE(front);
      assert FromBE(s) / 256 == FromBE(front) && FromBE(s) % 256 == s[|s| - 1];
      assert s == front + [s[|s| - 1]];
    }
  }

  lemma Pow256Values()
    ensures Pow256(1) == 0x100 && Pow256(2) == 0x1_0000
    ensures Pow256(4) == 0x1_0000_0000 && Pow256(8) == 0x1_0000_0000_0000_0000
  {
    assert Pow256(3) == 256 * Pow256(2);
    assert Pow256(5) == 256 * Pow256(4);
    assert Pow256(6) == 256 * Pow256(5);
    assert Pow256(7) == 256 * Pow256(6);
  }

  /** `b` stands at offset `off` of the buffer `s`. */
  predicate At(s: bytes, off: nat, b: bytes) {
    off + |b| <= |s| && s[off..off + |b|] == b
  }

  lemma AtConcat(s: bytes, off: nat, a: bytes, b: bytes)
    ensures At(s, off, a + b) <==> At(s, off, a) && At(s, off + |a|, b)
  {
    var n := |a + b|;
    if off + n <= |s| {
      var w := s[off..off + n];
      assert w == s[off..off + |a|] + s[off + |a|..off + n];
      assert w[..|a|] == s[off..off + |a|] && w[|a|..] == s[off + |a|..off + n];
      assert (a + b)[..|a|] == a && (a + b)[|a|..] == b;
    }
  }

  /** The bounded read: the integer at `off`, when it lies inside the buffer. */
  function ReadBE(s: bytes, off: nat, width: nat): Option<nat> {
    if off + width <= |s| then Some(FromBE(s[off..off + width])) else None
  }

  lemma ReadBack(s: bytes, off: nat, width: nat, v: nat)
    requires At(s, off, BE(width, v)) && v < Pow256(width)
    ensures ReadBE(s, off, width) == Some(v)
  {
    FromBEInvertsBE(width, v);
  }

  /** `b` overwrites the bytes of `s` from `off` on. */
  function Overwrite(s: bytes, off: nat, b: bytes): (t: bytes)
    requires off + |b| <= |s|
    ensures |t| == |s| && At(t, off, b)
    ensures forall i :: 0 <= i < |s| && !(off <= i < off + |b|) ==> t[i] == s[i]
  {
    s[..off] + b + s[off + |b|..]
  }

  lemma OverwriteTwice(s: bytes, off: nat, a: bytes, b: bytes)
    requires off + |a| + |b| <= |s|
    ensures Overwrite(Overwrite(s, off, a), off + |a|, b) == Overwrite(s, off, a + b)
  {
    var t := Overwrite(Overwrite(s, off, a), off + |a|, b);
    var u := Overwrite(s, off, a + b);
    forall i | 0 <= i < |s| ensures t[i] == u[i] { }
    assert t == u;
  }

  lemma ConcatAssoc<T>(a: seq<T>, b: seq<T>, c: seq<T>)
    ensures a + (b + c) == a + b + c
  {
  }
}
