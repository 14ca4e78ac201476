/** Bytes, options and big-endian integers, shared by every other module. */
module Bytes {

  type byte = b: int | 0 <= b < 256

  datatype Option<+T> = None | Some(value: T)

  /** 256^len: one more than the largest integer that `len` bytes can hold. */
  function Pow256(len: nat): (n: nat)
    ensures n > 0
  {
    if len == 0 then 1 else 256 * Pow256(len - 1)
  }

  /** The value of a big-endian byte string (`binary.BigEndian`, `big.Int.SetBytes`). */
  function FromBE(s: seq<byte>): nat {
    if s == [] then 0 else 256 * FromBE(s[..|s| - 1]) + s[|s| - 1]
  }

  /** The low `len` bytes of n, most significant first. */
  function ToBE(n: nat, len: nat): (s: seq<byte>)
    ensures |s| == len
  {
    if len == 0 then [] else ToBE(n / 256, len - 1) + [n % 256]
  }

  lemma {:induction false} FromBEBound(s: seq<byte>)
    ensures FromBE(s) < Pow256(|s|)
  {
    if s != [] {
      FromBEBound(s[..|s| - 1]);
    }
  }

  /** The first byte is the most significant one. */
  lemma {:induction false} FromBEFirst(b: byte, s: seq<byte>)
    ensures FromBE([b] + s) == b * Pow256(|s|) + FromBE(s)
  {
    if s == [] {
      assert [b][..0] == [] && [b] + s == [b];
    } else {
      var init := s[..|s| - 1];
      FromBEFirst(b, init);
      assert ([b] + s)[..|s|] == [b] + init;
    }
  }

  lemma {:induction false} FromToBE(n: nat, len: nat)
    requires n < Pow256(len)
    ensures FromBE(ToBE(n, len)) == n
  {
    if len > 0 {
      FromToBE(n / 256, len - 1);
      assert ToBE(n, len)[..len - 1] == ToBE(n / 256, len - 1);
    }
  }

  lemma {:induction false} ToFromBE(s: seq<byte>)
    ensures ToBE(FromBE(s), |s|) == s
  {
    if s != [] {
      ToFromBE(s[..|s| - 1]);
      assert s == s[..|s| - 1] + [s[|s| - 1]];
    }
  }

  /** The shortest big-endian string of n (`big.Int.Bytes`). */
  function BigBytes(n: nat): seq<byte> {
    if n == 0 then [] else BigBytes(n / 256) + [n % 256]
  }

  function Zeros(n: nat): (s: seq<byte>)
    ensures |s| == n
  {
    seq(n, _ => 0)
  }

  /** Left-padding the shortest string with zeros gives the fixed-width one. */
  lemma {:induction false} PaddedBigBytes(n: nat, len: nat)
    requires n < Pow256(len)
    ensures |BigBytes(n)| <= len
    ensures Zeros(len - |BigBytes(n)|) + BigBytes(n) == ToBE(n, len)
  {
    if n == 0 {
      ZeroBE(len);
    } else {
      PaddedBigBytes(n / 256, len - 1);
    }
  }

  lemma {:induction false} ZeroBE(len: nat)
    ensures ToBE(0, len) == Zeros(len)
  {
    if len > 0 {
      ZeroBE(len - 1);
    }
  }

  lemma Pow256Values()
    ensures Pow256(1) == 0x100 && Pow256(2) == 0x1_0000 && Pow256(4) == 0x1_0000_0000
  {
    assert Pow256(1) == 256 * Pow256(0);
    assert Pow256(2) == 256 * Pow256(1);
    assert Pow256(3) == 256 * Pow256(2);
    assert Pow256(4) == 256 * Pow256(3);
  }
}
