// Positional byte encodings: the one meaning every codec in the program shares.
module Bytes {
  import opened Bits

  function Pow256(n: nat): (p: nat)
    ensures p > 0
  {
    if n == 0 then 1 else 0x100 * Pow256(n - 1)
  }

  lemma Powers256()
    ensures Pow256(1) == 0x100 && Pow256(2) == 0x1_0000 && Pow256(4) == M32 && Pow256(8) == M64
  {
    assert Pow256(3) == 0x100_0000 && Pow256(4) == M32;
    assert Pow256(5) == 0x100 * M32 && Pow256(6) == 0x1_0000 * M32 && Pow256(7) == 0x100_0000 * M32;
  }

  /** The n low-order bytes of v, most significant first. */
  function BeBytes(v: nat, n: nat): (s: seq<u8>)
    ensures |s| == n
  {
    if n == 0 then [] else BeBytes(v / 0x100, n - 1) + [v % 0x100]
  }

  function BeValue(s: seq<u8>): nat {
    if s == [] then 0 else BeValue(s[..|s| - 1]) * 0x100 + s[|s| - 1]
  }

  lemma {:induction false} BeValueBound(s: seq<u8>)
    ensures BeValue(s) < Pow256(|s|)
  {
    if s != [] {
      BeValueBound(s[..|s| - 1]);
    }
  }

  lemma {:induction false} BeValueOfBytes(v: nat, n: nat)
    requires v < Pow256(n)
    ensures BeValue(BeBytes(v, n)) == v
  {
    if n > 0 {
      BeValueOfBytes(v / 0x100, n - 1);
      assert BeBytes(v, n)[..n - 1] == BeBytes(v / 0x100, n - 1);
    }
  }

  lemma {:induction false} BeBytesOfValue(s: seq<u8>)
    ensures BeBytes(BeValue(s), |s|) == s
  {
    if s != [] {
      BeBytesOfValue(s[..|s| - 1]);
      assert BeValue(s) / 0x100 == BeValue(s[..|s| - 1]) && BeValue(s) % 0x100 == s[|s| - 1];
    }
  }

  function Reverse(s: seq<u8>): (r: seq<u8>)
    ensures |r| == |s|
    ensures forall i {:trigger r[i]} :: 0 <= i < |s| ==> r[i] == s[|s| - 1 - i]
  {
    seq(|s|, i requires 0 <= i < |s| => s[|s| - 1 - i])
  }

  /** An n-byte unsigned field in the given byte order. */
  function ToBytes(big: bool, v: nat, n: nat): (s: seq<u8>)
    ensures |s| == n
  {
    if big then BeBytes(v, n) else Reverse(BeBytes(v, n))
  }

  function FromBytes(big: bool, s: seq<u8>): nat {
    if big then BeValue(s) else BeValue(Reverse(s))
  }

  lemma FromBytesBound(big: bool, s: seq<u8>)
    ensures FromBytes(big, s) < Pow256(|s|)
  {
    BeValueBound(s);
    BeValueBound(Reverse(s));
  }

  lemma FromToBytes(big: bool, v: nat, n: nat)
    requires v < Pow256(n)
    ensures FromBytes(big, ToBytes(big, v, n)) == v
  {
    BeValueOfBytes(v, n);
    assert Reverse(Reverse(BeBytes(v, n))) == BeBytes(v, n);
  }

  lemma ToFromBytes(big: bool, s: seq<u8>)
    ensures ToBytes(big, FromBytes(big, s), |s|) == s
  {
    BeBytesOfValue(s);
    BeBytesOfValue(Reverse(s));
    assert Reverse(Reverse(s)) == s;
  }

  lemma {:induction false} BeValue4(s: seq<u8>)
    requires |s| == 4
    ensures BeValue(s) == s[0] as int * 0x100_0000 + s[1] as int * 0x1_0000 + s[2] as int * 0x100 + s[3] as int
  {
    var s3, s2, s1 := s[..3], s[..2], s[..1];
    assert s3[..2] == s2 && s2[..1] == s1 && s1[..0] == [];
    assert BeValue(s1) == s[0] && BeValue(s2) == BeValue(s1) * 0x100 + s[1];
    assert BeValue(s3) == BeValue(s2) * 0x100 + s[2];
  }

  lemma {:induction false} BeBytes4(v: u32)
    ensures BeBytes(v, 4) == [v / 0x100_0000, v / 0x1_0000 % 0x100, v / 0x100 % 0x100, v % 0x100]
  {
    assert BeBytes(v, 4) == BeBytes(v / 0x100, 3) + [v % 0x100];
    var v1 := v / 0x100;
    assert BeBytes(v1, 3) == BeBytes(v1 / 0x100, 2) + [v1 % 0x100];
    var v2 := v1 / 0x100;
    assert BeBytes(v2, 2) == BeBytes(v2 / 0x100, 1) + [v2 % 0x100];
    var v3 := v2 / 0x100;
    assert BeBytes(v3, 1) == BeBytes(v3 / 0x100, 0) + [v3 % 0x100] == [v3];
    assert v2 == v / 0x1_0000 && v3 == v / 0x100_0000;
  }
}
