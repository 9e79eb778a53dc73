/** Fixed-width unsigned integers and their little-endian byte encoding,
    as used by the ELF64 headers and the handoff record on x86-64. */
module Words {

  type byte = x: int | 0 <= x < 0x100
  type u16 = x: int | 0 <= x < 0x1_0000
  type u32 = x: int | 0 <= x < 0x1_0000_0000
  type u64 = x: int | 0 <= x < 0x1_0000_0000_0000_0000

  /** 256 to the power n: one more than the largest n-byte unsigned value. */
  function Pow256(n: nat): (r: nat)
    ensures r > 0
  {
    if n == 0 then 1 else 256 * Pow256(n - 1)
  }

  lemma Pow256Widths()
    ensures Pow256(1) == 0x100
    ensures Pow256(2) == 0x1_0000
    ensures Pow256(4) == 0x1_0000_0000
    ensures Pow256(8) == 0x1_0000_0000_0000_0000
  {
    assert Pow256(2) == 256 * Pow256(1);
    assert Pow256(4) == 256 * (256 * Pow256(2));
    assert Pow256(8) == 256 * (256 * (256 * (256 * Pow256(4))));
  }

  /** The unsigned value of a little-endian byte string (byte 0 least significant). */
  function LE(s: seq<byte>): (v: nat)
    ensures v < Pow256(|s|)
    decreases |s|
  {
    if |s| == 0 then 0 else s[0] + 256 * LE(s[1..])
  }

  /** The n-byte little-endian encoding of v. */
  function ToLE(v: nat, n: nat): (s: seq<byte>)
    requires v < Pow256(n)
    ensures |s| == n
  {
    if n == 0 then [] else [v % 256] + ToLE(v / 256, n - 1)
  }

  /** Decoding an encoded value gives the value back. */
  lemma {:induction false} LEOfToLE(v: nat, n: nat)
    requires v < Pow256(n)
    ensures LE(ToLE(v, n)) == v
  {
    if n > 0 {
      LEOfToLE(v / 256, n - 1);
      assert ToLE(v, n)[1..] == ToLE(v / 256, n - 1);
    }
  }

  /** Encoding a decoded byte string gives the bytes back: the encoding is a bijection. */
  lemma {:induction false} ToLEOfLE(s: seq<byte>)
    ensures ToLE(LE(s), |s|) == s
  {
    if |s| > 0 {
      ToLEOfLE(s[1..]);
      assert LE(s) % 256 == s[0];
      assert LE(s) / 256 == LE(s[1..]);
    }
  }

  /** If q + f is a prefix of b, then q is a prefix of b and f follows it. */
  lemma Peel(b: seq<byte>, q: seq<byte>, f: seq<byte>)
    requires |q| + |f| <= |b| && b[..|q| + |f|] == q + f
    ensures b[..|q|] == q && b[|q|..|q| + |f|] == f
  {
    assert b[..|q|] == b[..|q| + |f|][..|q|];
    assert b[|q|..|q| + |f|] == b[..|q| + |f|][|q|..];
  }

  /** Adjacent slices join into one. */
  lemma Join(b: seq<byte>, i: nat, j: nat, k: nat)
    requires i <= j <= k <= |b|
    ensures b[i..k] == b[i..j] + b[j..k]
  {
  }
}
