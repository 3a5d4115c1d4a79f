/** Bytes, fixed-width unsigned integers and their in-memory layout. */
module Wire {

  type byte = b: int | 0 <= b < 0x100
  type u16 = x: int | 0 <= x < 0x1_0000
  type u32 = x: int | 0 <= x < 0x1_0000_0000
  type u64 = x: int | 0 <= x < 0x1_0000_0000_0000_0000

  lemma AppendAssoc(a: seq<byte>, b: seq<byte>, c: seq<byte>)
    ensures a + b + c == a + (b + c)
  {
  }

  lemma AppendAssoc4(a: seq<byte>, b: seq<byte>, c: seq<byte>, d: seq<byte>)
    ensures a + b + c + d == a + (b + c + d)
  {
  }

  /** 256 to the power n: the number of distinct n-byte values. */
  function Pow256(n: nat): (p: nat)
    ensures p > 0
  {
    if n == 0 then 1 else 0x100 * Pow256(n - 1)
  }

  lemma PowWidths()
    ensures Pow256(1) == 0x100 && Pow256(2) == 0x1_0000
    ensures Pow256(4) == 0x1_0000_0000 && Pow256(8) == 0x1_0000_0000_0000_0000
  {
  }

  /** The host's memory image of the n-byte unsigned integer v.
      The checkpoint format copies this image verbatim; the model fixes
      least-significant-byte-first as the host layout, and everything
      outside this module relies only on ValueOfBytes and BytesOfValue,
      that is, on the layout being a bijection. */
  function HostBytes(v: nat, n: nat): (r: seq<byte>)
    requires v < Pow256(n)
    ensures |r| == n
  {
    if n == 0 then [] else [v % 0x100] + HostBytes(v / 0x100, n - 1)
  }

  /** The unsigned integer whose host memory image is s. */
  function HostValue(s: seq<byte>): (v: nat)
    ensures v < Pow256(|s|)
  {
    if s == [] then 0 else s[0] + 0x100 * HostValue(s[1..])
  }

  lemma {:induction false} ValueOfBytes(v: nat, n: nat)
    requires v < Pow256(n)
    ensures HostValue(HostBytes(v, n)) == v
  {
    if n > 0 {
      ValueOfBytes(v / 0x100, n - 1);
      assert HostBytes(v, n)[1..] == HostBytes(v / 0x100, n - 1);
    }
  }

  lemma {:induction false} BytesOfValue(s: seq<byte>)
    ensures HostBytes(HostValue(s), |s|) == s
  {
    if s != [] {
      BytesOfValue(s[1..]);
      assert HostValue(s) / 0x100 == HostValue(s[1..]);
    }
  }
}
