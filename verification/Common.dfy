/**
  What several components share: optional values, bytes, little-endian fields and
  the uniqueness of quotient and remainder.
 */
module Common {
  datatype Option<+T> = None | Some(value: T)

  type byte = b: int | 0 <= b < 256
  type u16 = n: int | 0 <= n < 65536
  type u32 = n: int | 0 <= n < U32
  type u64 = n: int | 0 <= n < U64

  const U32 := 0x1_0000_0000
  const U64 := 0x1_0000_0000_0000_0000

  function Min(a: nat, b: nat): nat { if a < b then a else b }

  function Zeros(n: nat): (s: seq<byte>)
    ensures |s| == n
  {
    seq(n, _ => 0)
  }

  // ------------------------------------------------------------------
  // Little-endian integers
  // ------------------------------------------------------------------

  function Le16(n: nat): (s: seq<byte>)
    ensures |s| == 2
  {
    [n % 256, n / 256 % 256]
  }

  function Le32(n: nat): (s: seq<byte>)
    ensures |s| == 4
  {
    Le16(n % 65536) + Le16(n / 65536)
  }

  function Read16(b: seq<byte>, o: nat): (v: nat)
    requires o + 2 <= |b|
    ensures v < 65536
  {
    (b[o] as int) + 256 * (b[o + 1] as int)
  }

  function Read32(b: seq<byte>, o: nat): (v: nat)
    requires o + 4 <= |b|
    ensures v < U32
  {
    Read16(b, o) + 65536 * Read16(b, o + 2)
  }

  lemma Le16Reads(b: seq<byte>, o: nat, n: nat)
    requires o + 2 <= |b| && b[o..o + 2] == Le16(n) && n < 65536
    ensures Read16(b, o) == n
  {
    var s := b[o..o + 2];
    assert b[o] == s[0] && b[o + 1] == s[1];
  }

  lemma Le32Reads(b: seq<byte>, o: nat, n: nat)
    requires o + 4 <= |b| && b[o..o + 4] == Le32(n) && n < U32
    ensures Read32(b, o) == n
  {
    hide Le16, Read16;
    assert b[o..o + 2] == b[o..o + 4][..2] && b[o + 2..o + 4] == b[o..o + 4][2..];
    Le16Reads(b, o, n % 65536);
    Le16Reads(b, o + 2, n / 65536);
  }

  function LeBytes(n: nat, k: nat): (s: seq<byte>)
    ensures |s| == k
  {
    if k == 0 then [] else [n % 256] + LeBytes(n / 256, k - 1)
  }

  function FromLe(s: seq<byte>): nat
  {
    if s == [] then 0 else s[0] + 256 * FromLe(s[1..])
  }

  function Pow256(k: nat): (r: nat)
    ensures r > 0
  {
    if k == 0 then 1 else 256 * Pow256(k - 1)
  }

  lemma {:induction false} FromLeBound(s: seq<byte>)
    ensures FromLe(s) < Pow256(|s|)
  {
    if s != [] { FromLeBound(s[1..]); }
  }

  lemma {:induction false} LeRoundTrip(n: nat, k: nat)
    requires n < Pow256(k)
    ensures FromLe(LeBytes(n, k)) == n
  {
    if k > 0 {
      LeRoundTrip(n / 256, k - 1);
      assert LeBytes(n, k)[1..] == LeBytes(n / 256, k - 1);
    }
  }

  lemma Pow256Of8()
    ensures Pow256(8) == U64
  {
    assert Pow256(4) == U32;
  }

  function Le64(n: u64): (s: seq<byte>)
    ensures |s| == 8
  {
    LeBytes(n, 8)
  }

  function FromLe64(s: seq<byte>): u64
    requires |s| == 8
  {
    FromLeBound(s);
    Pow256Of8();
    FromLe(s)
  }

  lemma Le64RoundTrip(n: u64)
    ensures FromLe64(Le64(n)) == n
  {
    Pow256Of8();
    LeRoundTrip(n, 8);
  }

  // ------------------------------------------------------------------
  // Filling a buffer
  // ------------------------------------------------------------------

  /** `buf[at..at + n].copy_from_slice(data)`; returns the next position. */
  method CopyInto(buf: array<byte>, at: nat, data: seq<byte>) returns (next: nat)
    requires at + |data| <= buf.Length
    modifies buf
    ensures next == at + |data|
    ensures buf[..next] == old(buf[..at]) + data && buf[next..] == old(buf[next..])
    ensures forall k | next <= k < buf.Length :: buf[k] == old(buf[k])
  {
    for i := 0 to |data|
      invariant buf[..at + i] == old(buf[..at]) + data[..i]
      invariant forall k | at + i <= k < buf.Length :: buf[k] == old(buf[k])
    {
      buf[at + i] := data[i];
    }
    next := at + |data|;
  }

  // ------------------------------------------------------------------
  // Quotient and remainder
  // ------------------------------------------------------------------

  lemma {:induction false} ProductGap(b: nat, p: nat, q: nat)
    requires q < p
    ensures p * b >= q * b + b
  {
    assert p * b == (p - 1) * b + b;
    if q < p - 1 { ProductGap(b, p - 1, q); }
  }

  lemma DigitUnique(b: nat, p: nat, s: nat, q: nat, r: nat)
    requires s < b && r < b && p * b + s == q * b + r
    ensures p == q && s == r
  {
    if p > q { ProductGap(b, p, q); }
    if q > p { ProductGap(b, q, p); }
  }
}
