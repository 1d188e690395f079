/**
  Sixteen-byte blocks as field elements, the byte-wise multiplication loop, and
  the GHASH function of section 6.4 of NIST SP 800-38D.
 */
module Ghash {
  import opened Common
  import opened Gf128

  type Block = s: seq<bv8> | |s| == 16 witness seq(16, _ => 0)

  function ZeroBlock(): Block { seq(16, _ => 0) }

  // ------------------------------------------------------------------
  // Bits of bytes: bit 0 is the most significant
  // ------------------------------------------------------------------

  function Mask(k: nat): bv8
    requires k < 8
  {
    if k == 0 then 0x80 else if k == 1 then 0x40 else if k == 2 then 0x20 else if k == 3 then 0x10
    else if k == 4 then 0x08 else if k == 5 then 0x04 else if k == 6 then 0x02 else 0x01
  }

  predicate Bit(b: bv8, k: nat)
    requires k < 8
  {
    b & Mask(k) != 0
  }

  /** Bit i of a block: the coefficient of x^i. */
  function BitsOf(x: Block): Element
  {
    seq(128, i requires 0 <= i < 128 => Bit(x[i / 8], i % 8))
  }

  lemma BitAt(x: Block, i: nat)
    requires i < 128
    ensures BitsOf(x)[i] == Bit(x[i / 8], i % 8)
  {}

  function XorBlock(x: Block, y: Block): Block
  {
    seq(16, j requires 0 <= j < 16 => x[j] ^ y[j])
  }

  lemma BitOfXor(a: bv8, b: bv8, k: nat)
    requires k < 8
    ensures Bit(a ^ b, k) == (Bit(a, k) != Bit(b, k))
  {
    MaskIsOneBit(k);
    hide Mask;
    XorMask(a, b, Mask(k));
  }

  lemma MaskIsOneBit(k: nat)
    requires k < 8
    ensures Mask(k) & (Mask(k) - 1) == 0
  {}

  lemma XorMask(a: bv8, b: bv8, m: bv8)
    requires m & (m - 1) == 0
    ensures ((a ^ b) & m != 0) == ((a & m != 0) != (b & m != 0))
  {}

  lemma BitByShift(b: bv8, k: nat)
    requires k < 8
    ensures (b >> (7 - k)) & 1 == 1 <==> Bit(b, k)
  {
    if k == 0 { assert ((b >> 7) & 1 == 1) == (b & 0x80 != 0); }
    else if k == 1 { assert ((b >> 6) & 1 == 1) == (b & 0x40 != 0); }
    else if k == 2 { assert ((b >> 5) & 1 == 1) == (b & 0x20 != 0); }
    else if k == 3 { assert ((b >> 4) & 1 == 1) == (b & 0x10 != 0); }
    else if k == 4 { assert ((b >> 3) & 1 == 1) == (b & 0x08 != 0); }
    else if k == 5 { assert ((b >> 2) & 1 == 1) == (b & 0x04 != 0); }
    else if k == 6 { assert ((b >> 1) & 1 == 1) == (b & 0x02 != 0); }
    else { assert ((b >> 0) & 1 == 1) == (b & 0x01 != 0); }
  }

  /** One byte of a right shift across bytes. */
  function ShiftByte(left: bv8, b: bv8): bv8 { (b >> 1) | ((left & 1) << 7) }

  lemma BitOfShift(left: bv8, b: bv8, k: nat)
    requires k < 8
    ensures Bit(ShiftByte(left, b), k) == if k == 0 then Bit(left, 7) else Bit(b, k - 1)
  {}

  lemma BitOfReduction(k: nat)
    requires k < 8
    ensures Bit(0xe1, k) == InReduction(k)
  {}

  /** A byte is determined by its bits, and so is a block. */
  lemma ByteExt(a: bv8, b: bv8)
    requires forall k: nat | k < 8 :: Bit(a, k) == Bit(b, k)
    ensures a == b
  {
    assert Bit(a, 0) == Bit(b, 0) && Bit(a, 1) == Bit(b, 1) && Bit(a, 2) == Bit(b, 2) && Bit(a, 3) == Bit(b, 3);
    assert Bit(a, 4) == Bit(b, 4) && Bit(a, 5) == Bit(b, 5) && Bit(a, 6) == Bit(b, 6) && Bit(a, 7) == Bit(b, 7);
  }

  lemma BlockExt(x: Block, y: Block)
    requires BitsOf(x) == BitsOf(y)
    ensures x == y
  {
    forall j | 0 <= j < 16 ensures x[j] == y[j] {
      forall k: nat | k < 8 ensures Bit(x[j], k) == Bit(y[j], k) {
        assert BitsOf(x)[8 * j + k] == BitsOf(y)[8 * j + k];
      }
      ByteExt(x[j], y[j]);
    }
  }

  lemma XorIsAdd(x: Block, y: Block)
    ensures BitsOf(XorBlock(x, y)) == AddElement(BitsOf(x), BitsOf(y))
  {
    var l, r := BitsOf(XorBlock(x, y)), AddElement(BitsOf(x), BitsOf(y));
    forall i: nat | i < 128 ensures l[i] == r[i] { XorBit(x, y, i); }
  }

  lemma XorBit(x: Block, y: Block, i: nat)
    requires i < 128
    ensures BitsOf(XorBlock(x, y))[i] == AddElement(BitsOf(x), BitsOf(y))[i]
  {
    hide Bit;
    BitOfXor(x[i / 8], y[i / 8], i % 8);
    AddCoef(BitsOf(x), BitsOf(y), i);
  }

  // ------------------------------------------------------------------
  // The multiplication loop
  // ------------------------------------------------------------------

  /** `z[j] ^= v[j]` for every byte. */
  method XorInto(z: array<bv8>, v: seq<bv8>)
    requires z.Length == 16 && |v| == 16
    modifies z
    ensures z[..] == XorBlock(old(z[..]), v)
  {
    for j := 0 to 16
      invariant forall m | 0 <= m < j :: z[m] == old(z[m]) ^ v[m]
      invariant forall m | j <= m < 16 :: z[m] == old(z[m])
    {
      z[j] := z[j] ^ v[j];
    }
  }

  /** `w` is `v` shifted right by one bit with the reduction constant folded in. */
  predicate Shifted(v: Block, w: Block)
  {
    && w[0] == (v[0] >> 1) ^ (if v[15] & 1 == 1 then 0xe1 else 0)
    && forall j | 1 <= j < 16 :: w[j] == ShiftByte(v[j - 1], v[j])
  }

  lemma EdgeBits(first: bv8, last: bv8)
    ensures Bit(last, 7) == (last & 1 == 1)
    ensures first >> 1 == ShiftByte(0, first)
    ensures forall k: nat | k < 8 :: !Bit(0, k)
  {}

  /** Bit k of byte j after the shift. */
  lemma ShiftedByteBit(v: Block, w: Block, j: nat, k: nat)
    requires Shifted(v, w) && j < 16 && k < 8
    ensures Bit(w[j], k) == ((if k > 0 then Bit(v[j], k - 1) else j > 0 && Bit(v[j - 1], 7)) != (Bit(v[15], 7) && j == 0 && InReduction(k)))
  {
    hide Bit, ShiftByte;
    EdgeBits(v[0], v[15]);
    if j > 0 {
      BitOfShift(v[j - 1], v[j], k);
    } else {
      BitOfShift(0, v[0], k);
      BitOfXor(v[0] >> 1, 0xe1, k);
      BitOfXor(v[0] >> 1, 0, k);
      BitOfReduction(k);
    }
  }

  lemma ShiftedBit(v: Block, w: Block, i: nat)
    requires Shifted(v, w) && i < 128
    ensures BitsOf(w)[i] == TimesX(BitsOf(v))[i]
  {
    hide Bit, Shifted;
    ShiftedByteBit(v, w, i / 8, i % 8);
    assert BitsOf(v)[127] == Bit(v[15], 7);
    assert InReduction(i) == (i / 8 == 0 && InReduction(i % 8));
    if i > 0 {
      assert BitsOf(v)[i - 1] == if i % 8 > 0 then Bit(v[i / 8], i % 8 - 1) else Bit(v[i / 8 - 1], 7);
    }
  }

  lemma ShiftedBits(v: Block, w: Block)
    requires Shifted(v, w)
    ensures BitsOf(w) == TimesX(BitsOf(v))
  {
    var l, r := BitsOf(w), TimesX(BitsOf(v));
    forall i: nat | i < 128 ensures l[i] == r[i] { ShiftedBit(v, w, i); }
  }

  /** Multiply the running value by x in place. */
  method ShiftReduce(v: array<bv8>)
    requires v.Length == 16
    modifies v
    ensures BitsOf(v[..]) == TimesX(BitsOf(old(v[..])))
  {
    hide BitsOf, TimesX, ShiftByte;
    var lsb := v[15] & 1;
    ShiftBytes(v);
    v[0] := v[0] >> 1;
    if lsb == 1 {
      v[0] := v[0] ^ 0xe1;
    }
    Unreduced(v[0]);
    ShiftedBits(old(v[..]), v[..]);
  }

  lemma Unreduced(b: bv8)
    ensures b ^ 0 == b
  {
  }

  /** Bytes 15 down to 1, each taking the low bit of the byte before it. */
  method ShiftBytes(v: array<bv8>)
    requires v.Length == 16
    modifies v
    ensures v[0] == old(v[0]) && forall m | 1 <= m < 16 :: v[m] == ShiftByte(old(v[m - 1]), old(v[m]))
  {
    hide ShiftByte;
    for j := 16 downto 1
      invariant forall m | j <= m < 16 :: v[m] == ShiftByte(old(v[m - 1]), old(v[m]))
      invariant forall m | 0 <= m < j :: v[m] == old(v[m])
    {
      v[j] := ShiftByte(v[j - 1], v[j]);
    }
  }

  lemma ZeroBits(z: Block)
    requires forall j | 0 <= j < 16 :: z[j] == 0
    ensures BitsOf(z) == Zero()
  {
  }

  /** The bit-serial loop computes the field product. */
  method Gmul(x: Block, y: Block) returns (r: Block)
    ensures BitsOf(r) == Mul(BitsOf(x), BitsOf(y))
  {
    hide Bit, XorBlock, BitsOf, TimesX, AddElement;
    var z := new bv8[16](_ => 0);
    var v := new bv8[16](j requires 0 <= j < 16 => y[j]);
    assert v[..] == y;
    ZeroBits(z[..]);
    ghost var p, q := BitsOf(x), BitsOf(y);
    for i := 0 to 128
      invariant BitsOf(z[..]) == SumAt(p, q, i)
      invariant BitsOf(v[..]) == PowerAt(q, i)
    {
      var bit := (x[i / 8] >> (7 - i % 8)) & 1;
      BitByShift(x[i / 8], i % 8);
      BitAt(x, i);
      if bit == 1 {
        XorIsAdd(z[..], v[..]);
        XorInto(z, v[..]);
      }
      ShiftReduce(v);
    }
    r := z[..];
  }

  // ------------------------------------------------------------------
  // GHASH
  // ------------------------------------------------------------------

  function ByteOf(b: seq<bool>): bv8
    requires |b| == 8
  {
    (if b[0] then 0x80 else 0) | (if b[1] then 0x40 else 0) | (if b[2] then 0x20 else 0) | (if b[3] then 0x10 else 0)
    | (if b[4] then 0x08 else 0) | (if b[5] then 0x04 else 0) | (if b[6] then 0x02 else 0) | (if b[7] then 0x01 else 0)
  }

  lemma BitOfByteOf(b: seq<bool>, k: nat)
    requires |b| == 8 && k < 8
    ensures Bit(ByteOf(b), k) == b[k]
  {}

  /** The block product: multiplication of GF(2^128) on blocks. */
  function Times(x: Block, y: Block): (r: Block)
    ensures BitsOf(r) == Mul(BitsOf(x), BitsOf(y))
  {
    var m := Mul(BitsOf(x), BitsOf(y));
    BitsOfBlockOf(m);
    BlockOf(m)
  }

  function BlockOf(m: Element): Block
  {
    seq(16, j requires 0 <= j < 16 => ByteOf(m[8 * j..8 * j + 8]))
  }

  lemma BitsOfBlockOf(m: Element)
    ensures BitsOf(BlockOf(m)) == m
  {
    hide Bit, ByteOf;
    forall i: nat | i < 128 ensures BitsOf(BlockOf(m))[i] == m[i] {
      BitOfByteOf(m[8 * (i / 8)..8 * (i / 8) + 8], i % 8);
    }
  }

  /** Fold whole blocks of `data` into `y`: y := (y xor block) * h. */
  function Fold(h: Block, y: Block, data: seq<bv8>): Block
    decreases |data|
  {
    if |data| < 16 then y else Fold(h, Times(XorBlock(y, data[..16]), h), data[16..])
  }

  lemma {:induction false} FoldConcat(h: Block, y: Block, a: seq<bv8>, b: seq<bv8>)
    requires |a| % 16 == 0
    ensures Fold(h, y, a + b) == Fold(h, Fold(h, y, a), b)
    decreases |a|
  {
    hide Times, XorBlock;
    if |a| == 0 {
      assert a + b == b;
    } else {
      assert (a + b)[..16] == a[..16] && (a + b)[16..] == a[16..] + b;
      FoldConcat(h, Times(XorBlock(y, a[..16]), h), a[16..], b);
    }
  }

  /** Zero padding to a whole number of blocks. */
  function Pad(data: seq<bv8>): (r: seq<bv8>)
    ensures |r| % 16 == 0 && |data| <= |r| < |data| + 16 && r[..|data|] == data
  {
    data + seq((16 - |data| % 16) % 16, _ => 0)
  }

  /** One absorbed block: `y[i] ^= block[i]`, then multiply by `h`. */
  method Absorb(h: Block, y: Block, block: Block) returns (r: Block)
    ensures r == Times(XorBlock(y, block), h)
  {
    var t := new bv8[16](j requires 0 <= j < 16 => y[j]);
    assert t[..] == y;
    XorInto(t, block);
    r := Gmul(t[..], h);
    BlockExt(r, Times(XorBlock(y, block), h));
  }

  lemma FoldNothing(h: Block, y: Block, data: seq<bv8>)
    requires |data| == 0
    ensures Fold(h, y, data) == y
  {}

  lemma FoldStep(h: Block, y: Block, data: seq<bv8>, off: nat)
    requires off + 16 <= |data|
    ensures Fold(h, y, data[off..]) == Fold(h, Times(XorBlock(y, data[off..off + 16]), h), data[off + 16..])
  {
    hide Times, XorBlock;
    assert data[off..][..16] == data[off..off + 16];
    assert data[off..][16..] == data[off + 16..];
  }

  /** `ghash` over whole blocks. */
  method HashBlocks(h: Block, data: seq<bv8>) returns (y: Block)
    requires |data| % 16 == 0
    ensures y == Fold(h, ZeroBlock(), data)
  {
    hide Times, XorBlock, Fold, ZeroBlock;
    y := ZeroBlock();
    assert data[0..] == data;
    var off := 0;
    while off < |data|
      invariant off <= |data| && off % 16 == 0
      invariant Fold(h, y, data[off..]) == Fold(h, ZeroBlock(), data)
    {
      FoldStep(h, y, data, off);
      y := Absorb(h, y, data[off..off + 16]);
      off := off + 16;
    }
    FoldNothing(h, y, data[off..]);
  }

  /** The streaming closure: absorb `data`, padding a last partial block with zeros. */
  method Stream(h: Block, y0: Block, data: seq<bv8>) returns (y: Block)
    ensures y == Fold(h, y0, Pad(data))
  {
    hide Times, XorBlock, Fold;
    y := y0;
    var off := 0;
    ghost var pad, pos := Pad(data), 0;
    assert pad[0..] == pad;
    while off < |data|
      invariant off <= |data| && pos <= |pad| && pos % 16 == 0
      invariant if off < |data| then pos == off else pos == |pad|
      invariant Fold(h, y, pad[pos..]) == Fold(h, y0, pad)
    {
      var n := if |data| - off < 16 then |data| - off else 16;
      var block := data[off..off + n] + seq(16 - n, _ => 0);
      BlockOfPad(data, off, block);
      FoldStep(h, y, pad, pos);
      y := Absorb(h, y, block);
      off, pos := off + n, pos + 16;
    }
    FoldNothing(h, y, pad[pos..]);
  }

  lemma BlockOfPad(data: seq<bv8>, off: nat, block: seq<bv8>)
    requires off < |data| && off % 16 == 0
    requires var n := if |data| - off < 16 then |data| - off else 16;
             block == data[off..off + n] + seq(16 - n, _ => 0)
    ensures var pad := Pad(data);
            && off + 16 <= |pad| && pad[off..off + 16] == block
            && (|data| - off <= 16 ==> |pad| == off + 16)
  {
    var pad := Pad(data);
    var n := if |data| - off < 16 then |data| - off else 16;
    assert |pad| % 16 == 0 && off + 16 <= |pad|;
    forall i | 0 <= i < 16 ensures pad[off + i] == block[i] {
      if i < n { assert pad[off + i] == data[off + i] == block[i]; }
      else { assert pad[off + i] == 0 == block[i]; }
    }
  }

  /** 64-bit big-endian. */
  function Be64(n: nat): (r: seq<bv8>)
    ensures |r| == 8
  {
    seq(8, i requires 0 <= i < 8 => (n / Pow256(7 - i) % 256) as bv8)
  }

  function LengthBlock(aad: seq<bv8>, ct: seq<bv8>): Block { Be64(8 * |aad|) + Be64(8 * |ct|) }

  /** The single message GHASH is defined over. */
  function HashInput(aad: seq<bv8>, ct: seq<bv8>): seq<bv8> { Pad(aad) + Pad(ct) + LengthBlock(aad, ct) }

  function HashOf(h: Block, aad: seq<bv8>, ct: seq<bv8>): Block { Fold(h, ZeroBlock(), HashInput(aad, ct)) }

  /** Streaming the pieces through fixed buffers equals hashing the one padded message. */
  method GhashAad(h: Block, aad: seq<bv8>, ct: seq<bv8>) returns (y: Block)
    requires |aad| <= 512 && |ct| <= 4096
    ensures y == HashOf(h, aad, ct)
  {
    hide Fold, Pad, Be64, ZeroBlock, XorBlock, Times, HashOf;
    y := ZeroBlock();
    var aadPad := (|aad| + 15) / 16 * 16;
    var aadBuf := aad + seq(512 - |aad|, _ => 0);
    PadIsBuffer(aad, 512);
    y := Stream(h, y, aadBuf[..aadPad]);
    var ctPad := (|ct| + 15) / 16 * 16;
    var ctBuf := ct + seq(4096 - |ct|, _ => 0);
    PadIsBuffer(ct, 4096);
    y := Stream(h, y, ctBuf[..ctPad]);
    HashInPieces(h, aad, ct);
    y := Absorb(h, y, Be64(8 * |aad|) + Be64(8 * |ct|));
  }

  lemma HashInPieces(h: Block, aad: seq<bv8>, ct: seq<bv8>)
    ensures HashOf(h, aad, ct) == Times(XorBlock(Fold(h, Fold(h, ZeroBlock(), Pad(aad)), Pad(ct)), LengthBlock(aad, ct)), h)
  {
    hide Times, Pad, Be64;
    var a, c, l := Pad(aad), Pad(ct), LengthBlock(aad, ct);
    FoldConcat(h, ZeroBlock(), a + c, l);
    FoldConcat(h, ZeroBlock(), a, c);
    assert l[..16] == l && |l[16..]| == 0;
  }

  lemma RoundUp(n: nat)
    ensures (n + 15) / 16 * 16 == n + (16 - n % 16) % 16
  {
    var q, r := n / 16, n % 16;
    assert n == q * 16 + r;
  }

  lemma PadIsBuffer(data: seq<bv8>, size: nat)
    requires |data| <= size && size % 16 == 0
    ensures var n := (|data| + 15) / 16 * 16;
            n <= size && (data + seq(size - |data|, _ => 0))[..n] == Pad(data) && Pad(Pad(data)) == Pad(data)
  {
    RoundUp(|data|);
    var pad := Pad(data);
    assert pad + [] == pad;
  }
}
