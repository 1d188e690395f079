/**
  AES-GCM with a 12-byte nonce and a 16-byte tag: sections 6.2, 6.5, 7.1 and 7.2
  of NIST SP 800-38D. The block cipher under the caller's key is a parameter.
 */
module Gcm {
  import opened Common
  import opened Ghash

  type Cipher = Block -> Block
  type Nonce = s: seq<bv8> | |s| == 12 witness seq(12, _ => 0)

  // ------------------------------------------------------------------
  // Counter blocks
  // ------------------------------------------------------------------

  function Int(b: bv8): (n: nat)
    ensures n < 256
  {
    b as int
  }

  /** The byte counted up to from zero. */
  function SmallByte(m: nat): bv8
    requires m < 256
  {
    if m == 0 then 0 else SmallByte(m - 1) + 1
  }

  function ByteOfInt(n: nat): bv8 { SmallByte(n % 256) }

  lemma {:induction false} SmallRoundTrip(m: nat)
    requires m < 256
    ensures Int(SmallByte(m)) == m
  {
    hide Int;
    if m == 0 {
      BumpByte(0);
    } else {
      SmallRoundTrip(m - 1);
      BumpByte(SmallByte(m - 1));
    }
  }

  lemma ByteRoundTrip(n: nat)
    ensures Int(ByteOfInt(n)) == n % 256
  {
    hide Int, SmallByte;
    SmallRoundTrip(n % 256);
  }

  lemma IntInjective(a: bv8, b: bv8)
    requires Int(a) == Int(b)
    ensures a == b
  {
    assert a == (a as int) as bv8;
  }

  /** Wrapping addition of one to a byte. */
  lemma BumpByte(b: bv8)
    ensures Int(b + 1) == (if Int(b) == 255 then 0 else Int(b) + 1)
    ensures b == 0 <==> Int(b) == 0
  {
    if b == 255 { assert b + 1 == 0; } else { assert (b + 1) as int == b as int + 1; }
  }

  /** The last four bytes of a block as a big-endian number. */
  function Low32(c: seq<bv8>): nat
    requires |c| == 16
  {
    Number(Int(c[12]), Int(c[13]), Int(c[14]), Int(c[15]))
  }

  function Number(a: nat, b: nat, c: nat, d: nat): nat { ((a * 256 + b) * 256 + c) * 256 + d }

  lemma NumberUnique(a: nat, b: nat, c: nat, d: nat, a': nat, b': nat, c': nat, d': nat)
    requires a < 256 && b < 256 && c < 256 && d < 256 && a' < 256 && b' < 256 && c' < 256 && d' < 256
    requires Number(a, b, c, d) == Number(a', b', c', d')
    ensures a == a' && b == b' && c == c' && d == d'
  {
    DigitUnique(256, (a * 256 + b) * 256 + c, d, (a' * 256 + b') * 256 + c', d');
    DigitUnique(256, a * 256 + b, c, a' * 256 + b', c');
    DigitUnique(256, a, b, a', b');
  }

  /** Nonce followed by the 32-bit big-endian counter `n`. */
  function Counter(iv: Nonce, n: nat): Block
  {
    iv + [ByteOfInt(n / 0x100_0000), ByteOfInt(n / 0x1_0000), ByteOfInt(n / 0x100), ByteOfInt(n)]
  }

  lemma Low32OfCounter(iv: Nonce, n: nat)
    ensures Low32(Counter(iv, n)) == n % U32 && Counter(iv, n)[..12] == iv
  {
    hide Int, ByteOfInt, Number;
    ByteRoundTrip(n); ByteRoundTrip(n / 0x100); ByteRoundTrip(n / 0x1_0000); ByteRoundTrip(n / 0x100_0000);
    NumberOfDigits(n);
  }

  lemma NumberOfDigits(n: nat)
    ensures Number(n / 0x100_0000 % 256, n / 0x1_0000 % 256, n / 0x100 % 256, n % 256) == n % U32
  {
    var a := n / 256;
    var b := a / 256;
    var c := b / 256;
    assert n / 0x1_0000 == b && n / 0x100_0000 == c;
    assert n == c / 256 * U32 + Number(c % 256, b % 256, a % 256, n % 256);
  }

  /** A block is fixed by its nonce and its counter. */
  lemma Low32Unique(x: Block, y: Block)
    requires x[..12] == y[..12] && Low32(x) == Low32(y)
    ensures x == y
  {
    hide Int, Number;
    NumberUnique(Int(x[12]), Int(x[13]), Int(x[14]), Int(x[15]), Int(y[12]), Int(y[13]), Int(y[14]), Int(y[15]));
    IntInjective(x[12], y[12]); IntInjective(x[13], y[13]); IntInjective(x[14], y[14]); IntInjective(x[15], y[15]);
    assert x == x[..12] + [x[12], x[13], x[14], x[15]];
    assert y == y[..12] + [y[12], y[13], y[14], y[15]];
  }

  /** The counter blocks of one message never repeat, and none is the tag's block J0. */
  lemma CountersDistinct(iv: Nonce, i: nat, j: nat)
    requires i < j < U32 - 1
    ensures Counter(iv, i + 2) != Counter(iv, j + 2) && Counter(iv, i + 2) != Counter(iv, 1) && Counter(iv, j + 2) != Counter(iv, 1)
  {
    hide Counter, Low32;
    Low32OfCounter(iv, i + 2);
    Low32OfCounter(iv, j + 2);
    Low32OfCounter(iv, 1);
  }

  lemma NumberAddOne(a: nat, b: nat, c: nat, d: nat)
    requires a < 256 && b < 256 && c < 256 && d < 256
    ensures var n := Number(a, b, c, d);
            (n + 1) % U32 == if d < 255 then Number(a, b, c, d + 1) else if c < 255 then Number(a, b, c + 1, 0)
              else if b < 255 then Number(a, b + 1, 0, 0) else if a < 255 then Number(a + 1, 0, 0, 0) else Number(0, 0, 0, 0)
  {
    assert Number(a, b, c, d) < U32;
  }

  /** The effect of a carry that stopped at byte `i`, or ran off the top. */
  lemma CarryAdds(c: seq<bv8>, d: seq<bv8>, i: nat, carry: bool)
    requires |c| == 16 && |d| == 16 && 12 <= i <= 16 && (carry ==> i == 12) && (!carry ==> i < 16)
    requires forall m | 12 <= m < i :: d[m] == c[m]
    requires forall m | (if carry then i else i + 1) <= m < 16 :: Int(d[m]) == 0 && Int(c[m]) == 255
    requires !carry ==> Int(d[i]) == Int(c[i]) + 1
    ensures Low32(d) == (Low32(c) + 1) % U32
  {
    hide Int, Number;
    NumberAddOne(Int(c[12]), Int(c[13]), Int(c[14]), Int(c[15]));
  }

  /** `inc32`: add one to the counter modulo 2^32, leave the nonce alone. */
  method Inc32(c: array<bv8>)
    requires c.Length == 16
    modifies c
    ensures c[..12] == old(c[..12]) && Low32(c[..]) == (old(Low32(c[..])) + 1) % U32
  {
    hide Int, Low32;
    var i := 16;
    var carry := true;
    while i > 12 && carry
      invariant 12 <= i <= 16
      invariant forall m | 0 <= m < i :: c[m] == old(c[m])
      invariant carry ==> forall m | i <= m < 16 :: Int(c[m]) == 0 && Int(old(c[m])) == 255
      invariant !carry ==> i < 16 && Int(c[i]) == Int(old(c[i])) + 1
      invariant !carry ==> forall m | i < m < 16 :: Int(c[m]) == 0 && Int(old(c[m])) == 255
    {
      i := i - 1;
      BumpByte(c[i]);
      c[i] := c[i] + 1;
      BumpByte(c[i]);
      if c[i] != 0 { carry := false; }
    }
    CarryAdds(old(c[..]), c[..], i, carry);
  }

  // ------------------------------------------------------------------
  // Counter mode
  // ------------------------------------------------------------------

  /** Byte k is masked with the cipher of counter block k / 16 + 2. */
  function Crypt(e: Cipher, iv: Nonce, data: seq<bv8>): (s: seq<bv8>)
    ensures |s| == |data|
  {
    seq(|data|, k requires 0 <= k < |data| => data[k] ^ e(Counter(iv, k / 16 + 2))[k % 16])
  }

  lemma CryptTwice(e: Cipher, iv: Nonce, data: seq<bv8>)
    ensures Crypt(e, iv, Crypt(e, iv, data)) == data
  {
    hide Counter;
    var once := Crypt(e, iv, data);
    forall k | 0 <= k < |data| ensures Crypt(e, iv, once)[k] == data[k] {
      XorTwice(data[k], e(Counter(iv, k / 16 + 2))[k % 16]);
    }
  }

  lemma XorTwice(a: bv8, b: bv8)
    ensures (a ^ b) ^ b == a
  {}

  lemma CryptAt(e: Cipher, iv: Nonce, data: seq<bv8>, i: nat, j: nat)
    requires j < 16 && i * 16 + j < |data|
    ensures Crypt(e, iv, data)[i * 16 + j] == data[i * 16 + j] ^ e(Counter(iv, i + 2))[j]
  {
    hide Counter;
    assert (i * 16 + j) / 16 == i && (i * 16 + j) % 16 == j;
  }

  /** Block `i` of the data, masked. */
  function MaskedChunk(chunk: seq<bv8>, keystream: Block): (s: seq<bv8>)
    requires |chunk| <= 16
    ensures |s| == |chunk|
  {
    seq(|chunk|, j requires 0 <= j < |chunk| => chunk[j] ^ keystream[j])
  }

  lemma CryptChunk(e: Cipher, iv: Nonce, data: seq<bv8>, i: nat, off: nat, n: nat)
    requires off == i * 16 && n <= 16 && off + n <= |data|
    ensures Crypt(e, iv, data)[..off + n] == Crypt(e, iv, data)[..off] + MaskedChunk(data[off..off + n], e(Counter(iv, i + 2)))
  {
    hide Counter, Crypt;
    var c, m := Crypt(e, iv, data), MaskedChunk(data[off..off + n], e(Counter(iv, i + 2)));
    forall j | 0 <= j < n ensures c[off..off + n][j] == m[j] { CryptAt(e, iv, data, i, j); }
    assert c[..off + n] == c[..off] + c[off..off + n];
  }

  /** The loop shared by sealing and opening: `counter` starts at 2 and is incremented per block. */
  method CounterMode(e: Cipher, iv: Nonce, data: seq<bv8>, out: array<bv8>)
    requires out.Length >= |data|
    modifies out
    ensures out[..|data|] == Crypt(e, iv, data) && out[|data|..] == old(out[|data|..])
  {
    hide Counter, Low32, Crypt, MaskedChunk;
    var counter := FirstCounter(iv);
    var i, off := 0, 0;
    while off < |data|
      invariant off <= |data| && (off < |data| ==> off == i * 16)
      invariant counter.Length == 16 && fresh(counter)
      invariant counter[..] == Counter(iv, if i == 0 then 2 else i + 1)
      invariant out[..off] == Crypt(e, iv, data)[..off]
      invariant out[|data|..] == old(out[|data|..])
    {
      NextCounter(counter, iv, i);
      var n := if |data| - off < 16 then |data| - off else 16;
      CryptChunk(e, iv, data, i, off, n);
      MaskChunk(out, data[off..off + n], e(counter[..]), off);
      i, off := i + 1, off + n;
    }
    assert Crypt(e, iv, data)[..|data|] == Crypt(e, iv, data);
  }

  /** The counter for block `i`: incremented before every block but the first. */
  method NextCounter(counter: array<bv8>, iv: Nonce, i: nat)
    requires counter.Length == 16 && counter[..] == Counter(iv, if i == 0 then 2 else i + 1)
    modifies counter
    ensures counter[..] == Counter(iv, i + 2)
  {
    hide Counter, Low32;
    if i > 0 {
      ghost var was := counter[..];
      Inc32(counter);
      CounterStep(was, counter[..], iv, i);
    }
  }

  lemma CounterStep(c: Block, d: Block, iv: Nonce, i: nat)
    requires c == Counter(iv, i + 1) && d[..12] == c[..12] && Low32(d) == (Low32(c) + 1) % U32
    ensures d == Counter(iv, i + 2)
  {
    hide Counter, Low32;
    Low32OfCounter(iv, i + 1);
    Low32OfCounter(iv, i + 2);
    Successor(i + 1);
    Low32Unique(d, Counter(iv, i + 2));
  }

  lemma Successor(n: nat)
    ensures (n % U32 + 1) % U32 == (n + 1) % U32
  {
  }

  method FirstCounter(iv: Nonce) returns (counter: array<bv8>)
    ensures fresh(counter) && counter.Length == 16 && counter[..] == Counter(iv, 2)
  {
    counter := new bv8[16](j requires 0 <= j < 16 => if j < 12 then iv[j] else if j == 15 then 2 else 0);
    assert counter[..] == iv + [0, 0, 0, 2];
  }

  /** `out[off + j] = chunk[j] ^ keystream[j]`. */
  method MaskChunk(out: array<bv8>, chunk: seq<bv8>, keystream: Block, off: nat)
    requires |chunk| <= 16 && off + |chunk| <= out.Length
    modifies out
    ensures out[..off + |chunk|] == old(out[..off]) + MaskedChunk(chunk, keystream)
    ensures forall k | off + |chunk| <= k < out.Length :: out[k] == old(out[k])
  {
    for j := 0 to |chunk|
      invariant forall k | 0 <= k < out.Length :: out[k] == if off <= k < off + j then chunk[k - off] ^ keystream[k - off] else old(out[k])
    {
      out[off + j] := chunk[j] ^ keystream[j];
    }
  }

  // ------------------------------------------------------------------
  // Seal and open
  // ------------------------------------------------------------------

  /** E(K, J0) xor GHASH(H, AAD, C). */
  function Tag(e: Cipher, iv: Nonce, aad: seq<bv8>, ct: seq<bv8>): Block
  {
    XorBlock(e(Counter(iv, 1)), HashOf(e(ZeroBlock()), aad, ct))
  }

  method ComputeTag(e: Cipher, iv: Nonce, aad: seq<bv8>, ct: seq<bv8>) returns (t: Block)
    requires |aad| <= 512 && |ct| <= 4096
    ensures t == Tag(e, iv, aad, ct)
  {
    var j0 := iv + [0, 0, 0, 1];
    assert j0 == Counter(iv, 1);
    var g := GhashAad(e(ZeroBlock()), aad, ct);
    t := XorBlock(e(j0), g);
  }

  method Seal(e: Cipher, iv: Nonce, aad: seq<bv8>, pt: seq<bv8>, out: array<bv8>, tag: array<bv8>)
    requires |aad| <= 512 && |pt| <= 4096 && out.Length >= |pt| && tag.Length == 16 && tag != out
    modifies out, tag
    ensures out[..|pt|] == Crypt(e, iv, pt) && out[|pt|..] == old(out[|pt|..])
    ensures tag[..] == Tag(e, iv, aad, Crypt(e, iv, pt))
  {
    CounterMode(e, iv, pt, out);
    var t := ComputeTag(e, iv, aad, out[..|pt|]);
    forall i | 0 <= i < 16 { tag[i] := t[i]; }
  }

  /** Accepts exactly the right tag; a rejected message writes nothing. */
  method Open(e: Cipher, iv: Nonce, aad: seq<bv8>, ct: seq<bv8>, tagIn: Block, out: array<bv8>) returns (ok: bool)
    requires |aad| <= 512 && |ct| <= 4096 && out.Length >= |ct|
    modifies out
    ensures ok <==> tagIn == Tag(e, iv, aad, ct)
    ensures ok ==> out[..|ct|] == Crypt(e, iv, ct) && out[|ct|..] == old(out[|ct|..])
    ensures !ok ==> out[..] == old(out[..])
  {
    var t := ComputeTag(e, iv, aad, ct);
    ok := t == tagIn;
    if ok {
      CounterMode(e, iv, ct, out);
    }
  }

  /** Opening what was sealed succeeds and returns the plaintext, for every key, nonce and message. */
  method SealThenOpen(e: Cipher, iv: Nonce, aad: seq<bv8>, pt: seq<bv8>) returns (ok: bool, back: seq<bv8>)
    requires |aad| <= 512 && |pt| <= 4096
    ensures ok && back == pt
  {
    var ct, tag, out := new bv8[|pt|], new bv8[16], new bv8[|pt|];
    Seal(e, iv, aad, pt, ct, tag);
    assert ct[..|pt|] == ct[..];
    ok := Open(e, iv, aad, ct[..], tag[..], out);
    CryptTwice(e, iv, pt);
    assert out[..|pt|] == out[..];
    back := out[..];
  }
}
