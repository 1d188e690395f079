/**
  GHASH as NIST SP 800-38D states it in section 6.4: the value at H of the polynomial
  whose coefficients are the blocks of the message.
 */
module GhashPolynomial {
  import opened Gf128
  import opened Ghash

  function Power(h: Element, m: nat): Element { if m == 0 then One() else Mul(Power(h, m - 1), h) }

  /** The first `k` terms of X1 * h^n + X2 * h^(n-1) + ... + Xn * h. */
  function Terms(h: Element, xs: seq<Element>, k: nat): Element
    requires k <= |xs|
  {
    if k == 0 then Zero() else AddElement(Terms(h, xs, k - 1), Mul(xs[k - 1], Power(h, |xs| - (k - 1))))
  }

  function Polynomial(h: Element, xs: seq<Element>): Element { Terms(h, xs, |xs|) }

  /** The message as field elements. */
  function Blocks(data: seq<bv8>): (xs: seq<Element>)
    requires |data| % 16 == 0
    ensures |xs| == |data| / 16
  {
    seq(|data| / 16, i requires 0 <= i < |data| / 16 => BitsOf(data[16 * i..16 * i + 16]))
  }

  /** One block more raises every power by one. */
  lemma {:induction false} TermsRaise(h: Element, xs: seq<Element>, x: Element, k: nat)
    requires k <= |xs|
    ensures Terms(h, xs + [x], k) == Mul(Terms(h, xs, k), h)
  {
    hide Mul, AddElement, Zero;
    if k == 0 {
      MulZero(h);
    } else {
      TermsRaise(h, xs, x, k - 1);
      var m := |xs| - (k - 1);
      assert Power(h, m + 1) == Mul(Power(h, m), h);
      MulAssociates(xs[k - 1], Power(h, m), h);
      MulAdds(Terms(h, xs, k - 1), Mul(xs[k - 1], Power(h, m)), h);
    }
  }

  /** Horner's rule. */
  lemma PolynomialSnoc(h: Element, xs: seq<Element>, x: Element)
    ensures Polynomial(h, xs + [x]) == Mul(AddElement(Polynomial(h, xs), x), h)
  {
    hide Mul, AddElement;
    TermsRaise(h, xs, x, |xs|);
    FirstPower(h);
    MulAdds(Polynomial(h, xs), x, h);
  }

  lemma FirstPower(h: Element)
    ensures Power(h, 1) == h
  {
    hide Mul;
    assert Power(h, 0) == One();
    MulOne(h);
  }

  /** The fold over the blocks is the polynomial's value at H. */
  lemma {:induction false} FoldIsPolynomial(h: Block, data: seq<bv8>)
    requires |data| % 16 == 0
    ensures BitsOf(Fold(h, ZeroBlock(), data)) == Polynomial(BitsOf(h), Blocks(data))
    decreases |data|
  {
    hide Mul, AddElement, BitsOf, Times, XorBlock, Fold, ZeroBlock, Polynomial;
    if data == [] {
      EmptyFold(h);
      assert Blocks(data) == [];
    } else {
      var n := |data| - 16;
      var a, b := data[..n], data[n..];
      assert data == a + b;
      FoldIsPolynomial(h, a);
      FoldConcat(h, ZeroBlock(), a, b);
      FoldOne(h, Fold(h, ZeroBlock(), a), b);
      XorIsAdd(Fold(h, ZeroBlock(), a), b);
      BlocksSnoc(a, b);
      PolynomialSnoc(BitsOf(h), Blocks(a), BitsOf(b));
    }
  }

  lemma EmptyFold(h: Block)
    ensures BitsOf(Fold(h, ZeroBlock(), [])) == Polynomial(BitsOf(h), [])
  {
    ZeroBits(ZeroBlock());
  }

  lemma FoldOne(h: Block, y: Block, b: Block)
    ensures Fold(h, y, b) == Times(XorBlock(y, b), h)
  {
    hide Times, XorBlock;
    assert b[..16] == b && |b[16..]| == 0;
  }

  lemma BlocksSnoc(a: seq<bv8>, b: Block)
    requires |a| % 16 == 0
    ensures Blocks(a + b) == Blocks(a) + [BitsOf(b)]
  {
    hide BitsOf;
    var n := |a| / 16;
    assert |a| == 16 * n && |a + b| / 16 == n + 1;
    forall i | 0 <= i < n ensures Blocks(a + b)[i] == Blocks(a)[i] {
      assert (a + b)[16 * i..16 * i + 16] == a[16 * i..16 * i + 16];
    }
    assert (a + b)[16 * n..16 * n + 16] == b;
  }

  /** The authentication hash of AAD and ciphertext, as the code computes it, is that value for the padded message. */
  method HashIsPolynomial(h: Block, aad: seq<bv8>, ct: seq<bv8>) returns (y: Block)
    requires |aad| <= 512 && |ct| <= 4096
    ensures |HashInput(aad, ct)| % 16 == 0 && BitsOf(y) == Polynomial(BitsOf(h), Blocks(HashInput(aad, ct)))
  {
    hide Fold, Polynomial, Blocks, BitsOf, Pad, Be64;
    y := GhashAad(h, aad, ct);
    FoldIsPolynomial(h, HashInput(aad, ct));
  }
}
