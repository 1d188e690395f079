/**
  Multiplication in GF(2^128) as section 6.3 of NIST SP 800-38D defines it, the
  bit-serial loop that computes it, and the loop's byte representation.
 */
module Gf128 {

  // ------------------------------------------------------------------
  // Polynomials over GF(2): index k is the coefficient of x^k
  // ------------------------------------------------------------------

  type Element = p: seq<bool> | |p| == 128 witness seq(128, _ => false)

  function Coef(p: seq<bool>, k: int): bool { 0 <= k < |p| && p[k] }

  function Max(a: nat, b: nat): nat { if a < b then b else a }

  function Add(p: seq<bool>, q: seq<bool>): seq<bool>
  {
    seq(Max(|p|, |q|), k => Coef(p, k) != Coef(q, k))
  }

  function AddElement(p: Element, q: Element): Element { Add(p, q) }

  function Zero(): Element { seq(128, _ => false) }
  function One(): Element { seq(128, k => k == 0) }

  /** Coefficient k of the product of `q` and the modulus x^128 + x^7 + x^2 + x + 1. */
  function ModulusTimes(q: seq<bool>, k: int): bool
  {
    ((((Coef(q, k) != Coef(q, k - 1)) != Coef(q, k - 2)) != Coef(q, k - 7)) != Coef(q, k - 128))
  }

  /** The parity of the first `n` terms x_i * y_(k-i) of a product coefficient. */
  function ProductSum(x: seq<bool>, y: seq<bool>, k: int, n: nat): bool
  {
    n > 0 && (ProductSum(x, y, k, n - 1) != (Coef(x, n - 1) && Coef(y, k - (n - 1))))
  }

  /** Coefficient k of the product of two elements. */
  function ProductCoef(x: Element, y: Element, k: int): bool { ProductSum(x, y, k, 128) }

  /** `r` is what is left of the product x * y modulo the modulus, with quotient `q`. */
  ghost predicate Divides(x: Element, y: Element, r: Element, q: seq<bool>)
  {
    forall k: nat :: ProductCoef(x, y, k) == (Coef(r, k) != ModulusTimes(q, k))
  }

  ghost predicate IsProduct(x: Element, y: Element, r: Element)
  {
    exists q: seq<bool> :: Divides(x, y, r, q)
  }

  // ------------------------------------------------------------------
  // The remainder is unique
  // ------------------------------------------------------------------

  lemma ModulusTimesAdds(p: seq<bool>, q: seq<bool>, k: int)
    ensures ModulusTimes(Add(p, q), k) == (ModulusTimes(p, k) != ModulusTimes(q, k))
  {
    AddCoef(p, q, k); AddCoef(p, q, k - 1); AddCoef(p, q, k - 2); AddCoef(p, q, k - 7); AddCoef(p, q, k - 128);
  }

  lemma AddCoef(p: seq<bool>, q: seq<bool>, k: int)
    ensures Coef(Add(p, q), k) == (Coef(p, k) != Coef(q, k))
  {}

  /** A multiple of the modulus with no coefficient from x^128 on has quotient zero. */
  lemma {:induction false} SmallMultipleIsZero(q: seq<bool>, n: nat)
    requires forall k: nat | k >= 128 :: !ModulusTimes(q, k)
    requires forall k: nat | k >= n :: !Coef(q, k)
    ensures forall k: nat :: !Coef(q, k)
  {
    if n > 0 {
      var d := n - 1;
      assert !ModulusTimes(q, d + 128);
      assert !Coef(q, d + 128) && !Coef(q, d + 127) && !Coef(q, d + 126) && !Coef(q, d + 121);
      SmallMultipleIsZero(q, d);
    }
  }

  lemma RemainderUnique(x: Element, y: Element, r: Element, q: seq<bool>, r': Element, q': seq<bool>)
    requires Divides(x, y, r, q) && Divides(x, y, r', q')
    ensures r == r'
  {
    var d := Add(q, q');
    forall k: nat ensures ModulusTimes(d, k) == (Coef(r, k) != Coef(r', k)) {
      ModulusTimesAdds(q, q', k);
      assert ProductCoef(x, y, k) == (Coef(r, k) != ModulusTimes(q, k));
      assert ProductCoef(x, y, k) == (Coef(r', k) != ModulusTimes(q', k));
    }
    assert forall k: nat | k >= 128 :: !ModulusTimes(d, k);
    SmallMultipleIsZero(d, |d|);
    forall k: nat | k < 128 ensures r[k] == r'[k] {
      assert !ModulusTimes(d, k);
      assert Coef(r, k) == Coef(r', k);
    }
  }

  // ------------------------------------------------------------------
  // The bit-serial algorithm on bits
  // ------------------------------------------------------------------

  /** The reduction constant 0xe1 in the first byte: bits 0, 1, 2 and 7. */
  predicate InReduction(k: int) { k == 0 || k == 1 || k == 2 || k == 7 }

  /** Shift right by one bit position; fold the bit shifted out back in. */
  function TimesX(v: Element): Element
  {
    seq(128, k => Coef(v, k - 1) != (v[127] && InReduction(k)))
  }

  lemma TimesXCoef(v: Element, k: int)
    ensures Coef(TimesX(v), k) == ((k < 128 && Coef(v, k - 1)) != (v[127] && InReduction(k)))
  {}

  /** The running value `v` after `i` iterations. */
  function PowerAt(y: Element, i: nat): Element
  {
    if i == 0 then y else TimesX(PowerAt(y, i - 1))
  }

  /** The running sum `z` after `i` iterations. */
  function SumAt(x: Element, y: Element, i: nat): Element
    requires i <= 128
  {
    if i == 0 then Zero()
    else if x[i - 1] then AddElement(SumAt(x, y, i - 1), PowerAt(y, i - 1))
    else SumAt(x, y, i - 1)
  }

  function Mul(x: Element, y: Element): Element { SumAt(x, y, 128) }

  /** Quotients by which the two running values differ from x^i * y and its partial sums. */
  ghost function PowerQuotient(y: Element, i: nat): seq<bool>
  {
    if i == 0 then [] else [PowerAt(y, i - 1)[127]] + PowerQuotient(y, i - 1)
  }

  ghost function SumQuotient(x: Element, y: Element, i: nat): seq<bool>
    requires i <= 128
  {
    if i == 0 then []
    else if x[i - 1] then Add(SumQuotient(x, y, i - 1), PowerQuotient(y, i - 1))
    else SumQuotient(x, y, i - 1)
  }

  lemma ShiftQuotient(b: bool, q: seq<bool>, k: int)
    ensures ModulusTimes([b] + q, k) == (ModulusTimes(q, k - 1) != (b && (InReduction(k) || k == 128)))
  {
    CoefCons(b, q, k); CoefCons(b, q, k - 1); CoefCons(b, q, k - 2); CoefCons(b, q, k - 7); CoefCons(b, q, k - 128);
  }

  lemma CoefCons(b: bool, q: seq<bool>, k: int)
    ensures Coef([b] + q, k) == if k == 0 then b else Coef(q, k - 1)
  {}

  /** After `i` iterations, x^i * y == v + (quotient * modulus). */
  lemma {:induction false} PowerIsShift(y: Element, i: nat, k: nat)
    ensures Coef(y, k - i) == (Coef(PowerAt(y, i), k) != ModulusTimes(PowerQuotient(y, i), k))
  {
    if i > 0 {
      var v, q := PowerAt(y, i - 1), PowerQuotient(y, i - 1);
      ShiftQuotient(v[127], q, k);
      TimesXCoef(v, k);
      if k > 0 { PowerIsShift(y, i - 1, k - 1); }
      assert k - i == (k - 1) - (i - 1);
    }
  }

  lemma {:induction false} SumIsPartialProduct(x: Element, y: Element, i: nat, k: nat)
    requires i <= 128
    ensures ProductSum(x, y, k, i) == (Coef(SumAt(x, y, i), k) != ModulusTimes(SumQuotient(x, y, i), k))
  {
    if i > 0 {
      SumIsPartialProduct(x, y, i - 1, k);
      PowerIsShift(y, i - 1, k);
      ModulusTimesAdds(SumQuotient(x, y, i - 1), PowerQuotient(y, i - 1), k);
      AddCoef(SumAt(x, y, i - 1), PowerAt(y, i - 1), k);
    }
  }

  /** The algorithm computes the polynomial product modulo the modulus. */
  lemma MulIsProduct(x: Element, y: Element)
    ensures IsProduct(x, y, Mul(x, y))
  {
    forall k: nat ensures ProductCoef(x, y, k) == (Coef(Mul(x, y), k) != ModulusTimes(SumQuotient(x, y, 128), k)) {
      SumIsPartialProduct(x, y, 128, k);
    }
    assert Divides(x, y, Mul(x, y), SumQuotient(x, y, 128));
  }

  /** And nothing else is: `Mul` is the product in the field, whatever computes it. */
  lemma MulUnique(x: Element, y: Element, r: Element)
    ensures IsProduct(x, y, r) <==> r == Mul(x, y)
  {
    MulIsProduct(x, y);
    if IsProduct(x, y, r) {
      var q :| Divides(x, y, r, q);
      var q' :| Divides(x, y, Mul(x, y), q');
      RemainderUnique(x, y, r, q, Mul(x, y), q');
    }
  }

  // ------------------------------------------------------------------
  // Field laws, from the reference definition
  // ------------------------------------------------------------------

  /** A product sum read backwards. */
  lemma {:induction false} SumReversed(x: seq<bool>, y: seq<bool>, k: nat, n: nat)
    requires n <= k + 1
    ensures ProductSum(x, y, k, k + 1) == (ProductSum(x, y, k, k + 1 - n) != ProductSum(y, x, k, n))
  {
    if n > 0 {
      SumReversed(x, y, k, n - 1);
      var m := k + 1 - n;
      assert ProductSum(x, y, k, m + 1) == (ProductSum(x, y, k, m) != (Coef(x, m) && Coef(y, k - m)));
      assert k - m == n - 1;
    }
  }

  /** Terms with an index past both the degree and the coefficient vanish. */
  lemma {:induction false} SumStops(x: seq<bool>, y: seq<bool>, k: int, m: nat, n: nat)
    requires m <= n && forall i: nat | m <= i < n :: !(Coef(x, i) && Coef(y, k - i))
    ensures ProductSum(x, y, k, n) == ProductSum(x, y, k, m)
  {
    if m < n {
      assert !(Coef(x, n - 1) && Coef(y, k - (n - 1)));
      SumStops(x, y, k, m, n - 1);
    }
  }

  lemma ProductCommutes(x: Element, y: Element, k: nat)
    ensures ProductCoef(x, y, k) == ProductCoef(y, x, k)
  {
    SumToDegree(x, y, k);
    SumToDegree(y, x, k);
    SumReversed(x, y, k, k + 1);
  }

  lemma SumToDegree(x: Element, y: Element, k: nat)
    ensures ProductCoef(x, y, k) == ProductSum(x, y, k, k + 1)
  {
    if k + 1 <= 128 { SumStops(x, y, k, k + 1, 128); } else { SumStops(x, y, k, 128, k + 1); }
  }

  lemma MulCommutes(x: Element, y: Element)
    ensures Mul(x, y) == Mul(y, x)
  {
    MulIsProduct(x, y);
    var q :| Divides(x, y, Mul(x, y), q);
    forall k: nat ensures ProductCoef(y, x, k) == (Coef(Mul(x, y), k) != ModulusTimes(q, k)) {
      ProductCommutes(x, y, k);
    }
    assert Divides(y, x, Mul(x, y), q);
    MulUnique(y, x, Mul(x, y));
  }

  lemma {:induction false} ProductSumAdds(x: Element, x': Element, y: Element, k: int, n: nat)
    ensures ProductSum(AddElement(x, x'), y, k, n) == (ProductSum(x, y, k, n) != ProductSum(x', y, k, n))
  {
    if n > 0 {
      ProductSumAdds(x, x', y, k, n - 1);
      AddCoef(x, x', n - 1);
    }
  }

  /** Multiplication distributes over addition. */
  lemma MulAdds(x: Element, x': Element, y: Element)
    ensures Mul(AddElement(x, x'), y) == AddElement(Mul(x, y), Mul(x', y))
  {
    MulIsProduct(x, y);
    MulIsProduct(x', y);
    var q :| Divides(x, y, Mul(x, y), q);
    var q' :| Divides(x', y, Mul(x', y), q');
    var s, r := AddElement(x, x'), AddElement(Mul(x, y), Mul(x', y));
    forall k: nat ensures ProductCoef(s, y, k) == (Coef(r, k) != ModulusTimes(Add(q, q'), k)) {
      ProductSumAdds(x, x', y, k, 128);
      ModulusTimesAdds(q, q', k);
      AddCoef(Mul(x, y), Mul(x', y), k);
    }
    assert Divides(s, y, r, Add(q, q'));
    MulUnique(s, y, r);
  }

  /** The block with only its first bit set is the unit. */
  lemma MulOne(y: Element)
    ensures Mul(One(), y) == y
  {
    forall k: nat ensures ProductCoef(One(), y, k) == (Coef(y, k) != ModulusTimes([], k)) {
      SumStops(One(), y, k, 1, 128);
      assert ProductSum(One(), y, k, 1) == Coef(y, k);
    }
    assert Divides(One(), y, y, []);
    MulUnique(One(), y, y);
  }

  lemma MulAddsRight(x: Element, y: Element, y': Element)
    ensures Mul(x, AddElement(y, y')) == AddElement(Mul(x, y), Mul(x, y'))
  {
    hide Mul, AddElement;
    MulAdds(y, y', x);
    MulCommutes(x, AddElement(y, y'));
    MulCommutes(x, y);
    MulCommutes(x, y');
  }

  lemma AddSelf(x: Element)
    ensures AddElement(x, x) == Zero() && AddElement(Zero(), x) == x
  {
    forall k: nat | k < 128 ensures AddElement(x, x)[k] == Zero()[k] && AddElement(Zero(), x)[k] == x[k] {
      AddCoef(x, x, k);
      AddCoef(Zero(), x, k);
    }
  }

  lemma MulZero(z: Element)
    ensures Mul(Zero(), z) == Zero()
  {
    hide Mul, AddElement, Zero;
    var m := Mul(Zero(), z);
    AddSelf(Zero());
    MulAdds(Zero(), Zero(), z);
    AddSelf(m);
  }

  // ------------------------------------------------------------------
  // Associativity, from the loop's own shape
  // ------------------------------------------------------------------

  lemma TimesXAdds(v: Element, w: Element)
    ensures TimesX(AddElement(v, w)) == AddElement(TimesX(v), TimesX(w))
  {
    forall k: nat | k < 128 ensures TimesX(AddElement(v, w))[k] == AddElement(TimesX(v), TimesX(w))[k] {
      AddCoef(v, w, k - 1);
      AddCoef(v, w, 127);
      AddCoef(TimesX(v), TimesX(w), k);
    }
  }

  lemma TimesXZero()
    ensures TimesX(Zero()) == Zero()
  {
    forall k: nat | k < 128 ensures TimesX(Zero())[k] == Zero()[k] { TimesXCoef(Zero(), k); }
  }

  lemma {:induction false} PowerShifts(u: Element, i: nat)
    ensures PowerAt(TimesX(u), i) == TimesX(PowerAt(u, i))
  {
    hide TimesX;
    if i > 0 { PowerShifts(u, i - 1); }
  }

  lemma {:induction false} SumShifts(z: Element, u: Element, i: nat)
    requires i <= 128
    ensures SumAt(z, TimesX(u), i) == TimesX(SumAt(z, u, i))
  {
    hide TimesX, PowerAt, AddElement, Zero;
    if i == 0 {
      TimesXZero();
    } else {
      SumShifts(z, u, i - 1);
      PowerShifts(u, i - 1);
      TimesXAdds(SumAt(z, u, i - 1), PowerAt(u, i - 1));
    }
  }

  /** Multiplying by x may be done before or after multiplying by `z`. */
  lemma MulShifts(u: Element, z: Element)
    ensures Mul(TimesX(u), z) == TimesX(Mul(u, z))
  {
    hide TimesX, SumAt;
    SumShifts(z, u, 128);
    MulCommutes(TimesX(u), z);
    MulCommutes(u, z);
  }

  lemma {:induction false} PowerTimes(y: Element, z: Element, i: nat)
    ensures Mul(PowerAt(y, i), z) == PowerAt(Mul(y, z), i)
  {
    hide TimesX, Mul;
    if i > 0 {
      PowerTimes(y, z, i - 1);
      MulShifts(PowerAt(y, i - 1), z);
    }
  }

  lemma {:induction false} SumTimes(x: Element, y: Element, z: Element, i: nat)
    requires i <= 128
    ensures Mul(SumAt(x, y, i), z) == SumAt(x, Mul(y, z), i)
  {
    hide Mul, PowerAt, AddElement, Zero;
    if i == 0 {
      MulZero(z);
    } else {
      SumTimes(x, y, z, i - 1);
      PowerTimes(y, z, i - 1);
      MulAdds(SumAt(x, y, i - 1), PowerAt(y, i - 1), z);
    }
  }

  /** Multiplication is associative. */
  lemma MulAssociates(x: Element, y: Element, z: Element)
    ensures Mul(Mul(x, y), z) == Mul(x, Mul(y, z))
  {
    hide SumAt;
    SumTimes(x, y, z, 128);
  }
}
