/**
  The calculator: a fixed 16-byte text display, machine arithmetic with overflow checks
  and a latch for errors, refining an interpreter over unbounded integers.
 */
module Calc {
  import opened Common

  type I64 = x: int | -0x8000_0000_0000_0000 <= x < 0x8000_0000_0000_0000

  const ZERO: byte := 48
  const MINUS: byte := 45
  const DISPLAY := 16

  predicate IsDigit(b: byte) { ZERO <= b < ZERO + 10 }

  predicate IsOperator(o: byte) { o in {43, 45, 42, 47} }  // + - * /

  // ------------------------------------------------------------------
  // Decimal text
  // ------------------------------------------------------------------

  function Digits(n: nat): (s: seq<byte>)
    ensures |s| > 0
  {
    if n < 10 then [ZERO + n] else Digits(n / 10) + [ZERO + n % 10]
  }

  function Show(v: int): seq<byte> { if v < 0 then [MINUS] + Digits(-v) else Digits(v) }

  /** The value of the digits of `s`, other bytes skipped. */
  function Value(s: seq<byte>): nat
  {
    if s == [] then 0
    else
      var last := s[|s| - 1];
      if IsDigit(last) then Value(s[..|s| - 1]) * 10 + (last - ZERO) else Value(s[..|s| - 1])
  }

  function Parse(s: seq<byte>): int { if s != [] && s[0] == MINUS then 0 - Value(s[1..]) else Value(s) }

  function Pow10(k: nat): nat { if k == 0 then 1 else 10 * Pow10(k - 1) }

  lemma {:induction false} ValueOfDigits(n: nat)
    ensures Value(Digits(n)) == n && forall b <- Digits(n) :: IsDigit(b)
  {
    if n >= 10 {
      ValueOfDigits(n / 10);
      assert Digits(n)[..|Digits(n)| - 1] == Digits(n / 10);
    } else {
      assert Value(Digits(n)[..0]) == 0;
    }
  }

  /** Reading a number back from its text gives the number. */
  lemma ParseShow(v: int)
    ensures Parse(Show(v)) == v && 0 !in Show(v)
  {
    var n := if v < 0 then -v else v;
    ValueOfDigits(n);
    assert Show(v)[1..] == Digits(n) || v >= 0;
    assert IsDigit(Digits(n)[0]);
  }

  lemma {:induction false} DigitsLength(n: nat, k: nat)
    requires k > 0
    ensures |Digits(n)| <= k <==> n < Pow10(k)
  {
    if n >= 10 && k > 1 {
      DigitsLength(n / 10, k - 1);
    } else if n >= 10 {
      assert Pow10(1) == 10;
    } else {
      PowGrows(k);
    }
  }

  lemma {:induction false} PowGrows(k: nat)
    requires k > 0
    ensures Pow10(k) >= 10
  {
    if k > 1 { PowGrows(k - 1); }
  }

  lemma {:induction false} ValueBound(s: seq<byte>)
    ensures Value(s) < Pow10(|s|)
  {
    if s != [] { ValueBound(s[..|s| - 1]); }
  }

  lemma Powers()
    ensures Pow10(14) == 100_000_000_000_000 && Pow10(15) == 1_000_000_000_000_000 && Pow10(19) == 10_000_000_000_000_000_000
  {
    assert Pow10(4) == 10000;
    assert Pow10(8) == 100000000;
    assert Pow10(12) == 1000000000000;
    assert Pow10(16) == 10000000000000000;
  }

  lemma WordDigits(n: nat)
    requires n <= 0x8000_0000_0000_0000
    ensures |Digits(n)| <= 19
  {
    Powers();
    DigitsLength(n, 19);
  }

  /** The text is at most 15 bytes. */
  predicate Fits(v: int) { -100_000_000_000_000 < v < 1_000_000_000_000_000 }

  lemma FitsIsWidth(v: int)
    ensures Fits(v) <==> |Show(v)| < DISPLAY
  {
    Powers();
    if v < 0 { DigitsLength(-v, 14); } else { DigitsLength(v, 15); }
  }

  // ------------------------------------------------------------------
  // The interpreter over unbounded integers
  // ------------------------------------------------------------------

  datatype Key = Digit(d: nat) | Operator(o: byte) | Equals | Clear

  /** What a user can tell apart: the number shown, the operation waiting for its right operand, whether the next digit starts a number. */
  datatype State = Running(shown: int, left: Option<(int, byte)>, restart: bool) | Failed

  const START := Running(0, None, false)

  function Truncated(a: int, b: int): int
    requires b != 0
  {
    var q := Abs(a) / Abs(b);
    if (a < 0) == (b < 0) then q else -q
  }

  function Abs(a: int): nat { if a < 0 then -a else a }

  /** The exact result, if there is one and it fits. */
  function Apply(a: int, o: byte, b: int): Option<int>
  {
    if o == 47 && b == 0 then None
    else
      var v := if o == 43 then a + b else if o == 45 then a - b else if o == 42 then a * b else if o == 47 then Truncated(a, b) else 0;
      if IsOperator(o) && Fits(v) then Some(v) else None
  }

  function Press(s: State, k: Key): State
  {
    if k == Clear then START else if s.Failed? then Failed else
    match k
    case Digit(d) =>
      var v := if s.restart then d else 10 * s.shown + d;
      if d > 9 then s else if Fits(v) then Running(v, s.left, false) else Failed
    case Operator(o) =>
      if !IsOperator(o) then s
      else if s.left.None? then Running(s.shown, Some((s.shown, o)), true)
      else if s.restart then s.(left := Some((s.left.value.0, o)))
      else
        var v := Apply(s.left.value.0, s.left.value.1, s.shown);
        if v.None? then Failed else Running(v.value, Some((v.value, o)), true)
    case Equals =>
      if s.left.None? then s
      else
        var v := Apply(s.left.value.0, s.left.value.1, s.shown);
        if v.None? then Failed else Running(v.value, None, true)
    case Clear => START
  }

  function Run(s: State, keys: seq<Key>): State
  {
    if keys == [] then s else Press(Run(s, keys[..|keys| - 1]), keys[|keys| - 1])
  }

  // ------------------------------------------------------------------
  // What a typed chain shows
  // ------------------------------------------------------------------

  function Typed(n: nat): seq<Key>
  {
    if n < 10 then [Digit(n)] else Typed(n / 10) + [Digit(n % 10)]
  }

  /** The keys of `first o1 n1 o2 n2 ...`. */
  function Chain(first: nat, rest: seq<(byte, nat)>): seq<Key>
  {
    if rest == [] then Typed(first)
    else var (o, n) := rest[|rest| - 1]; Chain(first, rest[..|rest| - 1]) + ([Operator(o)] + Typed(n))
  }

  /** Left-to-right evaluation, without precedence; absent once a number or a result does not fit or a divisor is zero. */
  function Eval(first: nat, rest: seq<(byte, nat)>): Option<int>
  {
    if rest == [] then if Fits(first) then Some(first) else None
    else
      var (o, n) := rest[|rest| - 1];
      var v := Eval(first, rest[..|rest| - 1]);
      if v.None? || !Fits(n) then None else Apply(v.value, o, n)
  }

  function Shown(s: State): Option<int> { if s.Failed? then None else Some(s.shown) }

  lemma {:induction false} RunConcat(s: State, a: seq<Key>, b: seq<Key>)
    ensures Run(s, a + b) == Run(Run(s, a), b)
  {
    if b == [] {
      assert a + b == a;
    } else {
      RunConcat(s, a, b[..|b| - 1]);
      assert (a + b)[..|a + b| - 1] == a + b[..|b| - 1];
    }
  }

  lemma RunOne(s: State, k: Key)
    ensures Run(s, [k]) == Press(s, k)
  {
    assert [k][..0] == [];
    assert Run(s, [k][..0]) == s;
  }

  lemma {:induction false} FailedStays(keys: seq<Key>)
    requires Clear !in keys
    ensures Run(Failed, keys) == Failed
  {
    if keys != [] { FailedStays(keys[..|keys| - 1]); }
  }

  /** Typing a number's digits shows that number, or fails if it is too wide. */
  lemma {:induction false} TypingShows(s: State, n: nat)
    requires s.Running? && (s.restart || s.shown == 0)
    ensures Run(s, Typed(n)) == (if Fits(n) then Running(n, s.left, false) else Failed)
  {
    if n < 10 {
      RunOne(s, Digit(n));
    } else {
      TypingShows(s, n / 10);
      RunConcat(s, Typed(n / 10), [Digit(n % 10)]);
      RunOne(Run(s, Typed(n / 10)), Digit(n % 10));
    }
  }

  predicate Operators(rest: seq<(byte, nat)>) { forall x <- rest :: IsOperator(x.0) }

  /** The state after a chain: the last number on show, everything before it folded into the left operand. */
  function Waiting(first: nat, rest: seq<(byte, nat)>): State
  {
    if rest == [] then if Fits(first) then Running(first, None, false) else Failed
    else
      var (o, n) := rest[|rest| - 1];
      var v := Eval(first, rest[..|rest| - 1]);
      if v.None? || !Fits(n) then Failed else Running(n, Some((v.value, o)), false)
  }

  lemma {:induction false} TypedKeys(n: nat)
    ensures Clear !in Typed(n)
  {
    if n >= 10 { TypedKeys(n / 10); }
  }

  lemma {:induction false} ChainWaits(first: nat, rest: seq<(byte, nat)>)
    requires Operators(rest)
    ensures Run(START, Chain(first, rest)) == Waiting(first, rest)
  {
    if rest == [] {
      TypingShows(START, first);
    } else {
      var init := rest[..|rest| - 1];
      var (o, n) := rest[|rest| - 1];
      ChainWaits(first, init);
      LinkWaits(first, rest);
      RunConcat(START, Chain(first, init), [Operator(o)] + Typed(n));
    }
  }

  /** One more operator and number. */
  lemma LinkWaits(first: nat, rest: seq<(byte, nat)>)
    requires Operators(rest) && rest != []
    ensures var (o, n) := rest[|rest| - 1];
            Run(Waiting(first, rest[..|rest| - 1]), [Operator(o)] + Typed(n)) == Waiting(first, rest)
  {
    var init := rest[..|rest| - 1];
    var (o, n) := rest[|rest| - 1];
    var s := Waiting(first, init);
    RunConcat(s, [Operator(o)], Typed(n));
    RunOne(s, Operator(o));
    assert rest[|rest| - 1] in rest;
    var v := Eval(first, init);
    assert Press(s, Operator(o)) == if v.None? then Failed else Running(v.value, Some((v.value, o)), true);
    if v.None? {
      TypedKeys(n);
      FailedStays(Typed(n));
    } else {
      TypingShows(Press(s, Operator(o)), n);
    }
  }

  /** A typed chain and `=` show its left-to-right value, and fail exactly when that has none. */
  lemma ChainShows(first: nat, rest: seq<(byte, nat)>)
    requires Operators(rest)
    ensures Shown(Run(START, Chain(first, rest) + [Equals])) == Eval(first, rest)
  {
    ChainWaits(first, rest);
    RunConcat(START, Chain(first, rest), [Equals]);
    RunOne(Run(START, Chain(first, rest)), Equals);
  }

  // ------------------------------------------------------------------
  // The machine
  // ------------------------------------------------------------------

  /** The bytes before the first NUL. */
  function Text(d: seq<byte>): seq<byte> { if d == [] || d[0] == 0 then [] else [d[0]] + Text(d[1..]) }

  lemma {:induction false} TextIs(d: seq<byte>, n: nat)
    requires n <= |d| && 0 !in d[..n] && (n < |d| ==> d[n] == 0)
    ensures Text(d) == d[..n]
  {
    if n > 0 {
      assert d[0] == d[..n][0];
      assert d[1..][..n - 1] == d[..n][1..];
      TextIs(d[1..], n - 1);
    }
  }

  function Checked(v: int): Option<int> { if -0x8000_0000_0000_0000 <= v < 0x8000_0000_0000_0000 then Some(v) else None }

  /** The machine's result; overflow leaves none. Every overflow is also too wide to show. */
  function CheckedApply(a: I64, o: byte, b: I64): (r: Option<int>)
    requires IsOperator(o)
    ensures (if r.Some? && Fits(r.value) then r else None) == Apply(a, o, b)
    ensures r.Some? ==> Checked(r.value).Some?
  {
    if o == 43 then Checked(a + b) else if o == 45 then Checked(a - b) else if o == 42 then Checked(a * b)
    else if b == 0 then None else Checked(Truncated(a, b))
  }

  const ERR: seq<byte> := [69, 82, 82]

  method ParseDigits(t: seq<byte>) returns (v: I64)
    requires |t| < DISPLAY
    ensures v == Value(t)
  {
    v := 0;
    Powers();
    for i := 0 to |t|
      invariant v == Value(t[..i])
    {
      assert t[..i + 1][..i] == t[..i];
      ValueBound(t[..i]);
      PowMonotone(i, 15);
      if IsDigit(t[i]) { v := v * 10 + (t[i] - ZERO); }
    }
    assert t[..|t|] == t;
  }

  lemma {:induction false} PowMonotone(a: nat, b: nat)
    requires a <= b
    ensures Pow10(a) <= Pow10(b)
  {
    if a < b { PowMonotone(a, b - 1); }
  }

  class Calculator {
    const display: array<byte>
    var acc: I64
    var op: Option<byte>
    var pending: bool
    var error: bool

    ghost predicate Valid()
      reads this, display
    {
      && display.Length == DISPLAY
      && (if error then Text(display[..]) == ERR
          else
            var v := Parse(Text(display[..]));
            && Text(display[..]) == Show(v) && Fits(v) && (!pending ==> v >= 0)
            && (op.Some? ==> IsOperator(op.value) && Fits(acc)))
    }

    ghost function View(): State
      reads this, display
    {
      if error then Failed
      else Running(Parse(Text(display[..])), if op.Some? then Some((acc, op.value)) else None, pending)
    }

    constructor ()
      ensures Valid() && View() == START && fresh(display)
    {
      display := new byte[DISPLAY](i => if i == 0 then ZERO else 0);
      acc, op, pending, error := 0, None, false, false;
      new;
      ShowsZero(display[..]);
    }

    method DisplayText() returns (t: seq<byte>)
      ensures t == Text(display[..])
    {
      var n := 0;
      while n < display.Length && display[n] != 0
        invariant n <= display.Length && 0 !in display[..n]
      {
        n := n + 1;
      }
      t := display[..n];
      assert display[..][..n] == t;
      TextIs(display[..], n);
    }

    method ParseDisplay() returns (v: I64)
      requires Valid() && !error
      ensures v == Parse(Text(display[..]))
    {
      var t := DisplayText();
      FitsIsWidth(Parse(t));
      if t != [] && t[0] == MINUS {
        v := ParseDigits(t[1..]);
        v := -v;
      } else {
        v := ParseDigits(t);
      }
    }

    method SetText(text: seq<byte>)
      requires display.Length == DISPLAY && |text| < DISPLAY && 0 !in text
      modifies display
      ensures Text(display[..]) == text
    {
      for i := 0 to DISPLAY
        invariant forall k | 0 <= k < i :: display[k] == if k < |text| then text[k] else 0
      {
        display[i] := if i < |text| then text[i] else 0;
      }
      assert display[..][..|text|] == text;
      TextIs(display[..], |text|);
    }

    /** Formats `v` from the last digit backwards; a text wider than 15 bytes is refused and leaves the display alone. */
    method WriteDisplay(v: I64) returns (ok: bool)
      requires display.Length == DISPLAY
      modifies display
      ensures ok == Fits(v) && Text(display[..]) == if ok then Show(v) else old(Text(display[..]))
    {
      var tmp := new byte[24](_ => 0);
      var i := FormatInto(tmp, Abs(v));
      if v < 0 {
        i := i - 1;
        tmp[i] := MINUS;
        assert tmp[i..] == [MINUS] + tmp[i + 1..];
      }
      assert tmp[i..] == Show(v);
      ParseShow(v);
      FitsIsWidth(v);
      ok := 24 - i < DISPLAY;
      if ok { SetText(tmp[i..]); }
    }

    static method FormatInto(tmp: array<byte>, n: nat) returns (i: nat)
      requires tmp.Length == 24 && n <= 0x8000_0000_0000_0000
      modifies tmp
      ensures 0 < i < 24 && tmp[i..] == Digits(n)
    {
      WordDigits(n);
      i := 24;
      var mag := n;
      while true
        invariant i <= 24 && Digits(n) == Digits(mag) + tmp[i..]
        decreases mag, i
      {
        assert |Digits(n)| == |Digits(mag)| + 24 - i;
        i := i - 1;
        label L:
        tmp[i] := ZERO + mag % 10;
        assert tmp[i..] == [ZERO + mag % 10] + old@L(tmp[i + 1..]);
        mag := mag / 10;
        if mag == 0 { break; }
      }
    }

    method SetError()
      requires display.Length == DISPLAY
      modifies `error, display
      ensures Valid() && View() == Failed
    {
      error := true;
      SetText(ERR);
    }

    method PressClear()
      requires Valid()
      modifies this, display
      ensures Valid() && View() == Press(old(View()), Clear)
    {
      ParseShow(0);
      SetText([ZERO]);
      acc, op, pending, error := 0, None, false, false;
    }

    method PressDigit(d: nat)
      requires Valid()
      modifies this, display
      ensures Valid() && View() == Press(old(View()), Digit(d))
    {
      if error || d > 9 { return; }
      var current: int := 0;
      if !pending {
        var t := DisplayText();
        DigitsOnly(Parse(t));
        FitsIsWidth(Parse(t));
        current := ParseDigits(t);
      }
      pending := false;
      // Ten times a number on show plus a digit is far below the machine's limit.
      var next: I64 := current * 10 + d;
      var ok := WriteDisplay(next);
      ParseShow(next);
      if !ok { SetError(); }
    }

    /** `acc o <display>` into both, or the error latch. */
    method Evaluate(o: byte) returns (ok: bool)
      requires Valid() && !error && IsOperator(o) && Fits(acc)
      modifies this, display
      ensures op == old(op) && pending == old(pending) && error == !ok
      ensures display.Length == DISPLAY
      ensures var v := old(Apply(acc, o, Parse(Text(display[..]))));
              if v.None? then !ok && Text(display[..]) == ERR
              else ok && acc == v.value && Text(display[..]) == Show(v.value) && Parse(Text(display[..])) == v.value
    {
      var right := ParseDisplay();
      hide CheckedApply, Apply, Parse, Show, Text;
      var result := CheckedApply(acc, o, right);
      ok := result.Some?;
      if ok {
        ParseShow(result.value);
        ok := WriteDisplay(result.value);
      }
      if ok { acc := result.value; } else { SetError(); }
    }

    method PressOp(o: byte)
      requires Valid()
      modifies this, display
      ensures Valid() && View() == Press(old(View()), Operator(o))
    {
      if error || !IsOperator(o) { return; }
      if op.Some? && !pending {
        var ok := Evaluate(op.value);
        if !ok { return; }
        op := None;
        pending := true;
      }
      if op.None? { acc := ParseDisplay(); }
      op := Some(o);
      pending := true;
    }

    method PressEquals()
      requires Valid()
      modifies this, display
      ensures Valid() && View() == Press(old(View()), Equals)
    {
      if error || op.None? { return; }
      var ok := Evaluate(op.value);
      if ok {
        op := None;
        pending := true;
      }
    }

    method PressKey(k: Key)
      requires Valid()
      modifies this, display
      ensures Valid() && View() == Press(old(View()), k)
    {
      match k
      case Digit(d) => PressDigit(d);
      case Operator(o) => PressOp(o);
      case Equals => PressEquals();
      case Clear => PressClear();
    }

    /** Every run of the machine is the interpreter's run. */
    method PressAll(keys: seq<Key>)
      requires Valid()
      modifies this, display
      ensures Valid() && View() == Run(old(View()), keys)
    {
      hide Press, Valid, View;
      for i := 0 to |keys|
        invariant Valid() && View() == Run(old(View()), keys[..i])
      {
        assert keys[..i + 1][..i] == keys[..i];
        PressKey(keys[i]);
      }
      assert keys[..|keys|] == keys;
    }
  }

  /** The text of a non-negative number has no sign to skip. */
  lemma DigitsOnly(v: int)
    requires v >= 0
    ensures Value(Show(v)) == v
  {
    ValueOfDigits(v);
  }

  lemma ShowsZero(d: seq<byte>)
    requires |d| == DISPLAY && d[0] == ZERO && forall i | 0 < i < |d| :: d[i] == 0
    ensures Text(d) == Show(0) && Parse(Text(d)) == 0
  {
    ParseShow(0);
    assert d[..1] == [ZERO];
    TextIs(d, 1);
  }
}
