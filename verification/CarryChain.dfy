/**
 The flags of ADDS, ADCS, SUBS and SBCS (src/core/cpu.cpp), and the multi-word arithmetic that programs
 build from them.
 */
module CarryChain {
  import opened Basics

  const HALF_WORD: nat := 0x8000_0000

  datatype Flags = Flags(n: bool, z: bool, c: bool, v: bool)

  predicate Negative(x: u32) { x >= HALF_WORD }

  /** The word as a signed number. */
  function Signed(x: u32): int { if Negative(x) then x - WORD_RANGE else x }

  predicate Fits(x: int, half: nat) { 0 - half <= x < half }

  /** One instruction's result and flags. ADDS and SUBS take V from sign bits, ADCS and SBCS from a 64-bit sum. */
  function Adds(x: u32, y: u32): (u32, Flags) {
    var wide := x + y;
    var r := wide % WORD_RANGE;
    (r, Flags(Negative(r), r == 0, wide / WORD_RANGE != 0, Negative(x) == Negative(y) && Negative(x) != Negative(r)))
  }

  function Adcs(x: u32, y: u32, carry: bool): (u32, Flags) {
    var bit := if carry then 1 else 0;
    var wide := x + y + bit;
    var r := wide % WORD_RANGE;
    (r, Flags(Negative(r), r == 0, wide / WORD_RANGE != 0, !Fits(Signed(x) + Signed(y) + bit, HALF_WORD)))
  }

  function Subs(x: u32, y: u32): (u32, Flags) {
    var r := (x - y) % WORD_RANGE;
    (r, Flags(Negative(r), r == 0, x >= y, Negative(x) != Negative(y) && Negative(x) != Negative(r)))
  }

  function Sbcs(x: u32, y: u32, carry: bool): (u32, Flags) {
    var borrow := if carry then 0 else 1;
    var r := (x - y - borrow) % WORD_RANGE;
    (r, Flags(Negative(r), r == 0, x >= y + borrow, !Fits(Signed(x) - Signed(y) - borrow, HALF_WORD)))
  }

  /** The two ways of finding V agree: ADDS is ADCS without a carry, SUBS is SBCS without a borrow. */
  lemma PlainIsChained(x: u32, y: u32)
    ensures Adds(x, y) == Adcs(x, y, false)
    ensures Subs(x, y) == Sbcs(x, y, true)
  {
  }

  // ----- Numbers of many words, least significant first -----

  function Power(n: nat): (p: nat)
    ensures p > 0
  {
    if n == 0 then 1 else WORD_RANGE * Power(n - 1)
  }

  function Number(xs: seq<u32>): nat {
    if xs == [] then 0 else Number(xs[..|xs| - 1]) + xs[|xs| - 1] * Power(|xs| - 1)
  }

  /** The two's-complement reading of all the words. */
  function SignedNumber(xs: seq<u32>): int
    requires xs != []
  {
    Number(xs[..|xs| - 1]) + Signed(xs[|xs| - 1]) * Power(|xs| - 1)
  }

  /** ADDS on the lowest words, ADCS on each of the others. */
  function AddChain(xs: seq<u32>, ys: seq<u32>): (result: (seq<u32>, Flags))
    requires |xs| == |ys| > 0
    ensures |result.0| == |xs|
    decreases |xs|
  {
    var top := |xs| - 1;
    if top == 0 then
      var (r, flags) := Adds(xs[0], ys[0]);
      ([r], flags)
    else
      var (lower, before) := AddChain(xs[..top], ys[..top]);
      var (r, flags) := Adcs(xs[top], ys[top], before.c);
      (lower + [r], flags)
  }

  /** SUBS on the lowest words, SBCS on each of the others. */
  function SubtractChain(xs: seq<u32>, ys: seq<u32>): (result: (seq<u32>, Flags))
    requires |xs| == |ys| > 0
    ensures |result.0| == |xs|
    decreases |xs|
  {
    var top := |xs| - 1;
    if top == 0 then
      var (r, flags) := Subs(xs[0], ys[0]);
      ([r], flags)
    else
      var (lower, before) := SubtractChain(xs[..top], ys[..top]);
      var (r, flags) := Sbcs(xs[top], ys[top], before.c);
      (lower + [r], flags)
  }

  lemma {:induction false} NumberBelowPower(xs: seq<u32>)
    ensures Number(xs) < Power(|xs|)
  {
    if xs != [] {
      var top := |xs| - 1;
      NumberBelowPower(xs[..top]);
      TopWordBound(Number(xs[..top]), xs[top], Power(top));
    }
  }

  lemma TopWordBound(lower: nat, x: u32, p: nat)
    requires lower < p
    ensures lower + x * p < WORD_RANGE * p
  {
    ScaleMonotone(x + 1, WORD_RANGE, p);
    assert (x + 1) * p == x * p + p;
  }

  lemma SnocNumber(lower: seq<u32>, r: u32)
    ensures Number(lower + [r]) == Number(lower) + r * Power(|lower|)
    ensures SignedNumber(lower + [r]) == Number(lower) + Signed(r) * Power(|lower|)
  {
    assert (lower + [r])[..|lower|] == lower;
  }

  lemma AddWord(x: u32, y: u32, carry: bool)
    ensures var (r, flags) := Adcs(x, y, carry);
      && x + y + Bit(carry) == r + Bit(flags.c) * WORD_RANGE
      && flags.n == Negative(r)
      && (!flags.v ==> Signed(r) == Signed(x) + Signed(y) + Bit(carry))
      && (flags.v <==> !Fits(Signed(x) + Signed(y) + Bit(carry), HALF_WORD))
  {
  }

  lemma SubtractWord(x: u32, y: u32, carry: bool)
    ensures var (r, flags) := Sbcs(x, y, carry);
      && x - y - Bit(!carry) == r - Bit(!flags.c) * WORD_RANGE
      && flags.n == Negative(r)
      && (!flags.v ==> Signed(r) == Signed(x) - Signed(y) - Bit(!carry))
      && (flags.v <==> !Fits(Signed(x) - Signed(y) - Bit(!carry), HALF_WORD))
  {
  }

  lemma ScaleMonotone(a: int, b: int, p: nat)
    requires a <= b
    ensures a * p <= b * p
  {
    ScaleSign(b - a, p);
    assert b * p == a * p + (b - a) * p;
  }

  /** A number with `t` above `lower` fits iff t does. */
  lemma FitsByTopWord(lower: nat, t: int, p: nat)
    requires lower < p
    ensures Fits(lower + t * p, HALF_WORD * p) <==> Fits(t, HALF_WORD)
  {
    var low := 0 - HALF_WORD;
    assert (t + 1) * p == t * p + p;
    assert low * p == 0 - HALF_WORD * p;
    if t < low {
      ScaleMonotone(t + 1, low, p);
    } else if t >= HALF_WORD {
      ScaleMonotone(HALF_WORD, t, p);
    } else {
      ScaleMonotone(low, t, p);
      ScaleMonotone(t + 1, HALF_WORD, p);
    }
  }

  lemma AddScaled(a: int, b: int, c: int, p: int)
    ensures (a + b + c) * p == a * p + b * p + c * p
    ensures (a - b - c) * p == a * p - b * p - c * p
  {
  }

  /**
   The chain computes the sum: the words with the final carry are exactly it, N is the sign of the
   two's-complement result, V says that the signed sum does not fit, and when it fits the result is it.
   */
  lemma {:induction false} AddChainAdds(xs: seq<u32>, ys: seq<u32>)
    requires |xs| == |ys| > 0
    ensures var (rs, flags) := AddChain(xs, ys);
      && Number(rs) + Bit(flags.c) * Power(|xs|) == Number(xs) + Number(ys)
      && (flags.n <==> SignedNumber(rs) < 0)
      && (flags.v <==> !Fits(SignedNumber(xs) + SignedNumber(ys), HALF_WORD * Power(|xs| - 1)))
      && (!flags.v ==> SignedNumber(rs) == SignedNumber(xs) + SignedNumber(ys))
    decreases |xs|
  {
    hide Adds, Adcs, Number, Power, Fits, Signed, Negative;
    var top := |xs| - 1;
    var x, y, p := xs[top], ys[top], Power(top);
    if top == 0 {
      NumberOfNone(xs[..0]);
      NumberOfNone(ys[..0]);
      PlainIsChained(x, y);
      assert AddChain(xs, ys).0 == [] + [Adds(x, y).0];
      ChainStep(xs, ys, [], false, Adds(x, y).0, Adds(x, y).1);
    } else {
      var (lower, before) := AddChain(xs[..top], ys[..top]);
      AddChainAdds(xs[..top], ys[..top]);
      var (r, flags) := Adcs(x, y, before.c);
      ChainStep(xs, ys, lower, before.c, r, flags);
    }
  }

  lemma NumberOfNone(xs: seq<u32>)
    requires xs == []
    ensures Number(xs) == 0
  {
  }

  lemma SplitNumber(xs: seq<u32>)
    requires xs != []
    ensures Number(xs) == Number(xs[..|xs| - 1]) + xs[|xs| - 1] * Power(|xs| - 1)
    ensures Power(|xs|) == WORD_RANGE * Power(|xs| - 1)
  {
  }

  /** One more word on top of a sum of the lower ones. */
  lemma ChainStep(xs: seq<u32>, ys: seq<u32>, lower: seq<u32>, carry: bool, r: u32, flags: Flags)
    requires |xs| == |ys| == |lower| + 1
    requires Number(lower) + Bit(carry) * Power(|lower|) == Number(xs[..|lower|]) + Number(ys[..|lower|])
    requires (r, flags) == Adcs(xs[|lower|], ys[|lower|], carry)
    ensures Number(lower + [r]) + Bit(flags.c) * Power(|xs|) == Number(xs) + Number(ys)
    ensures flags.n <==> SignedNumber(lower + [r]) < 0
    ensures flags.v <==> !Fits(SignedNumber(xs) + SignedNumber(ys), HALF_WORD * Power(|lower|))
    ensures !flags.v ==> SignedNumber(lower + [r]) == SignedNumber(xs) + SignedNumber(ys)
  {
    hide Adcs, Number, Power, Fits, Signed, Negative;
    var x, y, p := xs[|lower|], ys[|lower|], Power(|lower|);
    AddWord(x, y, carry);
    SnocNumber(lower, r);
    SplitNumber(xs);
    SplitNumber(ys);
    NumberBelowPower(lower);
    SignOfTopWord(Number(lower), r, p);
    AddScaled(x, y, Bit(carry), p);
    Carried(r, Bit(flags.c), p);
    AddScaled(Signed(x), Signed(y), Bit(carry), p);
    FitsByTopWord(Number(lower), Signed(x) + Signed(y) + Bit(carry), p);
  }

  lemma Carried(r: int, bit: int, p: int)
    ensures (r + bit * WORD_RANGE) * p == r * p + bit * (WORD_RANGE * p)
    ensures (r - bit * WORD_RANGE) * p == r * p - bit * (WORD_RANGE * p)
  {
  }

  lemma SignOfTopWord(lower: nat, r: u32, p: nat)
    requires lower < p
    ensures Negative(r) <==> lower + Signed(r) * p < 0
  {
    ScaleSign(Signed(r), p);
  }

  lemma {:induction false} ScaleSign(t: int, p: nat)
    ensures t < 0 ==> t * p <= 0 - p
    ensures t >= 0 ==> t * p >= 0
  {
    if p > 0 {
      ScaleSign(t, p - 1);
      assert t * p == t * (p - 1) + t;
    }
  }

  /** The same for the difference; the final C says that nothing had to be borrowed. */
  lemma {:induction false} SubtractChainSubtracts(xs: seq<u32>, ys: seq<u32>)
    requires |xs| == |ys| > 0
    ensures var (rs, flags) := SubtractChain(xs, ys);
      && Number(rs) - Bit(!flags.c) * Power(|xs|) == Number(xs) - Number(ys)
      && (flags.c <==> Number(xs) >= Number(ys))
      && (flags.n <==> SignedNumber(rs) < 0)
      && (flags.v <==> !Fits(SignedNumber(xs) - SignedNumber(ys), HALF_WORD * Power(|xs| - 1)))
      && (!flags.v ==> SignedNumber(rs) == SignedNumber(xs) - SignedNumber(ys))
    decreases |xs|
  {
    hide Subs, Sbcs, Number, Power, Fits, Signed, Negative;
    var top := |xs| - 1;
    var x, y, p := xs[top], ys[top], Power(top);
    if top == 0 {
      NumberOfNone(xs[..0]);
      NumberOfNone(ys[..0]);
      PlainIsChained(x, y);
      assert SubtractChain(xs, ys).0 == [] + [Subs(x, y).0];
      BorrowStep(xs, ys, [], true, Subs(x, y).0, Subs(x, y).1);
    } else {
      var (lower, before) := SubtractChain(xs[..top], ys[..top]);
      SubtractChainSubtracts(xs[..top], ys[..top]);
      var (r, flags) := Sbcs(x, y, before.c);
      BorrowStep(xs, ys, lower, before.c, r, flags);
    }
  }

  lemma BorrowStep(xs: seq<u32>, ys: seq<u32>, lower: seq<u32>, carry: bool, r: u32, flags: Flags)
    requires |xs| == |ys| == |lower| + 1
    requires Number(lower) - Bit(!carry) * Power(|lower|) == Number(xs[..|lower|]) - Number(ys[..|lower|])
    requires (r, flags) == Sbcs(xs[|lower|], ys[|lower|], carry)
    ensures Number(lower + [r]) - Bit(!flags.c) * Power(|xs|) == Number(xs) - Number(ys)
    ensures flags.c <==> Number(xs) >= Number(ys)
    ensures flags.n <==> SignedNumber(lower + [r]) < 0
    ensures flags.v <==> !Fits(SignedNumber(xs) - SignedNumber(ys), HALF_WORD * Power(|lower|))
    ensures !flags.v ==> SignedNumber(lower + [r]) == SignedNumber(xs) - SignedNumber(ys)
  {
    hide Sbcs, Number, Power, Fits, Signed, Negative;
    var x, y, p := xs[|lower|], ys[|lower|], Power(|lower|);
    SubtractWord(x, y, carry);
    SnocNumber(lower, r);
    SplitNumber(xs);
    SplitNumber(ys);
    NumberBelowPower(lower);
    NumberBelowPower(lower + [r]);
    SignOfTopWord(Number(lower), r, p);
    AddScaled(x, y, Bit(!carry), p);
    Carried(r, Bit(!flags.c), p);
    AddScaled(Signed(x), Signed(y), Bit(!carry), p);
    FitsByTopWord(Number(lower), Signed(x) - Signed(y) - Bit(!carry), p);
  }

  // ----- The condition flags of the processor -----

  class Alu {
    var n: bool
    var z: bool
    var c: bool
    var v: bool

    function State(): Flags
      reads this
    {
      Flags(n, z, c, v)
    }

    constructor ()
      ensures State() == Flags(false, false, false, false)
    {
      n, z, c, v := false, false, false, false;
    }

    method UpdateNz(value: u32)
      modifies this`n, this`z
      ensures n == Negative(value) && z == (value == 0)
    {
      n, z := Negative(value), value == 0;
    }

    /** update_nzc_add, from the 64-bit sum */
    method UpdateNzcAdd(x: u32, y: u32, wide: nat)
      requires wide == x + y
      modifies this
      ensures State() == Adds(x, y).1
    {
      var value := wide % WORD_RANGE;
      UpdateNz(value);
      c := wide / WORD_RANGE != 0;
      v := Negative(x) == Negative(y) && Negative(x) != Negative(value);
    }

    /** update_nzc_sub */
    method UpdateNzcSub(x: u32, y: u32, value: u32)
      requires value == (x - y) % WORD_RANGE
      modifies this
      ensures State() == Subs(x, y).1
    {
      UpdateNz(value);
      c := x >= y;
      v := Negative(x) != Negative(y) && Negative(x) != Negative(value);
    }

    /** update_nzcv_adc */
    method UpdateNzcvAdc(x: u32, y: u32, carry: bool, value: u32)
      requires value == (x + y + Bit(carry)) % WORD_RANGE
      modifies this
      ensures State() == Adcs(x, y, carry).1
    {
      UpdateNz(value);
      var wide := x + y + Bit(carry);
      c := wide / WORD_RANGE != 0;
      var signedResult := Signed(x) + Signed(y) + Bit(carry);
      v := signedResult > 0x7FFF_FFFF || signedResult < -0x8000_0000;
    }

    /** update_nzcv_sbc */
    method UpdateNzcvSbc(x: u32, y: u32, carry: bool, value: u32)
      requires value == (x - y - Bit(!carry)) % WORD_RANGE
      modifies this
      ensures State() == Sbcs(x, y, carry).1
    {
      UpdateNz(value);
      var borrow := Bit(!carry);
      c := x >= y + borrow;
      var signedResult := Signed(x) - Signed(y) - borrow;
      v := signedResult > 0x7FFF_FFFF || signedResult < -0x8000_0000;
    }
  }
}
