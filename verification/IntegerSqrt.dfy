/** The square root call (src/core/cpu.cpp integer_sqrt): one binary digit of the root at a time. */
module IntegerSqrt {
  import opened Basics

  function PowerOfTwo(k: nat): (p: nat)
    ensures p > 0
  {
    if k == 0 then 1 else 2 * PowerOfTwo(k - 1)
  }

  lemma Expand(r: nat, p: nat)
    ensures (r + p) * (r + p) == r * r + 2 * r * p + p * p
    ensures (r + 2 * p) * (r + 2 * p) == r * r + 4 * (r * p) + 4 * (p * p)
    ensures 2 * r * p == 2 * (r * p)
  {
  }

  lemma Halve(r: nat, p: nat)
    ensures r * (2 * p) == 2 * (r * p)
    ensures (2 * p) * (2 * p) == 4 * (p * p)
    ensures (r + 2 * p) * (2 * p) == 2 * (r * p) + 4 * (p * p)
  {
  }

  /** One digit: `p` is tried, and taken if the square still fits. */
  method Digit(n: nat, result: nat, rest: nat, bit: nat, ghost r: nat, ghost p: nat)
    returns (newResult: nat, newRest: nat, ghost root: nat)
    requires p > 0 && bit == p * p && result == 2 * (r * p) && rest == n - r * r && n < (r + 2 * p) * (r + 2 * p)
    ensures root == if (r + p) * (r + p) <= n then r + p else r
    ensures newResult == root * p && newRest == n - root * root && n < (root + p) * (root + p)
  {
    Expand(r, p);
    Expand(r + p, p);
    if rest >= result + bit {
      root := r + p;
      newRest := rest - (result + bit);
      newResult := result / 2 + bit;
      assert (r + p) * p == r * p + p * p;
    } else {
      root := r;
      newRest := rest;
      newResult := result / 2;
    }
  }

  /** The largest integer whose square does not exceed the value. */
  ghost predicate IsRoot(root: nat, value: nat) {
    root * root <= value < (root + 1) * (root + 1)
  }

  /** The square of the k-th power of two, or nothing when k is past the last digit. */
  function Square(k: int): nat { if k >= 0 then PowerOfTwo(k) * PowerOfTwo(k) else 0 }

  lemma SquareQuarters(k: int)
    requires k >= 0
    ensures Square(k) / 4 == Square(k - 1)
    ensures k > 0 ==> Square(k) == 4 * Square(k - 1)
    ensures Square(0) == 1
  {
    if k > 0 {
      Halve(0, PowerOfTwo(k - 1));
    }
  }

  /** The highest even power of two that does not exceed the value. */
  method FirstBit(value: u32) returns (bit: nat, ghost k: int)
    ensures k >= -1 && bit == Square(k)
    ensures if k < 0 then value == 0 else bit <= value < 4 * bit
  {
    bit, k := 0x4000_0000, 15;
    assert PowerOfTwo(15) == 0x8000;
    hide PowerOfTwo;
    while bit > value
      invariant k >= -1 && bit == Square(k)
      invariant if k < 0 then value == 0 else value < 4 * bit
      decreases bit
    {
      SquareQuarters(k);
      bit := bit / 4;
      k := k - 1;
    }
  }

  /** Between digits: the root so far, shifted to meet the next digit, and what its square leaves of the value. */
  ghost predicate Partial(value: nat, result: nat, rest: int, r: nat, k: int) {
    && rest == value - r * r && rest >= 0
    && (k >= 0 ==> result == 2 * (r * PowerOfTwo(k)) && value < (r + 2 * PowerOfTwo(k)) * (r + 2 * PowerOfTwo(k)))
    && (k < 0 ==> result == r && value < (r + 1) * (r + 1))
  }

  lemma BitIsThere(k: int)
    requires k >= -1 && Square(k) != 0
    ensures k >= 0
  {
  }

  lemma FirstDigit(value: nat, k: int)
    requires if k < 0 then value == 0 else value < 4 * Square(k)
    ensures Partial(value, 0, value, 0, k)
  {
    if k >= 0 {
      Expand(0, PowerOfTwo(k));
    }
  }

  lemma AtDigit(value: nat, result: nat, rest: int, r: nat, k: nat)
    requires Partial(value, result, rest, r, k)
    ensures rest == value - r * r && rest >= 0 && Square(k) == PowerOfTwo(k) * PowerOfTwo(k) > 0
    ensures result == 2 * (r * PowerOfTwo(k)) && value < (r + 2 * PowerOfTwo(k)) * (r + 2 * PowerOfTwo(k))
  {
  }

  lemma AfterDigits(value: nat, result: nat, rest: int, r: nat, k: int)
    requires Partial(value, result, rest, r, k) && k >= -1 && Square(k) == 0
    ensures IsRoot(result, value)
  {
    if k >= 0 {
      AtDigit(value, result, rest, r, k);
    }
  }

  lemma NextDigit(value: nat, result: nat, rest: int, r: nat, k: nat)
    requires rest == value - r * r && rest >= 0
    requires result == r * PowerOfTwo(k) && value < (r + PowerOfTwo(k)) * (r + PowerOfTwo(k))
    ensures Partial(value, result, rest, r, k - 1)
  {
    if k > 0 {
      Halve(r, PowerOfTwo(k - 1));
    }
  }

  /** One turn of the loop. */
  method TakeDigit(value: nat, result: nat, rest: nat, bit: nat, ghost r: nat, ghost k: nat)
    returns (newResult: nat, newRest: nat, newBit: nat, ghost root: nat)
    requires Partial(value, result, rest, r, k) && bit == Square(k)
    ensures Partial(value, newResult, newRest, root, k - 1) && newBit == Square(k - 1)
  {
    AtDigit(value, result, rest, r, k);
    SquareQuarters(k);
    newBit := bit / 4;
    hide *;
    newResult, newRest, root := Digit(value, result, rest, bit, r, PowerOfTwo(k));
    NextDigit(value, newResult, newRest, root, k);
  }

  /** integer_sqrt */
  method Sqrt(value: u32) returns (root: nat)
    ensures IsRoot(root, value)
  {
    var bit, k := FirstBit(value);
    var result, rest := 0, value;
    ghost var r := 0;
    FirstDigit(value, k);
    hide *;
    while bit != 0
      invariant k >= -1 && bit == Square(k)
      invariant rest >= 0 && r >= 0 && Partial(value, result, rest, r, k)
      decreases k
    {
      BitIsThere(k);
      result, rest, bit, r := TakeDigit(value, result, rest, bit, r, k);
      k := k - 1;
    }
    AfterDigits(value, result, rest, r, k);
    root := result;
  }
}
