/** exp256 (VMOpt.cpp:179-197): exponentiation by squaring, in arithmetic that wraps. */
module EvmArith {
  import opened Bytes
  import opened EvmCode
  import opened EvmStep

  lemma {:induction false} PowerAdd(b: nat, m: nat, n: nat)
    ensures Power(b, m + n) == Power(b, m) * Power(b, n)
    decreases m
  {
    if m > 0 {
      PowerAdd(b, m - 1, n);
      Associate(b, Power(b, m - 1), Power(b, n));
    }
  }

  lemma Associate(a: nat, b: nat, c: nat)
    ensures a * (b * c) == a * b * c
  {
  }

  lemma {:induction false} PowerOfSquare(b: nat, n: nat)
    ensures Power(b * b, n) == Power(b, 2 * n)
    decreases n
  {
    if n > 0 {
      PowerOfSquare(b, n - 1);
      assert Power(b, 2 * n) == b * Power(b, 2 * n - 1) == b * (b * Power(b, 2 * n - 2));
      Associate(b, b, Power(b, 2 * n - 2));
    }
  }

  lemma Unique(m: nat, q1: int, r1: nat, q2: int, r2: nat)
    requires r1 < m && r2 < m && q1 * m + r1 == q2 * m + r2
    ensures r1 == r2
  {
    var d := q1 - q2;
    assert d * m == q1 * m - q2 * m == r2 - r1;
    Multiple(d, m);
  }

  lemma Remainder(a: nat, q: nat, r: nat, m: nat)
    requires m > 0 && a == q * m + r
    ensures a % m == r % m
  {
    assert a == (a / m) * m + a % m && r == (r / m) * m + r % m;
    assert (q + r / m) * m == q * m + (r / m) * m;
    Unique(m, a / m, a % m, q + r / m, r % m);
  }

  /** A factor may be reduced first. */
  lemma ReduceFactor(a: nat, b: nat, m: nat)
    requires m > 0
    ensures (a % m * b) % m == (a * b) % m
  {
    var q := a / m;
    assert a == q * m + a % m;
    assert a * b == (q * b) * m + a % m * b by {
      assert (q * m + a % m) * b == q * m * b + a % m * b;
      assert q * m * b == q * b * m;
    }
    Remainder(a * b, q * b, a % m * b, m);
  }

  lemma {:induction false} ReduceBase(b: nat, n: nat, m: nat)
    requires m > 0
    ensures Power(b % m, n) % m == Power(b, n) % m
    decreases n
  {
    if n > 0 {
      var x, y := Power(b % m, n - 1), Power(b, n - 1);
      ReduceBase(b, n - 1, m);
      ReduceFactor(b, x, m);
      ReduceFactor(x, b, m);
      ReduceFactor(y, b, m);
      assert b * x == x * b && b * y == y * b;
    }
  }

  lemma Commute(a: nat, b: nat)
    ensures a * b == b * a
  {
  }

  /** The square may be reduced as well. */
  lemma ReduceSquare(r: nat, base: nat, h: nat, m: nat)
    requires m > 0
    ensures r * Power(base * base % m, h) % m == r * Power(base, 2 * h) % m
  {
    hide Power;
    var x, y := Power(base * base % m, h), Power(base, 2 * h);
    PowerOfSquare(base, h);
    ReduceBase(base * base, h, m);
    ReduceFactor(x, r, m);
    ReduceFactor(y, r, m);
    Commute(r, x);
    Commute(r, y);
  }

  /** One turn of the loop: what is still to be multiplied stays the same. */
  lemma OneTurn(result: nat, base: nat, e: nat, m: nat)
    requires m > 0 && e > 0
    ensures var r := if e % 2 == 1 then result * base % m else result;
      r * Power(base * base % m, e / 2) % m == result * Power(base, e) % m
  {
    var h := e / 2;
    var p := Power(base, 2 * h);
    if e % 2 == 1 {
      assert Power(base, e) == base * p;
      hide Power;
      ReduceSquare(result * base % m, base, h, m);
      ReduceFactor(result * base, p, m);
      Associate(result, base, p);
    } else {
      ReduceSquare(result, base, h, m);
    }
  }

  method Exp256(base: word, exponent: word) returns (result: word)
    ensures result == AsWord(Power(base, exponent))
  {
    hide Power;
    result := 1;
    var b: nat, e: nat := base, exponent;
    while e > 0
      invariant b < WORD_LIMIT
      invariant AsWord(result as nat * Power(b, e)) == AsWord(Power(base, exponent))
    {
      OneTurn(result, b, e, WORD_LIMIT);
      if e % 2 == 1 {
        result := AsWord(result as nat * b);
      }
      b := AsWord(b * b);
      e := e / 2;
    }
    PowerZero(b);
  }

  lemma PowerZero(b: nat)
    ensures Power(b, 0) == 1
  {
  }
}
