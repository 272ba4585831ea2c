/** The block gas limit (SealEngine.cpp:34-39, 110-123, 241-252; BlockHeader.cpp:200-208): the rule a
    miner follows and the bounds every verifier checks (Yellow Paper, section 4.3.4). */
module GasLimits {
  const U256: nat := 0x1_00000000_00000000_00000000_00000000_00000000_00000000_00000000_00000000
  const INVALID256: nat := U256 - 1
  const DEFAULT_FLOOR := 3141562

  datatype Params = Params(minGasLimit: nat, maxGasLimit: nat, boundDivisor: nat)

  /** Limits small enough for sums of two of them to fit 256 bits; a divisor to divide by. */
  predicate Sensible(p: Params) {
    p.boundDivisor > 0 && p.minGasLimit <= p.maxGasLimit && 2 * p.maxGasLimit < U256
  }

  /** The target, with the default where none was given. */
  function Floor(target: nat): nat {
    if target == INVALID256 then DEFAULT_FLOOR else target
  }

  /** The step by which a limit may change. */
  function Share(n: nat, divisor: nat): nat
    requires divisor > 0
  {
    n / divisor
  }

  /** calculateGasLimit, in 256-bit arithmetic. */
  function CalculateGasLimit(p: Params, gasLimit: nat, gasUsed: nat, target: nat): nat
    requires p.boundDivisor > 0
  {
    var floor := Floor(target);
    if gasLimit < floor then
      var up := (gasLimit + Share(gasLimit, p.boundDivisor) - 1) % U256;
      if floor < up then floor else up
    else
      var down := (gasLimit - Share(gasLimit, p.boundDivisor) + 1
        + Share(gasUsed * 6 % U256 / 5, p.boundDivisor)) % U256;
      if floor > down then floor else down
  }

  /** What SealEngineFace::verify asks of a gas limit, given the parent's. */
  predicate Accepted(p: Params, gasLimit: nat, parent: nat)
    requires p.boundDivisor > 0
  {
    && p.minGasLimit <= gasLimit <= p.maxGasLimit
    && gasLimit > parent - Share(parent, p.boundDivisor)
    && gasLimit < parent + Share(parent, p.boundDivisor)
  }

  class BlockHeader {
    var number: nat
    var gasLimit: nat
    var gasUsed: nat

    constructor (number: nat, gasLimit: nat, gasUsed: nat)
      ensures this.number == number && this.gasLimit == gasLimit && this.gasUsed == gasUsed
    {
      this.number, this.gasLimit, this.gasUsed := number, gasLimit, gasUsed;
    }

    method PopulateFromParent(parent: BlockHeader)
      modifies this
      ensures number == old(parent.number) + 1 && gasLimit == old(parent.gasLimit) && gasUsed == 0
    {
      number := parent.number + 1;
      gasLimit := parent.gasLimit;
      gasUsed := 0;
    }

    /** NoProof::populateFromParent, its gas limit.  The new header passes the verifier's bounds exactly
        when the parent's limit is at least the divisor. */
    method Populate(p: Params, parent: BlockHeader, target: nat)
      requires Sensible(p) && p.minGasLimit <= Floor(target) <= p.maxGasLimit
      requires p.minGasLimit <= parent.gasLimit <= p.maxGasLimit && parent != this
      modifies this
      ensures number == parent.number + 1 && gasUsed == 0
      ensures gasLimit == CalculateGasLimit(p, parent.gasLimit, 0, target)
      ensures Accepted(p, gasLimit, parent.gasLimit) <==> parent.gasLimit >= p.boundDivisor
    {
      PopulateFromParent(parent);
      AcceptedExactly(p, gasLimit, target);
      gasLimit := CalculateGasLimit(p, gasLimit, gasUsed, target);
    }
  }

  lemma Product(a: nat, b: nat, d: nat)
    requires a <= b
    ensures a * d <= b * d
  {
  }

  lemma AtLeast(g: nat, d: nat, k: nat)
    requires d > 0
    ensures Share(g, d) >= k <==> g >= k * d
  {
    var q := g / d;
    assert g == q * d + g % d;
    if q >= k {
      Product(k, q, d);
    } else {
      Product(q + 1, k, d);
      assert (q + 1) * d == q * d + d;
    }
  }

  lemma Shares(g: nat, d: nat)
    requires d > 0
    ensures Share(g, d) <= g && Share(0, d) == 0
    ensures (Share(g, d) >= 1 <==> g >= d) && (Share(g, d) >= 2 <==> g >= 2 * d)
  {
    AtLeast(g, d, 1);
    AtLeast(g, d, 2);
    AtLeast(0, d, 1);
    AtLeast(g, d, g + 1);
    Product(1, d, g + 1);
  }

  /** From any parent within the limits. */
  lemma AcceptedExactly(p: Params, parent: nat, target: nat)
    requires Sensible(p) && p.minGasLimit <= Floor(target) <= p.maxGasLimit && p.minGasLimit <= parent <= p.maxGasLimit
    ensures Accepted(p, CalculateGasLimit(p, parent, 0, target), parent) <==> parent >= p.boundDivisor
  {
    Shares(parent, p.boundDivisor);
    NextLimit(p, parent, target);
    hide Share, CalculateGasLimit, Floor;
  }

  /** The rule without the wrap-around, for an empty block. */
  lemma NextLimit(p: Params, g: nat, target: nat)
    requires Sensible(p) && Floor(target) <= p.maxGasLimit && g <= p.maxGasLimit
    ensures var floor, q := Floor(target), Share(g, p.boundDivisor);
      && q <= g
      && (g < floor && g + q >= 1 ==>
        CalculateGasLimit(p, g, 0, target) == if floor < g + q - 1 then floor else g + q - 1)
      && (g < floor && g + q == 0 ==> CalculateGasLimit(p, g, 0, target) == floor)
      && (g >= floor ==> CalculateGasLimit(p, g, 0, target) == if floor > g - q + 1 then floor else g - q + 1)
  {
    hide Share, Floor, CalculateGasLimit;
    Shares(g, p.boundDivisor);
    if g < Floor(target) {
      Raised(p, g, target);
    } else {
      Lowered(p, g, target);
    }
  }

  lemma Raised(p: Params, g: nat, target: nat)
    requires Sensible(p) && g < Floor(target) <= p.maxGasLimit && Share(g, p.boundDivisor) <= g
    ensures var floor, q := Floor(target), Share(g, p.boundDivisor);
      CalculateGasLimit(p, g, 0, target) == if g + q == 0 || floor < g + q - 1 then floor else g + q - 1
  {
    hide Share, Floor;
    Unwrapped(g + Share(g, p.boundDivisor) - 1);
  }

  lemma Lowered(p: Params, g: nat, target: nat)
    requires Sensible(p) && Floor(target) <= g <= p.maxGasLimit
    requires Share(g, p.boundDivisor) <= g && Share(0, p.boundDivisor) == 0
    ensures var floor, q := Floor(target), Share(g, p.boundDivisor);
      CalculateGasLimit(p, g, 0, target) == if floor > g - q + 1 then floor else g - q + 1
  {
    hide Share, Floor;
    assert 0 * 6 % U256 / 5 == 0;
    Unwrapped(g - Share(g, p.boundDivisor) + 1);
  }

  lemma Unwrapped(n: int)
    requires -1 <= n < U256
    ensures n % U256 == if n < 0 then U256 - 1 else n
  {
  }

  /** The verifier's bounds: a limit differs from its parent's by less than a share of that. */
  lemma BoundsRule(p: Params, gasLimit: nat, parent: nat)
    requires p.boundDivisor > 0
    ensures Accepted(p, gasLimit, parent) <==>
      p.minGasLimit <= gasLimit <= p.maxGasLimit
        && -(parent / p.boundDivisor) < gasLimit - parent < parent / p.boundDivisor
  {
  }

  // ---------------------------------------------------------------- blocks that use gas

  /** The rule in plain numbers: a limit below the target goes up by one less than a share of itself; else
      it goes down by as much, and up again by a share of six fifths of the gas used. */
  lemma LimitRule(p: Params, g: nat, used: nat, target: nat)
    requires Sensible(p) && 0 < g <= p.maxGasLimit && used <= g && Floor(target) <= p.maxGasLimit
    requires 6 * p.maxGasLimit < U256
    ensures
      var floor, d := if target == U256 - 1 then 3141562 else target, p.boundDivisor;
      CalculateGasLimit(p, g, used, target) ==
        if g < floor then (if floor < g + g / d - 1 then floor else g + g / d - 1)
        else if floor > g - g / d + 1 + used * 6 / 5 / d then floor
        else g - g / d + 1 + used * 6 / 5 / d
  {
    var d := p.boundDivisor;
    Shares(g, d);
    Shares(used * 6 / 5, d);
    SmallProduct(used);
    LimitIs(p, g, used, target, g / d, used * 6 / 5 / d);
    hide CalculateGasLimit;
  }

  lemma SmallProduct(used: nat)
    requires 6 * used < U256
    ensures used * 6 % U256 == used * 6
  {
  }

  lemma LimitIs(p: Params, g: nat, used: nat, target: nat, q: nat, x: nat)
    requires p.boundDivisor > 0 && q <= g && 0 < g && 2 * g < U256 && g - q + 1 + x < U256
    requires Share(g, p.boundDivisor) == q && Share(used * 6 % U256 / 5, p.boundDivisor) == x
    ensures
      var floor := Floor(target);
      CalculateGasLimit(p, g, used, target) ==
        if g < floor then (if floor < g + q - 1 then floor else g + q - 1)
        else if floor > g - q + 1 + x then floor
        else g - q + 1 + x
  {
    hide Share;
    Unwrapped(g + q - 1);
    Unwrapped(g - q + 1 + x);
  }

  /** From a limit above the target, a block at least five sixths full raises it. */
  lemma FullBlocksKeep(p: Params, g: nat, used: nat, target: nat)
    requires Sensible(p) && 0 < g <= p.maxGasLimit && used <= g && Floor(target) <= g && 6 * p.maxGasLimit < U256
    requires 6 * used >= 5 * g
    ensures CalculateGasLimit(p, g, used, target) > g
  {
    LimitRule(p, g, used, target);
    SharesMono(g, used * 6 / 5, p.boundDivisor);
  }

  lemma SharesMono(a: nat, b: nat, d: nat)
    requires d > 0 && a <= b
    ensures a / d <= b / d
  {
    AtLeast(b, d, a / d);
  }

  // ---------------------------------------------------------------- many blocks

  /** The limit after `n` empty blocks. */
  function After(p: Params, g: nat, target: nat, n: nat): nat
    requires p.boundDivisor > 0
    decreases n
  {
    if n == 0 then g else After(p, CalculateGasLimit(p, g, 0, target), target, n - 1)
  }

  predicate InRange(p: Params, g: nat, target: nat) {
    Sensible(p) && p.minGasLimit <= Floor(target) <= p.maxGasLimit && p.minGasLimit <= g <= p.maxGasLimit
      && g >= p.boundDivisor
  }

  /** One block moves the limit towards the target and never past it; it moves at all exactly when the
      limit is at least twice the divisor, or the target is reached. */
  lemma Towards(p: Params, g: nat, target: nat)
    requires InRange(p, g, target)
    ensures var floor, next := Floor(target), CalculateGasLimit(p, g, 0, target);
      && InRange(p, next, target)
      && (g <= floor ==> g <= next <= floor) && (g >= floor ==> floor <= next <= g)
      && (next == g <==> g == floor || g < 2 * p.boundDivisor)
  {
    Shares(g, p.boundDivisor);
    NextLimit(p, g, target);
    StaysLarge(g, p.boundDivisor);
    hide Share, CalculateGasLimit, Floor;
  }

  /** A limit of at least twice the divisor does not fall by more than to one less than that. */
  lemma StaysLarge(g: nat, d: nat)
    requires d > 0
    ensures g >= 2 * d ==> g - Share(g, d) + 1 >= 2 * d - 1
    ensures g >= d ==> g - Share(g, d) + 1 >= d
  {
    var q, r := g / d, g % d;
    assert g == q * d + r;
    if g >= d {
      AtLeast(g, d, 1);
      AtLeast(g, d, 2);
      assert q * d - q == q * (d - 1);
      Product(1, q, d - 1);
      if q >= 2 {
        Product(2, q, d - 1);
      }
    }
  }

  /** Can the target be reached from here? */
  predicate Reachable(p: Params, g: nat, target: nat) {
    g == Floor(target) || (g >= 2 * p.boundDivisor && (g < Floor(target) || Floor(target) >= 2 * p.boundDivisor - 1))
  }

  function Distance(g: nat, floor: nat): nat {
    if g < floor then floor - g else g - floor
  }

  lemma ReachableOn(p: Params, g: nat, target: nat)
    requires InRange(p, g, target)
    ensures Reachable(p, CalculateGasLimit(p, g, 0, target), target) <==> Reachable(p, g, target)
  {
    Towards(p, g, target);
    Shares(g, p.boundDivisor);
    NextLimit(p, g, target);
    StaysLarge(g, p.boundDivisor);
    hide Share, CalculateGasLimit, Floor;
  }

  /** Empty blocks bring the limit to the target, monotonically and in finitely many steps, exactly when
      the target can be reached. */
  lemma {:induction false} Converges(p: Params, g: nat, target: nat) returns (n: nat)
    requires InRange(p, g, target) && Reachable(p, g, target)
    ensures n <= Distance(g, Floor(target)) && After(p, g, target, n) == Floor(target)
    decreases Distance(g, Floor(target))
  {
    if g == Floor(target) {
      n := 0;
    } else {
      Towards(p, g, target);
      ReachableOn(p, g, target);
      hide CalculateGasLimit, Floor;
      var m := Converges(p, CalculateGasLimit(p, g, 0, target), target);
      n := m + 1;
    }
  }

  lemma {:induction false} OnlyThen(p: Params, g: nat, target: nat, n: nat)
    requires InRange(p, g, target) && After(p, g, target, n) == Floor(target)
    ensures Reachable(p, g, target)
    decreases n
  {
    if n > 0 {
      Towards(p, g, target);
      ReachableOn(p, g, target);
      hide CalculateGasLimit, Floor, Reachable, InRange;
      OnlyThen(p, CalculateGasLimit(p, g, 0, target), target, n - 1);
    }
  }

  /** A parent below the divisor: the limit a miner computes is refused. */
  lemma SmallParentRefused()
    ensures var p := Params(1, 1000000, 1024);
      CalculateGasLimit(p, 1000, 0, 1000) == 1001 && !Accepted(p, 1001, 1000)
  {
  }

  /** A limit below twice the divisor: empty blocks never raise it to a target above. */
  lemma SmallLimitStays(n: nat)
    ensures After(Params(1, 1000000, 1024), 2000, 3000, n) != 3000
  {
    if After(Params(1, 1000000, 1024), 2000, 3000, n) == 3000 {
      OnlyThen(Params(1, 1000000, 1024), 2000, 3000, n);
    }
  }
}
