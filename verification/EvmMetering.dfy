/** Gas and memory accounting of the interpreter (VM.cpp:134-137, 199-229; VM.h:160-167;
    Yellow Paper, Appendix H): the prices as exact numbers, and the bounds that make the 64-bit
    arithmetic and the 32-bit memory offsets of the source exact. */
module EvmMetering {
  import opened Bytes
  import opened Options

  const UINT64: nat := 0x1_0000_0000_0000_0000
  const UINT32: nat := 0x1_0000_0000
  const INT63: nat := 0x7FFF_FFFF_FFFF_FFFF

  const MEMORY_GAS := 3
  const QUAD_COEFF_DIV := 512
  const COPY_GAS := 3

  /** toInt63: None where it throws OutOfGas. */
  function ToInt63(v: nat): (r: Option<nat>)
    ensures r.Some? <==> v <= INT63
  {
    if v > INT63 then None else Some(v)
  }

  /** The total price of a memory of `size` bytes. */
  function MemCost(size: nat): nat {
    MEMORY_GAS * (size / 32) + (size / 32) * (size / 32) / QUAD_COEFF_DIV
  }

  function RoundUp(n: nat): (r: nat)
    ensures n <= r < n + 32 && r % 32 == 0
  {
    (n + 31) / 32 * 32
  }

  lemma SquareMono(a: nat, b: nat)
    requires a <= b
    ensures a * a <= b * b
  {
  }

  lemma QuotientMono(a: nat, b: nat)
    requires a <= b
    ensures a / QUAD_COEFF_DIV <= b / QUAD_COEFF_DIV
  {
  }

  lemma MemCostMono(a: nat, b: nat)
    requires a <= b
    ensures MemCost(a) <= MemCost(b)
  {
    SquareMono(a / 32, b / 32);
    QuotientMono((a / 32) * (a / 32), (b / 32) * (b / 32));
  }

  /** A memory that costs less than 2^45 is smaller than 2^32 bytes. */
  lemma SmallMemory(size: nat)
    requires MemCost(size) < 0x2000_0000_0000
    ensures size < UINT32
  {
    assert MemCost(UINT32) >= 0x2000_0000_0000;
    if size >= UINT32 {
      MemCostMono(UINT32, size);
    }
  }

  /** memNeed: None where it throws OutOfGas. */
  function MemNeed(offset: nat, size: nat): Option<nat> {
    ToInt63(if size != 0 then offset + size else 0)
  }

  /** What an instruction costs: gas of its own, memory it needs, bytes it copies. */
  datatype Price = Price(run: nat, need: nat, copy: nat)

  function CopyCost(copy: nat): nat {
    COPY_GAS * ((copy + 31) / 32)
  }

  /** Prices the source computes without overflow on the way. */
  predicate Sane(p: Price) {
    p.need <= INT63 + 32 && p.run + CopyCost(p.copy) <= INT63 + 1
  }

  /** Growing the memory to `after` bytes: None where gasForMem throws. */
  function GrowthTo(size: nat, after: nat): (g: Option<nat>)
    ensures g.Some? ==> g.value <= INT63
  {
    if after <= size then Some(0)
    else if MemCost(after) > INT63 then None
    else
      MemCostMono(size, after);
      Some(MemCost(after) - MemCost(size))
  }

  /** ... to `need` bytes, rounded up to words. */
  function Growth(size: nat, need: nat): Option<nat> {
    GrowthTo(size, RoundUp(need))
  }

  function Grown(mem: seq<octet>, need: nat): (m: seq<octet>)
    ensures |m| == if RoundUp(need) > |mem| then RoundUp(need) else |mem|
    ensures m[..|mem|] == mem
  {
    if RoundUp(need) > |mem| then mem + seq(RoundUp(need) - |mem|, _ => 0) else mem
  }

  datatype Paid = Paid(gas: nat, mem: seq<octet>)

  /** updateMem and updateIOGas: None where they throw OutOfGas. */
  function Charge(gas: nat, mem: seq<octet>, p: Price): Option<Paid> {
    match Growth(|mem|, p.need)
    case None => None
    case Some(growth) =>
      var total := p.run + growth + CopyCost(p.copy);
      if gas < total then None else Some(Paid(gas - total, Grown(mem, p.need)))
  }

  /** Paying keeps gas and memory together from growing, by at least the instruction's own price. */
  lemma ChargeConserves(gas: nat, mem: seq<octet>, p: Price)
    requires Charge(gas, mem, p).Some?
    ensures var q := Charge(gas, mem, p).value;
      && q.gas + MemCost(|q.mem|) + p.run + CopyCost(p.copy) == gas + MemCost(|mem|)
      && q.gas + p.run <= gas
      && |mem| <= |q.mem| && p.need <= |q.mem| && (|mem| % 32 == 0 ==> |q.mem| % 32 == 0)
  {
  }

  /** The sums of updateGas fit 64 bits. */
  lemma NoOverflow(size: nat, p: Price)
    requires Sane(p) && Growth(size, p.need).Some?
    ensures p.run + Growth(size, p.need).value + CopyCost(p.copy) < UINT64
    ensures RoundUp(p.need) < UINT64
  {
  }
}
