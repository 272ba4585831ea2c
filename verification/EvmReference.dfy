/** When an instruction goes through and what it costs, in the numbers of the Yellow Paper, Appendices
    G and H, and without any of the 63-bit cut-offs of the source (VM.cpp:199-229, 287-1417;
    VMCalls.cpp:102-280): both come to the same. */
module EvmReference {
  import opened Bytes
  import opened Options
  import opened EvmCode
  import opened EvmMetering
  import opened EvmStep
  import opened EvmRuns

  // ---------------------------------------------------------------- the stack

  /** The instructions that are not left to the host. */
  predicate Known(op: octet) {
    op <= 0x03 || op == 0x0a || op == 0x20 || op == 0x37 || op == 0x39 || op == 0x3c || op == 0x3e
    || 0x50 <= op <= 0x53 || 0x56 <= op <= 0x5b || 0x60 <= op <= 0xa4 || 0xac <= op <= 0xae
    || 0xf0 <= op <= 0xf5 || op == 0xfa || op == 0xfd || op == 0xff
  }

  /** Words taken from the stack. */
  function Inputs(op: octet): nat {
    if op == 0xf1 || op == 0xf2 then 7
    else if op == 0xf4 || op == 0xfa then 6
    else if op == 0x3c || op == 0xf5 then 4
    else if op == 0x37 || op == 0x39 || op == 0x3e || op == 0xf0 then 3
    else if 0x01 <= op <= 0x03 || op == 0x0a || op == 0x20 || op == 0x52 || op == 0x53 then 2
    else if op == 0x57 || op == 0xae || op == 0xf3 || op == 0xfd then 2
    else if op == 0x50 || op == 0x51 || op == 0x56 || op == 0xad || op == 0xff then 1
    else if 0x80 <= op <= 0x8f then op - 0x7f
    else if 0x90 <= op <= 0x9f then op - 0x8e
    else if 0xa0 <= op <= 0xa4 then op - 0x9e
    else 0
  }

  /** Words put there. */
  function Outputs(op: octet): nat {
    if 0x80 <= op <= 0x8f then op - 0x7e
    else if 0x90 <= op <= 0x9f then op - 0x8e
    else if 0x01 <= op <= 0x03 || op == 0x0a || op == 0x20 || op == 0x51 || 0x58 <= op <= 0x5a then 1
    else if 0x60 <= op <= 0x7f || op == 0xac || 0xf0 <= op <= 0xf2 || op == 0xf4 || op == 0xf5 || op == 0xfa then 1
    else 0
  }

  lemma KnownExactly(op: octet)
    ensures Known(op) <==> Modelled(op)
    ensures Known(op) ==> Args(op) == Inputs(op) && Returned(op) == Outputs(op)
  {
  }

  // ---------------------------------------------------------------- prices

  function Max(a: nat, b: nat): nat {
    if a > b then a else b
  }

  function Words(size: nat): nat {
    (size + 31) / 32
  }

  /** C_mem of the Yellow Paper. */
  function MemoryFee(size: nat): nat {
    3 * Words(size) + Words(size) * Words(size) / 512
  }

  /** The end of a range of memory; an empty one touches nothing. */
  function Span(offset: nat, size: nat): nat {
    if size == 0 then 0 else offset + size
  }

  /** Behind the last byte of memory the instruction touches. */
  function Reached(s: State, op: octet): nat
    requires |s.stack| >= Inputs(op)
  {
    if op == 0x51 || op == 0x52 then s.stack[0] + 32
    else if op == 0x53 then s.stack[0] + 1
    else if op == 0x20 || 0xa0 <= op <= 0xa4 || op == 0xf3 || op == 0xfd then Span(s.stack[0], s.stack[1])
    else if op == 0x37 || op == 0x39 || op == 0x3e then Span(s.stack[0], s.stack[2])
    else if op == 0x3c then Span(s.stack[1], s.stack[3])
    else if op == 0xf0 || op == 0xf5 then Span(s.stack[1], s.stack[2])
    else if op == 0xf1 || op == 0xf2 then Max(Span(s.stack[3], s.stack[4]), Span(s.stack[5], s.stack[6]))
    else if op == 0xf4 || op == 0xfa then Max(Span(s.stack[2], s.stack[3]), Span(s.stack[4], s.stack[5]))
    else 0
  }

  /** The instruction's own price, without memory. */
  function Fee(env: Env, h: Host, s: State, op: octet): nat
    requires |env.table| == 256 && |s.stack| >= Inputs(op)
  {
    var cost := env.table[op].gas;
    if op == 0x5b then 1
    else if op == 0x0a then 10 + (if env.rev >= 3 then 50 else 10) * ExponentBytes(s.stack[1])
    else if op == 0x20 then 30 + 6 * Words(s.stack[1])
    else if 0xa0 <= op <= 0xa4 then 375 + 375 * (op - 0xa0) + 8 * s.stack[1] as nat
    else if op == 0x37 || op == 0x39 || op == 0x3e then cost + 3 * Words(s.stack[2])
    else if op == 0x3c then (if env.rev >= 2 then 700 else 20) + 3 * Words(s.stack[3])
    else if op == 0xf0 then 32000
    else if op == 0xf5 then 32000 + 6 * Words(s.stack[2])
    else if op == 0xf1 then
      (if env.rev >= 2 then 700 else 40)
      + (if !h.known && (s.stack[2] > 0 || env.rev < 3) then 25000 else 0)
      + (if s.stack[2] > 0 then 9000 else 0)
    else if op == 0xf2 then (if env.rev >= 2 then 700 else 40) + (if s.stack[2] > 0 then 9000 else 0)
    else if op == 0xf4 || op == 0xfa then if env.rev >= 2 then 700 else 40
    else if op == 0xff then
      if env.rev < 2 then 0
      else 5000 + (if !h.known && (h.balance > 0 || env.rev < 3) then 25000 else 0)
    else if Known(op) then cost
    else h.cost
  }

  lemma WordsMono(a: nat, b: nat)
    requires a <= b
    ensures MemoryFee(a) <= MemoryFee(b)
  {
    var v, w := Words(a), Words(b);
    SquareMono(v, w);
    QuotientMono(v * v, w * w);
  }

  /** What growing the memory to its new end costs. */
  function Growing(size: nat, reached: nat): nat {
    if reached <= size then 0
    else WordsMono(size, reached); MemoryFee(reached) - MemoryFee(size)
  }

  /** All that is taken from the gas. */
  function Total(env: Env, h: Host, s: State, op: octet): nat
    requires |env.table| == 256 && |s.stack| >= Inputs(op)
  {
    Fee(env, h, s, op) + Growing(|s.mem|, Reached(s, op))
  }

  /** Memory comes in whole words, and with what is left of the gas it is worth less than 2^63; so it is
      along every run that starts with less than 2^63 gas (EvmRuns.RunConserves). */
  predicate Solvent(s: State) {
    |s.mem| % 32 == 0 && s.gas + MemoryFee(|s.mem|) < 0x8000_0000_0000_0000
  }

  lemma SolventOn(p: Program, env: Env, h: Host, s: State)
    requires Standard(env.table) && Priced(env.table) && Honest(p, env, h, s) && Solvent(s)
    requires Step(p, env, h, s).Go?
    ensures Solvent(Step(p, env, h, s).state)
  {
    StepConserves(p, env, h, s);
    FeeOfWholeWords(|s.mem|, 0);
    FeeOfWholeWords(|Step(p, env, h, s).state.mem|, 0);
    hide Step, Honest, MemCost, MemoryFee;
  }

  /** The bytes in use of an exponent. */
  lemma {:induction false} ExponentRule(e: nat)
    ensures e < Exp256(ExponentBytes(e))
    ensures e > 0 ==> ExponentBytes(e) > 0 && Exp256(ExponentBytes(e) - 1) <= e
  {
    if e > 0 {
      ExponentRule(e / 256);
    }
  }

  // ---------------------------------------------------------------- the cut-offs make no difference

  lemma FeeOfWholeWords(size: nat, need: nat)
    requires size % 32 == 0
    ensures MemoryFee(size) == MemCost(size) && MemCost(RoundUp(need)) == MemoryFee(need)
    ensures RoundUp(need) > size <==> need > size
    ensures RoundUp(need) == 32 * Words(need)
  {
    assert size / 32 == Words(size) && RoundUp(need) / 32 == Words(need);
  }

  /** Memory of 2^63 bytes costs more than there can be gas. */
  lemma TooMuchMemory(gas: nat, size: nat, need: nat)
    requires need > INT63 && gas + MemoryFee(size) <= INT63
    ensures Growing(size, need) > gas
  {
    WordsMono(INT63, need);
    assert Words(INT63) == 0x0400_0000_0000_0000;
    assert MemoryFee(INT63) > INT63;
    if need <= size {
      WordsMono(need, size);
    }
  }

  lemma ChargeExact(gas: nat, mem: seq<octet>, price: Price)
    requires |mem| % 32 == 0 && gas + MemoryFee(|mem|) <= INT63
    ensures var total := price.run + CopyCost(price.copy) + Growing(|mem|, price.need);
      Charge(gas, mem, price) == if total > gas then None else Some(Paid(gas - total, Grown(mem, price.need)))
  {
    FeeOfWholeWords(|mem|, price.need);
    hide MemCost, MemoryFee, CopyCost, RoundUp, Grown;
  }

  /** The price of the model in these terms; where it gives up, gas could not suffice. */
  ghost predicate PriceAgrees(env: Env, h: Host, s: State, op: octet)
    requires Standard(env.table) && |s.stack| >= Inputs(op) && |s.stack| >= env.table[op].args
  {
    match PriceOf(env, h, s, op)
    case Some(price) => price.run + CopyCost(price.copy) == Fee(env, h, s, op) && price.need == Reached(s, op)
    case None => Fee(env, h, s, op) > INT63 || Reached(s, op) > INT63
  }

  lemma PriceMeans(env: Env, h: Host, s: State, op: octet)
    requires Standard(env.table) && |s.stack| >= Inputs(op) && |s.stack| >= env.table[op].args
    ensures PriceAgrees(env, h, s, op)
  {
    hide ExponentBytes, PriceAgrees, Standard;
    if IsCall(op) || IsCreate(op) {
      CallPriceMeans(env, h, s, op);
    } else if IsMemory(op) {
      MemoryPriceMeans(env, h, s, op);
    } else {
      PlainPriceMeans(env, h, s, op);
    }
  }

  lemma CallPriceMeans(env: Env, h: Host, s: State, op: octet)
    requires Standard(env.table) && |s.stack| >= Inputs(op) && |s.stack| >= env.table[op].args
    requires IsCall(op) || IsCreate(op)
    ensures PriceAgrees(env, h, s, op)
  {
    hide ExponentBytes, Standard;
  }

  lemma MemoryPriceMeans(env: Env, h: Host, s: State, op: octet)
    requires Standard(env.table) && |s.stack| >= Inputs(op) && |s.stack| >= env.table[op].args && IsMemory(op)
    ensures PriceAgrees(env, h, s, op)
  {
    hide ExponentBytes, Standard;
  }

  lemma PlainPriceMeans(env: Env, h: Host, s: State, op: octet)
    requires Standard(env.table) && |s.stack| >= Inputs(op) && |s.stack| >= env.table[op].args
    requires !IsCall(op) && !IsCreate(op) && !IsMemory(op)
    ensures PriceAgrees(env, h, s, op)
  {
    hide ExponentBytes, Standard;
    KnownExactly(op);
  }

  lemma Chargeable(env: Env, h: Host, s: State, op: octet)
    requires Standard(env.table) && Solvent(s) && |s.stack| >= Inputs(op) && |s.stack| >= env.table[op].args
    ensures match PriceOf(env, h, s, op)
      case Some(price) =>
        Charge(s.gas, s.mem, price) ==
          if Total(env, h, s, op) > s.gas then None
          else Some(Paid(s.gas - Total(env, h, s, op), Widened(s.mem, Reached(s, op))))
      case None => Total(env, h, s, op) > s.gas
  {
    PriceMeans(env, h, s, op);
    hide PriceOf, Fee, Reached, Charge, Grown, Widened, MemoryFee, Growing, CopyCost, Standard;
    match PriceOf(env, h, s, op)
    case Some(price) =>
      ChargeExact(s.gas, s.mem, price);
      GrownMemory(s.mem, price.need);
    case None =>
      if Reached(s, op) > INT63 {
        TooMuchMemory(s.gas, |s.mem|, Reached(s, op));
      }
  }

  /** What the instruction at the program counter pays. */
  lemma PaymentExact(p: Program, env: Env, h: Host, s: State)
    requires Standard(env.table) && Solvent(s)
    requires var op := ByteAt(p.code, s.pc); |s.stack| >= Inputs(op) && |s.stack| >= env.table[op].args
    ensures
      var op := ByteAt(p.code, s.pc);
      var total := Total(env, h, s, op);
      if total > s.gas then Payment(p, env, h, s) == None
      else Payment(p, env, h, s) == Some(Paid(s.gas - total, Widened(s.mem, Reached(s, op))))
  {
    hide PriceOf, Total, Reached, Charge, Widened, Standard, Solvent;
    Chargeable(env, h, s, ByteAt(p.code, s.pc));
  }

  /** The memory paid for: the old one, and zeros up to the next whole word. */
  function Widened(mem: seq<octet>, reached: nat): (m: seq<octet>)
    ensures |m| == Max(|mem|, 32 * Words(reached)) && |m| >= reached
  {
    seq<octet>(Max(|mem|, 32 * Words(reached)), i requires i >= 0 => if i < |mem| then mem[i] else 0)
  }

  lemma GrownMemory(mem: seq<octet>, reached: nat)
    requires |mem| % 32 == 0
    ensures Grown(mem, reached) == Widened(mem, reached)
  {
    FeeOfWholeWords(|mem|, reached);
  }

  // ---------------------------------------------------------------- which steps go through

  /** What the instruction throws whatever it would cost. */
  function Illegal(p: Program, env: Env, h: Host, s: State, op: octet): Option<Error>
    requires |s.stack| >= Inputs(op)
  {
    if op == 0xfe || (0xac <= op <= 0xae && !p.optimised) then Some(BadInstruction)
    else if (op == 0x3e || op == 0xfa || op == 0xfd) && env.rev < 4 then Some(BadInstruction)
    else if (op == 0xf5 && env.rev < 5) || (op == 0xf4 && env.rev < 1) then Some(BadInstruction)
    else if env.readOnly
            && (0xa0 <= op <= 0xa4 || op == 0xf0 || op == 0xf5 || op == 0xff || (op == 0xf1 && s.stack[2] > 0))
    then Some(DisallowedStateChange)
    else if op == 0x3e && s.stack[1] as nat + s.stack[2] as nat > |s.ret| then Some(BufferOverrun)
    else if !Known(op) && h.refused then Some(HostRefusal)
    else None
  }

  /** The gas a call asks for, with `rest` left: all but a 64th at most, since Tangerine Whistle. */
  function Asked(env: Env, s: State, rest: nat): nat
    requires |s.stack| >= 1
  {
    if env.rev >= 2 && s.stack[0] > rest - rest / 64 then rest - rest / 64 else s.stack[0]
  }

  /** What a step throws, if anything. */
  function Verdict(p: Program, env: Env, h: Host, s: State): Option<Error>
    requires Standard(env.table)
  {
    var op := if s.pc < |p.code| then p.code[s.pc] else 0;
    var taken := if Known(op) then Inputs(op) else env.table[op].args;
    var put := if Known(op) then Outputs(op) else env.table[op].returned;
    if |s.stack| < taken || |s.stack| - taken + put > 1024 then Some(BadStack)
    else if Illegal(p, env, h, s, op).Some? then Illegal(p, env, h, s, op)
    else if Total(env, h, s, op) > s.gas then Some(OutOfGas)
    else
      var rest := s.gas - Total(env, h, s, op);
      if (op == 0xf1 || op == 0xf2 || op == 0xf4 || op == 0xfa) && Asked(env, s, rest) > rest then Some(OutOfGas)
      else if (op == 0x56 || (op == 0x57 && s.stack[1] > 0)) && !IsJumpDest(env.pCode, s.stack[0])
      then Some(BadJumpDestination)
      else None
  }

  /** A step throws exactly in these cases, and just that. */
  lemma VerdictExactly(p: Program, env: Env, h: Host, s: State)
    requires Standard(env.table) && Solvent(s)
    ensures match Verdict(p, env, h, s)
      case Some(e) => Step(p, env, h, s) == Throw(e)
      case None =>
        var op := ByteAt(p.code, s.pc);
        && !Step(p, env, h, s).Throw?
        && |s.stack| >= Inputs(op) && |s.stack| >= env.table[op].args
        && Total(env, h, s, op) <= s.gas
        && Step(p, env, h, s)
          == Effect(p, env, h, s, op, Paid(s.gas - Total(env, h, s, op), Widened(s.mem, Reached(s, op))))
  {
    var op := ByteAt(p.code, s.pc);
    KnownExactly(op);
    StackMeans(env.table, op);
    hide Total, Effect, Reached, Refusal, Illegal, Payment, Standard, Known, Inputs, Outputs, Modelled, Widened;
    if Fits(env.table[op], s.stack) {
      RefusalMeans(p, env, h, s, op);
      PaymentExact(p, env, h, s);
      if Refusal(p, env, h, s, op).None? && Total(env, h, s, op) <= s.gas {
        EffectThrows(p, env, h, s, op, Paid(s.gas - Total(env, h, s, op), Widened(s.mem, Reached(s, op))));
      }
    }
  }

  lemma StackMeans(t: seq<Metric>, op: octet)
    requires Standard(t)
    ensures |t| == 256 && (Known(op) ==> t[op].args == Inputs(op) && t[op].returned == Outputs(op))
    ensures !Known(op) ==> Inputs(op) == 0
  {
    KnownExactly(op);
  }

  lemma RefusalMeans(p: Program, env: Env, h: Host, s: State, op: octet)
    requires |s.stack| >= Inputs(op)
    ensures Known(op) ==> |s.stack| >= Args(op)
    ensures Refusal(p, env, h, s, op) == Illegal(p, env, h, s, op)
  {
    KnownExactly(op);
  }

  lemma EffectThrows(p: Program, env: Env, h: Host, s: State, op: octet, paid: Paid)
    requires Standard(env.table) && |s.stack| >= Inputs(op) && |s.stack| >= env.table[op].args && paid.gas <= INT63
    ensures Effect(p, env, h, s, op, paid) ==
      if IsCall(op) && Asked(env, s, paid.gas) > paid.gas then Throw(OutOfGas)
      else if (op == 0x56 || (op == 0x57 && s.stack[1] > 0)) && !IsJumpDest(env.pCode, s.stack[0])
      then Throw(BadJumpDestination)
      else Effect(p, env, h, s, op, paid)
    ensures Effect(p, env, h, s, op, paid).Throw? ==>
      (IsCall(op) && Asked(env, s, paid.gas) > paid.gas)
      || ((op == 0x56 || (op == 0x57 && s.stack[1] > 0)) && !IsJumpDest(env.pCode, s.stack[0]))
  {
    KnownExactly(op);
    hide IsJumpDest, WordAt, Compute, Copied, CodeCopied, StackAfter, MemoryAfter;
  }
}
