/** What holds along every run of the interpreter: gas and memory are conserved, execution ends, the
    program counter stays on instruction boundaries, and the optimised code runs exactly like the
    plain code. */
module EvmRuns {
  import opened Bytes
  import opened Options
  import opened EvmCode
  import opened EvmMetering
  import opened EvmStep

  // ---------------------------------------------------------------- gas and memory

  /** Remaining gas and the price of the memory in use. */
  function Balance(s: State): nat {
    s.gas + MemCost(|s.mem|)
  }

  /** Instructions that take their price from the table. */
  predicate FromTable(op: octet) {
    Modelled(op) && !IsHalt(op) && op != JUMPDEST && op != EXP && op != SHA3 && op != EXTCODECOPY && !IsLog(op)
      && !IsCall(op) && !IsCreate(op)
  }

  /** No instruction that goes on is free. */
  predicate Priced(t: seq<Metric>)
    requires |t| == 256
  {
    forall op: octet :: FromTable(op) ==> t[op].gas >= 1
  }

  /** A callee gives back no more gas than it was given, and no instruction the host prices is free. */
  predicate Honest(p: Program, env: Env, h: Host, s: State)
    requires Standard(env.table)
  {
    var op := ByteAt(p.code, s.pc);
    (!Modelled(op) ==> h.cost >= 1)
    && (Fits(env.table[op], s.stack) && Payment(p, env, h, s).Some? ==>
      var gas := Payment(p, env, h, s).value.gas;
      (IsCall(op) && CallGas(env, s, gas).Some? ==> h.gasLeft <= CallGas(env, s, gas).value + Stipend(s, op))
      && (IsCreate(op) ==> h.gasLeft <= CreateGas(env, gas)))
  }

  /** The own price of an instruction that goes on is positive, that of a call with a stipend is
      larger than the stipend; and no price overflows 64 bits. */
  lemma PriceBounds(env: Env, h: Host, s: State, op: octet)
    requires Standard(env.table) && Priced(env.table) && |s.stack| >= env.table[op].args
    requires (!Modelled(op) ==> h.cost >= 1)
    requires PriceOf(env, h, s, op).Some?
    ensures var price := PriceOf(env, h, s, op).value;
      && (!IsHalt(op) ==> price.run >= 1)
      && (IsCall(op) ==> price.run > Stipend(s, op))
  {
    hide ExponentBytes, MemNeed, SuicidePrice;
    if IsCall(op) {
      CallPriced(env, h, s, op);
    } else if FromTable(op) {
      TablePriced(env, h, s, op);
    }
  }

  lemma CallPriced(env: Env, h: Host, s: State, op: octet)
    requires Standard(env.table) && IsCall(op) && |s.stack| >= Args(op) && |s.stack| >= env.table[op].args
    requires PriceOf(env, h, s, op).Some?
    ensures PriceOf(env, h, s, op).value.run == CallPrice(env, h, s, op) > Stipend(s, op)
  {
    hide Standard, MemNeed;
  }

  lemma TablePriced(env: Env, h: Host, s: State, op: octet)
    requires Standard(env.table) && FromTable(op) && |s.stack| >= env.table[op].args
    requires PriceOf(env, h, s, op).Some?
    ensures PriceOf(env, h, s, op).value.run == env.table[op].gas
  {
    hide Standard, MemNeed;
  }

  lemma {:induction false} ExponentSize(e: nat, n: nat)
    requires e < Bytes.Exp256(n)
    ensures ExponentBytes(e) <= n
    decreases n
  {
    if e > 0 {
      ExponentSize(e / 256, n - 1);
    }
  }

  lemma PriceSane(env: Env, h: Host, s: State, op: octet)
    requires Standard(env.table) && |s.stack| >= env.table[op].args && PriceOf(env, h, s, op).Some?
    ensures Sane(PriceOf(env, h, s, op).value)
  {
    hide ExponentBytes, Bytes.Exp256;
    if op == EXP {
      Exp256Word();
      ExponentSize(s.stack[1], 32);
    }
  }

  /** What the instruction makes of the gas and the memory it paid for. */
  lemma EffectKeeps(p: Program, env: Env, h: Host, s: State, op: octet, paid: Paid)
    requires Standard(env.table) && |s.stack| >= env.table[op].args && Effect(p, env, h, s, op, paid).Go?
    requires IsCall(op) && CallGas(env, s, paid.gas).Some? ==>
      h.gasLeft <= CallGas(env, s, paid.gas).value + Stipend(s, op)
    requires IsCreate(op) ==> h.gasLeft <= CreateGas(env, paid.gas)
    ensures var t := Effect(p, env, h, s, op, paid).state;
      |t.mem| == |paid.mem| && t.gas <= paid.gas + (if IsCall(op) then Stipend(s, op) else 0)
  {
    hide WordAt, Compute, Copied, CodeCopied, StackAfter, Standard;
  }

  /** No step lets gas and memory together grow, and every step that goes on lowers the gas. */
  lemma StepConserves(p: Program, env: Env, h: Host, s: State)
    requires Standard(env.table) && Priced(env.table) && Honest(p, env, h, s)
    ensures match Step(p, env, h, s)
      case Go(t) => Balance(t) <= Balance(s) && t.gas < s.gas && |s.mem| <= |t.mem|
        && (|s.mem| % 32 == 0 ==> |t.mem| % 32 == 0)
      case Halt(gas, _) => gas <= s.gas
      case Revert(gas, _) => gas <= s.gas
      case Throw(_) => true
  {
    var op := ByteAt(p.code, s.pc);
    if Fits(env.table[op], s.stack) && Refusal(p, env, h, s, op).None? && Payment(p, env, h, s).Some? {
      var price := PriceOf(env, h, s, op).value;
      var paid := Payment(p, env, h, s).value;
      PriceBounds(env, h, s, op);
      ChargeConserves(s.gas, s.mem, price);
      hide PriceOf, Charge, MemCost, Refusal, Standard, Priced;
      assert Step(p, env, h, s) == Effect(p, env, h, s, op, paid);
      if Effect(p, env, h, s, op, paid).Go? {
        EffectKeeps(p, env, h, s, op, paid);
        hide Effect;
      } else {
        EffectHalts(p, env, h, s, op, paid);
      }
    }
  }

  lemma EffectHalts(p: Program, env: Env, h: Host, s: State, op: octet, paid: Paid)
    requires Standard(env.table) && |s.stack| >= env.table[op].args
    ensures match Effect(p, env, h, s, op, paid)
      case Halt(gas, _) => gas == paid.gas
      case Revert(gas, _) => gas == paid.gas
      case _ => true
  {
    hide WordAt, Compute, Copied, CodeCopied, StackAfter, Standard;
  }

  // ---------------------------------------------------------------- whole runs

  /** The steps taken with one host answer each; ends early where the program does. */
  function Run(p: Program, env: Env, hs: seq<Host>, s: State): Outcome
    requires Standard(env.table)
    decreases |hs|
  {
    if hs == [] then Go(s)
    else match Step(p, env, hs[0], s)
      case Go(t) => Run(p, env, hs[1..], t)
      case o => o
  }

  predicate HonestRun(p: Program, env: Env, hs: seq<Host>, s: State)
    requires Standard(env.table)
    decreases |hs|
  {
    hs == [] || (Honest(p, env, hs[0], s)
      && (Step(p, env, hs[0], s).Go? ==> HonestRun(p, env, hs[1..], Step(p, env, hs[0], s).state)))
  }

  /** Along every run, across calls and stipends, remaining gas and the price of the memory never grow
      together, and a run cannot be longer than its gas. */
  lemma {:induction false} RunConserves(p: Program, env: Env, hs: seq<Host>, s: State)
    requires Standard(env.table) && Priced(env.table) && HonestRun(p, env, hs, s)
    ensures match Run(p, env, hs, s)
      case Go(t) => Balance(t) <= Balance(s) && t.gas + |hs| <= s.gas
      case Halt(gas, _) => gas <= s.gas
      case Revert(gas, _) => gas <= s.gas
      case Throw(_) => true
    decreases |hs|
  {
    if hs != [] {
      StepConserves(p, env, hs[0], s);
      hide Step, Balance, Honest, Standard, Priced;
      if Step(p, env, hs[0], s).Go? {
        RunConserves(p, env, hs[1..], Step(p, env, hs[0], s).state);
      }
    }
  }

  /** Execution ends: with as many steps as there is gas, no run is still going. */
  lemma RunEnds(p: Program, env: Env, hs: seq<Host>, s: State)
    requires Standard(env.table) && Priced(env.table) && HonestRun(p, env, hs, s) && |hs| > s.gas
    ensures !Run(p, env, hs, s).Go?
  {
    RunConserves(p, env, hs, s);
  }

  /** With less than 2^45 gas to begin with, memory stays below 2^32 bytes. */
  lemma MemoryStaysSmall(p: Program, env: Env, hs: seq<Host>, s: State)
    requires Standard(env.table) && Priced(env.table) && HonestRun(p, env, hs, s)
    requires s.gas < 0x2000_0000_0000 && s.mem == [] && Run(p, env, hs, s).Go?
    ensures |Run(p, env, hs, s).state.mem| < UINT32
  {
    RunConserves(p, env, hs, s);
    SmallMemory(|Run(p, env, hs, s).state.mem|);
  }

  /** So the cut of a memory offset to 32 bits cuts nothing off: MLOAD, MSTORE and MSTORE8 use the
      very address on the stack, inside the memory they paid for. */
  lemma OffsetsExact(p: Program, env: Env, h: Host, s: State, paid: Paid)
    requires Standard(env.table) && Balance(s) < 0x2000_0000_0000
    requires var op := ByteAt(p.code, s.pc);
      (op == MLOAD || op == MSTORE || op == MSTORE8) && |s.stack| >= env.table[op].args
    requires Payment(p, env, h, s) == Some(paid)
    ensures |s.stack| >= 1 && Offset(s) == Arg(s, 0)
    ensures Arg(s, 0) + (if ByteAt(p.code, s.pc) == MSTORE8 then 1 else 32) <= |paid.mem| < UINT32
  {
    hide Charge, MemCost, Standard;
    var op := ByteAt(p.code, s.pc);
    AccessNeeds(env, h, s, op);
    hide PriceOf, Offset;
    ChargeConserves(s.gas, s.mem, PriceOf(env, h, s, op).value);
    SmallMemory(|paid.mem|);
    OffsetUncut(s);
  }

  lemma OffsetUncut(s: State)
    requires |s.stack| >= 1
    ensures Arg(s, 0) < UINT32 ==> Offset(s) == Arg(s, 0)
  {
  }

  lemma AccessNeeds(env: Env, h: Host, s: State, op: octet)
    requires Standard(env.table) && |s.stack| >= env.table[op].args && (op == MLOAD || op == MSTORE || op == MSTORE8)
    requires PriceOf(env, h, s, op).Some?
    ensures |s.stack| >= 1 && PriceOf(env, h, s, op).value.need == Arg(s, 0) + if op == MSTORE8 then 1 else 32
  {
  }

  // ---------------------------------------------------------------- instruction boundaries

  function PlainProgram(c: Code): Program {
    Program(Plain(c), [], false)
  }

  lemma {:induction false} BoundaryInCopy(c: Code, a: nat, b: nat)
    requires Reaches(c, a, b) && a < |c| + EXTRA
    ensures b < |c| + EXTRA
    decreases b - a
  {
    if a < b {
      BoundaryInCopy(c, Next(c, a), b);
    }
  }

  /** A jump whose destination is pushed right before it, and is valid. */
  ghost predicate PreVerified(c: Code, b: nat) {
    Verified(c, b) && (PlainAt(c, b) == JUMP || PlainAt(c, b) == JUMPI)
  }

  /** The state the optimised build relies on: the program counter is at an instruction, and before a
      pre-verified jump a valid destination lies on top of the stack. */
  ghost predicate Inv(c: Code, s: State) {
    Boundary(c, s.pc) && (PreVerified(c, s.pc) ==> s.stack != [] && IsJumpDest(c, s.stack[0]))
  }

  lemma Initial(c: Code, gas: nat)
    ensures Inv(c, State(0, [], [], gas, []))
  {
  }

  /** Plain code reads its instructions and pushed bytes inside the copy. */
  lemma ReadsInside(c: Code, pc: nat)
    requires Boundary(c, pc)
    ensures pc < |c| + EXTRA && ByteAt(Plain(c), pc) == PlainAt(c, pc)
    ensures pc < |c| ==> Next(c, pc) < |c| + EXTRA && PushSize(PlainAt(c, pc)) == PushSize(c[pc])
    ensures pc >= |c| ==> PlainAt(c, pc) == STOP
    ensures !Synthetic(PlainAt(c, pc)) && ByteAt(Plain(c), pc) == Plain(c)[pc]
    ensures pc < |c| && PushSize(c[pc]) > 0 ==> PlainAt(c, pc) == c[pc]
  {
    BoundaryInCopy(c, 0, pc);
  }

  /** One instruction further on. */
  lemma InvOn(c: Code, s: State, t: State)
    requires Boundary(c, s.pc) && s.pc < |c| && t.pc == Next(c, s.pc)
    requires PushSize(c[s.pc]) > 0 ==> t.stack != [] && t.stack[0] == Pushed(c, s.pc)
    ensures Inv(c, t)
  {
    ReachesOn(c, 0, s.pc);
    VerifiedBy(c, s.pc);
  }

  /** At a jump destination. */
  lemma InvAtDest(c: Code, t: State)
    requires IsJumpDest(c, t.pc)
    ensures Inv(c, t)
  {
  }

  // ---------------------------------------------------------------- the two builds

  /** A plain step keeps the invariant. */
  lemma PlainKeepsInv(env: Env, h: Host, s: State)
    requires Standard(env.table) && Inv(env.pCode, s)
    requires Step(PlainProgram(env.pCode), env, h, s).Go?
    ensures Inv(env.pCode, Step(PlainProgram(env.pCode), env, h, s).state)
  {
    hide Refusal, Payment, Step, Effect, Standard, Plain, PlainAt;
    var c := env.pCode;
    var p := PlainProgram(c);
    ReadsInside(c, s.pc);
    PaidStep(p, env, h, s);
    var op := ByteAt(p.code, s.pc);
    var t := Step(p, env, h, s).state;
    GoesOn(p, env, h, s, op, Payment(p, env, h, s).value);
    if s.pc >= |c| {
      StopStops(p, env, h, s, Payment(p, env, h, s).value);
    } else if IsPush(op) {
      PlainPush(c, s.pc);
      InvOn(c, s, t);
    } else if t.pc != s.pc + 1 {
      InvAtDest(c, t);
    } else {
      InvOn(c, s, t);
    }
  }

  lemma PaidStep(p: Program, env: Env, h: Host, s: State)
    requires Standard(env.table) && Step(p, env, h, s).Go?
    ensures var op := ByteAt(p.code, s.pc);
      && Fits(env.table[op], s.stack) && Payment(p, env, h, s).Some?
      && Step(p, env, h, s) == Effect(p, env, h, s, op, Payment(p, env, h, s).value)
  {
    hide Refusal, Payment, Effect, Standard;
  }

  lemma StopStops(p: Program, env: Env, h: Host, s: State, paid: Paid)
    requires Standard(env.table)
    ensures !Effect(p, env, h, s, STOP, paid).Go?
  {
  }

  /** What a PUSH pushes in the plain build. */
  lemma PlainPush(c: Code, pc: nat)
    requires pc < |c| && PushSize(c[pc]) > 0
    ensures WordAt(Plain(c), pc + 1, PushSize(c[pc])) == Pushed(c, pc)
  {
    DigitsAreNumber(Plain(c), pc + 1, PushSize(c[pc]));
  }

  lemma {:induction false} DigitsAreNumber(code: Code, at: nat, n: nat)
    requires at + n <= |code|
    ensures Digits(code, at, n) == Number(code, at, n)
    decreases n
  {
    if n > 0 {
      DigitsAreNumber(code, at, n - 1);
    }
  }

  /** Where an instruction goes on: behind what it pushes, at a jump destination, or at the next byte. */
  lemma GoesOn(p: Program, env: Env, h: Host, s: State, op: octet, paid: Paid)
    requires Standard(env.table) && |s.stack| >= env.table[op].args && !Synthetic(op)
    requires Effect(p, env, h, s, op, paid).Go?
    ensures var t := Effect(p, env, h, s, op, paid).state;
      if IsPush(op) then t.pc == s.pc + 1 + PushSize(op) && t.stack != []
        && t.stack[0] == WordAt(p.code, s.pc + 1, PushSize(op))
      else t.pc == s.pc + 1 || IsJumpDest(env.pCode, t.pc)
  {
    hide WordAt, Compute, Copied, CodeCopied, StackAfter, Standard, MemoryAfter, IsJumpDest;
  }

  // ---------------------------------------------------------------- the constant pool

  /** Every constant is where a two-byte offset finds it. */
  predicate Faithful(pool: seq<word>) {
    forall k :: 0 <= k < |pool| ==> pool[k % POOL_LIMIT] == pool[k]
  }

  lemma {:induction false} PoolSplits(c: Code, at: nat, pc: nat, e: nat)
    requires Reaches(c, at, pc) && pc <= e
    ensures PoolFrom(c, at, e) == PoolFrom(c, at, pc) + PoolFrom(c, pc, e)
    decreases pc - at
  {
    hide Pushed;
    if at < pc {
      PoolSplits(c, Next(c, at), pc, e);
      AppendAssociates(if Pools(c, at) then [Pushed(c, at)] else [], PoolFrom(c, Next(c, at), pc), PoolFrom(c, pc, e));
    } else {
      assert PoolFrom(c, pc, pc) == [];
    }
  }

  /** A pooled constant lies in the pool at its index. */
  lemma PoolHolds(c: Code, pc: nat)
    requires Boundary(c, pc) && pc < |c| && Pools(c, pc)
    ensures PoolIndex(c, pc) < |Pool(c)| && Pool(c)[PoolIndex(c, pc)] == Pushed(c, pc)
  {
    hide Pushed;
    PoolSplits(c, 0, pc, |c|);
    assert PoolFrom(c, pc, |c|)[0] == Pushed(c, pc);
  }

  /** ... and nothing else lies there. */
  lemma {:induction false} PoolOrigin(c: Code, at: nat, k: nat) returns (pc: nat)
    requires Boundary(c, at) && k < |PoolFrom(c, at, |c|)|
    ensures Boundary(c, pc) && pc < |c| && Pools(c, pc) && PoolIndex(c, pc) == PoolIndex(c, at) + k
    decreases |c| - at
  {
    hide Pushed;
    ReachesOn(c, 0, at);
    PoolOn(c, 0, at);
    if Pools(c, at) && k == 0 {
      pc := at;
    } else {
      pc := PoolOrigin(c, Next(c, at), if Pools(c, at) then k - 1 else k);
    }
  }

  /** What PUSHC finds for the PUSH at `pc`. */
  function Fetched(pool: seq<word>, c: Code, pc: nat): word {
    var off := PoolIndex(c, pc) % POOL_LIMIT;
    if off < |pool| then pool[off] else 0
  }

  /** Pooled constants are pushed as they were exactly when the pool is faithful. */
  lemma PoolExact(c: Code)
    ensures (forall pc: nat :: Boundary(c, pc) && pc < |c| && Pools(c, pc) ==> Fetched(Pool(c), c, pc) == Pushed(c, pc))
      <==> Faithful(Pool(c))
  {
    hide Pushed, PoolFrom, Boundary;
    var pool := Pool(c);
    if Faithful(pool) {
      forall pc: nat | Boundary(c, pc) && pc < |c| && Pools(c, pc) ensures Fetched(pool, c, pc) == Pushed(c, pc) {
        PoolHolds(c, pc);
      }
    }
    if forall pc: nat :: Boundary(c, pc) && pc < |c| && Pools(c, pc) ==> Fetched(pool, c, pc) == Pushed(c, pc) {
      forall k | 0 <= k < |pool| ensures pool[k % POOL_LIMIT] == pool[k] {
        NothingBefore(c);
        var pc := PoolOrigin(c, 0, k);
        PoolHolds(c, pc);
      }
    }
  }

  lemma NothingBefore(c: Code)
    ensures Boundary(c, 0) && PoolIndex(c, 0) == 0
  {
  }

  lemma {:induction false} PoolCount(c: Code, at: nat, e: nat)
    ensures 7 * |PoolFrom(c, at, e)| <= if at < e then e - at + 6 else 0
    decreases e - at
  {
    hide Pushed;
    if at < e && at < |c| {
      PoolCount(c, Next(c, at), e);
    }
  }

  /** Code of up to 458752 bytes has a faithful pool. */
  lemma SmallCodeFaithful(c: Code)
    requires |c| <= 7 * POOL_LIMIT
    ensures |Pool(c)| <= POOL_LIMIT && Faithful(Pool(c))
  {
    PoolCount(c, 0, |c|);
  }

  // ---------------------------------------------------------------- the optimised build runs like the plain one

  function OptimisedProgram(opt: Code, pool: seq<word>): Program {
    Program(opt, pool, true)
  }

  /** The synthetic instruction stands for the plain one: same price, same refusals, same effect. */
  lemma SameInstruction(p: Program, q: Program, env: Env, h: Host, s: State)
    requires Standard(env.table)
    requires var a, b := ByteAt(p.code, s.pc), ByteAt(q.code, s.pc);
      && env.table[a] == env.table[b]
      && (Fits(env.table[a], s.stack) ==> Refusal(p, env, h, s, a) == Refusal(q, env, h, s, b))
      && (Fits(env.table[a], s.stack) ==> PriceOf(env, h, s, a) == PriceOf(env, h, s, b))
      && (Fits(env.table[a], s.stack) ==> forall paid :: Effect(p, env, h, s, a, paid) == Effect(q, env, h, s, b, paid))
    ensures Step(p, env, h, s) == Step(q, env, h, s)
  {
    hide Refusal, PriceOf, Effect, Standard;
  }

  predicate Pushing(p: Program, op: octet) {
    IsPush(op) || (op == PUSHC && p.optimised)
  }

  lemma PushingStep(p: Program, env: Env, h: Host, s: State, op: octet)
    requires Standard(env.table) && Pushing(p, op)
    ensures env.table[op] == env.table[PUSH1] && env.table[op].args == 0
    ensures Refusal(p, env, h, s, op).None? && PriceOf(env, h, s, op) == Some(Price(env.table[PUSH1].gas, 0, 0))
    ensures forall paid :: Effect(p, env, h, s, op, paid) == PushEffect(p, s, op, paid)
  {
    hide PushEffect;
  }

  /** Two PUSHes with the same effect are the same step. */
  lemma SamePush(p: Program, q: Program, env: Env, h: Host, s: State)
    requires Standard(env.table) && Pushing(p, ByteAt(p.code, s.pc)) && Pushing(q, ByteAt(q.code, s.pc))
    requires forall paid :: PushEffect(p, s, ByteAt(p.code, s.pc), paid) == PushEffect(q, s, ByteAt(q.code, s.pc), paid)
    ensures Step(p, env, h, s) == Step(q, env, h, s)
  {
    PushingStep(p, env, h, s, ByteAt(p.code, s.pc));
    PushingStep(q, env, h, s, ByteAt(q.code, s.pc));
    hide Refusal, PriceOf, Effect, Standard, PushEffect;
    SameInstruction(p, q, env, h, s);
  }

  predicate Jumping(p: Program, op: octet) {
    IsJump(op) && (Synthetic(op) ==> p.optimised)
  }

  lemma JumpingStep(p: Program, env: Env, h: Host, s: State, op: octet)
    requires Standard(env.table) && Jumping(p, op) && Fits(env.table[op], s.stack)
    ensures |s.stack| >= Args(op)
    ensures Refusal(p, env, h, s, op).None? && PriceOf(env, h, s, op) == Some(Price(env.table[op].gas, 0, 0))
    ensures forall paid :: Effect(p, env, h, s, op, paid) == JumpEffect(env, s, op, paid)
  {
    hide JumpEffect;
  }

  /** What PUSHC reads. */
  lemma PooledOperands(c: Code, opt: Code, pool: seq<word>, pc: nat)
    requires Optimised(c, opt, pool) && Boundary(c, pc) && pc < |c| && Pools(c, pc)
    ensures ByteAt(opt, pc) == PUSHC && ByteAt(opt, pc + 3) == PushSize(c[pc]) - 2
    ensures var off := ByteAt(opt, pc + 1) as nat * 256 + ByteAt(opt, pc + 2) as nat;
      off < |pool| && pool[off] == Fetched(pool, c, pc)
    ensures Faithful(pool) ==> Fetched(pool, c, pc) == Pushed(c, pc)
  {
    PoolHolds(c, pc);
    assert Operands(c, opt, pc);
    hide Pushed, PoolFrom, Boundary;
  }

  lemma SamePooled(c: Code, opt: Code, pool: seq<word>, env: Env, h: Host, s: State)
    requires Standard(env.table) && Optimised(c, opt, pool) && Faithful(pool)
    requires Boundary(c, s.pc) && s.pc < |c| && Pools(c, s.pc)
    ensures Step(OptimisedProgram(opt, pool), env, h, s) == Step(PlainProgram(c), env, h, s)
  {
    hide WordAt, Pushed, Optimised, Plain, Standard, Faithful, Boundary, PlainAt;
    var p, q := OptimisedProgram(opt, pool), PlainProgram(c);
    PooledOperands(c, opt, pool, s.pc);
    PlainPush(c, s.pc);
    ReadsInside(c, s.pc);
    hide ByteAt;
    assert forall paid :: PushEffect(p, s, PUSHC, paid) == PushEffect(q, s, c[s.pc], paid);
    hide PushEffect, PushSize;
    SamePush(p, q, env, h, s);
  }

  lemma SameJumpEffect(env: Env, s: State, a: octet, b: octet)
    requires (a == JUMPC && b == JUMP) || (a == JUMPCI && b == JUMPI)
    requires |env.pCode| <= MAX_DEST && |s.stack| >= Args(a) && IsJumpDest(env.pCode, s.stack[0])
    ensures |s.stack| >= Args(b) && forall paid :: JumpEffect(env, s, a, paid) == JumpEffect(env, s, b, paid)
  {
    assert s.stack[0] < UINT64 && Arg(s, 0) % UINT64 == Arg(s, 0);
    hide IsJumpDest;
  }

  lemma SameJump(c: Code, opt: Code, pool: seq<word>, env: Env, h: Host, s: State)
    requires Standard(env.table) && env.pCode == c && |c| <= MAX_DEST && Inv(c, s)
    requires s.pc < |opt| && opt[s.pc] == JumpAt(c, s.pc) && PreVerified(c, s.pc)
    ensures Step(OptimisedProgram(opt, pool), env, h, s) == Step(PlainProgram(c), env, h, s)
  {
    hide Effect, Refusal, PriceOf, JumpEffect, Step, Plain;
    ReadsInside(c, s.pc);
    var p, q := OptimisedProgram(opt, pool), PlainProgram(c);
    var a, b := ByteAt(p.code, s.pc), ByteAt(q.code, s.pc);
    assert (a == JUMPC && b == JUMP) || (a == JUMPCI && b == JUMPI);
    assert env.table[a] == env.table[b];
    if Fits(env.table[a], s.stack) {
      JumpingStep(p, env, h, s, a);
      JumpingStep(q, env, h, s, b);
      SameJumpEffect(env, s, a, b);
    }
    hide IsJumpDest, Inv, PreVerified, Standard;
    SameInstruction(p, q, env, h, s);
  }

  /** Nothing but PUSHes and the synthetic instructions look at the program. */
  lemma SameOther(p: Program, q: Program, env: Env, h: Host, s: State, op: octet)
    requires Standard(env.table) && !IsPush(op) && !Synthetic(op) && |s.stack| >= env.table[op].args
    ensures Refusal(p, env, h, s, op) == Refusal(q, env, h, s, op)
    ensures forall paid :: Effect(p, env, h, s, op, paid) == Effect(q, env, h, s, op, paid)
  {
    hide HaltEffect, CallEffect, CreateEffect, JumpEffect, StackAfter, MemoryAfter, Compute, WordAt;
  }

  lemma SamePlain(c: Code, opt: Code, pool: seq<word>, env: Env, h: Host, s: State)
    requires Standard(env.table) && |opt| == |c| + EXTRA && Boundary(c, s.pc) && s.pc < |opt|
    requires opt[s.pc] == PlainAt(c, s.pc) && (s.pc < |c| ==> !Pools(c, s.pc) && Operands(c, opt, s.pc))
    ensures Step(OptimisedProgram(opt, pool), env, h, s) == Step(PlainProgram(c), env, h, s)
  {
    assert |env.table| == 256;
    hide PlainAt, Standard, Boundary;
    ReadsInside(c, s.pc);
    var p, q := OptimisedProgram(opt, pool), PlainProgram(c);
    var op := ByteAt(p.code, s.pc);
    assert op == ByteAt(q.code, s.pc) && !Synthetic(op);
    if IsPush(op) {
      PlainOperands(c, opt, s.pc);
      hide Plain, Operands;
      SameDigits(p.code, q.code, s.pc + 1, op - PUSH1 + 1);
      SamePush(p, q, env, h, s);
    } else {
      hide Plain, Operands, Refusal, PriceOf, Effect;
      if Fits(env.table[op], s.stack) {
        SameOther(p, q, env, h, s, op);
      }
      SameInstruction(p, q, env, h, s);
    }
  }

  lemma PlainOperands(c: Code, opt: Code, pc: nat)
    requires |opt| == |c| + EXTRA && pc < |c| && !Pools(c, pc) && Operands(c, opt, pc) && Next(c, pc) <= |opt|
    ensures forall i :: pc + 1 <= i < pc + 1 + PushSize(c[pc]) ==> ByteAt(opt, i) == ByteAt(Plain(c), i)
  {
  }

  lemma {:induction false} SameDigits(a: Code, b: Code, at: nat, n: nat)
    requires forall i :: at <= i < at + n ==> ByteAt(a, i) == ByteAt(b, i)
    ensures Digits(a, at, n) == Digits(b, at, n)
    decreases n
  {
    if n > 0 {
      SameDigits(a, b, at, n - 1);
    }
  }

  /** But for pooled constants the two builds always do the same. */
  lemma SameUnpooled(opt: Code, pool: seq<word>, env: Env, h: Host, s: State)
    requires Standard(env.table) && |env.pCode| <= MAX_DEST && Optimised(env.pCode, opt, pool)
    requires Inv(env.pCode, s) && (s.pc < |env.pCode| ==> !Pools(env.pCode, s.pc))
    ensures Step(OptimisedProgram(opt, pool), env, h, s) == Step(PlainProgram(env.pCode), env, h, s)
  {
    var c := env.pCode;
    ReadsInside(c, s.pc);
    assert opt[s.pc] == OptimisedAt(c, s.pc) && (s.pc < |c| ==> Operands(c, opt, s.pc));
    hide Step, Operands, Plain, Standard, Boundary;
    if PreVerified(c, s.pc) {
      SameJump(c, opt, pool, env, h, s);
    } else {
      SamePlain(c, opt, pool, env, h, s);
    }
  }

  /** Step for step the two builds do the same. */
  lemma SameStep(opt: Code, pool: seq<word>, env: Env, h: Host, s: State)
    requires Standard(env.table) && |env.pCode| <= MAX_DEST && Optimised(env.pCode, opt, pool) && Faithful(pool)
    requires Inv(env.pCode, s)
    ensures Step(OptimisedProgram(opt, pool), env, h, s) == Step(PlainProgram(env.pCode), env, h, s)
  {
    hide Step, Operands, Plain, Standard;
    if s.pc < |env.pCode| && Pools(env.pCode, s.pc) {
      SamePooled(env.pCode, opt, pool, env, h, s);
    } else {
      SameUnpooled(opt, pool, env, h, s);
    }
  }

  /** The optimised code, started anywhere the plain code can be, runs exactly like it. */
  lemma {:induction false} SameRun(opt: Code, pool: seq<word>, env: Env, hs: seq<Host>, s: State)
    requires Standard(env.table) && |env.pCode| <= MAX_DEST && Optimised(env.pCode, opt, pool) && Faithful(pool)
    requires Inv(env.pCode, s)
    ensures Run(OptimisedProgram(opt, pool), env, hs, s) == Run(PlainProgram(env.pCode), env, hs, s)
    ensures Run(PlainProgram(env.pCode), env, hs, s).Go? ==>
      Inv(env.pCode, Run(PlainProgram(env.pCode), env, hs, s).state)
    decreases |hs|
  {
    if hs != [] {
      SameStep(opt, pool, env, hs[0], s);
      if Step(PlainProgram(env.pCode), env, hs[0], s).Go? {
        PlainKeepsInv(env, hs[0], s);
        hide Step, Inv, Optimised, Standard, Faithful;
        SameRun(opt, pool, env, hs[1..], Step(PlainProgram(env.pCode), env, hs[0], s).state);
      }
    }
  }

  // ---------------------------------------------------------------- where pre-verified jumps go

  /** Whatever PUSHC fetches right before a pre-verified jump, cut to 64 bits it is a valid destination. */
  ghost predicate Lands(c: Code, pool: seq<word>) {
    forall pc: nat :: Boundary(c, pc) && pc < |c| && Pools(c, pc) && PreVerified(c, Next(c, pc))
      ==> IsJumpDest(c, Fetched(pool, c, pc) % UINT64)
  }

  /** The program counter is at an instruction, and a pre-verified jump there goes to a destination. */
  ghost predicate Aligned(c: Code, s: State) {
    Boundary(c, s.pc) && (PreVerified(c, s.pc) ==> s.stack != [] && IsJumpDest(c, s.stack[0] % UINT64))
  }

  lemma InvAligned(c: Code, s: State)
    requires |c| <= MAX_DEST && Inv(c, s)
    ensures Aligned(c, s)
  {
    hide Boundary;
    if PreVerified(c, s.pc) {
      assert s.stack[0] % UINT64 == s.stack[0];
    }
  }

  lemma FaithfulLands(c: Code)
    requires |c| <= MAX_DEST && Faithful(Pool(c))
    ensures Lands(c, Pool(c))
  {
    hide Pushed, Fetched, PoolFrom, Reaches;
    PoolExact(c);
    forall pc: nat | Boundary(c, pc) && pc < |c| && Pools(c, pc) && PreVerified(c, Next(c, pc))
      ensures IsJumpDest(c, Fetched(Pool(c), c, pc) % UINT64)
    {
      VerifiedBy(c, pc);
      assert Fetched(Pool(c), c, pc) == Pushed(c, pc);
    }
  }

  /** A pooled PUSH that goes on. */
  lemma PooledGoes(c: Code, opt: Code, pool: seq<word>, env: Env, h: Host, s: State)
    requires Standard(env.table) && Optimised(c, opt, pool) && Boundary(c, s.pc) && s.pc < |c| && Pools(c, s.pc)
    requires Step(OptimisedProgram(opt, pool), env, h, s).Go?
    ensures var t := Step(OptimisedProgram(opt, pool), env, h, s).state;
      t.pc == Next(c, s.pc) && t.stack == [Fetched(pool, c, s.pc)] + s.stack
  {
    hide Pushed, Optimised, Standard, Fetched, Boundary, Step;
    var p := OptimisedProgram(opt, pool);
    PooledOperands(c, opt, pool, s.pc);
    PaidStep(p, env, h, s);
    PushingStep(p, env, h, s, PUSHC);
  }

  /** A pre-verified jump that goes on. */
  lemma LandedJump(c: Code, opt: Code, pool: seq<word>, env: Env, h: Host, s: State)
    requires Standard(env.table) && Optimised(c, opt, pool) && Aligned(c, s) && PreVerified(c, s.pc)
    requires Step(OptimisedProgram(opt, pool), env, h, s).Go?
    ensures var t := Step(OptimisedProgram(opt, pool), env, h, s).state;
      t.pc == s.pc + 1 || t.pc == s.stack[0] % UINT64
  {
    ReadsInside(c, s.pc);
    assert opt[s.pc] == OptimisedAt(c, s.pc);
    hide Step, Optimised, Standard, Boundary, Plain, IsJumpDest;
    var p := OptimisedProgram(opt, pool);
    PaidStep(p, env, h, s);
    JumpingStep(p, env, h, s, opt[s.pc]);
  }

  /** With such a pool the optimised build stays aligned. */
  lemma StaysAligned(opt: Code, pool: seq<word>, env: Env, h: Host, s: State)
    requires Standard(env.table) && |env.pCode| <= MAX_DEST && Optimised(env.pCode, opt, pool)
    requires Lands(env.pCode, pool) && Aligned(env.pCode, s) && Step(OptimisedProgram(opt, pool), env, h, s).Go?
    ensures Aligned(env.pCode, Step(OptimisedProgram(opt, pool), env, h, s).state)
  {
    hide Step, Optimised, Standard, Fetched, Pushed, Reaches;
    var c := env.pCode;
    var t := Step(OptimisedProgram(opt, pool), env, h, s).state;
    if s.pc < |c| && Pools(c, s.pc) {
      PooledGoes(c, opt, pool, env, h, s);
      ReachesOn(c, 0, s.pc);
    } else if PreVerified(c, s.pc) {
      LandedJump(c, opt, pool, env, h, s);
      if t.pc == s.pc + 1 {
        InvOn(c, s, t);
      }
    } else {
      SameUnpooled(opt, pool, env, h, s);
      PlainKeepsInv(env, h, s);
      InvAligned(c, t);
    }
  }

  /** So it does all along a run. */
  lemma {:induction false} RunStaysAligned(opt: Code, pool: seq<word>, env: Env, hs: seq<Host>, s: State)
    requires Standard(env.table) && |env.pCode| <= MAX_DEST && Optimised(env.pCode, opt, pool)
    requires Lands(env.pCode, pool) && Aligned(env.pCode, s) && Run(OptimisedProgram(opt, pool), env, hs, s).Go?
    ensures Aligned(env.pCode, Run(OptimisedProgram(opt, pool), env, hs, s).state)
    decreases |hs|
  {
    if hs != [] {
      StaysAligned(opt, pool, env, hs[0], s);
      hide Step, Aligned, Optimised, Standard, Lands;
      RunStaysAligned(opt, pool, env, hs[1..], Step(OptimisedProgram(opt, pool), env, hs[0], s).state);
    }
  }

  /** From the start of the program in particular. */
  lemma SameProgram(opt: Code, pool: seq<word>, env: Env, hs: seq<Host>, gas: nat)
    requires Standard(env.table) && |env.pCode| <= MAX_DEST && Optimised(env.pCode, opt, pool) && Faithful(pool)
    ensures var s := State(0, [], [], gas, []);
      Run(OptimisedProgram(opt, pool), env, hs, s) == Run(PlainProgram(env.pCode), env, hs, s)
  {
    Initial(env.pCode, gas);
    hide Inv;
    SameRun(opt, pool, env, hs, State(0, [], [], gas, []));
  }
}
