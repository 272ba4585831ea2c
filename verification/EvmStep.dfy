/** One instruction of the interpreter as a function on states (VM.cpp, VMCalls.cpp): a small set of
    instructions in full, the others as pops, a push and a price given by the host. */
module EvmStep {
  import opened Bytes
  import opened Options
  import opened EvmCode
  import opened EvmMetering

  // Instruction.h
  const ADD: octet := 0x01
  const MUL: octet := 0x02
  const SUB: octet := 0x03
  const EXP: octet := 0x0a
  const SHA3: octet := 0x20
  const CALLDATACOPY: octet := 0x37
  const CODECOPY: octet := 0x39
  const EXTCODECOPY: octet := 0x3c
  const RETURNDATACOPY: octet := 0x3e
  const POP: octet := 0x50
  const MLOAD: octet := 0x51
  const MSTORE: octet := 0x52
  const MSTORE8: octet := 0x53
  const PC: octet := 0x58
  const MSIZE: octet := 0x59
  const GAS: octet := 0x5a
  const DUP1: octet := 0x80
  const DUP16: octet := 0x8f
  const SWAP1: octet := 0x90
  const SWAP16: octet := 0x9f
  const LOG0: octet := 0xa0
  const LOG4: octet := 0xa4
  const CREATE: octet := 0xf0
  const CALL: octet := 0xf1
  const CALLCODE: octet := 0xf2
  const RETURN: octet := 0xf3
  const DELEGATECALL: octet := 0xf4
  const CREATE2: octet := 0xf5
  const STATICCALL: octet := 0xfa
  const REVERT: octet := 0xfd
  const SUICIDE: octet := 0xff

  // evmc_revision
  const HOMESTEAD := 1
  const TANGERINE_WHISTLE := 2
  const SPURIOUS_DRAGON := 3
  const BYZANTIUM := 4
  const CONSTANTINOPLE := 5

  // VMSchedule (VM.h:34-61)
  const STACK_LIMIT := 1024
  const STEP_GAS5 := 10
  const SHA3_GAS := 30
  const SHA3_WORD_GAS := 6
  const JUMPDEST_GAS := 1
  const LOG_GAS := 375
  const LOG_DATA_GAS := 8
  const LOG_TOPIC_GAS := 375
  const CREATE_GAS := 32000
  const VALUE_TRANSFER_GAS := 9000
  const CALL_STIPEND := 2300
  const CALL_NEW_ACCOUNT := 25000
  const CALL_DEPTH_LIMIT := 1024

  // ---------------------------------------------------------------- machine, program, surroundings

  /** The stack has its top first. */
  datatype State = State(pc: nat, stack: seq<word>, mem: seq<octet>, gas: nat, ret: seq<octet>)

  datatype Error =
    OutOfGas | BadInstruction | BadStack | BadJumpDestination | DisallowedStateChange | BufferOverrun | HostRefusal

  datatype Outcome =
    | Go(state: State)
    | Halt(gas: nat, output: seq<octet>)
    | Revert(gas: nat, output: seq<octet>)
    | Throw(error: Error)

  /** The code as prepared, and whether it was prepared by the optimising build. */
  datatype Program = Program(code: Code, pool: seq<word>, optimised: bool)

  datatype Metric = Metric(gas: nat, args: nat, returned: nat)

  datatype Env = Env(rev: nat, readOnly: bool, depth: nat, input: seq<octet>, pCode: Code, table: seq<Metric>)

  /** What the host says during one step: an abstract instruction's result, price and refusal; for a
      call and SUICIDE whether the account exists and the own balance; the callee's answer, or the
      code of another account. */
  datatype Host = Host(pushed: word, cost: nat, refused: bool, known: bool, balance: word,
                       success: bool, gasLeft: nat, output: seq<octet>)

  predicate IsDup(op: octet) { DUP1 <= op <= DUP16 }

  predicate IsSwap(op: octet) { SWAP1 <= op <= SWAP16 }

  predicate IsLog(op: octet) { LOG0 <= op <= LOG4 }

  predicate IsPush(op: octet) { PUSH1 <= op <= PUSH32 }

  predicate IsCall(op: octet) { op == CALL || op == CALLCODE || op == DELEGATECALL || op == STATICCALL }

  predicate IsCreate(op: octet) { op == CREATE || op == CREATE2 }

  predicate IsCopy(op: octet) { op == CALLDATACOPY || op == CODECOPY || op == EXTCODECOPY || op == RETURNDATACOPY }

  predicate IsJump(op: octet) { op == JUMP || op == JUMPI || op == JUMPC || op == JUMPCI }

  predicate IsArithmetic(op: octet) { op == ADD || op == MUL || op == SUB || op == EXP }

  predicate IsMemory(op: octet) {
    op == MLOAD || op == MSTORE || op == MSTORE8 || op == SHA3 || IsLog(op) || IsCopy(op)
  }

  /** POP, PC, MSIZE, GAS, JUMPDEST, DUP and SWAP. */
  predicate IsStackOp(op: octet) {
    op == POP || op == PC || op == MSIZE || op == GAS || op == JUMPDEST || IsDup(op) || IsSwap(op)
  }

  predicate IsHalt(op: octet) { op == STOP || op == RETURN || op == REVERT || op == SUICIDE }

  predicate Modelled(op: octet) {
    IsHalt(op) || IsArithmetic(op) || IsMemory(op) || IsStackOp(op) || IsPush(op) || op == PUSHC || IsJump(op)
    || IsCall(op) || IsCreate(op)
  }

  predicate HasValue(op: octet) { op == CALL || op == CALLCODE }

  /** The stack effect of the modelled instructions in the table of instruction metrics, and what
      initMetrics copies for the synthetic ones (VMOpt.cpp:25-40). */
  predicate Standard(t: seq<Metric>) {
    && |t| == 256
    && (forall op: octet :: t[op].gas <= UINT32 && t[op].args <= 17 && t[op].returned <= 17)
    && t[PUSHC] == t[PUSH1] && t[JUMPC] == t[JUMP] && t[JUMPCI] == t[JUMPI]
    && (forall op: octet :: IsPush(op) ==> t[op] == t[PUSH1])
    && (forall op: octet ::
      if Modelled(op) then t[op].args == Args(op) && t[op].returned == Returned(op) else t[op].returned <= 1)
  }

  function Args(op: octet): nat {
    if IsArithmetic(op) || op == MSTORE || op == MSTORE8 || op == SHA3 || op == JUMPI || op == JUMPCI || op == RETURN
            || op == REVERT then 2
    else if op == MLOAD || op == POP || op == JUMP || op == JUMPC || op == SUICIDE then 1
    else if op == CREATE2 || op == EXTCODECOPY then 4
    else if IsCopy(op) || op == CREATE then 3
    else if HasValue(op) then 7
    else if IsCall(op) then 6
    else if IsDup(op) then op - DUP1 + 1
    else if IsSwap(op) then op - SWAP1 + 2
    else if IsLog(op) then op - LOG0 + 2
    else 0
  }

  function Returned(op: octet): nat {
    if IsDup(op) then op - DUP1 + 2
    else if IsSwap(op) then op - SWAP1 + 2
    else if IsArithmetic(op) || op == MLOAD || op == SHA3 || op == PC || op == MSIZE || op == GAS || IsPush(op)
            || op == PUSHC || IsCall(op) || IsCreate(op) then 1
    else 0
  }

  // ---------------------------------------------------------------- bytes and words

  function ByteAt(c: seq<octet>, i: nat): octet {
    if i < |c| then c[i] else 0
  }

  /** The number in `n` bytes from `at` on. */
  function Digits(c: seq<octet>, at: nat, n: nat): nat
    decreases n
  {
    if n == 0 then 0 else Digits(c, at, n - 1) * 256 + ByteAt(c, at + n - 1)
  }

  lemma {:induction false} DigitsBound(c: seq<octet>, at: nat, n: nat)
    ensures Digits(c, at, n) < Bytes.Exp256(n)
    decreases n
  {
    if n > 0 {
      DigitsBound(c, at, n - 1);
    }
  }

  function WordAt(c: seq<octet>, at: nat, n: nat): word
    requires n <= 32
  {
    DigitsBound(c, at, n);
    Exp256Mono(n, 32);
    Exp256Word();
    Digits(c, at, n)
  }

  /** The `n` bytes of a number. */
  function BytesOf(v: nat, n: nat): (s: seq<octet>)
    ensures |s| == n
    decreases n
  {
    if n == 0 then [] else BytesOf(v / 256, n - 1) + [v % 256]
  }

  /** The memory with `data` written at `at`. */
  function Written(mem: seq<octet>, at: nat, data: seq<octet>): (m: seq<octet>)
    ensures |m| == |mem|
  {
    seq(|mem|, i requires 0 <= i < |mem| => if at <= i < at + |data| then data[i - at] else mem[i])
  }

  function Slice(mem: seq<octet>, at: nat, size: nat): (s: seq<octet>)
    ensures |s| == size
  {
    seq<octet>(size, i requires 0 <= i < size => ByteAt(mem, at + i))
  }

  /** b to the power of e. */
  function Power(b: nat, e: nat): nat {
    if e == 0 then 1 else b * Power(b, e - 1)
  }

  /** Bytes in the exponent, from its highest set bit (VM.cpp:550-561). */
  function ExponentBytes(e: nat): nat {
    if e == 0 then 0 else 1 + ExponentBytes(e / 256)
  }

  // ---------------------------------------------------------------- refusals and prices

  /** m_SP[i]. */
  function Arg(s: State, i: nat): nat
    requires i < |s.stack|
  {
    s.stack[i]
  }

  /** What the instruction throws before anything is charged. */
  function Refusal(p: Program, env: Env, h: Host, s: State, op: octet): Option<Error>
    requires Modelled(op) ==> |s.stack| >= Args(op)
  {
    if op == INVALID || (Synthetic(op) && !p.optimised) then Some(BadInstruction)
    else if op == REVERT && env.rev < BYZANTIUM then Some(BadInstruction)
    else if op == CREATE2 && env.rev < CONSTANTINOPLE then Some(BadInstruction)
    else if op == DELEGATECALL && env.rev < HOMESTEAD then Some(BadInstruction)
    else if op == STATICCALL && env.rev < BYZANTIUM then Some(BadInstruction)
    else if env.readOnly && (IsLog(op) || IsCreate(op) || op == SUICIDE || (op == CALL && Arg(s, 2) != 0))
    then Some(DisallowedStateChange)
    else if op == RETURNDATACOPY && env.rev < BYZANTIUM then Some(BadInstruction)
    else if op == RETURNDATACOPY && |s.ret| < Arg(s, 1) + Arg(s, 2) then Some(BufferOverrun)
    else if !Modelled(op) && h.refused then Some(HostRefusal)
    else None
  }

  /** A price with a need for memory; None where toInt63 or memNeed throw. */
  function Needing(run: Option<nat>, need: Option<nat>, copy: Option<nat>): Option<Price> {
    if run.Some? && need.Some? && copy.Some? then Some(Price(run.value, need.value, copy.value)) else None
  }

  function Larger(a: Option<nat>, b: Option<nat>): Option<nat> {
    if a.Some? && b.Some? then Some(if a.value > b.value then a.value else b.value) else None
  }

  function Plus(a: Option<nat>, n: nat): Option<nat> {
    if a.Some? then Some(a.value + n) else None
  }

  /** caseCallSetup: the price of the call itself. */
  function CallPrice(env: Env, h: Host, s: State, op: octet): nat
    requires IsCall(op) && |s.stack| >= Args(op)
  {
    (if env.rev >= TANGERINE_WHISTLE then 700 else 40)
    + (if op == CALL && !h.known && (Arg(s, 2) > 0 || env.rev < SPURIOUS_DRAGON) then CALL_NEW_ACCOUNT else 0)
    + (if HasValue(op) && Arg(s, 2) > 0 then VALUE_TRANSFER_GAS else 0)
  }

  function ExtCodePrice(env: Env): nat {
    if env.rev >= TANGERINE_WHISTLE then 700 else 20
  }

  /** Sending the balance to an account that does not exist costs extra. */
  function SuicidePrice(env: Env, h: Host): nat {
    (if env.rev >= TANGERINE_WHISTLE then 5000 else 0)
    + (if (h.balance > 0 || env.rev < SPURIOUS_DRAGON) && env.rev >= TANGERINE_WHISTLE && !h.known
       then CALL_NEW_ACCOUNT else 0)
  }

  function ExpPrice(env: Env, exponent: nat): nat {
    STEP_GAS5 + (if env.rev >= SPURIOUS_DRAGON then 50 else 10) * ExponentBytes(exponent)
  }

  function PriceOf(env: Env, h: Host, s: State, op: octet): Option<Price>
    requires Standard(env.table) && |s.stack| >= env.table[op].args
  {
    var cost := env.table[op].gas;
    if op == JUMPDEST then Some(Price(JUMPDEST_GAS, 0, 0))
    else if op == EXP then Some(Price(ExpPrice(env, Arg(s, 1)), 0, 0))
    else if op == MLOAD || op == MSTORE then Needing(Some(cost), Plus(ToInt63(Arg(s, 0)), 32), Some(0))
    else if op == MSTORE8 then Needing(Some(cost), Plus(ToInt63(Arg(s, 0)), 1), Some(0))
    else if op == SHA3 then
      Needing(ToInt63(SHA3_GAS + (Arg(s, 1) + 31) / 32 * SHA3_WORD_GAS), MemNeed(Arg(s, 0), Arg(s, 1)), Some(0))
    else if IsLog(op) then
      Needing(ToInt63(LOG_GAS + LOG_TOPIC_GAS * (op - LOG0) + LOG_DATA_GAS * Arg(s, 1)),
        MemNeed(Arg(s, 0), Arg(s, 1)), Some(0))
    else if op == EXTCODECOPY then Needing(Some(ExtCodePrice(env)), MemNeed(Arg(s, 1), Arg(s, 3)), ToInt63(Arg(s, 3)))
    else if IsCopy(op) then Needing(Some(cost), MemNeed(Arg(s, 0), Arg(s, 2)), ToInt63(Arg(s, 2)))
    else if op == RETURN || op == REVERT then Needing(Some(cost), MemNeed(Arg(s, 0), Arg(s, 1)), Some(0))
    else if IsCreate(op) then
      var words := (Arg(s, 2) + 31) / 32;
      Needing(if op == CREATE2 then Plus(ToInt63(words * SHA3_WORD_GAS), CREATE_GAS) else Some(CREATE_GAS),
              MemNeed(Arg(s, 1), Arg(s, 2)), Some(0))
    else if IsCall(op) then
      var at := if HasValue(op) then 3 else 2;
      Needing(Some(CallPrice(env, h, s, op)),
              Larger(MemNeed(Arg(s, at), Arg(s, at + 1)), MemNeed(Arg(s, at + 2), Arg(s, at + 3))), Some(0))
    else if op == SUICIDE then Some(Price(SuicidePrice(env, h), 0, 0))
    else if !Modelled(op) then (if h.cost > INT63 then None else Some(Price(h.cost, 0, 0)))
    else Some(Price(cost, 0, 0))
  }

  // ---------------------------------------------------------------- effects

  function AsWord(n: int): word {
    n % WORD_LIMIT
  }

  function Compute(op: octet, a: nat, b: nat): word {
    AsWord(if op == ADD then a + b else if op == MUL then a * b else if op == SUB then a - b else Power(a, b))
  }

  /** copyDataToMemory: bytes behind the end of the data read as zero. */
  function Copied(mem: seq<octet>, s: State, data: seq<octet>): (m: seq<octet>)
    requires |s.stack| >= 3
    ensures |m| == |mem|
  {
    Written(mem, Arg(s, 0), Slice(data, Arg(s, 1), Arg(s, 2)))
  }

  /** EXTCODECOPY: the code of another account, from an offset cut to 64 bits on. */
  function CodeCopied(mem: seq<octet>, s: State, code: seq<octet>): (m: seq<octet>)
    requires |s.stack| >= 4
    ensures |m| == |mem|
  {
    Written(mem, Arg(s, 1), Slice(code, CodeOffset(Arg(s, 2)), Arg(s, 3)))
  }

  function CodeOffset(n: nat): nat {
    if n > UINT64 - 1 then UINT64 - 1 else n
  }

  function CopySource(env: Env, s: State, op: octet): seq<octet> {
    if op == CALLDATACOPY then env.input else if op == CODECOPY then env.pCode else s.ret
  }

  /** The offset is cut to 32 bits. */
  function Offset(s: State): nat
    requires |s.stack| >= 1
  {
    Arg(s, 0) % UINT32
  }

  function MemoryAfter(env: Env, h: Host, s: State, op: octet, mem: seq<octet>): (m: seq<octet>)
    requires IsMemory(op) && |s.stack| >= Args(op)
    ensures |m| == |mem|
  {
    if op == MSTORE then Written(mem, Offset(s), BytesOf(s.stack[1], 32))
    else if op == MSTORE8 then Written(mem, Offset(s), [s.stack[1] as int % 256])
    else if op == EXTCODECOPY then CodeCopied(mem, s, h.output)
    else if IsCopy(op) then Copied(mem, s, CopySource(env, s, op))
    else mem
  }

  function StackAfter(s: State, op: octet, paid: Paid): seq<word>
    requires IsStackOp(op) && |s.stack| >= Args(op)
  {
    if op == POP then s.stack[1..]
    else if op == PC then [AsWord(s.pc)] + s.stack
    else if op == MSIZE then [AsWord(|paid.mem|)] + s.stack
    else if op == GAS then [AsWord(paid.gas)] + s.stack
    else if IsDup(op) then [s.stack[op - DUP1]] + s.stack
    else if IsSwap(op) then s.stack[0 := s.stack[op - SWAP1 + 1]][op - SWAP1 + 1 := s.stack[0]]
    else s.stack
  }

  /** What a call hands to the callee, stipend left out: None where the rest does not suffice. */
  function CallGas(env: Env, s: State, gas: nat): (r: Option<nat>)
    requires |s.stack| >= 1
    ensures r.Some? ==> r.value <= gas
  {
    var most := gas - gas / 64;
    var asked := if env.rev >= TANGERINE_WHISTLE && most < Arg(s, 0) then most else Arg(s, 0);
    if asked > INT63 || gas < asked then None else Some(asked)
  }

  function Stipend(s: State, op: octet): nat
    requires IsCall(op) && |s.stack| >= Args(op)
  {
    if HasValue(op) && Arg(s, 2) > 0 then CALL_STIPEND else 0
  }

  predicate Enters(env: Env, h: Host, value: nat) {
    h.balance as nat >= value && env.depth < CALL_DEPTH_LIMIT
  }

  function CallEffect(env: Env, h: Host, s: State, op: octet, paid: Paid): Outcome
    requires IsCall(op) && |s.stack| >= Args(op)
  {
    match CallGas(env, s, paid.gas)
    case None => Throw(OutOfGas)
    case Some(asked) =>
      var at := if HasValue(op) then 5 else 4;
      var rest := s.stack[Args(op)..];
      if Enters(env, h, if HasValue(op) then Arg(s, 2) else 0) then
        var size := if |h.output| < Arg(s, at + 1) then |h.output| else Arg(s, at + 1);
        Go(State(s.pc + 1, [if h.success then 1 else 0] + rest, Written(paid.mem, Arg(s, at), h.output[..size]),
                 paid.gas - asked + h.gasLeft, h.output))
      else
        Go(State(s.pc + 1, [0] + rest, paid.mem, paid.gas + Stipend(s, op), []))
  }

  function CreateGas(env: Env, gas: nat): (r: nat)
    ensures r <= gas
  {
    if env.rev >= TANGERINE_WHISTLE then gas - gas / 64 else gas
  }

  function CreateEffect(env: Env, h: Host, s: State, op: octet, paid: Paid): Outcome
    requires IsCreate(op) && |s.stack| >= Args(op)
  {
    var rest := s.stack[Args(op)..];
    if Enters(env, h, Arg(s, 0)) then
      Go(State(s.pc + 1, [if h.success then h.pushed else 0] + rest, paid.mem,
        paid.gas - CreateGas(env, paid.gas) + h.gasLeft, h.output))
    else
      Go(State(s.pc + 1, [0] + rest, paid.mem, paid.gas, []))
  }

  function JumpEffect(env: Env, s: State, op: octet, paid: Paid): Outcome
    requires IsJump(op) && |s.stack| >= Args(op)
  {
    var rest := s.stack[Args(op)..];
    if (op == JUMPI || op == JUMPCI) && s.stack[1] == 0 then Go(State(s.pc + 1, rest, paid.mem, paid.gas, s.ret))
    else if op == JUMPC || op == JUMPCI then Go(State(Arg(s, 0) % UINT64, rest, paid.mem, paid.gas, s.ret))
    else if IsJumpDest(env.pCode, s.stack[0]) then Go(State(Arg(s, 0), rest, paid.mem, paid.gas, s.ret))
    else Throw(BadJumpDestination)
  }

  /** PUSHn, and PUSHC with its two-byte pool offset and its count of bytes to skip. */
  function PushEffect(p: Program, s: State, op: octet, paid: Paid): Outcome
    requires IsPush(op) || op == PUSHC
  {
    if op == PUSHC then
      var off := ByteAt(p.code, s.pc + 1) as nat * 256 + ByteAt(p.code, s.pc + 2) as nat;
      var pushed := if off < |p.pool| then p.pool[off] else 0;
      Go(State(s.pc + 3 + ByteAt(p.code, s.pc + 3), [pushed] + s.stack, paid.mem, paid.gas, s.ret))
    else
      var n := op - PUSH1 + 1;
      Go(State(s.pc + 1 + n, [WordAt(p.code, s.pc + 1, n)] + s.stack, paid.mem, paid.gas, s.ret))
  }

  function HaltEffect(s: State, op: octet, paid: Paid): Outcome
    requires IsHalt(op) && |s.stack| >= Args(op)
  {
    if op == RETURN then Halt(paid.gas, Slice(paid.mem, Arg(s, 0), Arg(s, 1)))
    else if op == REVERT then Revert(paid.gas, Slice(paid.mem, Arg(s, 0), Arg(s, 1)))
    else Halt(paid.gas, [])
  }

  function Effect(p: Program, env: Env, h: Host, s: State, op: octet, paid: Paid): Outcome
    requires Standard(env.table) && |s.stack| >= env.table[op].args
  {
    var m := env.table[op];
    var next := s.pc + 1;
    var rest := s.stack[m.args..];
    if IsHalt(op) then HaltEffect(s, op, paid)
    else if IsCall(op) then CallEffect(env, h, s, op, paid)
    else if IsCreate(op) then CreateEffect(env, h, s, op, paid)
    else if IsJump(op) then JumpEffect(env, s, op, paid)
    else if IsPush(op) || op == PUSHC then PushEffect(p, s, op, paid)
    else if IsStackOp(op) then Go(State(next, StackAfter(s, op, paid), paid.mem, paid.gas, s.ret))
    else if IsMemory(op) then
      var pushed := if op == MLOAD then [WordAt(paid.mem, Offset(s), 32)] else if op == SHA3 then [h.pushed] else [];
      Go(State(next, pushed + rest, MemoryAfter(env, h, s, op, paid.mem), paid.gas, s.ret))
    else if IsArithmetic(op)
      then Go(State(next, [Compute(op, s.stack[0], s.stack[1])] + rest, paid.mem, paid.gas, s.ret))
    else Go(State(next, (if m.returned == 1 then [h.pushed] else []) + rest, paid.mem, paid.gas, s.ret))
  }

  /** What the instruction at the program counter has to pay, once it is not refused. */
  function Payment(p: Program, env: Env, h: Host, s: State): Option<Paid>
    requires Standard(env.table) && |s.stack| >= env.table[ByteAt(p.code, s.pc)].args
  {
    match PriceOf(env, h, s, ByteAt(p.code, s.pc))
    case None => None
    case Some(price) => Charge(s.gas, s.mem, price)
  }

  predicate Fits(m: Metric, stack: seq<word>) {
    m.args <= |stack| && |stack| - m.args + m.returned <= STACK_LIMIT
  }

  /** One case of interpretCases that does not refuse: pay, then do it. */
  function Perform(p: Program, env: Env, h: Host, s: State): Outcome
    requires Standard(env.table) && |s.stack| >= env.table[ByteAt(p.code, s.pc)].args
  {
    match Payment(p, env, h, s)
    case None => Throw(OutOfGas)
    case Some(paid) => Effect(p, env, h, s, ByteAt(p.code, s.pc), paid)
  }

  /** fetchInstruction and one case of interpretCases, calls included. */
  function Step(p: Program, env: Env, h: Host, s: State): Outcome
    requires Standard(env.table)
  {
    var op := ByteAt(p.code, s.pc);
    if !Fits(env.table[op], s.stack) then Throw(BadStack)
    else match Refusal(p, env, h, s, op)
      case Some(e) => Throw(e)
      case None => Perform(p, env, h, s)
  }
}
