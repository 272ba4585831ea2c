/** The interpreter object (VM.h, VM.cpp, VMCalls.cpp): a stack that grows down in a fixed buffer, a
    memory that is resized, and the metering fields, all updated in place instruction by instruction,
    proved to do what the step function says. */
module EvmVm {
  import opened Bytes
  import opened Options
  import opened EvmCode
  import opened EvmMetering
  import opened EvmStep
  import opened EvmArith
  import opened EvmRuns

  /** How an instruction ends: go on, stop, or throw. */
  datatype Status = Running | Halted(output: seq<octet>) | Reverted(output: seq<octet>) | Thrown(error: Error)

  /** 64-bit arithmetic. */
  function Wrapped(n: nat): nat {
    n % UINT64
  }

  lemma Unwrapped(n: nat)
    ensures n < UINT64 ==> Wrapped(n) == n
  {
  }

  /** (unsigned)m_SP[0]. */
  function Cut32(w: word): nat {
    w as nat % UINT32
  }

  /** What a memory instruction pushes. */
  function MemoryPushed(h: Host, s: State, op: octet, mem: seq<octet>): seq<word>
    requires op == MLOAD ==> |s.stack| >= 1
  {
    if op == MLOAD then [WordAt(mem, Offset(s), 32)] else if op == SHA3 then [h.pushed] else []
  }

  /** The memory an instruction writes or reads is there. */
  ghost predicate Covered(s: State, op: octet, size: nat)
    requires |s.stack| >= Args(op)
  {
    && (op == MLOAD || op == MSTORE ==> Arg(s, 0) + 32 <= size)
    && (op == MSTORE8 ==> Arg(s, 0) + 1 <= size)
    && (op == EXTCODECOPY && Arg(s, 3) > 0 ==> Arg(s, 1) + Arg(s, 3) <= size)
    && (IsCopy(op) && op != EXTCODECOPY && Arg(s, 2) > 0 ==> Arg(s, 0) + Arg(s, 2) <= size)
  }

  function CallValue(s: State, op: octet): nat
    requires IsCall(op) && |s.stack| >= Args(op)
  {
    if HasValue(op) then Arg(s, 2) else 0
  }

  /** The output region of a call. */
  function OutputAt(s: State, op: octet): nat
    requires IsCall(op) && |s.stack| >= Args(op)
  {
    Arg(s, if HasValue(op) then 5 else 4)
  }

  function OutputSize(h: Host, s: State, op: octet): (n: nat)
    requires IsCall(op) && |s.stack| >= Args(op)
    ensures n <= |h.output|
  {
    var most := Arg(s, if HasValue(op) then 6 else 5);
    if |h.output| < most then |h.output| else most
  }

  ghost predicate OutputFits(s: State, op: octet, size: nat)
    requires IsCall(op) && |s.stack| >= Args(op)
  {
    var most := Arg(s, if HasValue(op) then 6 else 5);
    most > 0 ==> OutputAt(s, op) + most <= size
  }

  class Vm {
    const env: Env
    const prep: Preparation
    const optimising: bool
    const stack: array<word>
    var sp: nat               // m_SP, as an index into the stack
    var spp: nat              // m_SPP
    var mem: seq<octet>
    var returnData: seq<octet>
    var op: octet
    var pc: nat
    var ioGas: nat
    var runGas: nat
    var newMemSize: nat
    var copyMemSize: nat

    /** What stays in place: the prepared code and the surroundings. */
    ghost predicate Fixed()
      reads prep
    {
      && stack.Length == STACK_LIMIT && Standard(env.table) && Priced(env.table)
      && |env.pCode| <= MAX_DEST && (optimising ==> Lands(env.pCode, Pool(env.pCode)))
      && prep.pCode == env.pCode && prep.Ready(optimising)
    }

    /** Between two instructions. */
    ghost predicate Valid()
      reads this, prep, stack
    {
      Fixed() && stack.Length == STACK_LIMIT && spp <= STACK_LIMIT && ioGas <= INT63 && Placed(View())
    }

    /** The plain build, or an optimised one that finds every constant again. */
    ghost predicate PlainAlike() {
      !optimising || Faithful(Pool(env.pCode))
    }

    /** At an instruction of the code; a pre-verified jump there finds a destination. */
    ghost predicate Placed(s: State) {
      Aligned(env.pCode, s) && (PlainAlike() ==> Inv(env.pCode, s))
    }

    function Prog(): Program
      reads this, prep
    {
      Program(prep.code, prep.pool, optimising)
    }

    /** The state an instruction starts from. */
    function View(): State
      reads this, stack
      requires spp <= stack.Length
    {
      State(pc, stack[spp..], mem, ioGas, returnData)
    }

    constructor (env: Env, optimising: bool, gas: nat)
      requires Standard(env.table) && Priced(env.table) && gas <= INT63
      requires |env.pCode| <= MAX_DEST && (optimising ==> Lands(env.pCode, Pool(env.pCode)))
      ensures Valid() && this.env == env && this.optimising == optimising
      ensures View() == State(0, [], [], gas, []) && fresh(prep) && fresh(stack)
    {
      this.env, this.optimising := env, optimising;
      var p := new Preparation(env.pCode);
      p.Optimise(optimising);
      prep := p;
      stack := new word[STACK_LIMIT](_ => 0);
      sp, spp := STACK_LIMIT, STACK_LIMIT;
      mem, returnData := [], [];
      op, pc := STOP, 0;
      ioGas, runGas, newMemSize, copyMemSize := gas, 0, 0, 0;
      new;
      hide Standard, Priced, Lands, Boundary;
      Initial(env.pCode, gas);
      InvAligned(env.pCode, View());
      assert stack[spp..] == [];
    }

    // -------------------------------------------------------------- fetching

    /** adjustStack: false where it throws. */
    method AdjustStack(removed: nat, added: nat) returns (ok: bool)
      requires stack.Length == STACK_LIMIT && spp <= STACK_LIMIT
      modifies this`sp, this`spp
      ensures sp == old(spp)
      ensures ok <==> removed <= STACK_LIMIT - old(spp) && STACK_LIMIT - old(spp) - removed + added <= STACK_LIMIT
      ensures ok ==> spp == sp + removed - added && spp <= STACK_LIMIT
    {
      sp := spp;
      spp := spp + removed;
      if STACK_LIMIT < spp {
        return false;
      }
      if spp < added {
        return false;
      }
      spp := spp - added;
      ok := true;
    }

    /** The instruction of the state `s` has been fetched, its arguments are there. */
    ghost predicate Fetched(s: State)
      reads this, prep, stack
    {
      && Fixed() && stack.Length == STACK_LIMIT && sp <= STACK_LIMIT && spp <= STACK_LIMIT && |env.table| == 256
      && State(pc, stack[sp..], mem, ioGas, returnData) == s
      && Placed(s) && op == ByteAt(prep.code, pc) && Fits(env.table[op], s.stack)
      && spp == sp + env.table[op].args - env.table[op].returned
      && runGas == env.table[op].gas && newMemSize == |mem| && copyMemSize == 0
    }

    lemma CodeInside()
      requires Fixed() && Boundary(env.pCode, pc)
      ensures pc < |prep.code| && |env.table| == 256
    {
      BoundaryInCopy(env.pCode, 0, pc);
    }

    method FetchInstruction() returns (ok: bool)
      requires Valid()
      modifies this`op, this`sp, this`spp, this`runGas, this`newMemSize, this`copyMemSize
      ensures |env.table| == 256 && (ok <==> Fits(env.table[ByteAt(prep.code, pc)], old(View()).stack))
      ensures ok ==> Fetched(old(View()))
    {
      hide Fixed;
      CodeInside();
      op := prep.code[pc];
      var metric := env.table[op];
      ok := AdjustStack(metric.args, metric.returned);
      runGas := metric.gas;
      newMemSize := |mem|;
      copyMemSize := 0;
    }

    // -------------------------------------------------------------- paying

    /** updateIOGas: false where it throws. */
    method UpdateIOGas() returns (ok: bool)
      modifies this`ioGas
      ensures ok <==> old(ioGas) >= runGas
      ensures ioGas == if ok then old(ioGas) - runGas else old(ioGas)
    {
      if ioGas < runGas {
        return false;
      }
      ioGas := ioGas - runGas;
      ok := true;
    }

    /** gasForMem: None where it throws. */
    function GasForMem(size: nat): Option<nat> {
      ToInt63(MemCost(size))
    }

    /** updateGas, in 64-bit arithmetic: false where it throws. */
    method UpdateGas() returns (ok: bool)
      requires runGas + CopyCost(copyMemSize) <= INT63 + 1
      modifies this`runGas
      ensures match GrowthTo(|mem|, newMemSize)
        case None => !ok
        case Some(growth) =>
          var total := old(runGas) + growth + CopyCost(copyMemSize);
          runGas == total < UINT64 && (ok <==> ioGas >= total)
    {
      hide MemCost, CopyCost, Wrapped;
      if newMemSize > |mem| {
        MemCostMono(|mem|, newMemSize);
        var after, now := GasForMem(newMemSize), GasForMem(|mem|);
        if after.None? || now.None? {
          return false;
        }
        Unwrapped(runGas + (after.value - now.value));
        runGas := Wrapped(runGas + (after.value - now.value));
      }
      Unwrapped(runGas + CopyCost(copyMemSize));
      runGas := Wrapped(runGas + CopyCost(copyMemSize));
      ok := ioGas >= runGas;
    }

    /** updateMem: false where it throws. */
    method UpdateMem(newMem: nat) returns (ok: bool)
      requires Sane(Price(runGas, newMem, copyMemSize))
      modifies this`runGas, this`newMemSize, this`mem
      ensures match Growth(|old(mem)|, newMem)
        case None => !ok
        case Some(growth) => runGas == old(runGas) + growth + CopyCost(copyMemSize) && (ok <==> ioGas >= runGas)
      ensures ok ==> mem == Grown(old(mem), newMem)
    {
      newMemSize := (newMem + 31) / 32 * 32;
      ok := UpdateGas();
      if ok && newMemSize > |mem| {
        mem := mem + seq(newMemSize - |mem|, _ => 0);
      }
    }

    /** updateMem and updateIOGas: the payment of the step function. */
    method Pay(need: nat) returns (ok: bool)
      requires Sane(Price(runGas, need, copyMemSize))
      modifies this`runGas, this`newMemSize, this`mem, this`ioGas
      ensures Charge(old(ioGas), old(mem), Price(old(runGas), need, copyMemSize))
        == if ok then Some(Paid(ioGas, mem)) else None
    {
      ok := UpdateMem(need);
      if ok {
        ok := UpdateIOGas();
      }
    }

    // -------------------------------------------------------------- instructions

    /** It was done. */
    ghost predicate Did(o: Status, out: Outcome)
      reads this, stack
    {
      match out
      case Go(t) => o == Running && spp <= stack.Length && View() == t
      case Halt(gas, output) => o == Halted(output) && ioGas == gas
      case Revert(gas, output) => o == Reverted(output) && ioGas == gas
      case Throw(e) => o == Thrown(e)
    }

    /** The stack of the state `s` lies in the buffer from m_SP on. */
    ghost predicate Holding(s: State)
      reads this`sp, stack
    {
      stack.Length == STACK_LIMIT && sp <= STACK_LIMIT && stack[sp..] == s.stack
    }

    lemma Peek(s: State)
      requires Holding(s)
      ensures stack.Length == STACK_LIMIT && sp + |s.stack| == STACK_LIMIT
      ensures forall i {:trigger s.stack[i]} :: 0 <= i < |s.stack| ==> stack[sp + i] == s.stack[i]
    {
      assert forall i :: 0 <= i < |s.stack| ==> stack[sp..][i] == stack[sp + i];
    }

    /** m_SPP[0] = w, in place of `n` arguments. */
    method PutResult(w: word, ghost s: State, ghost n: nat)
      requires Holding(s) && n <= |s.stack| && spp < STACK_LIMIT && spp + 1 == sp + n
      modifies stack
      ensures stack[spp..] == [w] + s.stack[n..]
    {
      assert stack[spp + 1..] == stack[sp..][n..];
      PutTop(w);
    }

    /** m_SPP[0] = w. */
    method PutTop(w: word)
      requires spp < stack.Length
      modifies stack
      ensures stack[spp..] == [w] + old(stack[spp + 1..])
      ensures forall i :: 0 <= i < stack.Length && i != spp ==> stack[i] == old(stack[i])
    {
      stack[spp] := w;
    }

    /** What a fetched instruction finds. */
    lemma Known(s: State)
      requires Fetched(s)
      ensures Standard(env.table) && |env.table| == 256 && env.table[op].gas <= UINT32
      ensures |s.stack| >= env.table[op].args && Boundary(env.pCode, pc)
      ensures Modelled(op) ==>
        |s.stack| >= Args(op) && spp == sp + Args(op) - Returned(op) && env.table[op].args == Args(op)
    {
      StandardArgs(env.table, op);
    }

    /** POP, PC, MSIZE, GAS, JUMPDEST, DUP, SWAP. */
    method CaseStackOp(h: Host, ghost s: State) returns (o: Status)
      requires Fetched(s) && IsStackOp(op)
      modifies this`runGas, this`ioGas, this`pc, stack
      ensures Did(o, Step(Prog(), env, h, s))
    {
      hide Fixed, Standard, Step, StackAfter, Args, Returned, IsStackOp;
      Known(s);
      if op == JUMPDEST {
        runGas := JUMPDEST_GAS;
      }
      StackOpStep(Prog(), env, h, s, op);
      var ok := UpdateIOGas();
      if !ok {
        return Thrown(OutOfGas);
      }
      StackOp(s);
      pc := pc + 1;
      o := Running;
    }

    method StackOp(ghost s: State)
      requires IsStackOp(op) && Holding(s) && pc == s.pc && spp <= STACK_LIMIT
      requires |s.stack| >= Args(op) && spp == sp + Args(op) - Returned(op)
      modifies stack
      ensures stack[spp..] == StackAfter(s, op, Paid(ioGas, mem))
    {
      hide AsWord, Args, Returned;
      StackArgs(op);
      if op == PC {
        PutTop(AsWord(pc));
      } else if op == MSIZE {
        PutTop(AsWord(|mem|));
      } else if op == GAS {
        PutTop(AsWord(ioGas));
      } else if IsDup(op) {
        Dup(op - DUP1, s);
      } else if IsSwap(op) {
        Swap(op - SWAP1 + 1, s);
      }
    }

    method Dup(n: nat, ghost s: State)
      requires Holding(s) && n < |s.stack| && spp + 1 == sp
      modifies stack
      ensures stack[spp..] == [s.stack[n]] + s.stack
    {
      Peek(s);
      PutTop(stack[sp + n]);
    }

    method Swap(n: nat, ghost s: State)
      requires Holding(s) && 0 < n < |s.stack| && spp == sp
      modifies stack
      ensures stack[spp..] == s.stack[0 := s.stack[n]][n := s.stack[0]]
    {
      stack[sp], stack[sp + n] := stack[sp + n], stack[sp];
    }

    /** PUSHn: build the number byte by byte; PUSHC: take it from the pool. */
    method CasePush(h: Host, ghost s: State) returns (o: Status)
      requires Fetched(s) && (IsPush(op) || op == PUSHC)
      modifies this`ioGas, this`pc, stack
      ensures Did(o, Step(Prog(), env, h, s))
    {
      hide Step, Fixed, Standard, Placed, PushEffect;
      Known(s);
      PushStep(Prog(), env, h, s, op);
      if op == PUSHC && !optimising {
        return Thrown(BadInstruction);
      }
      var ok := UpdateIOGas();
      if !ok {
        return Thrown(OutOfGas);
      }
      DoPush(s, Paid(ioGas, mem));
      o := Running;
    }

    method DoPush(ghost s: State, ghost paid: Paid)
      requires Fixed() && Boundary(env.pCode, pc) && s.pc == pc && op == ByteAt(prep.code, pc) && Pushing(Prog(), op)
      requires sp <= STACK_LIMIT && sp == spp + 1 && stack.Length == STACK_LIMIT && stack[sp..] == s.stack
      requires paid == Paid(ioGas, mem) && s.ret == returnData
      modifies this`pc, stack
      ensures PushEffect(Prog(), s, op, paid) == Go(View())
    {
      hide Fixed, Standard, Boundary, ByteAt;
      PushReady();
      BytesInside();
      if op == PUSHC {
        PushPooled();
      } else {
        PushBytes(op - PUSH1 + 1);
      }
    }

    lemma BytesInside()
      ensures forall i: nat :: i < |prep.code| ==> ByteAt(prep.code, i) == prep.code[i]
    {
    }

    /** Take the value at a two-byte offset of the pool and skip the rest of the operands. */
    method PushPooled()
      requires pc + 3 < |prep.code| && spp < stack.Length
      requires prep.code[pc + 1] as nat * 256 + prep.code[pc + 2] as nat < |prep.pool|
      modifies this`pc, stack
      ensures pc == old(pc) + 3 + prep.code[old(pc) + 3]
      ensures stack[spp..]
        == [prep.pool[prep.code[old(pc) + 1] as nat * 256 + prep.code[old(pc) + 2] as nat]] + old(stack[spp + 1..])
    {
      pc := pc + 1;
      var off: nat := prep.code[pc] as nat * 256;
      pc := pc + 1;
      off := off + prep.code[pc] as nat;
      pc := pc + 1;
      pc := pc + prep.code[pc];
      PutTop(prep.pool[off]);
    }

    /** What the pushed bytes and the synthetic operands read lies inside the copied code. */
    lemma PushReady()
      requires Fixed() && Boundary(env.pCode, pc) && op == ByteAt(prep.code, pc) && Pushing(Prog(), op)
      ensures pc < |prep.code| && op == prep.code[pc]
      ensures op == PUSHC ==>
        pc + 3 < |prep.code| && prep.code[pc + 1] as nat * 256 + prep.code[pc + 2] as nat < |prep.pool|
      ensures op != PUSHC ==> pc + PushSize(op) < |prep.code|
    {
      CodeInside();
      PushInside(env.pCode, prep.code, prep.pool, optimising, pc);
    }

    /** The loop of PUSHn. */
    method PushBytes(numBytes: nat)
      requires numBytes <= 32 && pc + numBytes < |prep.code| && spp < stack.Length
      modifies this`pc, stack
      ensures pc == old(pc) + 1 + numBytes
      ensures stack[spp..] == [WordAt(prep.code, old(pc) + 1, numBytes)] + old(stack[spp + 1..])
    {
      stack[spp] := 0;
      pc := pc + 1;
      var n := numBytes;
      while n > 0
        invariant 0 <= n <= numBytes && pc == old(pc) + 1 + numBytes - n
        invariant stack[spp] as nat == Digits(prep.code, old(pc) + 1, numBytes - n)
        invariant forall i :: 0 <= i < stack.Length && i != spp ==> stack[i] == old(stack[i])
      {
        ShiftFits(prep.code, old(pc) + 1, numBytes - n);
        stack[spp] := AsWord(stack[spp] as nat * 256 + prep.code[pc]);
        n, pc := n - 1, pc + 1;
      }
    }

    /** JUMP and JUMPI look their destination up; JUMPC and JUMPCI take it as it is. */
    method CaseJump(h: Host, ghost s: State) returns (o: Status)
      requires Fetched(s) && IsJump(op)
      modifies this`ioGas, this`pc
      ensures Did(o, Step(Prog(), env, h, s))
    {
      hide Step, Fixed, Standard, Placed, JumpEffect;
      Known(s);
      JumpStep(Prog(), env, h, s, op);
      if Synthetic(op) && !optimising {
        return Thrown(BadInstruction);
      }
      var ok := UpdateIOGas();
      if !ok {
        return Thrown(OutOfGas);
      }
      ok := Jump(s, Paid(ioGas, mem));
      o := if ok then Running else Thrown(BadJumpDestination);
    }

    method Jump(ghost s: State, ghost paid: Paid) returns (ok: bool)
      requires Fixed() && IsJump(op) && |s.stack| >= Args(op) && s.pc == pc && paid == Paid(ioGas, mem)
      requires s.ret == returnData
      requires sp <= spp <= STACK_LIMIT && stack.Length == STACK_LIMIT && stack[sp..] == s.stack && spp == sp + Args(op)
      modifies this`pc
      ensures JumpEffect(env, s, op, paid) == if ok then Go(View()) else Throw(BadJumpDestination)
    {
      hide Fixed, IsJumpDest;
      if (op == JUMPI || op == JUMPCI) && stack[sp + 1] == 0 {
        pc := pc + 1;
      } else if op == JUMPC || op == JUMPCI {
        pc := Wrapped(stack[sp]);
      } else {
        var dest := Verify(stack[sp]);
        if dest == -1 {
          return false;
        }
        pc := dest;
      }
      ok := true;
    }

    /** verifyJumpDest. */
    method Verify(dest: word) returns (r: int)
      requires Fixed()
      ensures r == if IsJumpDest(env.pCode, dest) then dest else -1
    {
      r := prep.VerifyJumpDest(dest);
    }

    method CaseArithmetic(h: Host, ghost s: State) returns (o: Status)
      requires Fetched(s) && IsArithmetic(op)
      modifies this`ioGas, this`pc, this`runGas, stack
      ensures Did(o, Step(Prog(), env, h, s))
    {
      hide Step, Fixed, Standard, Placed, ExponentBytes;
      Known(s);
      ArithmeticStep(Prog(), env, h, s, op);
      var a, b := stack[sp], stack[sp + 1];
      if op == EXP {
        runGas := STEP_GAS5 + (if env.rev >= SPURIOUS_DRAGON then 50 else 10) * ExponentBytes(b);
      }
      var ok := UpdateIOGas();
      if !ok {
        return Thrown(OutOfGas);
      }
      var c := Computed(op, a, b);
      PutTop(c);
      pc := pc + 1;
      o := Running;
    }

    method Computed(op: octet, a: word, b: word) returns (c: word)
      requires IsArithmetic(op)
      ensures c == Compute(op, a, b)
    {
      if op == ADD {
        c := AsWord(a as int + b as int);
      } else if op == MUL {
        c := AsWord(a as int * b as int);
      } else if op == SUB {
        c := AsWord(a as int - b as int);
      } else {
        c := EvmArith.Exp256(a, b);
      }
    }

    // -------------------------------------------------------------- memory

    /** The checks that come before an instruction is charged. */
    method Refuse(h: Host, ghost s: State) returns (e: Option<Error>)
      requires Fetched(s) && (Modelled(op) ==> |s.stack| >= Args(op))
      ensures e == Refusal(Prog(), env, h, s, op)
    {
      hide Fixed, Placed, Standard;
      Peek(s);
      if op == INVALID || (Synthetic(op) && !optimising) {
        return Some(BadInstruction);
      }
      if (op == REVERT || op == STATICCALL || op == RETURNDATACOPY) && env.rev < BYZANTIUM {
        return Some(BadInstruction);
      }
      if (op == CREATE2 && env.rev < CONSTANTINOPLE) || (op == DELEGATECALL && env.rev < HOMESTEAD) {
        return Some(BadInstruction);
      }
      if env.readOnly && (IsLog(op) || IsCreate(op) || op == SUICIDE || (op == CALL && stack[sp + 2] != 0)) {
        return Some(DisallowedStateChange);
      }
      if op == RETURNDATACOPY && |returnData| < stack[sp + 1] as int + stack[sp + 2] as int {
        return Some(BufferOverrun);
      }
      e := if !Modelled(op) && h.refused then Some(HostRefusal) else None;
    }

    /** Loads, stores, SHA3, logs and copies. */
    method CaseMemory(h: Host, ghost s: State) returns (o: Status)
      requires Fetched(s) && IsMemory(op)
      modifies this`runGas, this`copyMemSize, this`newMemSize, this`mem, this`ioGas, this`pc, stack
      ensures Did(o, Step(Prog(), env, h, s))
    {
      hide Step, Fixed, Standard, Placed, PriceOf, Charge, Refusal, IsMemory, MemoryAfter, MemoryPushed;
      Known(s);
      MemoryStep(Prog(), env, h, s, op);
      var refused := Refuse(h, s);
      if refused.Some? {
        return Thrown(refused.value);
      }
      var need := MemoryNeed(h, s);
      if need.None? {
        return Thrown(OutOfGas);
      }
      PriceSane(env, h, s, op);
      var ok := Pay(need.value);
      if !ok {
        return Thrown(OutOfGas);
      }
      ghost var paid := Paid(ioGas, mem);
      NeedsCovered(env, h, s, op, paid);
      Touch(h, s, paid);
      pc := pc + 1;
      o := Running;
    }

    /** What the instruction costs and how much memory it needs; None where toInt63 or memNeed throw. */
    method MemoryNeed(h: Host, ghost s: State) returns (need: Option<nat>)
      requires Fetched(s) && IsMemory(op) && |s.stack| >= Args(op)
      modifies this`runGas, this`copyMemSize
      ensures PriceOf(env, h, s, op) == if need.Some? then Some(Price(runGas, need.value, copyMemSize)) else None
    {
      hide Placed, Standard;
      var a := stack[sp];
      if op == MLOAD || op == MSTORE {
        need := Plus(ToInt63(a), 32);
      } else if op == MSTORE8 {
        need := Plus(ToInt63(a), 1);
      } else if op == SHA3 {
        var run := ToInt63(SHA3_GAS + (stack[sp + 1] as int + 31) / 32 * SHA3_WORD_GAS);
        need := if run.None? then None else MemNeed(a, stack[sp + 1]);
        runGas := if run.None? then 0 else run.value;
      } else if IsLog(op) {
        var run := ToInt63(LOG_GAS + LOG_TOPIC_GAS * (op - LOG0) + LOG_DATA_GAS * stack[sp + 1] as int);
        need := if run.None? then None else MemNeed(a, stack[sp + 1]);
        runGas := if run.None? then 0 else run.value;
      } else if op == EXTCODECOPY {
        runGas := if env.rev >= TANGERINE_WHISTLE then 700 else 20;
        var copy := ToInt63(stack[sp + 3]);
        need := if copy.None? then None else MemNeed(stack[sp + 1], stack[sp + 3]);
        copyMemSize := if copy.None? then 0 else copy.value;
      } else {
        var copy := ToInt63(stack[sp + 2]);
        need := if copy.None? then None else MemNeed(a, stack[sp + 2]);
        copyMemSize := if copy.None? then 0 else copy.value;
      }
    }

    /** The access itself. */
    method Touch(h: Host, ghost s: State, ghost paid: Paid)
      requires IsMemory(op) && |s.stack| >= Args(op) && s.ret == returnData && paid == Paid(ioGas, mem)
      requires stack.Length == STACK_LIMIT && sp <= STACK_LIMIT && stack[sp..] == s.stack
      requires spp == sp + Args(op) - Returned(op)
      requires Covered(s, op, |mem|)
      modifies this`mem, stack
      ensures mem == MemoryAfter(env, h, s, op, paid.mem)
      ensures stack[spp..] == MemoryPushed(h, s, op, paid.mem) + s.stack[Args(op)..]
    {
      hide WordAt, BytesOf, Slice, Written;
      if op == MLOAD {
        PutTop(WordAt(mem, Cut32(stack[sp]), 32));
      } else if op == MSTORE {
        Store(Cut32(stack[sp]), BytesOf(stack[sp + 1], 32));
      } else if op == MSTORE8 {
        Store(Cut32(stack[sp]), [stack[sp + 1] as int % 256]);
      } else if op == SHA3 {
        PutTop(h.pushed);
      } else if IsCopy(op) {
        Copy(h, s);
      }
    }

    /** The four copies. */
    method Copy(h: Host, ghost s: State)
      requires IsCopy(op) && |s.stack| >= Args(op) && s.ret == returnData
      requires stack.Length == STACK_LIMIT && sp <= STACK_LIMIT && stack[sp..] == s.stack && Covered(s, op, |mem|)
      modifies this`mem
      ensures mem == MemoryAfter(env, h, s, op, old(mem))
    {
      hide Written, Slice, Copied, CodeCopied;
      if op == CALLDATACOPY {
        CopyDataToMemory(env.input, s);
      } else if op == CODECOPY {
        CopyDataToMemory(env.pCode, s);
      } else if op == RETURNDATACOPY {
        CopyDataToMemory(returnData, s);
      } else {
        CopyCode(h.output, s);
      }
    }

    /** Overwrite part of the memory in place. */
    method Store(at: nat, data: seq<octet>)
      requires at + |data| <= |mem|
      modifies this`mem
      ensures mem == Written(old(mem), at, data)
    {
      mem := mem[..at] + data + mem[at + |data|..];
    }

    /** copyDataToMemory: what the data has, then zeros. */
    method CopyDataToMemory(data: seq<octet>, ghost s: State)
      requires |s.stack| >= 3 && stack.Length == STACK_LIMIT && sp <= STACK_LIMIT && stack[sp..] == s.stack
      requires Arg(s, 2) > 0 ==> Arg(s, 0) + Arg(s, 2) <= |mem|
      modifies this`mem
      ensures mem == Copied(old(mem), s, data)
    {
      var offset: nat, bigIndex: nat, size: nat := stack[sp], stack[sp + 1], stack[sp + 2];
      var sizeToBeCopied :=
        if bigIndex + size > |data| then (if |data| < bigIndex then 0 else |data| - bigIndex) else size;
      if sizeToBeCopied > 0 {
        Store(offset, data[bigIndex..bigIndex + sizeToBeCopied]);
      }
      if size > sizeToBeCopied {
        Store(offset + sizeToBeCopied, ZeroBytes(size - sizeToBeCopied));
      }
      CopiedInParts(old(mem), offset, data, bigIndex, size, sizeToBeCopied);
    }

    /** EXTCODECOPY: what the host copies of an account's code, then zeros. */
    method CopyCode(code: seq<octet>, ghost s: State)
      requires |s.stack| >= 4 && stack.Length == STACK_LIMIT && sp <= STACK_LIMIT && stack[sp..] == s.stack
      requires Arg(s, 3) > 0 ==> Arg(s, 1) + Arg(s, 3) <= |mem|
      modifies this`mem
      ensures mem == CodeCopied(old(mem), s, code)
    {
      var memoryOffset: nat, size: nat := stack[sp + 1], stack[sp + 3];
      var codeOffset: nat := if stack[sp + 2] as nat > UINT64 - 1 then UINT64 - 1 else stack[sp + 2];
      var numCopied :=
        if codeOffset >= |code| then 0 else if |code| - codeOffset < size then |code| - codeOffset else size;
      if numCopied > 0 {
        Store(memoryOffset, code[codeOffset..codeOffset + numCopied]);
      }
      if size > numCopied {
        Store(memoryOffset + numCopied, ZeroBytes(size - numCopied));
      }
      CopiedInParts(old(mem), memoryOffset, code, codeOffset, size, numCopied);
    }

    // -------------------------------------------------------------- calls

    /** caseCreate. */
    method CaseCreate(h: Host, ghost s: State) returns (o: Status)
      requires Fetched(s) && IsCreate(op)
      modifies this`runGas, this`newMemSize, this`mem, this`ioGas, this`pc, this`returnData, stack
      ensures Did(o, Step(Prog(), env, h, s))
    {
      hide Step, Fixed, Standard, Placed, PriceOf, Charge, Refusal, Effect, CreateEffect;
      Known(s);
      StepBranches(Prog(), env, h, s, op);
      var refused := Refuse(h, s);
      if refused.Some? {
        return Thrown(refused.value);
      }
      var need := CreateNeed(h, s);
      if need.None? {
        return Thrown(OutOfGas);
      }
      PriceSane(env, h, s, op);
      var ok := Pay(need.value);
      if !ok {
        return Thrown(OutOfGas);
      }
      EffectOfCreate(Prog(), env, h, s, op, Paid(ioGas, mem));
      Create(h, s, Paid(ioGas, mem));
      o := Running;
    }

    method CreateNeed(h: Host, ghost s: State) returns (need: Option<nat>)
      requires IsCreate(op) && |s.stack| >= Args(op) && Holding(s)
      requires Standard(env.table) && |s.stack| >= env.table[op].args
      modifies this`runGas
      ensures PriceOf(env, h, s, op) == if need.Some? then Some(Price(runGas, need.value, 0)) else None
    {
      hide Standard, PriceOf, Holding, MemNeed, ToInt63;
      Peek(s);
      CreatePrice(env, h, s, op);
      runGas := CREATE_GAS;
      if op == CREATE2 {
        var hashing := ToInt63((stack[sp + 2] as int + 31) / 32 * SHA3_WORD_GAS);
        if hashing.None? {
          return None;
        }
        runGas := runGas + hashing.value;
      }
      need := MemNeed(stack[sp + 1], stack[sp + 2]);
    }

    /** The rest of caseCreate: hand gas to the callee and take back what it left. */
    method Create(h: Host, ghost s: State, ghost paid: Paid)
      requires IsCreate(op) && |s.stack| >= Args(op) && s.pc == pc && paid == Paid(ioGas, mem)
      requires Holding(s) && spp == sp + Args(op) - 1
      modifies this`ioGas, this`pc, this`returnData, stack
      ensures CreateEffect(env, h, s, op, paid) == Go(View())
    {
      hide Holding;
      Peek(s);
      returnData := [];
      var endowment := stack[sp];
      if h.balance >= endowment && env.depth < CALL_DEPTH_LIMIT {
        var gas := ioGas;
        if env.rev >= TANGERINE_WHISTLE {
          gas := gas - gas / 64;
        }
        PutResult(if h.success then h.pushed else 0, s, Args(op));
        returnData := h.output;
        ioGas := ioGas - gas + h.gasLeft;
      } else {
        PutResult(0, s, Args(op));
      }
      pc := pc + 1;
    }

    /** caseCall. */
    method CaseCall(h: Host, ghost s: State) returns (o: Status)
      requires Fetched(s) && IsCall(op)
      modifies this`runGas, this`newMemSize, this`mem, this`ioGas, this`pc, this`returnData, stack
      ensures Did(o, Step(Prog(), env, h, s))
    {
      hide Step, Fixed, Standard, Placed, PriceOf, Charge, Refusal, Effect, CallEffect, CallPrice;
      Known(s);
      StepBranches(Prog(), env, h, s, op);
      var refused := Refuse(h, s);
      if refused.Some? {
        return Thrown(refused.value);
      }
      returnData := [];
      var need := CallNeed(h, s);
      if need.None? {
        return Thrown(OutOfGas);
      }
      PriceSane(env, h, s, op);
      var ok := Pay(need.value);
      if !ok {
        return Thrown(OutOfGas);
      }
      ghost var paid := Paid(ioGas, mem);
      EffectOfCall(Prog(), env, h, s, op, paid);
      CallCovered(env, h, s, op, paid);
      ok := Call(h, s, paid);
      o := if ok then Running else Thrown(OutOfGas);
    }

    /** caseCallSetup, up to the static costs. */
    method CallNeed(h: Host, ghost s: State) returns (need: Option<nat>)
      requires IsCall(op) && |s.stack| >= Args(op) && Holding(s)
      requires Standard(env.table) && |s.stack| >= env.table[op].args
      modifies this`runGas
      ensures PriceOf(env, h, s, op) == if need.Some? then Some(Price(runGas, need.value, 0)) else None
    {
      hide Standard, PriceOf, Holding, MemNeed, Larger;
      Peek(s);
      CallPriceIs(env, h, s, op);
      runGas := if env.rev >= TANGERINE_WHISTLE then 700 else 40;
      if op == CALL && !h.known {
        if stack[sp + 2] > 0 || env.rev < SPURIOUS_DRAGON {
          runGas := runGas + CALL_NEW_ACCOUNT;
        }
      }
      if HasValue(op) && stack[sp + 2] > 0 {
        runGas := runGas + VALUE_TRANSFER_GAS;
      }
      var sizesOffset := if HasValue(op) then 3 else 2;
      var inputMemNeed := MemNeed(stack[sp + sizesOffset], stack[sp + sizesOffset + 1]);
      var outputMemNeed := MemNeed(stack[sp + sizesOffset + 2], stack[sp + sizesOffset + 3]);
      need := Larger(inputMemNeed, outputMemNeed);
    }

    /** The rest of caseCallSetup and caseCall: false where the gas for the callee is not there. */
    method Call(h: Host, ghost s: State, ghost paid: Paid) returns (ok: bool)
      requires IsCall(op) && |s.stack| >= Args(op) && s.pc == pc && paid == Paid(ioGas, mem) && returnData == []
      requires Holding(s) && spp == sp + Args(op) - 1 && OutputFits(s, op, |mem|)
      modifies this`runGas, this`mem, this`ioGas, this`pc, this`returnData, stack
      ensures CallEffect(env, h, s, op, paid) == if ok then Go(View()) else Throw(OutOfGas)
    {
      hide Holding, OutputFits, CallEffect, Args;
      CallWithout(env, h, s, op, paid);
      Peek(s);
      var callGas: nat := stack[sp];
      if env.rev >= TANGERINE_WHISTLE {
        var maxAllowedCallGas := ioGas - ioGas / 64;
        callGas := if maxAllowedCallGas < callGas then maxAllowedCallGas else callGas;
      }
      if ToInt63(callGas).None? {
        return false;
      }
      runGas := callGas;
      ok := UpdateIOGas();
      if !ok {
        return;
      }
      Hand(h, s, paid, callGas);
    }

    /** The stipend, the balance check and the call. */
    method Hand(h: Host, ghost s: State, ghost paid: Paid, asked: nat)
      requires IsCall(op) && |s.stack| >= Args(op) && s.pc == pc && returnData == []
      requires CallGas(env, s, paid.gas) == Some(asked) && ioGas == paid.gas - asked && mem == paid.mem
      requires Holding(s) && spp == sp + Args(op) - 1 && OutputFits(s, op, |mem|)
      modifies this`mem, this`ioGas, this`pc, this`returnData, stack
      ensures CallEffect(env, h, s, op, paid) == Go(View())
    {
      hide CallGas, Holding, CallEffect, Args, Stipend, OutputFits;
      Peek(s);
      var stipend, balanceOk := Endowed(h, s);
      if balanceOk && env.depth < CALL_DEPTH_LIMIT {
        CallEntered(env, h, s, op, paid);
        Enter(h, s);
      } else {
        CallNotEntered(env, h, s, op, paid);
        PutResult(0, s, Args(op));
        ioGas := ioGas + (asked + stipend);
      }
      pc := pc + 1;
    }

    method Endowed(h: Host, ghost s: State) returns (stipend: nat, balanceOk: bool)
      requires IsCall(op) && |s.stack| >= Args(op) && Holding(s)
      ensures stipend == Stipend(s, op)
      ensures balanceOk <==> h.balance as nat >= CallValue(s, op)
    {
      hide Holding;
      Peek(s);
      stipend, balanceOk := 0, true;
      if HasValue(op) {
        var value := stack[sp + 2];
        if value > 0 {
          stipend := CALL_STIPEND;
          balanceOk := h.balance >= value;
        }
      }
    }

    method Enter(h: Host, ghost s: State)
      requires IsCall(op) && |s.stack| >= Args(op) && Holding(s) && spp == sp + Args(op) - 1 && OutputFits(s, op, |mem|)
      modifies this`mem, this`ioGas, this`returnData, stack
      ensures returnData == h.output && ioGas == old(ioGas) + h.gasLeft
      ensures mem == Written(old(mem), OutputAt(s, op), h.output[..OutputSize(h, s, op)])
      ensures stack[spp..] == [if h.success then 1 else 0] + s.stack[Args(op)..]
    {
      hide Holding;
      Peek(s);
      var at := if HasValue(op) then 5 else 4;
      var outOff: nat, outSize: nat := stack[sp + at], stack[sp + at + 1];
      returnData := h.output;
      CopyOutput(outOff, h.output[..if |h.output| < outSize then |h.output| else outSize]);
      PutResult(if h.success then 1 else 0, s, Args(op));
      ioGas := ioGas + h.gasLeft;
    }

    method CopyOutput(at: nat, data: seq<octet>)
      requires data != [] ==> at + |data| <= |mem|
      modifies this`mem
      ensures mem == Written(old(mem), at, data)
    {
      if data != [] {
        Store(at, data);
      } else {
        assert Written(mem, at, data) == mem;
      }
    }

    // -------------------------------------------------------------- the rest

    /** STOP, RETURN, REVERT, SUICIDE. */
    method PriceSuicide(h: Host)
      modifies this`runGas
      ensures runGas == SuicidePrice(env, h)
    {
      runGas := if env.rev >= TANGERINE_WHISTLE then 5000 else 0;
      if h.balance > 0 || env.rev < SPURIOUS_DRAGON {
        if env.rev >= TANGERINE_WHISTLE && !h.known {
          runGas := runGas + CALL_NEW_ACCOUNT;
        }
      }
    }

    method CaseHalt(h: Host, ghost s: State) returns (o: Status)
      requires Fetched(s) && IsHalt(op)
      modifies this`runGas, this`newMemSize, this`mem, this`ioGas
      ensures Did(o, Step(Prog(), env, h, s))
    {
      hide Step, Fixed, Standard, Placed, PriceOf, Charge, Refusal, Effect, SuicidePrice, MemNeed;
      Known(s);
      StepBranches(Prog(), env, h, s, op);
      var refused := Refuse(h, s);
      if refused.Some? {
        return Thrown(refused.value);
      }
      HaltPrice(env, h, s, op);
      var need := if op == RETURN || op == REVERT then MemNeed(stack[sp], stack[sp + 1]) else Some(0);
      if need.None? {
        return Thrown(OutOfGas);
      }
      if op == SUICIDE {
        PriceSuicide(h);
      }
      PriceSane(env, h, s, op);
      var ok := Pay(need.value);
      if !ok {
        return Thrown(OutOfGas);
      }
      EffectOfHalt(Prog(), env, h, s, op, Paid(ioGas, mem));
      o := if op == RETURN then Halted(Slice(mem, stack[sp], stack[sp + 1]))
           else if op == REVERT then Reverted(Slice(mem, stack[sp], stack[sp + 1]))
           else Halted([]);
    }

    /** An instruction the model leaves to the host. */
    method CaseOther(h: Host, ghost s: State) returns (o: Status)
      requires Fetched(s) && !Modelled(op)
      modifies this`runGas, this`ioGas, this`pc, stack
      ensures Did(o, Step(Prog(), env, h, s))
    {
      hide Step, Fixed, Standard, Placed, PriceOf, Charge, Refusal, Effect;
      Known(s);
      StepBranches(Prog(), env, h, s, op);
      var refused := Refuse(h, s);
      if refused.Some? {
        return Thrown(refused.value);
      }
      OtherPrice(env, h, s, op);
      if h.cost > INT63 {
        return Thrown(OutOfGas);
      }
      runGas := h.cost;
      var ok := UpdateIOGas();
      if !ok {
        return Thrown(OutOfGas);
      }
      EffectOfOther(Prog(), env, h, s, op, Paid(ioGas, mem));
      if env.table[op].returned == 1 {
        PutTop(h.pushed);
      }
      pc := pc + 1;
      o := Running;
    }

    // -------------------------------------------------------------- the interpreter loop

    /** The switch of interpretCases, with the bounce to caseCreate and caseCall. */
    method Dispatch(h: Host, ghost s: State) returns (o: Status)
      requires Fetched(s)
      modifies this`runGas, this`copyMemSize, this`newMemSize, this`mem, this`ioGas, this`pc, this`returnData, stack
      ensures Did(o, Step(Prog(), env, h, s))
    {
      hide Fetched, Step, Did;
      if IsPush(op) || op == PUSHC {
        o := CasePush(h, s);
      } else if IsJump(op) {
        o := CaseJump(h, s);
      } else if IsStackOp(op) {
        o := CaseStackOp(h, s);
      } else if IsMemory(op) {
        o := CaseMemory(h, s);
      } else if IsArithmetic(op) {
        o := CaseArithmetic(h, s);
      } else if IsCall(op) {
        o := CaseCall(h, s);
      } else if IsCreate(op) {
        o := CaseCreate(h, s);
      } else if IsHalt(op) {
        o := CaseHalt(h, s);
      } else {
        o := CaseOther(h, s);
      }
    }

    /** One instruction of the prepared code.  If it goes on, gas has gone down; and it is what the plain
        code does unless a constant is not found again. */
    method StepOnce(h: Host) returns (o: Status)
      requires Valid() && Honest(Prog(), env, h, View())
      modifies this, stack
      ensures Standard(env.table) && Did(o, Step(Prog(), env, h, old(View())))
      ensures PlainAlike() ==> Did(o, Step(PlainProgram(env.pCode), env, h, old(View())))
      ensures o == Running ==> Valid() && ioGas < old(ioGas)
    {
      hide Step, Fixed, Placed, Honest, Boundary, Did, Fetched, Fits, Standard, PlainAlike;
      ghost var s, p := View(), Prog();
      BuildsAgree(h);
      KeepsInv(h);
      Bounded(h, s);
      var ok := FetchInstruction();
      if !ok {
        UnfitStep(p, env, h, s);
        Threw(BadStack);
        return Thrown(BadStack);
      }
      o := Dispatch(h, s);
      Continues(o, Step(p, env, h, s));
    }

    lemma Threw(e: Error)
      ensures Did(Thrown(e), Throw(e))
    {
    }

    /** With a faithful pool the build makes no difference. */
    lemma BuildsAgree(h: Host)
      requires Valid()
      ensures Standard(env.table)
      ensures PlainAlike() ==> Step(Prog(), env, h, View()) == Step(PlainProgram(env.pCode), env, h, View())
    {
      if PlainAlike() && optimising {
        SameStep(prep.code, prep.pool, env, h, View());
      }
    }

    /** In either build the invariant of the run is kept. */
    lemma KeepsInv(h: Host)
      requires Valid()
      ensures Boundary(env.pCode, pc) && Standard(env.table)
      ensures Step(Prog(), env, h, View()).Go? ==> Placed(Step(Prog(), env, h, View()).state)
    {
      hide Step, Inv, Standard, Faithful, Lands;
      BuildsAgree(h);
      if Step(Prog(), env, h, View()).Go? {
        if optimising {
          StaysAligned(prep.code, prep.pool, env, h, View());
        }
        if PlainAlike() {
          PlainKeepsInv(env, h, View());
          InvAligned(env.pCode, Step(Prog(), env, h, View()).state);
        }
      }
    }

    lemma Bounded(h: Host, s: State)
      requires Fixed() && Honest(Prog(), env, h, s)
      ensures Standard(env.table)
      ensures Step(Prog(), env, h, s).Go? ==> Step(Prog(), env, h, s).state.gas < s.gas
    {
      StepConserves(Prog(), env, h, s);
    }

    /** exec: run until the program ends.  With a host answer for every unit of gas it always does, and
        just as the plain code runs unless a constant is not found again. */
    method Exec(hs: seq<Host>) returns (o: Status)
      requires Valid() && HonestRun(Prog(), env, hs, View()) && |hs| > ioGas
      modifies this, stack
      ensures Standard(env.table) && o != Running
      ensures Did(o, Run(Prog(), env, hs, old(View())))
      ensures PlainAlike() ==> Did(o, Run(PlainProgram(env.pCode), env, hs, old(View())))
    {
      ghost var p, all := Prog(), Run(Prog(), env, hs, View());
      RunsAgree(hs);
      hide Step, Fixed, Placed, Honest, Did, PlainAlike;
      o := Running;
      var i := 0;
      assert hs[0..] == hs;
      while o == Running
        invariant Standard(env.table) && i <= |hs|
        invariant o == Running ==> Valid() && |hs| - i > ioGas
        invariant o == Running ==> HonestRun(p, env, hs[i..], View()) && Run(p, env, hs[i..], View()) == all
        invariant o != Running ==> Did(o, all)
        decreases if o == Running then ioGas + 1 else 0
      {
        ghost var s, rest := View(), hs[i..];
        assert rest[0] == hs[i] && rest[1..] == hs[i + 1..];
        o := StepOnce(hs[i]);
        Continues(o, Step(p, env, hs[i], s));
        i := i + 1;
      }
    }

    lemma RunsAgree(hs: seq<Host>)
      requires Valid()
      ensures Standard(env.table)
      ensures PlainAlike() ==> Run(Prog(), env, hs, View()) == Run(PlainProgram(env.pCode), env, hs, View())
    {
      if PlainAlike() && optimising {
        SameRun(prep.code, prep.pool, env, hs, View());
      }
    }

    /** Going on means being in the state the step led to. */
    lemma Continues(o: Status, out: Outcome)
      requires Did(o, out)
      ensures o == Running <==> out.Go?
      ensures out.Go? ==> spp <= stack.Length && View() == out.state
    {
    }
  }

  lemma StandardArgs(t: seq<Metric>, op: octet)
    requires Standard(t)
    ensures Modelled(op) ==> t[op].args == Args(op) && t[op].returned == Returned(op)
    ensures Args(op) <= 17 && Returned(op) <= 17 && t[op].gas <= UINT32
  {
  }

  lemma StackArgs(op: octet)
    requires IsStackOp(op)
    ensures Args(op)
      == (if op == POP then 1 else if IsDup(op) then op - DUP1 + 1 else if IsSwap(op) then op - SWAP1 + 2 else 0)
    ensures Returned(op) ==
      if IsDup(op) then op - DUP1 + 2 else if IsSwap(op) then op - SWAP1 + 2
      else if op == PC || op == MSIZE || op == GAS then 1 else 0
  {
  }

  lemma StackOpStep(p: Program, env: Env, h: Host, s: State, op: octet)
    requires Standard(env.table) && op == ByteAt(p.code, s.pc) && IsStackOp(op)
    requires Fits(env.table[op], s.stack) && |s.stack| >= Args(op)
    ensures var run := if op == JUMPDEST then JUMPDEST_GAS else env.table[op].gas;
      Step(p, env, h, s) ==
        if s.gas < run then Throw(OutOfGas)
        else Go(State(s.pc + 1, StackAfter(s, op, Paid(s.gas - run, s.mem)), s.mem, s.gas - run, s.ret))
  {
    hide StackAfter, Standard;
  }

  /** An instruction that is not refused and has a plain price. */
  lemma PlainStep(p: Program, env: Env, h: Host, s: State, op: octet, run: nat)
    requires Standard(env.table) && op == ByteAt(p.code, s.pc) && Fits(env.table[op], s.stack)
    requires Refusal(p, env, h, s, op).None? && PriceOf(env, h, s, op) == Some(Price(run, 0, 0))
    ensures Step(p, env, h, s)
      == if s.gas < run then Throw(OutOfGas) else Effect(p, env, h, s, op, Paid(s.gas - run, s.mem))
  {
    hide Refusal, PriceOf, Effect, Standard;
  }

  /** An instruction that is not refused. */
  lemma PayingStep(p: Program, env: Env, h: Host, s: State, op: octet)
    requires Standard(env.table) && op == ByteAt(p.code, s.pc) && Fits(env.table[op], s.stack)
    requires Refusal(p, env, h, s, op).None?
    ensures Step(p, env, h, s) ==
      match PriceOf(env, h, s, op)
      case None => Throw(OutOfGas)
      case Some(price) =>
        match Charge(s.gas, s.mem, price)
        case None => Throw(OutOfGas)
        case Some(paid) => Effect(p, env, h, s, op, paid)
  {
    hide Refusal, PriceOf, Effect, Standard, Charge;
  }

  lemma RefusedStep(p: Program, env: Env, h: Host, s: State, op: octet)
    requires Standard(env.table) && op == ByteAt(p.code, s.pc) && Fits(env.table[op], s.stack)
    requires Refusal(p, env, h, s, op).Some?
    ensures Step(p, env, h, s) == Throw(Refusal(p, env, h, s, op).value)
  {
    hide Refusal, Perform, Standard;
  }

  // ---------------------------------------------------------------- pushes

  /** A number of less than 32 bytes can be shifted by one more without a loss. */
  lemma ShiftFits(c: seq<octet>, at: nat, n: nat)
    requires n < 32
    ensures Digits(c, at, n + 1) == Digits(c, at, n) * 256 + ByteAt(c, at + n) < WORD_LIMIT
    ensures AsWord(Digits(c, at, n + 1)) == Digits(c, at, n + 1)
  {
    DigitsBound(c, at, n + 1);
    Exp256Mono(n + 1, 32);
    Exp256Word();
    hide Bytes.Exp256;
  }

  /** What the pushed bytes and the synthetic operands read lies inside the copied code. */
  lemma PushInside(c: Code, code: Code, pool: seq<word>, optimised: bool, pc: nat)
    requires Boundary(c, pc) && (if optimised then Optimised(c, code, pool) else code == Plain(c) && pool == [])
    requires pc < |code| && Pushing(Program(code, pool, optimised), code[pc])
    ensures code[pc] == PUSHC ==> pc + 3 < |code| && code[pc + 1] as nat * 256 + code[pc + 2] as nat < |pool|
    ensures code[pc] != PUSHC ==> pc + PushSize(code[pc]) < |code|
  {
    ReadsInside(c, pc);
    if optimised {
      assert code[pc] == OptimisedAt(c, pc);
      if code[pc] == PUSHC {
        PooledOperands(c, code, pool, pc);
      }
    }
  }

  lemma PushOne(t: seq<Metric>, op: octet)
    requires Standard(t) && (IsPush(op) || op == PUSHC)
    ensures |t| == 256 && t[op] == t[PUSH1] && t[op].args == 0 && t[op].returned == 1
  {
  }

  lemma PushStep(p: Program, env: Env, h: Host, s: State, op: octet)
    requires Standard(env.table) && op == ByteAt(p.code, s.pc) && (IsPush(op) || op == PUSHC)
    requires Fits(env.table[op], s.stack)
    ensures env.table[op].args == 0 && env.table[op].returned == 1
    ensures Step(p, env, h, s) ==
      if op == PUSHC && !p.optimised then Throw(BadInstruction)
      else if s.gas < env.table[op].gas then Throw(OutOfGas)
      else PushEffect(p, s, op, Paid(s.gas - env.table[op].gas, s.mem))
  {
    hide PriceOf, Effect, PushEffect, WordAt;
    PushOne(env.table, op);
    if Pushing(p, op) {
      PushingStep(p, env, h, s, op);
      hide Refusal;
      PlainStep(p, env, h, s, op, env.table[op].gas);
    }
  }

  lemma JumpStep(p: Program, env: Env, h: Host, s: State, op: octet)
    requires Standard(env.table) && op == ByteAt(p.code, s.pc) && IsJump(op) && Fits(env.table[op], s.stack)
    ensures |s.stack| >= Args(op)
    ensures Step(p, env, h, s) ==
      if Synthetic(op) && !p.optimised then Throw(BadInstruction)
      else if s.gas < env.table[op].gas then Throw(OutOfGas)
      else JumpEffect(env, s, op, Paid(s.gas - env.table[op].gas, s.mem))
  {
    assert |env.table| == 256;
    hide PriceOf, Effect, JumpEffect, Standard, Args, Returned, Step;
    StandardArgs(env.table, op);
    if Jumping(p, op) {
      JumpingStep(p, env, h, s, op);
      hide Refusal;
      PlainStep(p, env, h, s, op, env.table[op].gas);
    } else {
      RefusedStep(p, env, h, s, op);
    }
  }

  lemma ArithmeticPrice(p: Program, env: Env, h: Host, s: State, op: octet)
    requires Standard(env.table) && IsArithmetic(op) && |s.stack| >= 2 && |s.stack| >= env.table[op].args
    ensures Refusal(p, env, h, s, op).None?
    ensures PriceOf(env, h, s, op) == Some(Price(
      if op == EXP then ExpPrice(env, s.stack[1]) else env.table[op].gas, 0, 0))
  {
    hide ExponentBytes, Standard;
  }

  lemma ArithmeticStep(p: Program, env: Env, h: Host, s: State, op: octet)
    requires Standard(env.table) && op == ByteAt(p.code, s.pc) && IsArithmetic(op) && Fits(env.table[op], s.stack)
    ensures |s.stack| >= 2
    ensures var run := if op == EXP then ExpPrice(env, s.stack[1]) else env.table[op].gas;
      Step(p, env, h, s) ==
        if s.gas < run then Throw(OutOfGas)
        else Go(State(s.pc + 1, [Compute(op, s.stack[0], s.stack[1])] + s.stack[2..], s.mem, s.gas - run, s.ret))
  {
    hide Compute, ExponentBytes, Standard, Refusal, PriceOf, Step, Effect, Args, Returned;
    ArithmeticArgs(env.table, op);
    ArithmeticPrice(p, env, h, s, op);
    var run := PriceOf(env, h, s, op).value.run;
    PlainStep(p, env, h, s, op, run);
    if s.gas >= run {
      ArithmeticEffect(p, env, h, s, op, Paid(s.gas - run, s.mem));
    }
  }

  lemma ArithmeticArgs(t: seq<Metric>, op: octet)
    requires Standard(t) && IsArithmetic(op)
    ensures |t| == 256 && t[op].args == 2
  {
  }

  lemma ArithmeticEffect(p: Program, env: Env, h: Host, s: State, op: octet, paid: Paid)
    requires Standard(env.table) && IsArithmetic(op) && |s.stack| >= 2 && env.table[op].args == 2
    ensures Effect(p, env, h, s, op, paid)
      == Go(State(s.pc + 1, [Compute(op, s.stack[0], s.stack[1])] + s.stack[2..], paid.mem, paid.gas, s.ret))
  {
    hide Compute, Standard;
  }

  // ---------------------------------------------------------------- memory instructions

  lemma MemoryStep(p: Program, env: Env, h: Host, s: State, op: octet)
    requires Standard(env.table) && op == ByteAt(p.code, s.pc) && IsMemory(op) && Fits(env.table[op], s.stack)
    requires |s.stack| >= Args(op)
    ensures Step(p, env, h, s) ==
      match Refusal(p, env, h, s, op)
      case Some(e) => Throw(e)
      case None =>
        match PriceOf(env, h, s, op)
        case None => Throw(OutOfGas)
        case Some(price) =>
          match Charge(s.gas, s.mem, price)
          case None => Throw(OutOfGas)
          case Some(paid) =>
            Go(State(s.pc + 1, MemoryPushed(h, s, op, paid.mem) + s.stack[Args(op)..],
              MemoryAfter(env, h, s, op, paid.mem), paid.gas, s.ret))
  {
    hide Refusal, PriceOf, Charge, Standard, MemoryAfter, MemoryPushed, WordAt, Step, Effect, Args, Returned;
    StandardArgs(env.table, op);
    if Refusal(p, env, h, s, op).None? {
      PayingStep(p, env, h, s, op);
      MemoryEffect(p, env, h, s, op);
    } else {
      RefusedStep(p, env, h, s, op);
    }
  }

  lemma MemoryEffect(p: Program, env: Env, h: Host, s: State, op: octet)
    requires Standard(env.table) && IsMemory(op) && |s.stack| >= Args(op) && env.table[op].args == Args(op)
    ensures forall paid ::
      Effect(p, env, h, s, op, paid)
      == Go(State(s.pc + 1, MemoryPushed(h, s, op, paid.mem) + s.stack[Args(op)..],
        MemoryAfter(env, h, s, op, paid.mem), paid.gas, s.ret))
  {
    hide MemoryAfter, WordAt, Standard;
  }

  /** The payment covers the access. */
  lemma NeedsCovered(env: Env, h: Host, s: State, op: octet, paid: Paid)
    requires Standard(env.table) && IsMemory(op) && |s.stack| >= Args(op) && |s.stack| >= env.table[op].args
    requires PriceOf(env, h, s, op).Some? && Charge(s.gas, s.mem, PriceOf(env, h, s, op).value) == Some(paid)
    ensures Covered(s, op, |paid.mem|)
  {
    ChargeConserves(s.gas, s.mem, PriceOf(env, h, s, op).value);
    hide Charge, Standard;
  }

  function ZeroBytes(n: nat): seq<octet> {
    seq<octet>(n, _ => 0)
  }

  lemma SliceAt(data: seq<octet>, index: nat, size: nat, i: nat)
    requires i < size
    ensures Slice(data, index, size)[i] == ByteAt(data, index + i)
  {
  }

  lemma WrittenTwice(m: seq<octet>, at: nat, a: seq<octet>, b: seq<octet>)
    ensures Written(Written(m, at, a), at + |a|, b) == Written(m, at, a + b)
  {
  }

  lemma SliceInParts(data: seq<octet>, index: nat, size: nat, n: nat)
    requires n == if index + size > |data| then (if |data| < index then 0 else |data| - index) else size
    ensures n <= size && (n > 0 ==> index + n <= |data|)
    ensures Slice(data, index, size) == (if n > 0 then data[index..index + n] else []) + ZeroBytes(size - n)
  {
    var parts := (if n > 0 then data[index..index + n] else []) + ZeroBytes(size - n);
    forall i | 0 <= i < size ensures Slice(data, index, size)[i] == parts[i] {
      SliceAt(data, index, size, i);
    }
  }

  /** Copying what there is and then zeros is copying bytes that read as zero behind the end. */
  lemma CopiedInParts(m: seq<octet>, at: nat, data: seq<octet>, index: nat, size: nat, n: nat)
    requires n == if index + size > |data| then (if |data| < index then 0 else |data| - index) else size
    ensures n <= size && (n > 0 ==> index + n <= |data|)
    ensures var first := if n > 0 then Written(m, at, data[index..index + n]) else m;
      (if size > n then Written(first, at + n, ZeroBytes(size - n)) else first)
        == Written(m, at, Slice(data, index, size))
  {
    SliceInParts(data, index, size, n);
    hide Slice;
    var a, b := if n > 0 then data[index..index + n] else [], ZeroBytes(size - n);
    WrittenTwice(m, at, a, b);
    assert Written(m, at, []) == m && (size == n ==> a + b == a);
    hide Written;
    assert [] + b == b;
  }

  // ---------------------------------------------------------------- calls, halts, the rest

  lemma StepBranches(p: Program, env: Env, h: Host, s: State, op: octet)
    requires Standard(env.table) && op == ByteAt(p.code, s.pc) && Fits(env.table[op], s.stack)
    requires Modelled(op) ==> |s.stack| >= Args(op)
    ensures Step(p, env, h, s) ==
      match Refusal(p, env, h, s, op)
      case Some(e) => Throw(e)
      case None =>
        match PriceOf(env, h, s, op)
        case None => Throw(OutOfGas)
        case Some(price) =>
          match Charge(s.gas, s.mem, price)
          case None => Throw(OutOfGas)
          case Some(paid) => Effect(p, env, h, s, op, paid)
  {
    hide Refusal, PriceOf, Charge, Standard, Effect, Step;
    if Refusal(p, env, h, s, op).None? {
      PayingStep(p, env, h, s, op);
    } else {
      RefusedStep(p, env, h, s, op);
    }
  }

  lemma CreatePrice(env: Env, h: Host, s: State, op: octet)
    requires Standard(env.table) && IsCreate(op) && |s.stack| >= env.table[op].args && |s.stack| >= Args(op)
    ensures var hashing := if op == CREATE2 then ToInt63((Arg(s, 2) + 31) / 32 * SHA3_WORD_GAS) else Some(0);
      var need := MemNeed(Arg(s, 1), Arg(s, 2));
      PriceOf(env, h, s, op) ==
        if hashing.Some? && need.Some? then Some(Price(CREATE_GAS + hashing.value, need.value, 0)) else None
  {
    hide Standard;
  }

  lemma EffectOfCreate(p: Program, env: Env, h: Host, s: State, op: octet, paid: Paid)
    requires Standard(env.table) && IsCreate(op) && |s.stack| >= env.table[op].args && |s.stack| >= Args(op)
    ensures Effect(p, env, h, s, op, paid) == CreateEffect(env, h, s, op, paid)
  {
    hide Standard, CreateEffect;
  }

  lemma EffectOfCall(p: Program, env: Env, h: Host, s: State, op: octet, paid: Paid)
    requires Standard(env.table) && IsCall(op) && |s.stack| >= env.table[op].args && |s.stack| >= Args(op)
    ensures Effect(p, env, h, s, op, paid) == CallEffect(env, h, s, op, paid)
  {
    hide Standard, CallEffect;
  }

  /** The output region of a call was paid for. */
  lemma CallCovered(env: Env, h: Host, s: State, op: octet, paid: Paid)
    requires Standard(env.table) && IsCall(op) && |s.stack| >= env.table[op].args && |s.stack| >= Args(op)
    requires PriceOf(env, h, s, op).Some? && Charge(s.gas, s.mem, PriceOf(env, h, s, op).value) == Some(paid)
    ensures OutputFits(s, op, |paid.mem|)
  {
    hide Charge, Standard, CallPrice, PriceOf;
    CallPriceIs(env, h, s, op);
    ChargeConserves(s.gas, s.mem, PriceOf(env, h, s, op).value);
  }

  lemma CallPriceIs(env: Env, h: Host, s: State, op: octet)
    requires Standard(env.table) && IsCall(op) && |s.stack| >= env.table[op].args && |s.stack| >= Args(op)
    ensures var at := if HasValue(op) then 3 else 2;
      var need := Larger(MemNeed(Arg(s, at), Arg(s, at + 1)), MemNeed(Arg(s, at + 2), Arg(s, at + 3)));
      PriceOf(env, h, s, op) == if need.Some? then Some(Price(CallPrice(env, h, s, op), need.value, 0)) else None
  {
    hide Standard, CallPrice, MemNeed, Larger;
  }

  lemma CallWithout(env: Env, h: Host, s: State, op: octet, paid: Paid)
    requires IsCall(op) && |s.stack| >= Args(op)
    ensures |s.stack| >= 1 && (CallGas(env, s, paid.gas).None? ==> CallEffect(env, h, s, op, paid) == Throw(OutOfGas))
  {
    hide CallGas;
  }

  lemma CallEntered(env: Env, h: Host, s: State, op: octet, paid: Paid)
    requires IsCall(op) && |s.stack| >= Args(op) && CallGas(env, s, paid.gas).Some? && Enters(env, h, CallValue(s, op))
    ensures CallEffect(env, h, s, op, paid)
      == Go(State(s.pc + 1, [if h.success then 1 else 0] + s.stack[Args(op)..],
                  Written(paid.mem, OutputAt(s, op), h.output[..OutputSize(h, s, op)]),
                  paid.gas - CallGas(env, s, paid.gas).value + h.gasLeft, h.output))
  {
    hide CallGas;
  }

  lemma CallNotEntered(env: Env, h: Host, s: State, op: octet, paid: Paid)
    requires IsCall(op) && |s.stack| >= Args(op) && CallGas(env, s, paid.gas).Some? && !Enters(env, h, CallValue(s, op))
    ensures CallEffect(env, h, s, op, paid)
      == Go(State(s.pc + 1, [0] + s.stack[Args(op)..], paid.mem, paid.gas + Stipend(s, op), []))
  {
    hide CallGas, Stipend;
  }

  lemma HaltPrice(env: Env, h: Host, s: State, op: octet)
    requires Standard(env.table) && IsHalt(op) && |s.stack| >= env.table[op].args && |s.stack| >= Args(op)
    ensures PriceOf(env, h, s, op) ==
      if op == SUICIDE then Some(Price(SuicidePrice(env, h), 0, 0))
      else if op == STOP then Some(Price(env.table[op].gas, 0, 0))
      else
        var need := MemNeed(Arg(s, 0), Arg(s, 1));
        if need.Some? then Some(Price(env.table[op].gas, need.value, 0)) else None
  {
    hide Standard;
  }

  lemma EffectOfHalt(p: Program, env: Env, h: Host, s: State, op: octet, paid: Paid)
    requires Standard(env.table) && IsHalt(op) && |s.stack| >= env.table[op].args && |s.stack| >= Args(op)
    ensures Effect(p, env, h, s, op, paid) == HaltEffect(s, op, paid)
  {
    hide Standard, HaltEffect;
  }

  lemma OtherPrice(env: Env, h: Host, s: State, op: octet)
    requires Standard(env.table) && !Modelled(op) && |s.stack| >= env.table[op].args
    ensures PriceOf(env, h, s, op) == if h.cost > INT63 then None else Some(Price(h.cost, 0, 0))
    ensures forall price: Price :: price.need == 0 && price.copy == 0 ==>
      Charge(s.gas, s.mem, price) == if s.gas < price.run then None else Some(Paid(s.gas - price.run, s.mem))
  {
    hide Standard;
  }

  lemma EffectOfOther(p: Program, env: Env, h: Host, s: State, op: octet, paid: Paid)
    requires Standard(env.table) && !Modelled(op) && |s.stack| >= env.table[op].args
    ensures Effect(p, env, h, s, op, paid)
      == var m := env.table[op];
         var pushed := if m.returned == 1 then [h.pushed] else [];
         Go(State(s.pc + 1, pushed + s.stack[m.args..], paid.mem, paid.gas, s.ret))
  {
    hide Standard;
  }

  lemma UnfitStep(p: Program, env: Env, h: Host, s: State)
    requires Standard(env.table) && !Fits(env.table[ByteAt(p.code, s.pc)], s.stack)
    ensures Step(p, env, h, s) == Throw(BadStack)
  {
  }
}
