/** What each instruction does, stated on the step as a whole: the bytes, words and gas afterwards in
    terms of those before (VM.cpp:287-1417, VMCalls.cpp:24-280; Yellow Paper, Appendix H). */
module EvmLaws {
  import opened Bytes
  import opened Options
  import opened EvmCode
  import opened EvmMetering
  import opened EvmStep
  import opened EvmRuns
  import opened EvmReference
  import EvmArith

  /** The instruction at the program counter is `op`, and it goes through. */
  ghost predicate Goes(p: Program, env: Env, h: Host, s: State, op: octet) {
    && Standard(env.table) && Solvent(s) && Verdict(p, env, h, s) == None
    && op == if s.pc < |p.code| then p.code[s.pc] else 0
  }

  /** The gas it leaves. */
  ghost function Left(p: Program, env: Env, h: Host, s: State, op: octet): nat
    requires Goes(p, env, h, s, op)
  {
    VerdictExactly(p, env, h, s);
    s.gas - Total(env, h, s, op)
  }

  /** The memory it works on. */
  ghost function Paged(p: Program, env: Env, h: Host, s: State, op: octet): (m: seq<octet>)
    requires Goes(p, env, h, s, op)
  {
    VerdictExactly(p, env, h, s);
    Widened(s.mem, Reached(s, op))
  }

  /** The step is the effect on what was paid for. */
  lemma Performs(p: Program, env: Env, h: Host, s: State, op: octet)
    requires Goes(p, env, h, s, op)
    ensures Standard(env.table) && |s.stack| >= Inputs(op) && |s.stack| >= env.table[op].args
    ensures Step(p, env, h, s) == Effect(p, env, h, s, op, Paid(Left(p, env, h, s, op), Paged(p, env, h, s, op)))
    ensures !Step(p, env, h, s).Throw? && |Paged(p, env, h, s, op)| >= Reached(s, op)
    ensures Known(op) <==> Modelled(op)
    ensures Known(op) ==> env.table[op].args == Inputs(op) == Args(op)
  {
    hide Effect, Step, Total, Reached, Verdict, Standard, Inputs, Outputs, Known, Modelled;
    VerdictExactly(p, env, h, s);
    StackMeans(env.table, op);
    KnownExactly(op);
  }

  // ---------------------------------------------------------------- numbers and bytes

  /** Byte `j` of a number written in `n` bytes, the most significant one first. */
  function ByteOf(v: nat, n: nat, j: nat): octet
    requires j < n
  {
    v / Exp256(n - 1 - j) % 256
  }

  /** Another byte at the end. */
  lemma ByteOfStep(q: nat, b: octet, n: nat, j: nat)
    requires j < n
    ensures ByteOf(q * 256 + b, n, j) == if j == n - 1 then b else ByteOf(q, n - 1, j)
  {
    QuotientIs(q * 256 + b, 256, q, b);
    if j < n - 1 {
      Quotients(q * 256 + b, Exp256(n - 2 - j));
    }
  }

  lemma {:induction false} DigitsRule(c: seq<octet>, at: nat, n: nat, j: nat)
    requires j < n
    ensures ByteOf(Digits(c, at, n), n, j) == ByteAt(c, at + j)
    decreases n
  {
    hide ByteOf, ByteAt;
    ByteOfStep(Digits(c, at, n - 1), ByteAt(c, at + n - 1), n, j);
    if j < n - 1 {
      DigitsRule(c, at, n - 1, j);
    }
  }

  lemma {:induction false} BytesOfRule(v: nat, n: nat, j: nat)
    requires j < n
    ensures BytesOf(v, n)[j] == ByteOf(v, n, j)
    decreases n
  {
    hide ByteOf;
    ByteOfStep(v / 256, v % 256, n, j);
    if j < n - 1 {
      BytesOfRule(v / 256, n - 1, j);
    }
  }

  /** The bytes of `v` lie in `c` from `at` on. */
  ghost predicate Spelt(c: seq<octet>, at: nat, v: nat, n: nat) {
    at + n <= |c| && c[at..at + n] == BytesOf(v, n)
  }

  /** What was written in big-endian bytes is read again. */
  lemma {:induction false} ReadBack(v: nat, c: seq<octet>, at: nat, n: nat)
    requires v < Exp256(n) && Spelt(c, at, v, n)
    ensures Digits(c, at, n) == v
    decreases n
  {
    if n > 0 {
      var b := BytesOf(v, n);
      assert c[at..at + n - 1] == b[..n - 1] == BytesOf(v / 256, n - 1);
      ReadBack(v / 256, c, at, n - 1);
      assert c[at + n - 1] == b[n - 1] == v % 256;
    }
  }

  // ---------------------------------------------------------------- arithmetic and the stack

  /** What makes it the power. */
  lemma PowerRule(b: nat, m: nat, n: nat)
    ensures Power(b, 0) == 1 && Power(b, 1) == b && Power(b, m + n) == Power(b, m) * Power(b, n)
  {
    assert Power(b, 1) == b * Power(b, 0);
    EvmArith.PowerAdd(b, m, n);
  }

  lemma ArithmeticRule(p: Program, env: Env, h: Host, s: State, op: octet)
    requires Goes(p, env, h, s, op) && (0x01 <= op <= 0x03 || op == 0x0a)
    ensures |s.stack| >= 2
    ensures
      var a: nat, b: nat := s.stack[0], s.stack[1];
      var r: word := (if op == 0x01 then a + b
                      else if op == 0x02 then a * b
                      else if op == 0x03 then a - b
                      else Power(a, b)) % WORD_LIMIT;
      Step(p, env, h, s) == Go(State(s.pc + 1, [r] + s.stack[2..], s.mem, Left(p, env, h, s, op), s.ret))
  {
    Performs(p, env, h, s, op);
    KeepsMemory(p, env, h, s, op);
    hide Goes, Left, Paged, Step, Standard, Power;
  }

  /** Instructions that touch no memory leave it as it is. */
  lemma KeepsMemory(p: Program, env: Env, h: Host, s: State, op: octet)
    requires Goes(p, env, h, s, op)
    ensures |s.stack| >= Inputs(op)
    ensures Reached(s, op) == 0 ==> Paged(p, env, h, s, op) == s.mem
  {
    Performs(p, env, h, s, op);
    hide Reached, Step, Verdict;
  }

  /** The stack after POP, PC, MSIZE, GAS, JUMPDEST or DUP. */
  function Restacked(s: State, op: octet, size: nat, gas: nat): seq<word>
    requires |s.stack| >= Inputs(op) && (op == 0x50 || 0x58 <= op <= 0x5b || 0x80 <= op <= 0x8f)
  {
    if op == 0x50 then s.stack[1..]
    else if op == 0x58 then [s.pc % WORD_LIMIT] + s.stack
    else if op == 0x59 then [size % WORD_LIMIT] + s.stack
    else if op == 0x5a then [gas % WORD_LIMIT] + s.stack
    else if op == 0x5b then s.stack
    else [s.stack[op - 0x80]] + s.stack
  }

  lemma StackRule(p: Program, env: Env, h: Host, s: State, op: octet)
    requires Goes(p, env, h, s, op) && (op == 0x50 || 0x58 <= op <= 0x5b || 0x80 <= op <= 0x8f)
    ensures |s.stack| >= Inputs(op)
    ensures
      var gas := Left(p, env, h, s, op);
      Step(p, env, h, s) == Go(State(s.pc + 1, Restacked(s, op, |s.mem|, gas), s.mem, gas, s.ret))
  {
    hide Goes, Left, Paged, Step, Effect, Standard, Restacked;
    Performs(p, env, h, s, op);
    KeepsMemory(p, env, h, s, op);
    Restacks(p, env, h, s, op, Paid(Left(p, env, h, s, op), Paged(p, env, h, s, op)));
  }

  lemma Restacks(p: Program, env: Env, h: Host, s: State, op: octet, paid: Paid)
    requires Standard(env.table) && |s.stack| >= Inputs(op) && |s.stack| >= env.table[op].args
    requires op == 0x50 || 0x58 <= op <= 0x5b || 0x80 <= op <= 0x8f
    ensures Effect(p, env, h, s, op, paid)
      == Go(State(s.pc + 1, Restacked(s, op, |paid.mem|, paid.gas), paid.mem, paid.gas, s.ret))
  {
    hide Standard;
  }

  /** SWAP exchanges the top with the word `n` places below. */
  lemma SwapRule(p: Program, env: Env, h: Host, s: State, op: octet)
    requires Goes(p, env, h, s, op) && 0x90 <= op <= 0x9f
    ensures
      var n, t := op - 0x8f, Step(p, env, h, s);
      && t.Go? && n < |s.stack| == |t.state.stack|
      && t.state == State(s.pc + 1, t.state.stack, s.mem, Left(p, env, h, s, op), s.ret)
      && forall i :: 0 <= i < |s.stack| ==>
        t.state.stack[i] == if i == 0 then s.stack[n] else if i == n then s.stack[0] else s.stack[i]
  {
    Performs(p, env, h, s, op);
    KeepsMemory(p, env, h, s, op);
    hide Goes, Left, Paged, Step, Standard;
  }

  /** PUSH takes the bytes behind it, the first one the most significant. */
  lemma PushRule(p: Program, env: Env, h: Host, s: State, op: octet)
    requires Goes(p, env, h, s, op) && 0x60 <= op <= 0x7f
    ensures
      var n, t := op - 0x5f, Step(p, env, h, s);
      && t.Go? && t.state.stack != [] && t.state.stack[1..] == s.stack
      && t.state == State(s.pc + 1 + n, t.state.stack, s.mem, Left(p, env, h, s, op), s.ret)
      && t.state.stack[0] < Exp256(n)
      && forall j :: 0 <= j < n ==>
        ByteOf(t.state.stack[0], n, j) == if s.pc + 1 + j < |p.code| then p.code[s.pc + 1 + j] else 0
  {
    Performs(p, env, h, s, op);
    KeepsMemory(p, env, h, s, op);
    hide Goes, Left, Paged, Step, Standard, ByteOf, Digits;
    WordRule(p.code, s.pc + 1, op - 0x5f);
  }

  lemma WordRule(c: seq<octet>, at: nat, n: nat)
    requires n <= 32
    ensures WordAt(c, at, n) < Exp256(n)
    ensures forall j :: 0 <= j < n ==> ByteOf(WordAt(c, at, n), n, j) == ByteAt(c, at + j)
  {
    DigitsBound(c, at, n);
    var v := Digits(c, at, n);
    forall j | 0 <= j < n ensures ByteOf(v, n, j) == ByteAt(c, at + j) {
      DigitsRule(c, at, n, j);
    }
  }

  /** The constant that analysis finds in the code is what the step pushes. */
  lemma PushedRule(c: Code, pc: nat, j: nat)
    requires pc < |c| && j < PushSize(c[pc])
    ensures Pushed(c, pc) < Exp256(PushSize(c[pc]))
    ensures ByteOf(Pushed(c, pc), PushSize(c[pc]), j) == ByteAt(Plain(c), pc + 1 + j)
  {
    PlainPush(c, pc);
    WordRule(Plain(c), pc + 1, PushSize(c[pc]));
    hide Pushed, ByteOf;
  }

  /** PUSHC takes a constant from the pool, by a two-byte offset, and skips as many bytes as the fourth
      byte says. */
  lemma PushConstantRule(p: Program, env: Env, h: Host, s: State)
    requires Goes(p, env, h, s, 0xac) && s.pc + 3 < |p.code|
    ensures
      var off := 256 * p.code[s.pc + 1] as nat + p.code[s.pc + 2] as nat;
      var w: word := if off < |p.pool| then p.pool[off] else 0;
      Step(p, env, h, s)
        == Go(State(s.pc + 3 + p.code[s.pc + 3], [w] + s.stack, s.mem, Left(p, env, h, s, 0xac), s.ret))
  {
    Performs(p, env, h, s, 0xac);
    KeepsMemory(p, env, h, s, 0xac);
    hide Goes, Left, Paged, Step, Standard;
  }

  // ---------------------------------------------------------------- memory

  /** Little enough gas for offsets to fit 32 bits, as the source assumes. */
  predicate Modest(s: State) {
    s.gas + MemoryFee(|s.mem|) < 0x2000_0000_0000
  }

  /** The memory that was paid for is small. */
  lemma PagedSmall(p: Program, env: Env, h: Host, s: State, op: octet)
    requires Goes(p, env, h, s, op) && Modest(s)
    ensures |s.stack| >= Inputs(op) && Reached(s, op) <= |Paged(p, env, h, s, op)| < UINT32
  {
    hide Verdict, Step, Effect, Standard, Inputs, Reached, Fee, MemoryFee, MemCost, Words;
    VerdictExactly(p, env, h, s);
    WidenedSmall(s, Reached(s, op));
  }

  lemma WidenedSmall(s: State, reached: nat)
    requires Solvent(s) && Modest(s) && Growing(|s.mem|, reached) <= s.gas
    ensures |Widened(s.mem, reached)| < UINT32
  {
    hide MemCost;
    var size := |Widened(s.mem, reached)|;
    PagedFee(|s.mem|, reached);
    FeeOfWholeWords(size, 0);
    SmallMemory(size);
  }

  lemma PagedFee(size: nat, reached: nat)
    requires size % 32 == 0
    ensures var after := Max(size, 32 * Words(reached));
      after % 32 == 0 && MemoryFee(after) == MemoryFee(size) + Growing(size, reached)
  {
    var pages := 32 * Words(reached);
    assert Words(pages) == Words(reached) && (reached > size <==> pages > size);
    assert MemoryFee(pages) == MemoryFee(reached);
    hide Words, MemoryFee;
  }

  lemma LoadEffect(p: Program, env: Env, h: Host, s: State, paid: Paid)
    requires Standard(env.table) && s.stack != [] && env.table[0x51].args == 1
    requires s.stack[0] as nat + 32 <= |paid.mem| < UINT32
    ensures Effect(p, env, h, s, 0x51, paid)
      == Go(State(s.pc + 1, [WordAt(paid.mem, s.stack[0], 32)] + s.stack[1..], paid.mem, paid.gas, s.ret))
  {
    hide Standard, WordAt;
  }

  /** MLOAD reads 32 bytes, the first one the most significant. */
  lemma LoadRule(p: Program, env: Env, h: Host, s: State)
    requires Goes(p, env, h, s, 0x51) && Modest(s)
    ensures
      var m, t := Paged(p, env, h, s, 0x51), Step(p, env, h, s);
      && s.stack != [] && s.stack[0] as nat + 32 <= |m|
      && t.Go? && |t.state.stack| == |s.stack| && t.state.stack[1..] == s.stack[1..]
      && t.state == State(s.pc + 1, t.state.stack, m, Left(p, env, h, s, 0x51), s.ret)
      && forall j :: 0 <= j < 32 ==> ByteOf(t.state.stack[0], 32, j) == m[s.stack[0] + j]
  {
    hide Goes, Left, Paged, Step, Effect, Standard, ByteOf, WordAt;
    Performs(p, env, h, s, 0x51);
    PagedSmall(p, env, h, s, 0x51);
    var m := Paged(p, env, h, s, 0x51);
    LoadEffect(p, env, h, s, Paid(Left(p, env, h, s, 0x51), m));
    WordRule(m, s.stack[0], 32);
  }

  lemma StoreEffect(p: Program, env: Env, h: Host, s: State, paid: Paid)
    requires Standard(env.table) && |s.stack| >= 2 && env.table[0x52].args == 2
    requires s.stack[0] as nat + 32 <= |paid.mem| < UINT32
    ensures Effect(p, env, h, s, 0x52, paid)
      == Go(State(s.pc + 1, s.stack[2..], Written(paid.mem, s.stack[0], BytesOf(s.stack[1], 32)), paid.gas, s.ret))
  {
    hide Standard, Written, BytesOf;
  }

  /** MSTORE writes them in the same order, and touches no other byte. */
  lemma StoreRule(p: Program, env: Env, h: Host, s: State)
    requires Goes(p, env, h, s, 0x52) && Modest(s)
    ensures
      var m, t := Paged(p, env, h, s, 0x52), Step(p, env, h, s);
      && |s.stack| >= 2 && s.stack[0] as nat + 32 <= |m|
      && t.Go? && t.state == State(s.pc + 1, s.stack[2..], t.state.mem, Left(p, env, h, s, 0x52), s.ret)
      && |t.state.mem| == |m|
      && (forall j :: 0 <= j < 32 ==> t.state.mem[s.stack[0] + j] == ByteOf(s.stack[1], 32, j))
      && (forall i :: 0 <= i < |m| && !(s.stack[0] <= i < s.stack[0] as nat + 32) ==> t.state.mem[i] == m[i])
  {
    hide Goes, Left, Paged, Step, Effect, Standard, ByteOf, BytesOf;
    Performs(p, env, h, s, 0x52);
    PagedSmall(p, env, h, s, 0x52);
    var m := Paged(p, env, h, s, 0x52);
    StoreEffect(p, env, h, s, Paid(Left(p, env, h, s, 0x52), m));
    forall j | 0 <= j < 32 ensures BytesOf(s.stack[1], 32)[j] == ByteOf(s.stack[1], 32, j) {
      BytesOfRule(s.stack[1], 32, j);
    }
  }

  lemma StoreByteEffect(p: Program, env: Env, h: Host, s: State, paid: Paid)
    requires Standard(env.table) && |s.stack| >= 2 && env.table[0x53].args == 2
    requires s.stack[0] < |paid.mem| < UINT32
    ensures Effect(p, env, h, s, 0x53, paid)
      == Go(State(s.pc + 1, s.stack[2..], paid.mem[s.stack[0] := s.stack[1] as int % 256], paid.gas, s.ret))
  {
    hide Standard;
    assert Written(paid.mem, s.stack[0], [s.stack[1] as int % 256]) == paid.mem[s.stack[0] := s.stack[1] as int % 256];
  }

  /** MSTORE8 writes the least significant byte. */
  lemma StoreByteRule(p: Program, env: Env, h: Host, s: State)
    requires Goes(p, env, h, s, 0x53) && Modest(s)
    ensures
      var m := Paged(p, env, h, s, 0x53);
      && |s.stack| >= 2 && s.stack[0] < |m|
      && Step(p, env, h, s) == Go(State(s.pc + 1, s.stack[2..], m[s.stack[0] := s.stack[1] as int % 256],
                                        Left(p, env, h, s, 0x53), s.ret))
  {
    hide Goes, Left, Paged, Step, Effect, Standard;
    Performs(p, env, h, s, 0x53);
    PagedSmall(p, env, h, s, 0x53);
    StoreByteEffect(p, env, h, s, Paid(Left(p, env, h, s, 0x53), Paged(p, env, h, s, 0x53)));
  }

  /** A load right after a store to the same address gives the word that was stored, and every other
      byte of the memory is as it was. */
  lemma StoreThenLoad(p: Program, env: Env, h: Host, h': Host, s: State)
    requires Goes(p, env, h, s, 0x52) && Modest(s) && Step(p, env, h, s).Go?
    requires var t := Step(p, env, h, s).state;
      Goes(p, env, h', t, 0x51) && Modest(t) && t.stack != [] && |s.stack| >= 2 && t.stack[0] == s.stack[0]
    ensures
      var at, u := s.stack[0], Step(p, env, h', Step(p, env, h, s).state);
      && u.Go? && u.state.stack != [] && u.state.stack[0] == s.stack[1]
      && at as nat + 32 <= |u.state.mem|
      && forall i :: 0 <= i < |u.state.mem| && !(at <= i < at as nat + 32) ==>
        u.state.mem[i] == if i < |s.mem| then s.mem[i] else 0
  {
    hide Goes, Left, Paged, Step, Effect, Standard, BytesOf, WordAt;
    Performs(p, env, h, s, 0x52);
    PagedSmall(p, env, h, s, 0x52);
    var m := Paged(p, env, h, s, 0x52);
    StoreEffect(p, env, h, s, Paid(Left(p, env, h, s, 0x52), m));
    var t := Step(p, env, h, s).state;
    Performs(p, env, h', t, 0x51);
    PagedSmall(p, env, h', t, 0x51);
    var n := Paged(p, env, h', t, 0x51);
    LoadEffect(p, env, h', t, Paid(Left(p, env, h', t, 0x51), n));
    WhatIsPaged(p, env, h, s, 0x52);
    WhatIsPaged(p, env, h', t, 0x51);
    ReadWritten(m, n, s.stack[0], s.stack[1]);
  }

  lemma WhatIsPaged(p: Program, env: Env, h: Host, s: State, op: octet)
    requires Goes(p, env, h, s, op)
    ensures |Paged(p, env, h, s, op)| >= |s.mem|
    ensures forall i :: 0 <= i < |Paged(p, env, h, s, op)| ==>
      Paged(p, env, h, s, op)[i] == if i < |s.mem| then s.mem[i] else 0
  {
    hide Verdict, Step, Reached;
  }

  lemma ReadWritten(m: seq<octet>, n: seq<octet>, at: nat, v: word)
    requires at + 32 <= |m| <= |n|
    requires forall i :: 0 <= i < |m| ==> n[i] == Written(m, at, BytesOf(v, 32))[i]
    ensures WordAt(n, at, 32) == v
  {
    hide BytesOf;
    Exp256Word();
    assert n[at..at + 32] == BytesOf(v, 32);
    ReadBack(v, n, at, 32);
  }

  // ---------------------------------------------------------------- copies, hashes and logs

  /** Memory after `size` bytes of `data` from `from` on were copied to `at`, with zeros behind its end. */
  ghost predicate CopiedOver(m: seq<octet>, after: seq<octet>, at: nat, data: seq<octet>, from: nat, size: nat) {
    && |after| == |m| && forall i :: 0 <= i < |m| ==>
      after[i] ==
        if !(at <= i < at + size) then m[i]
        else if from + (i - at) < |data| then data[from + (i - at)]
        else 0
  }

  lemma CopyRule(p: Program, env: Env, h: Host, s: State, op: octet)
    requires Goes(p, env, h, s, op) && (op == 0x37 || op == 0x39 || op == 0x3e)
    ensures
      var t, data := Step(p, env, h, s), if op == 0x37 then env.input else if op == 0x39 then env.pCode else s.ret;
      && |s.stack| >= 3 && t.Go?
      && t.state == State(s.pc + 1, s.stack[3..], t.state.mem, Left(p, env, h, s, op), s.ret)
      && CopiedOver(Paged(p, env, h, s, op), t.state.mem, s.stack[0], data, s.stack[1], s.stack[2])
  {
    hide Goes, Left, Paged, Step, Effect, Standard, Copied;
    Performs(p, env, h, s, op);
    CopyEffect(p, env, h, s, op, Paid(Left(p, env, h, s, op), Paged(p, env, h, s, op)));
    WrittenOver(Paged(p, env, h, s, op), s, CopySource(env, s, op));
  }

  lemma WrittenOver(m: seq<octet>, s: State, data: seq<octet>)
    requires |s.stack| >= 3
    ensures CopiedOver(m, Copied(m, s, data), s.stack[0], data, s.stack[1], s.stack[2])
  {
    SliceOver(m, s.stack[0], data, s.stack[1], s.stack[2]);
  }

  lemma SliceOver(m: seq<octet>, at: nat, data: seq<octet>, from: nat, size: nat)
    ensures CopiedOver(m, Written(m, at, Slice(data, from, size)), at, data, from, size)
  {
    var part := Slice(data, from, size);
    forall i | 0 <= i < |m| && at <= i < at + size
      ensures Written(m, at, part)[i] == if from + (i - at) < |data| then data[from + (i - at)] else 0
    {
      var k := i - at;
      assert Written(m, at, part)[i] == part[k] == ByteAt(data, from + k);
    }
  }

  lemma CopyEffect(p: Program, env: Env, h: Host, s: State, op: octet, paid: Paid)
    requires Standard(env.table) && (op == 0x37 || op == 0x39 || op == 0x3e) && |s.stack| >= 3
    requires env.table[op].args == 3
    ensures Effect(p, env, h, s, op, paid)
      == Go(State(s.pc + 1, s.stack[3..], Copied(paid.mem, s, CopySource(env, s, op)), paid.gas, s.ret))
  {
    hide Standard, Copied, CopySource;
  }

  /** EXTCODECOPY: the code the host gives, from an offset cut to 64 bits on. */
  lemma CodeCopyRule(p: Program, env: Env, h: Host, s: State)
    requires Goes(p, env, h, s, 0x3c)
    ensures
      var t := Step(p, env, h, s);
      && |s.stack| >= 4 && t.Go?
      && t.state == State(s.pc + 1, s.stack[4..], t.state.mem, Left(p, env, h, s, 0x3c), s.ret)
      && var from := if s.stack[2] as nat < 0x1_0000_0000_0000_0000 then s.stack[2] else 0xFFFF_FFFF_FFFF_FFFF;
         CopiedOver(Paged(p, env, h, s, 0x3c), t.state.mem, s.stack[1], h.output, from, s.stack[3])
  {
    hide Goes, Left, Paged, Step, Effect, Standard, CodeCopied;
    Performs(p, env, h, s, 0x3c);
    CodeCopyEffect(p, env, h, s, Paid(Left(p, env, h, s, 0x3c), Paged(p, env, h, s, 0x3c)));
    CodeWrittenOver(Paged(p, env, h, s, 0x3c), s, h.output);
  }

  lemma CodeWrittenOver(m: seq<octet>, s: State, code: seq<octet>)
    requires |s.stack| >= 4
    ensures CopiedOver(m, CodeCopied(m, s, code), s.stack[1], code, CodeOffset(s.stack[2]), s.stack[3])
  {
    SliceOver(m, s.stack[1], code, CodeOffset(s.stack[2]), s.stack[3]);
  }

  lemma CodeCopyEffect(p: Program, env: Env, h: Host, s: State, paid: Paid)
    requires Standard(env.table) && |s.stack| >= 4 && env.table[0x3c].args == 4
    ensures Effect(p, env, h, s, 0x3c, paid)
      == Go(State(s.pc + 1, s.stack[4..], CodeCopied(paid.mem, s, h.output), paid.gas, s.ret))
  {
    hide Standard, CodeCopied;
  }

  /** SHA3 pushes the word the host gives; logs push nothing. */
  lemma HashAndLogRule(p: Program, env: Env, h: Host, s: State, op: octet)
    requires Goes(p, env, h, s, op) && (op == 0x20 || 0xa0 <= op <= 0xa4)
    ensures
      var n := if op == 0x20 then 2 else op - 0x9e;
      && |s.stack| >= n
      && Step(p, env, h, s) == Go(State(s.pc + 1, (if op == 0x20 then [h.pushed] else []) + s.stack[n..],
                                        Paged(p, env, h, s, op), Left(p, env, h, s, op), s.ret))
  {
    hide Goes, Left, Paged, Step, Effect, Standard;
    Performs(p, env, h, s, op);
    HashAndLogEffect(p, env, h, s, op, Paid(Left(p, env, h, s, op), Paged(p, env, h, s, op)));
  }

  lemma HashAndLogEffect(p: Program, env: Env, h: Host, s: State, op: octet, paid: Paid)
    requires Standard(env.table) && (op == 0x20 || 0xa0 <= op <= 0xa4) && |s.stack| >= Inputs(op) == env.table[op].args
    ensures Effect(p, env, h, s, op, paid)
      == Go(State(s.pc + 1, (if op == 0x20 then [h.pushed] else []) + s.stack[Inputs(op)..], paid.mem, paid.gas, s.ret))
  {
    hide Standard;
  }

  // ---------------------------------------------------------------- jumps

  /** JUMP and JUMPI: a zero condition goes on behind, whatever the destination; else the destination
      must be a JUMPDEST instruction, and the step goes there. */
  lemma JumpRule(p: Program, env: Env, h: Host, s: State, op: octet)
    requires Standard(env.table) && Solvent(s) && s.pc < |p.code| && p.code[s.pc] == op && (op == 0x56 || op == 0x57)
    requires (if op == 0x56 then 1 else 2) <= |s.stack| <= 1024 && s.gas >= env.table[op].gas
    ensures
      var rest, gas := s.stack[if op == 0x56 then 1 else 2..], s.gas - env.table[op].gas;
      Step(p, env, h, s) ==
        if op == 0x57 && s.stack[1] == 0 then Go(State(s.pc + 1, rest, s.mem, gas, s.ret))
        else if IsJumpDest(env.pCode, s.stack[0]) then Go(State(s.stack[0], rest, s.mem, gas, s.ret))
        else Throw(BadJumpDestination)
  {
    hide Step, Standard, IsJumpDest;
    StackMeans(env.table, op);
    JumpVerdict(p, env, h, s, op);
    VerdictExactly(p, env, h, s);
    hide Verdict;
    if Verdict(p, env, h, s) == None {
      WidenedNot(s.mem);
      JumpsTo(p, env, h, s, op, Inputs(op), Paid(s.gas - Total(env, h, s, op), Widened(s.mem, Reached(s, op))));
    }
  }

  lemma WidenedNot(mem: seq<octet>)
    ensures Widened(mem, 0) == mem
  {
  }

  lemma JumpVerdict(p: Program, env: Env, h: Host, s: State, op: octet)
    requires Standard(env.table) && s.pc < |p.code| && p.code[s.pc] == op
    requires op == 0x56 || op == 0x57 || ((op == 0xad || op == 0xae) && p.optimised)
    requires Inputs(op) <= |s.stack| <= 1024 && s.gas >= env.table[op].gas
    ensures Total(env, h, s, op) == env.table[op].gas && Reached(s, op) == 0
    ensures Verdict(p, env, h, s) ==
      if op < 0xad && (op == 0x56 || s.stack[1] > 0) && !IsJumpDest(env.pCode, s.stack[0]) then Some(BadJumpDestination)
      else None
  {
    hide IsJumpDest, Standard;
  }

  lemma JumpsTo(p: Program, env: Env, h: Host, s: State, op: octet, n: nat, paid: Paid)
    requires Standard(env.table) && |env.table| == 256 && 1 <= n == env.table[op].args <= |s.stack|
    requires op == 0x56 || op == 0x57 || op == 0xad || op == 0xae
    requires n == if op == 0x56 || op == 0xad then 1 else 2
    ensures
      var rest := s.stack[n..];
      Effect(p, env, h, s, op, paid) ==
        if n == 2 && s.stack[1] == 0 then Go(State(s.pc + 1, rest, paid.mem, paid.gas, s.ret))
        else if op >= 0xad then Go(State(s.stack[0] as nat % 0x1_0000_0000_0000_0000, rest, paid.mem, paid.gas, s.ret))
        else if IsJumpDest(env.pCode, s.stack[0]) then Go(State(s.stack[0], rest, paid.mem, paid.gas, s.ret))
        else Throw(BadJumpDestination)
  {
    hide Standard, IsJumpDest;
  }

  /** JUMPC and JUMPCI: the same condition, and the destination as it lies on the stack. */
  lemma PreVerifiedJumpRule(p: Program, env: Env, h: Host, s: State, op: octet)
    requires Standard(env.table) && Solvent(s) && s.pc < |p.code| && p.code[s.pc] == op && (op == 0xad || op == 0xae)
    requires p.optimised && (if op == 0xad then 1 else 2) <= |s.stack| <= 1024 && s.gas >= env.table[op].gas
    ensures
      var rest, gas := s.stack[if op == 0xad then 1 else 2..], s.gas - env.table[op].gas;
      Step(p, env, h, s) ==
        if op == 0xae && s.stack[1] == 0 then Go(State(s.pc + 1, rest, s.mem, gas, s.ret))
        else Go(State(s.stack[0] as nat % 0x1_0000_0000_0000_0000, rest, s.mem, gas, s.ret))
  {
    hide Step, Standard, IsJumpDest;
    StackMeans(env.table, op);
    JumpVerdict(p, env, h, s, op);
    VerdictExactly(p, env, h, s);
    hide Verdict;
    WidenedNot(s.mem);
    JumpsTo(p, env, h, s, op, Inputs(op), Paid(s.gas - Total(env, h, s, op), Widened(s.mem, Reached(s, op))));
  }

  /** In a state with the invariant, that is the very number on the stack, and a destination. */
  lemma InvariantLands(c: Code, s: State)
    requires |c| <= MAX_DEST && Inv(c, s) && PreVerified(c, s.pc)
    ensures s.stack != [] && s.stack[0] as nat % 0x1_0000_0000_0000_0000 == s.stack[0]
    ensures IsJumpDest(c, s.stack[0])
  {
    hide Reaches;
  }

  // ---------------------------------------------------------------- calls

  predicate IsCallOp(op: octet) {
    op == 0xf1 || op == 0xf2 || op == 0xf4 || op == 0xfa
  }

  /** The value a call sends; only CALL and CALLCODE send any. */
  function Sent(s: State, op: octet): nat
    requires |s.stack| >= 3
  {
    if op == 0xf1 || op == 0xf2 then s.stack[2] else 0
  }

  /** Where the output of a call goes. */
  function OutputPlace(s: State, op: octet): (nat, nat)
    requires |s.stack| >= Inputs(op) && IsCallOp(op)
  {
    if op == 0xf1 || op == 0xf2 then (s.stack[5], s.stack[6]) else (s.stack[4], s.stack[5])
  }

  /** A call that is entered: the caller keeps what it did not hand over, and gets back what the callee
      left; as much output as there is room for goes to memory. */
  lemma CallRule(p: Program, env: Env, h: Host, s: State, op: octet)
    requires Goes(p, env, h, s, op) && IsCallOp(op) && |s.stack| >= 3
    requires h.balance as nat >= Sent(s, op) && env.depth < 1024
    ensures |s.stack| >= Inputs(op) && Asked(env, s, Left(p, env, h, s, op)) <= Left(p, env, h, s, op)
    ensures
      var t, m, rest := Step(p, env, h, s), Paged(p, env, h, s, op), Left(p, env, h, s, op);
      var (at, room) := OutputPlace(s, op);
      && t.Go? && |t.state.mem| == |m|
      && t.state == State(s.pc + 1, [if h.success then 1 else 0] + s.stack[Inputs(op)..], t.state.mem,
                          rest - Asked(env, s, rest) + h.gasLeft, h.output)
      && forall i :: 0 <= i < |m| ==>
        t.state.mem[i] == if at <= i < at + room && i - at < |h.output| then h.output[i - at] else m[i]
  {
    hide Goes, Left, Paged, Step, Effect, Standard, Written;
    Performs(p, env, h, s, op);
    AskedFits(p, env, h, s, op);
    var paid := Paid(Left(p, env, h, s, op), Paged(p, env, h, s, op));
    EnteredCall(p, env, h, s, op, paid);
    OutputWritten(paid.mem, OutputPlace(s, op).0, OutputPlace(s, op).1, h.output);
  }

  lemma AskedFits(p: Program, env: Env, h: Host, s: State, op: octet)
    requires Goes(p, env, h, s, op) && IsCallOp(op)
    ensures |s.stack| >= Inputs(op) && Asked(env, s, Left(p, env, h, s, op)) <= Left(p, env, h, s, op) <= INT63
  {
    hide Total, Illegal, Step, Effect, Standard;
  }

  function Taken(output: seq<octet>, room: nat): (taken: seq<octet>) {
    output[..if |output| < room then |output| else room]
  }

  lemma OutputWritten(m: seq<octet>, at: nat, room: nat, output: seq<octet>)
    ensures var after := Written(m, at, Taken(output, room));
      forall i :: 0 <= i < |m| ==>
        after[i] == if at <= i < at + room && i - at < |output| then output[i - at] else m[i]
  {
  }

  lemma EnteredCall(p: Program, env: Env, h: Host, s: State, op: octet, paid: Paid)
    requires Standard(env.table) && IsCallOp(op) && |s.stack| >= Inputs(op) == env.table[op].args
    requires Asked(env, s, paid.gas) <= paid.gas <= INT63 && h.balance as nat >= Sent(s, op) && env.depth < 1024
    ensures Effect(p, env, h, s, op, paid)
      == Go(State(s.pc + 1, [if h.success then 1 else 0] + s.stack[Inputs(op)..],
                  Written(paid.mem, OutputPlace(s, op).0, Taken(h.output, OutputPlace(s, op).1)),
                  paid.gas - Asked(env, s, paid.gas) + h.gasLeft, h.output))
  {
    hide Standard, Written;
  }

  /** What the caller keeps while the callee runs: since Tangerine Whistle at least a 64th, rounded
      down, of what it had. */
  lemma KeptRule(p: Program, env: Env, h: Host, s: State, op: octet)
    requires Goes(p, env, h, s, op) && IsCallOp(op) && |s.stack| >= 3
    requires h.balance as nat >= Sent(s, op) && env.depth < 1024
    ensures Step(p, env, h, s).Go? && Step(p, env, h, s).state.gas >= h.gasLeft
    ensures
      var kept, gas := Step(p, env, h, s).state.gas - h.gasLeft, Left(p, env, h, s, op);
      var wanted: nat := s.stack[0];
      if env.rev < 2 then wanted <= gas && kept == gas - wanted
      else if 64 * (gas - wanted) + 63 >= gas then kept == gas - wanted
      else 64 * kept + 63 >= gas && forall k: nat :: 64 * k + 63 >= gas ==> kept <= k
  {
    hide Goes, Left, Paged, Step, Total;
    CallRule(p, env, h, s, op);
  }

  /** A call that is not entered, for want of balance or depth, gives back all it took, with the stipend
      on top. */
  lemma RefusedCallRule(p: Program, env: Env, h: Host, s: State, op: octet)
    requires Goes(p, env, h, s, op) && IsCallOp(op) && |s.stack| >= 3
    requires !(h.balance as nat >= Sent(s, op) && env.depth < 1024)
    ensures |s.stack| >= Inputs(op)
    ensures Step(p, env, h, s)
      == Go(State(s.pc + 1, [0] + s.stack[Inputs(op)..], Paged(p, env, h, s, op),
                  Left(p, env, h, s, op) + (if Sent(s, op) > 0 then 2300 else 0), []))
  {
    hide Goes, Left, Paged, Step, Effect, Standard;
    Performs(p, env, h, s, op);
    AskedFits(p, env, h, s, op);
    NotEntered(p, env, h, s, op, Paid(Left(p, env, h, s, op), Paged(p, env, h, s, op)));
  }

  lemma NotEntered(p: Program, env: Env, h: Host, s: State, op: octet, paid: Paid)
    requires Standard(env.table) && IsCallOp(op) && |s.stack| >= Inputs(op) == env.table[op].args
    requires Asked(env, s, paid.gas) <= paid.gas <= INT63 && !(h.balance as nat >= Sent(s, op) && env.depth < 1024)
    ensures Effect(p, env, h, s, op, paid)
      == Go(State(s.pc + 1, [0] + s.stack[Inputs(op)..], paid.mem,
                  paid.gas + (if Sent(s, op) > 0 then 2300 else 0), []))
  {
    hide Standard;
  }

  /** CREATE and CREATE2: all the gas, or all but a 64th, goes to the new account's code. */
  lemma CreateRule(p: Program, env: Env, h: Host, s: State, op: octet)
    requires Goes(p, env, h, s, op) && (op == 0xf0 || op == 0xf5)
    ensures |s.stack| >= Inputs(op)
    ensures
      var m, gas, below := Paged(p, env, h, s, op), Left(p, env, h, s, op), s.stack[Inputs(op)..];
      Step(p, env, h, s) ==
        if h.balance as nat >= s.stack[0] as nat && env.depth < 1024 then
          Go(State(s.pc + 1, [if h.success then h.pushed else 0] + below, m,
                   (if env.rev >= 2 then gas / 64 else 0) + h.gasLeft, h.output))
        else Go(State(s.pc + 1, [0] + below, m, gas, []))
  {
    hide Goes, Left, Paged, Step, Effect, Standard;
    Performs(p, env, h, s, op);
    Creates(p, env, h, s, op, Paid(Left(p, env, h, s, op), Paged(p, env, h, s, op)));
  }

  lemma Creates(p: Program, env: Env, h: Host, s: State, op: octet, paid: Paid)
    requires Standard(env.table) && (op == 0xf0 || op == 0xf5) && |s.stack| >= Inputs(op) == env.table[op].args
    ensures
      var below := s.stack[Inputs(op)..];
      Effect(p, env, h, s, op, paid) ==
        if h.balance as nat >= s.stack[0] as nat && env.depth < 1024 then
          Go(State(s.pc + 1, [if h.success then h.pushed else 0] + below, paid.mem,
                   (if env.rev >= 2 then paid.gas / 64 else 0) + h.gasLeft, h.output))
        else Go(State(s.pc + 1, [0] + below, paid.mem, paid.gas, []))
  {
    hide Standard;
  }

  // ---------------------------------------------------------------- the end of a run, and the rest

  /** STOP, also behind the end of the code, and SUICIDE end without output; RETURN and REVERT give the
      bytes of memory they name. */
  lemma HaltRule(p: Program, env: Env, h: Host, s: State, op: octet)
    requires Goes(p, env, h, s, op) && (op == 0x00 || op == 0xf3 || op == 0xfd || op == 0xff)
    ensures
      var t, m, gas := Step(p, env, h, s), Paged(p, env, h, s, op), Left(p, env, h, s, op);
      if op == 0x00 || op == 0xff then t == Halt(gas, [])
      else
        && |s.stack| >= 2
        && (if op == 0xf3 then t.Halt? else t.Revert?) && t.gas == gas && |t.output| == s.stack[1]
        && forall i :: 0 <= i < |t.output| ==> s.stack[0] + i < |m| && t.output[i] == m[s.stack[0] + i]
  {
    hide Goes, Left, Paged, Step, Effect, Standard, Slice;
    Performs(p, env, h, s, op);
    Ends(p, env, h, s, op, Paid(Left(p, env, h, s, op), Paged(p, env, h, s, op)));
    if op == 0xf3 || op == 0xfd {
      SliceInside(Paged(p, env, h, s, op), s.stack[0], s.stack[1]);
    }
  }

  lemma SliceInside(m: seq<octet>, at: nat, size: nat)
    requires |m| >= Span(at, size)
    ensures |Slice(m, at, size)| == size
    ensures forall i :: 0 <= i < size ==> at + i < |m| && Slice(m, at, size)[i] == m[at + i]
  {
    var t := Slice(m, at, size);
    forall i | 0 <= i < size ensures at + i < |m| && t[i] == m[at + i] {
      assert t[i] == ByteAt(m, at + i);
    }
  }

  lemma Ends(p: Program, env: Env, h: Host, s: State, op: octet, paid: Paid)
    requires Standard(env.table) && |s.stack| >= Inputs(op) == env.table[op].args
    requires op == 0x00 || op == 0xf3 || op == 0xfd || op == 0xff
    ensures Effect(p, env, h, s, op, paid) ==
      if op == 0xf3 then Halt(paid.gas, Slice(paid.mem, s.stack[0], s.stack[1]))
      else if op == 0xfd then Revert(paid.gas, Slice(paid.mem, s.stack[0], s.stack[1]))
      else Halt(paid.gas, [])
  {
    hide Standard, Slice;
  }

  /** The others pop and push as the table says, with the host's word. */
  lemma OtherRule(p: Program, env: Env, h: Host, s: State, op: octet)
    requires Goes(p, env, h, s, op) && !Known(op)
    ensures |env.table| == 256 && |s.stack| >= env.table[op].args
    ensures Step(p, env, h, s)
      == Go(State(s.pc + 1, (if env.table[op].returned == 1 then [h.pushed] else []) + s.stack[env.table[op].args..],
                  s.mem, Left(p, env, h, s, op), s.ret))
  {
    hide Goes, Left, Paged, Step, Effect, Standard;
    Performs(p, env, h, s, op);
    KeepsMemory(p, env, h, s, op);
    Others(p, env, h, s, op, Paid(Left(p, env, h, s, op), Paged(p, env, h, s, op)));
  }

  lemma Others(p: Program, env: Env, h: Host, s: State, op: octet, paid: Paid)
    requires Standard(env.table) && !Known(op) && |s.stack| >= env.table[op].args
    ensures |env.table| == 256 && Reached(s, op) == 0
    ensures Effect(p, env, h, s, op, paid)
      == Go(State(s.pc + 1, (if env.table[op].returned == 1 then [h.pushed] else []) + s.stack[env.table[op].args..],
                  paid.mem, paid.gas, s.ret))
  {
    KnownExactly(op);
  }
}
