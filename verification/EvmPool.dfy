/** Where 16-bit pool offsets are not enough (VMOpt.cpp:109-127): the two builds take the same steps
    exactly when every pooled constant is found again, and the optimised build stays on the code's
    instructions exactly when what it fetches for pre-verified jumps are destinations.  Then code for
    which neither holds. */
module EvmPool {
  import opened Bytes
  import opened Options
  import opened EvmCode
  import opened EvmMetering
  import opened EvmStep
  import opened EvmRuns
  import opened EvmVm

  /** The builds take the same step in every state the code can be in. */
  ghost predicate AgreeEverywhere(c: Code, opt: Code, pool: seq<word>) {
    forall env: Env, h: Host, s: State :: env.pCode == c && Standard(env.table) && Inv(c, s)
      ==> Step(OptimisedProgram(opt, pool), env, h, s) == Step(PlainProgram(c), env, h, s)
  }

  lemma AgreeExactly(c: Code, opt: Code, pool: seq<word>)
    requires |c| <= MAX_DEST && Optimised(c, opt, pool)
    ensures AgreeEverywhere(c, opt, pool) <==> Faithful(pool)
  {
    hide Step, Standard, Inv, Optimised, Faithful, Fetched, Pushed, Pool;
    if Faithful(pool) {
      forall env: Env, h: Host, s: State | env.pCode == c && Standard(env.table) && Inv(c, s)
        ensures Step(OptimisedProgram(opt, pool), env, h, s) == Step(PlainProgram(c), env, h, s)
      {
        SameStep(opt, pool, env, h, s);
      }
    } else {
      PoolOf(c, opt, pool);
      PoolExact(c);
      var pc: nat :| Boundary(c, pc) && pc < |c| && Pools(c, pc) && Fetched(pool, c, pc) != Pushed(c, pc);
      var env, h, s := Plainest(c), Silent(), State(pc, [], [], 3, []);
      AtPush(c, s);
      PooledSteps(c, opt, pool, env, h, s);
      assert ([Fetched(pool, c, pc)] + s.stack)[0] != ([Pushed(c, pc)] + s.stack)[0];
    }
  }

  lemma PoolOf(c: Code, opt: Code, pool: seq<word>)
    requires Optimised(c, opt, pool)
    ensures pool == Pool(c)
  {
  }

  lemma AtPush(c: Code, s: State)
    requires Boundary(c, s.pc) && s.pc < |c| && Pools(c, s.pc)
    ensures Inv(c, s)
  {
    ReadsInside(c, s.pc);
  }

  /** Some surroundings: every instruction costs 3. */
  function Plainest(c: Code): (env: Env)
    ensures env.pCode == c && Standard(env.table) && env.table[PUSH1].gas == 3
  {
    CostsStandard();
    Env(CONSTANTINOPLE, false, 0, [], c, Costs())
  }

  function Costs(): (t: seq<Metric>)
    ensures |t| == 256 && forall op: octet :: t[op] == Metric(3, Args(op), Returned(op))
  {
    seq(256, op requires 0 <= op < 256 => Metric(3, Args(op), Returned(op)))
  }

  lemma CostsStandard()
    ensures Standard(Costs())
  {
    hide Costs;
    forall op: octet ensures Args(op) <= 17 && Returned(op) <= 17 {
      ArgsBound(op);
    }
    forall op: octet ensures !Modelled(op) ==> Returned(op) <= 1 {
      NothingReturned(op);
    }
    forall op: octet | IsPush(op) ensures Args(op) == Args(PUSH1) && Returned(op) == Returned(PUSH1) {
      PushArgs(op);
    }
    PushArgs(PUSH1);
    SyntheticArgs();
    hide Args, Returned, Modelled;
  }

  lemma ArgsBound(op: octet)
    ensures Args(op) <= 17 && Returned(op) <= 17
  {
  }

  lemma NothingReturned(op: octet)
    ensures !Modelled(op) ==> Returned(op) <= 1
  {
  }

  lemma PushArgs(op: octet)
    requires IsPush(op)
    ensures Args(op) == 0 && Returned(op) == 1
  {
  }

  lemma SyntheticArgs()
    ensures Args(PUSHC) == 0 && Returned(PUSHC) == 1
    ensures Args(JUMPC) == Args(JUMP) && Returned(JUMPC) == Returned(JUMP)
    ensures Args(JUMPCI) == Args(JUMPI) && Returned(JUMPCI) == Returned(JUMPI)
  {
  }

  function Silent(): Host {
    Host(0, 1, false, true, 0, true, 0, [])
  }

  /** A pooled PUSH in the two builds. */
  lemma PooledSteps(c: Code, opt: Code, pool: seq<word>, env: Env, h: Host, s: State)
    requires env.pCode == c && Standard(env.table) && Optimised(c, opt, pool)
    requires Boundary(c, s.pc) && s.pc < |c| && Pools(c, s.pc)
    requires |s.stack| < STACK_LIMIT && s.gas >= env.table[PUSH1].gas
    ensures var next, gas := Next(c, s.pc), s.gas - env.table[PUSH1].gas;
      && Step(OptimisedProgram(opt, pool), env, h, s)
        == Go(State(next, [Fetched(pool, c, s.pc)] + s.stack, s.mem, gas, s.ret))
      && Step(PlainProgram(c), env, h, s) == Go(State(next, [Pushed(c, s.pc)] + s.stack, s.mem, gas, s.ret))
  {
    hide Step, Optimised, Plain, Standard, Fetched, Pushed, WordAt, Boundary;
    var p, q := OptimisedProgram(opt, pool), PlainProgram(c);
    PooledOperands(c, opt, pool, s.pc);
    ReadsInside(c, s.pc);
    PlainPush(c, s.pc);
    PushOne(env.table, PUSHC);
    PushOne(env.table, c[s.pc]);
    PushStep(p, env, h, s, PUSHC);
    PushStep(q, env, h, s, c[s.pc]);
  }

  // ---------------------------------------------------------------- pre-verified jumps

  /** No step of the optimised build leaves the instructions of the code, or comes to a pre-verified
      jump without a destination. */
  ghost predicate AlignedEverywhere(c: Code, opt: Code, pool: seq<word>) {
    forall env: Env, h: Host, s: State ::
      env.pCode == c && Standard(env.table) && Aligned(c, s) && Step(OptimisedProgram(opt, pool), env, h, s).Go?
      ==> Aligned(c, Step(OptimisedProgram(opt, pool), env, h, s).state)
  }

  lemma LandsExactly(c: Code, opt: Code, pool: seq<word>)
    requires |c| <= MAX_DEST && Optimised(c, opt, pool)
    ensures AlignedEverywhere(c, opt, pool) <==> Lands(c, pool)
  {
    hide Step, Standard, Aligned, Optimised, Lands, Fetched;
    if Lands(c, pool) {
      forall env: Env, h: Host, s: State
        | env.pCode == c && Standard(env.table) && Aligned(c, s) && Step(OptimisedProgram(opt, pool), env, h, s).Go?
        ensures Aligned(c, Step(OptimisedProgram(opt, pool), env, h, s).state)
      {
        StaysAligned(opt, pool, env, h, s);
      }
    } else {
      var env, h, s, s1 := JumpMisses(c, opt, pool);
    }
  }

  /** Otherwise there is a pushed and valid destination to which the plain build jumps, while the
      optimised one goes to a place that is no destination. */
  lemma JumpMisses(c: Code, opt: Code, pool: seq<word>) returns (env: Env, h: Host, s: State, t: State)
    requires |c| <= MAX_DEST && Optimised(c, opt, pool) && !Lands(c, pool)
    ensures env.pCode == c && Standard(env.table) && Inv(c, s) && Aligned(c, s)
    ensures Step(OptimisedProgram(opt, pool), env, h, s) == Go(t) && !Aligned(c, t)
    ensures var p, q := OptimisedProgram(opt, pool), PlainProgram(c);
      && Step(p, env, h, t).Go? && !IsJumpDest(c, Step(p, env, h, t).state.pc)
      && Step(q, env, h, s).Go? && Step(q, env, h, Step(q, env, h, s).state).Go?
      && IsJumpDest(c, Step(q, env, h, Step(q, env, h, s).state).state.pc)
  {
    hide Step, Standard, Optimised, Fetched, Pushed, Plain, Reaches;
    var pc: nat :| Boundary(c, pc) && pc < |c| && Pools(c, pc) && PreVerified(c, Next(c, pc))
      && !IsJumpDest(c, Fetched(pool, c, pc) % UINT64);
    env, h, s := Plainest(c), Silent(), State(pc, [1], [], 6, []);
    AtPush(c, s);
    InvAligned(c, s);
    PooledSteps(c, opt, pool, env, h, s);
    VerifiedBy(c, pc);
    ReachesOn(c, 0, pc);
    t := State(Next(c, pc), [Fetched(pool, c, pc), 1], [], 3, []);
    var u := State(Next(c, pc), [Pushed(c, pc), 1], [], 3, []);
    assert [Fetched(pool, c, pc)] + s.stack == t.stack && [Pushed(c, pc)] + s.stack == u.stack;
    TakenJump(c, opt, pool, env, h, t, u);
  }

  /** The jump in the two builds. */
  lemma TakenJump(c: Code, opt: Code, pool: seq<word>, env: Env, h: Host, t: State, u: State)
    requires |c| <= MAX_DEST && Optimised(c, opt, pool) && Boundary(c, t.pc) && PreVerified(c, t.pc)
    requires t.pc == u.pc && (t.pc < |c| ==> !Pools(c, t.pc)) && |t.stack| == |u.stack| == 2 && t.gas == u.gas == 3
    requires t.stack[1] == u.stack[1] == 1 && IsJumpDest(c, u.stack[0]) && env == Plainest(c)
    ensures Standard(env.table)
    ensures var p, q := OptimisedProgram(opt, pool), PlainProgram(c);
      && Step(p, env, h, t).Go? && Step(p, env, h, t).state.pc == t.stack[0] % UINT64
      && Step(q, env, h, u).Go? && Step(q, env, h, u).state.pc == u.stack[0]
  {
    var p, q := OptimisedProgram(opt, pool), PlainProgram(c);
    ReadsInside(c, t.pc);
    assert opt[t.pc] == OptimisedAt(c, t.pc);
    hide Step, Standard, Optimised, Plain, Boundary, IsJumpDest, PreVerified;
    JumpMetrics(c);
    JumpStep(p, env, h, t, opt[t.pc]);
    JumpStep(q, env, h, u, PlainAt(c, t.pc));
  }

  lemma JumpMetrics(c: Code)
    ensures var t := Plainest(c).table;
      |t| == 256 && forall op: octet :: IsJump(op) ==> t[op].gas == 3 && t[op].args == Args(op) && t[op].returned == 0
  {
  }

  // ---------------------------------------------------------------- code that runs differently

  const FAR: nat := 5 + 7 * POOL_LIMIT

  /** PUSH3 and JUMP over 65536 PUSH6 of zero to a JUMPDEST, a PUSH6 of that destination and JUMP. */
  function Far(): (c: Code)
    ensures |c| == FAR + 9
  {
    seq<octet>(FAR + 9, i requires 0 <= i < FAR + 9 => FarAt(i))
  }

  function FarAt(i: nat): octet
    requires i < FAR + 9
  {
    if i < 5 then [0x62, 0x07, 0x00, 0x05, 0x56][i]
    else if i < FAR then if (i - 5) % 7 == 0 then 0x65 else 0
    else if i == FAR then 0x5b
    else [0x65, 0, 0, 0, 0x07, 0x00, 0x05, 0x56][i - FAR - 1]
  }

  lemma FarByte(i: nat)
    requires i < |Far()|
    ensures Far()[i] == FarAt(i)
  {
  }

  /** The first instructions. */
  lemma FarStart()
    ensures Boundary(Far(), 0) && Boundary(Far(), 4) && Boundary(Far(), 5) && PoolIndex(Far(), 5) == 0
    ensures Far()[0] == 0x62 && Far()[4] == JUMP && Pushed(Far(), 0) == FAR
  {
    var c := Far();
    FarByte(0); FarByte(1); FarByte(2); FarByte(3); FarByte(4);
    hide Far;
    assert Next(c, 0) == 4 && Next(c, 4) == 5;
    assert Reaches(c, 5, 5) && Reaches(c, 4, 5) && Reaches(c, 4, 4);
    assert PoolFrom(c, 5, 5) == [] && PoolFrom(c, 4, 5) == [];
    var d := Plain(c);
    assert d[1] == 0x07 && d[2] == 0 && d[3] == 0x05;
    assert Number(d, 1, 1) == 0x07 && Number(d, 1, 2) == 0x0700 && Number(d, 1, 3) == 0x070005;
  }

  /** The PUSH6 instructions jumped over. */
  lemma {:induction false} FarPushes(j: nat)
    requires j <= POOL_LIMIT
    ensures Boundary(Far(), 5 + 7 * j) && PoolIndex(Far(), 5 + 7 * j) == j
    decreases j
  {
    FarStart();
    if j > 0 {
      var pc := 5 + 7 * (j - 1);
      FarPushes(j - 1);
      FarByte(pc);
      hide Far, Boundary, Pushed;
      FarNext(Far(), pc);
    }
  }

  lemma FarNext(c: Code, pc: nat)
    requires Boundary(c, pc) && pc < |c| && c[pc] == 0x65
    ensures Next(c, pc) == pc + 7 && Boundary(c, pc + 7) && PoolIndex(c, pc + 7) == PoolIndex(c, pc) + 1
  {
    hide Pushed, PoolFrom;
    ReachesOn(c, 0, pc);
    PoolOn(c, 0, pc);
  }

  /** The destination, and the PUSH6 behind it, whose offset is cut to zero. */
  lemma FarEnd()
    ensures IsJumpDest(Far(), FAR) && Boundary(Far(), FAR + 1) && PoolIndex(Far(), FAR + 1) == POOL_LIMIT
    ensures Far()[FAR + 1] == 0x65 && Pushed(Far(), FAR + 1) == FAR
  {
    var c := Far();
    FarPushes(POOL_LIMIT);
    FarByte(FAR);
    FarByte(FAR + 1);
    FarConstants();
    hide Far, Pushed;
    ReachesOn(c, 0, FAR);
    PoolOn(c, 0, FAR);
  }

  lemma {:induction false} Zeros(code: Code, at: nat, n: nat)
    requires at + n <= |code| && forall i :: at <= i < at + n ==> code[i] == 0
    ensures Number(code, at, n) == 0
    decreases n
  {
    if n > 0 {
      Zeros(code, at, n - 1);
    }
  }

  lemma FarConstants()
    ensures Pushed(Far(), FAR + 1) == FAR && Pushed(Far(), 5) == 0
  {
    var c, d := Far(), Plain(Far());
    forall i | 5 < i < 12 ensures d[i] == 0 {
      FarByte(i);
    }
    FarByte(5); FarByte(FAR + 1); FarByte(FAR + 2); FarByte(FAR + 3); FarByte(FAR + 4);
    FarByte(FAR + 5); FarByte(FAR + 6); FarByte(FAR + 7);
    assert d[FAR + 2] == d[FAR + 3] == d[FAR + 4] == 0 && d[FAR + 5] == 7 && d[FAR + 6] == 0 && d[FAR + 7] == 5;
    hide Far, Plain, FarAt;
    Zeros(d, 6, 6);
    Zeros(d, FAR + 2, 3);
    assert Number(d, FAR + 2, 4) == 7 && Number(d, FAR + 2, 5) == 0x700 && Number(d, FAR + 2, 6) == 0x70005;
  }

  /** PUSHC finds the constant of the first PUSH6 there. */
  lemma FarFetched(opt: Code, pool: seq<word>)
    requires Optimised(Far(), opt, pool)
    ensures Fetched(pool, Far(), FAR + 1) == 0
  {
    var c := Far();
    FarStart();
    FarEnd();
    FarConstants();
    FarByte(5);
    hide Far, Pushed, Optimised, Boundary;
    PoolOf(c, opt, pool);
    PoolHolds(c, 5);
    assert POOL_LIMIT % POOL_LIMIT == 0;
  }

  /** Jumping over the pushes in the plain build: the first three states. */
  lemma FarJump(env: Env, hs: seq<Host>, gas: nat) returns (s1: State, s2: State, s3: State)
    requires env.pCode == Far() && Standard(env.table) && |hs| >= 3 && gas >= 5 * UINT32
    ensures var q := PlainProgram(Far());
      && Step(q, env, hs[0], State(0, [], [], gas, [])) == Go(s1)
      && Step(q, env, hs[1], s1) == Go(s2) && Step(q, env, hs[2], s2) == Go(s3)
    ensures s1.pc == 4 && s2.pc == FAR && s3.pc == FAR + 1 && s3.stack == [] && s3.gas >= 2 * UINT32
  {
    FarStart();
    FarEnd();
    hide Far, Pushed, WordAt, Step, Standard, Plain, Boundary;
    var c, q := Far(), PlainProgram(Far());
    ReadsInside(c, 0);
    ReadsInside(c, 4);
    ReadsInside(c, FAR);
    PlainPush(c, 0);
    var s0 := State(0, [], [], gas, []);
    FarMetrics(env.table);
    PushStep(q, env, hs[0], s0, 0x62);
    s1 := Step(q, env, hs[0], s0).state;
    assert s1 == State(4, [FAR], [], gas - env.table[0x62].gas, []);
    JumpStep(q, env, hs[1], s1, JUMP);
    s2 := Step(q, env, hs[1], s1).state;
    StackOpStep(q, env, hs[2], s2, JUMPDEST);
    s3 := Step(q, env, hs[2], s2).state;
  }

  lemma FarMetrics(t: seq<Metric>)
    requires Standard(t)
    ensures |t| == 256 && forall op: octet :: t[op].gas <= UINT32
    ensures t[0x62].args == 0 && t[0x62].returned == 1 && t[0x65].args == 0 && t[0x65].returned == 1
    ensures t[JUMPC] == t[JUMP] && t[JUMP].args == 1 && t[JUMP].returned == 0 && t[JUMPDEST].args == 0
    ensures t[JUMPDEST].returned == 0
  {
  }

  /** From the start of this code, four steps leave different numbers on the stack. */
  lemma FarCodeDiffers(opt: Code, pool: seq<word>, env: Env, hs: seq<Host>, gas: nat)
    requires env.pCode == Far() && Standard(env.table) && Optimised(Far(), opt, pool) && |hs| == 4 && gas >= 5 * UINT32
    ensures |Far()| == 7 * POOL_LIMIT + 14
    ensures
      var s := State(0, [], [], gas, []);
      var p, q := Run(OptimisedProgram(opt, pool), env, hs, s), Run(PlainProgram(Far()), env, hs, s);
      p.Go? && q.Go? && p.state.stack == [0] && q.state.stack == [FAR]
  {
    hide Run, Far, Step, Standard, Inv, Optimised, Pushed, Fetched, Boundary, IsJumpDest, Plain, Pool, FarAt;
    var s3, p4, q4 := FarApart(opt, pool, env, hs, gas);
    RunOne(OptimisedProgram(opt, pool), env, hs[3..], s3);
    RunOne(PlainProgram(Far()), env, hs[3..], s3);
  }

  /** The fifth step: the plain build is at the destination, the optimised one at the start, which is
      none. */
  lemma FarJumpMisses(opt: Code, pool: seq<word>, env: Env, hs: seq<Host>, gas: nat)
    requires env.pCode == Far() && Standard(env.table) && Optimised(Far(), opt, pool) && |hs| == 5 && gas >= 5 * UINT32
    ensures
      var s := State(0, [], [], gas, []);
      var p, q := Run(OptimisedProgram(opt, pool), env, hs, s), Run(PlainProgram(Far()), env, hs, s);
      && p.Go? && p.state.pc == 0 && !IsJumpDest(Far(), 0)
      && q.Go? && q.state.pc == FAR && IsJumpDest(Far(), FAR)
  {
    hide Run, Far, Step, Standard, Inv, Optimised, Pushed, Fetched, Boundary, Plain, Pool, FarAt;
    var p, q := OptimisedProgram(opt, pool), PlainProgram(Far());
    var s3, p4, q4 := FarApart(opt, pool, env, hs, gas);
    RunTwo(p, env, hs[3..], s3);
    RunTwo(q, env, hs[3..], s3);
    FarLast(opt, pool);
    FarStart();
    FarEnd();
    FarMetrics(env.table);
    JumpStep(p, env, hs[4], p4, JUMPC);
    JumpStep(q, env, hs[4], q4, JUMP);
  }

  /** The last jump is pre-verified. */
  lemma FarLast(opt: Code, pool: seq<word>)
    requires Optimised(Far(), opt, pool)
    ensures ByteAt(opt, FAR + 8) == JUMPC && ByteAt(Plain(Far()), FAR + 8) == JUMP
  {
    var c := Far();
    FarEnd();
    FarByte(FAR + 8);
    hide Far, Pushed, FarAt, PoolFrom, Reaches, IsJumpDest;
    ReachesOn(c, 0, FAR + 1);
    VerifiedBy(c, FAR + 1);
    FarTarget();
    ReadsInside(c, FAR + 8);
    assert opt[FAR + 8] == OptimisedAt(c, FAR + 8);
  }

  lemma FarTarget()
    ensures IsJumpDest(Far(), Pushed(Far(), FAR + 1))
  {
    FarEnd();
  }

  /** Three steps together, then the push that differs. */
  lemma FarApart(opt: Code, pool: seq<word>, env: Env, hs: seq<Host>, gas: nat)
    returns (s3: State, p4: State, q4: State)
    requires env.pCode == Far() && Standard(env.table) && Optimised(Far(), opt, pool) && |hs| >= 4 && gas >= 5 * UINT32
    ensures
      var s, p, q := State(0, [], [], gas, []), OptimisedProgram(opt, pool), PlainProgram(Far());
      && Run(p, env, hs, s) == Run(p, env, hs[3..], s3) && Step(p, env, hs[3], s3) == Go(p4)
      && Run(q, env, hs, s) == Run(q, env, hs[3..], s3) && Step(q, env, hs[3], s3) == Go(q4)
    ensures p4.pc == q4.pc == FAR + 8 && p4.stack == [0] && q4.stack == [FAR] && p4.gas == q4.gas >= UINT32
  {
    hide Run, Far, Step, Standard, Inv, Optimised, Pushed, Fetched, Boundary, IsJumpDest, Plain, Pool, FarAt;
    s3 := FarTogether(opt, pool, env, hs, gas);
    FarEnd();
    FarFetched(opt, pool);
    FarMetrics(env.table);
    PooledSteps(Far(), opt, pool, env, hs[3], s3);
    p4 := Step(OptimisedProgram(opt, pool), env, hs[3], s3).state;
    q4 := Step(PlainProgram(Far()), env, hs[3], s3).state;
  }

  /** Up to the last push the builds run together. */
  lemma FarTogether(opt: Code, pool: seq<word>, env: Env, hs: seq<Host>, gas: nat) returns (s3: State)
    requires env.pCode == Far() && Standard(env.table) && Optimised(Far(), opt, pool) && |hs| >= 4 && gas >= 5 * UINT32
    ensures s3.pc == FAR + 1 && s3.stack == [] && s3.gas >= 2 * UINT32
    ensures var s, q := State(0, [], [], gas, []), PlainProgram(Far());
      && Run(OptimisedProgram(opt, pool), env, hs, s) == Run(OptimisedProgram(opt, pool), env, hs[3..], s3)
      && Run(q, env, hs, s) == Run(q, env, hs[3..], s3)
  {
    hide Run, Far, Step, Standard, Inv, Optimised, Pushed, Boundary, IsJumpDest, Plain, FarAt;
    FarSlots();
    Initial(Far(), gas);
    var s1, s2;
    s1, s2, s3 := FarJump(env, hs, gas);
    TogetherOn(opt, pool, env, hs, State(0, [], [], gas, []));
    TogetherOn(opt, pool, env, hs[1..], s1);
    TogetherOn(opt, pool, env, hs[2..], s2);
    assert hs[1..][1..] == hs[2..] && hs[2..][1..] == hs[3..];
  }

  lemma FarSlots()
    ensures |Far()| == FAR + 9 && !Pools(Far(), 0) && !Pools(Far(), 4) && !Pools(Far(), FAR)
  {
    FarByte(0); FarByte(4); FarByte(FAR);
    hide Far;
  }

  /** One step further, where nothing is pooled. */
  lemma TogetherOn(opt: Code, pool: seq<word>, env: Env, hs: seq<Host>, s: State)
    requires Standard(env.table) && |env.pCode| <= MAX_DEST && Optimised(env.pCode, opt, pool) && hs != []
    requires Inv(env.pCode, s) && s.pc < |env.pCode| && !Pools(env.pCode, s.pc)
    requires Step(PlainProgram(env.pCode), env, hs[0], s).Go?
    ensures var t := Step(PlainProgram(env.pCode), env, hs[0], s).state;
      && Inv(env.pCode, t)
      && Run(PlainProgram(env.pCode), env, hs, s) == Run(PlainProgram(env.pCode), env, hs[1..], t)
      && Run(OptimisedProgram(opt, pool), env, hs, s) == Run(OptimisedProgram(opt, pool), env, hs[1..], t)
  {
    SameUnpooled(opt, pool, env, hs[0], s);
    PlainKeepsInv(env, hs[0], s);
    hide Step, Inv, Standard, Optimised, Pools;
  }

  lemma RunTwo(p: Program, env: Env, hs: seq<Host>, s: State)
    requires Standard(env.table) && |hs| == 2 && Step(p, env, hs[0], s).Go?
    ensures Run(p, env, hs, s) == Step(p, env, hs[1], Step(p, env, hs[0], s).state)
  {
    hide Step, Standard;
    RunOne(p, env, hs[1..], Step(p, env, hs[0], s).state);
  }

  lemma RunOne(p: Program, env: Env, hs: seq<Host>, s: State)
    requires Standard(env.table) && |hs| == 1
    ensures Run(p, env, hs, s) == Step(p, env, hs[0], s)
  {
    hide Step, Standard;
    assert hs[1..] == [];
  }
}
