/** Preparing EVM code for interpretation (VMOpt.cpp, VMCalls.cpp:86-100): the table of jump
    destinations and, in the optimising build, the constant pool and the pre-verified jumps. */
module EvmCode {
  import opened Bytes

  const WORD_LIMIT: nat := 0x1_00000000_00000000_00000000_00000000_00000000_00000000_00000000_00000000
  type word = x: int | 0 <= x < WORD_LIMIT

  const STOP: octet := 0x00
  const JUMP: octet := 0x56
  const JUMPI: octet := 0x57
  const JUMPDEST: octet := 0x5b
  const PUSH1: octet := 0x60
  const PUSH32: octet := 0x7f
  const PUSHC: octet := 0xac
  const JUMPC: octet := 0xad
  const JUMPCI: octet := 0xae
  const INVALID: octet := 0xfe

  const EXTRA := 33                  // zero bytes behind the code
  const MAX_DEST := 0x7FFF_FFFF_FFFF_FFFF
  const POOL_LIMIT := 0x1_0000       // pool offsets have two bytes

  type Code = seq<octet>

  // ---------------------------------------------------------------- instruction boundaries

  /** Bytes pushed by an instruction, which follow it in the code. */
  function PushSize(op: octet): (n: nat)
    ensures n <= 32
  {
    if PUSH1 <= op <= PUSH32 then op - PUSH1 + 1 else 0
  }

  function Next(c: Code, pc: nat): nat
    requires pc < |c|
  {
    pc + 1 + PushSize(c[pc])
  }

  predicate Reaches(c: Code, a: nat, b: nat)
    decreases b - a
  {
    a == b || (a < b && a < |c| && Reaches(c, Next(c, a), b))
  }

  /** An instruction of the code starts at `pc`; or the code has been left there. */
  predicate Boundary(c: Code, pc: nat) {
    Reaches(c, 0, pc)
  }

  predicate IsJumpDest(c: Code, pc: int) {
    0 <= pc < |c| && c[pc] == JUMPDEST && Boundary(c, pc)
  }

  lemma {:induction false} ReachesOn(c: Code, a: nat, b: nat)
    requires Reaches(c, a, b) && b < |c|
    ensures Reaches(c, a, Next(c, b))
    decreases b - a
  {
    if a < b {
      ReachesOn(c, Next(c, a), b);
    } else {
      assert Reaches(c, Next(c, b), Next(c, b));
    }
  }

  /** Boundaries lie on one line. */
  lemma {:induction false} OneLine(c: Code, from: nat, a: nat, b: nat)
    requires Reaches(c, from, a) && Reaches(c, from, b) && a < b
    ensures a < |c| && Reaches(c, Next(c, a), b)
    decreases a - from
  {
    if from < a {
      OneLine(c, Next(c, from), a, b);
    }
  }

  /** Nothing starts inside an instruction. */
  lemma NoneInside(c: Code, a: nat, b: nat)
    requires Boundary(c, a) && a < |c| && a < b < Next(c, a)
    ensures !Boundary(c, b)
  {
    if Boundary(c, b) {
      OneLine(c, 0, a, b);
    }
  }

  /** A boundary has at most one predecessor. */
  lemma OnePredecessor(c: Code, a: nat, b: nat)
    requires Boundary(c, a) && Boundary(c, b) && a < |c| && b < |c| && Next(c, a) == Next(c, b)
    ensures a == b
  {
    if a < b {
      OneLine(c, 0, a, b);
    } else if b < a {
      OneLine(c, 0, b, a);
    }
  }

  // ---------------------------------------------------------------- the code as it is run

  predicate Synthetic(op: octet) {
    op == PUSHC || op == JUMPC || op == JUMPCI
  }

  /** The byte at `p` of the copied code: zero behind the end, synthetic instructions invalidated. */
  function PlainAt(c: Code, p: nat): octet {
    if p >= |c| then 0
    else if Synthetic(c[p]) && Boundary(c, p) then INVALID
    else c[p]
  }

  function Plain(c: Code): (r: Code)
    ensures |r| == |c| + EXTRA && forall p :: 0 <= p < |r| ==> r[p] == PlainAt(c, p)
  {
    seq(|c| + EXTRA, p requires 0 <= p < |c| + EXTRA => PlainAt(c, p))
  }

  /** The big-endian number in `n` bytes of the code from `at` on. */
  function Number(code: Code, at: nat, n: nat): (v: nat)
    requires at + n <= |code|
    decreases n
  {
    if n == 0 then 0 else Number(code, at, n - 1) * 256 + code[at + n - 1]
  }

  lemma {:induction false} NumberBound(code: Code, at: nat, n: nat)
    requires at + n <= |code|
    ensures Number(code, at, n) < Exp256(n)
  {
    if n > 0 {
      NumberBound(code, at, n - 1);
    }
  }

  lemma {:induction false} Exp256Mono(m: nat, n: nat)
    requires m <= n
    ensures Exp256(m) <= Exp256(n)
    decreases n
  {
    if m < n {
      Exp256Mono(m, n - 1);
    }
  }

  lemma Exp256Word()
    ensures Exp256(32) == WORD_LIMIT
  {
    assert Exp256(8) == 0x1_00000000_00000000;
    assert Exp256(16) == 0x1_00000000_00000000_00000000_00000000;
    assert Exp256(24) == 0x1_00000000_00000000_00000000_00000000_00000000_00000000;
  }

  /** What the PUSH at `pc` pushes; the bytes behind the end of the code are zero. */
  function Pushed(c: Code, pc: nat): word
    requires pc < |c|
  {
    NumberBound(Plain(c), pc + 1, PushSize(c[pc]));
    Exp256Mono(PushSize(c[pc]), 32);
    Exp256Word();
    Number(Plain(c), pc + 1, PushSize(c[pc]))
  }

  // ---------------------------------------------------------------- the optimised code

  predicate Pools(c: Code, pc: nat)
    requires pc < |c|
  {
    PushSize(c[pc]) > 5
  }

  /** The constants of the pooled PUSHes before `pc`, first one first. */
  function PoolFrom(c: Code, at: nat, pc: nat): seq<word>
    decreases pc - at
  {
    if at >= pc || at >= |c| then []
    else (if Pools(c, at) then [Pushed(c, at)] else []) + PoolFrom(c, Next(c, at), pc)
  }

  function Pool(c: Code): seq<word> {
    PoolFrom(c, 0, |c|)
  }

  /** Where the constant of the PUSH at `pc` lies in the pool. */
  function PoolIndex(c: Code, pc: nat): nat {
    |PoolFrom(c, 0, pc)|
  }

  /** The instruction before `b` pushes a valid jump destination. */
  ghost predicate PushedBy(c: Code, a: nat, b: nat) {
    a < |c| && Boundary(c, a) && PushSize(c[a]) > 0 && Next(c, a) == b && IsJumpDest(c, Pushed(c, a))
  }

  ghost predicate Verified(c: Code, b: nat) {
    exists a: nat :: PushedBy(c, a, b)
  }

  /** The instruction at `b` before a PUSH there is looked at. */
  ghost function JumpAt(c: Code, b: nat): octet {
    if PlainAt(c, b) == JUMP && Verified(c, b) then JUMPC
    else if PlainAt(c, b) == JUMPI && Verified(c, b) then JUMPCI
    else PlainAt(c, b)
  }

  ghost function OptimisedAt(c: Code, b: nat): octet {
    if b < |c| && Pools(c, b) then PUSHC else JumpAt(c, b)
  }

  /** The operand bytes of an instruction: the pool offset and the bytes left to skip, or the pushed
      bytes as they were. */
  ghost predicate Operands(c: Code, opt: Code, b: nat)
    requires b < |c| && |opt| == |c| + EXTRA
  {
    if Pools(c, b) then
      opt[b + 1] as nat * 256 + opt[b + 2] as nat == PoolIndex(c, b) % POOL_LIMIT && opt[b + 3] == PushSize(c[b]) - 2
    else forall j :: b < j < Next(c, b) ==> opt[j] == PlainAt(c, j)
  }

  ghost predicate RewrittenTo(c: Code, opt: Code, pc: nat)
    requires |opt| == |c| + EXTRA
  {
    forall b: nat :: b < pc && b < |opt| && Boundary(c, b) ==>
      opt[b] == OptimisedAt(c, b) && (b < |c| ==> Operands(c, opt, b))
  }

  ghost predicate UntouchedFrom(c: Code, opt: Code, pc: nat)
    requires |opt| == |c| + EXTRA
  {
    (pc < |opt| ==> opt[pc] == JumpAt(c, pc)) && forall p :: pc < p < |opt| ==> opt[p] == PlainAt(c, p)
  }

  /** The optimised code: every instruction rewritten, the pool filled. */
  ghost predicate Optimised(c: Code, opt: Code, pool: seq<word>) {
    |opt| == |c| + EXTRA && RewrittenTo(c, opt, |opt|) && pool == Pool(c)
  }

  lemma {:induction false} PoolOn(c: Code, at: nat, pc: nat)
    requires Reaches(c, at, pc) && pc < |c|
    ensures PoolFrom(c, at, Next(c, pc)) == PoolFrom(c, at, pc) + if Pools(c, pc) then [Pushed(c, pc)] else []
    decreases pc - at
  {
    hide Pushed;
    if at < pc {
      PoolOn(c, Next(c, at), pc);
      var head := if Pools(c, at) then [Pushed(c, at)] else [];
      AppendAssociates(head, PoolFrom(c, Next(c, at), pc), if Pools(c, pc) then [Pushed(c, pc)] else []);
    } else {
      assert PoolFrom(c, Next(c, pc), Next(c, pc)) == [];
    }
  }

  lemma {:induction false} PoolEnds(c: Code, at: nat, pc: nat)
    requires pc >= |c|
    ensures PoolFrom(c, at, pc) == PoolFrom(c, at, |c|)
    decreases pc - at
  {
    hide Pushed;
    if at < |c| {
      PoolEnds(c, Next(c, at), pc);
    }
  }

  /** The pool is never longer than a seventh of the code. */
  lemma {:induction false} PoolSize(c: Code, at: nat, pc: nat)
    requires Reaches(c, at, pc)
    ensures 7 * |PoolFrom(c, at, pc)| <= pc - at
    decreases pc - at
  {
    hide Pushed;
    if at < pc {
      PoolSize(c, Next(c, at), pc);
    }
  }

  /** The operands of an instruction in front of `pc` are not touched by writes from `pc` on. */
  lemma KeepsRewritten(c: Code, opt: Code, opt': Code, pc: nat)
    requires |opt| == |opt'| == |c| + EXTRA && RewrittenTo(c, opt, pc) && Boundary(c, pc)
    requires forall p :: 0 <= p < pc && p < |opt| ==> opt'[p] == opt[p]
    ensures RewrittenTo(c, opt', pc)
  {
    forall b: nat | b < pc && b < |c| && Boundary(c, b) ensures Next(c, b) <= pc {
      OneLine(c, 0, b, pc);
    }
  }

  // ---------------------------------------------------------------- the same in numbers

  /** Instructions start at 0 and behind one another; those from 60 to 7f have up to 32 bytes of
      operands, in which none starts. */
  lemma BoundaryRule(c: Code, a: nat)
    ensures Boundary(c, 0)
    ensures Boundary(c, a) && a < |c| ==>
      var next := a + 1 + if 0x60 <= c[a] <= 0x7f then c[a] - 0x5f else 0;
      Boundary(c, next) && forall b: nat :: a < b < next ==> !Boundary(c, b)
  {
    hide Reaches;
    assert Reaches(c, 0, 0) by { StartReaches(c); }
    if Boundary(c, a) && a < |c| {
      ReachesOn(c, 0, a);
      forall b: nat | a < b < Next(c, a) ensures !Boundary(c, b) {
        NoneInside(c, a, b);
      }
    }
  }

  lemma StartReaches(c: Code)
    ensures Reaches(c, 0, 0)
  {
  }

  /** The copy that is run: bytes ac to ae where instructions start become fe, and 33 zeros follow. */
  lemma CopyRule(c: Code, p: nat)
    ensures |Plain(c)| == |c| + 33
    ensures p < |c| + 33 ==>
      Plain(c)[p] == if p >= |c| then 0 else if 0xac <= c[p] <= 0xae && Boundary(c, p) then 0xfe else c[p]
    ensures IsJumpDest(c, p) <==> p < |c| && c[p] == 0x5b && Boundary(c, p)
  {
    hide Reaches;
  }

  /** The optimised copy: a push of six bytes or more becomes ac, with the number of pooled constants
      before it, cut to 16 bits, and the bytes left to skip; a jump right behind a push of a
      destination becomes ad or ae. */
  lemma OptimisedRule(c: Code, opt: Code, pool: seq<word>, b: nat)
    requires Optimised(c, opt, pool) && Boundary(c, b) && b < |c|
    ensures |opt| == |c| + 33
    ensures
      if 0x65 <= c[b] <= 0x7f then
        && opt[b] == 0xac && opt[b + 1] as nat * 256 + opt[b + 2] as nat == |PoolFrom(c, 0, b)| % 0x1_0000
        && opt[b + 3] == c[b] - 0x61
      else if (c[b] == 0x56 || c[b] == 0x57) && Verified(c, b) then opt[b] == c[b] + 0x57
      else opt[b] == Plain(c)[b] && forall j :: b < j < Next(c, b) ==> opt[j] == Plain(c)[j]
  {
    assert opt[b] == OptimisedAt(c, b) && Operands(c, opt, b);
    hide Reaches, PoolFrom, Verified;
  }

  // ---------------------------------------------------------------- the preparation itself

  ghost predicate Ascending(s: seq<nat>) {
    forall i, j :: 0 <= i < j < |s| ==> s[i] < s[j]
  }

  /** The table holds exactly the jump destinations before `pc`, in strictly ascending order. */
  ghost predicate Table(c: Code, dests: seq<nat>, pc: nat) {
    Ascending(dests) && forall p: nat :: p in dests <==> p < pc && IsJumpDest(c, p)
  }

  lemma TableOn(c: Code, dests: seq<nat>, pc: nat)
    requires Table(c, dests, pc) && Boundary(c, pc) && pc < |c|
    ensures Table(c, dests + if c[pc] == JUMPDEST then [pc] else [], Next(c, pc))
  {
    forall p: nat | pc < p < Next(c, pc) ensures !IsJumpDest(c, p) {
      NoneInside(c, pc, p);
    }
    assert IsJumpDest(c, pc) <==> c[pc] == JUMPDEST;
    forall i | 0 <= i < |dests| ensures dests[i] < pc {
      assert dests[i] in dests;
    }
  }

  ghost predicate CleanedTo(c: Code, code: Code, pc: nat) {
    |code| == |c| + EXTRA
    && forall p :: 0 <= p < |code| ==> code[p] == if p < pc then PlainAt(c, p) else if p < |c| then c[p] else 0
  }

  // ---------------------------------------------------------------- one turn of the optimising loop

  /** The loop has come to the instruction at `pc`. */
  ghost predicate Progress(c: Code, code: Code, pool: seq<word>, pc: nat) {
    |code| == |c| + EXTRA && Boundary(c, pc) && RewrittenTo(c, code, pc) && UntouchedFrom(c, code, pc)
      && pool == PoolFrom(c, 0, pc)
  }

  lemma Begins(c: Code)
    ensures Progress(c, Plain(c), [], 0)
  {
    assert !Verified(c, 0);
  }

  /** Whether a jump is verified depends on the instruction right before it. */
  lemma VerifiedBy(c: Code, a: nat)
    requires Boundary(c, a) && a < |c|
    ensures Verified(c, Next(c, a)) <==> PushSize(c[a]) > 0 && IsJumpDest(c, Pushed(c, a))
  {
    hide Pushed, IsJumpDest;
    if PushSize(c[a]) > 0 && IsJumpDest(c, Pushed(c, a)) {
      assert PushedBy(c, a, Next(c, a));
    }
    if Verified(c, Next(c, a)) {
      var b: nat :| PushedBy(c, b, Next(c, a));
      OnePredecessor(c, a, b);
    }
  }

  /** An instruction that pushes nothing is passed over. */
  lemma StepsOver(c: Code, code: Code, pool: seq<word>, pc: nat)
    requires Progress(c, code, pool, pc) && pc < |c| && PushSize(c[pc]) == 0
    ensures Progress(c, code, pool, pc + 1)
  {
    ReachesOn(c, 0, pc);
    PoolOn(c, 0, pc);
    VerifiedBy(c, pc);
    hide Pushed, Verified, PoolFrom, Reaches;
  }

  /** A PUSH is passed once it, its operands and the instruction behind it are rewritten. */
  lemma StepsOverPush(c: Code, code: Code, code': Code, pool: seq<word>, pool': seq<word>, pc: nat)
    requires Progress(c, code, pool, pc) && pc < |c| && PushSize(c[pc]) > 0 && |code'| == |code|
    requires forall p :: (0 <= p < pc || Next(c, pc) < p) && p < |code| ==> code'[p] == code[p]
    requires code'[pc] == OptimisedAt(c, pc) && Operands(c, code', pc)
    requires Next(c, pc) < |code'| && code'[Next(c, pc)] == JumpAt(c, Next(c, pc))
    requires pool' == pool + if Pools(c, pc) then [Pushed(c, pc)] else []
    ensures Progress(c, code', pool', Next(c, pc))
  {
    ReachesOn(c, 0, pc);
    PoolOn(c, 0, pc);
    KeepsRewritten(c, code, code', pc);
    forall p: nat | pc < p < Next(c, pc) ensures !Boundary(c, p) {
      NoneInside(c, pc, p);
    }
    hide Pushed, JumpAt, PoolFrom, Operands, Reaches;
  }

  /** At the end of the code nothing is left to rewrite. */
  lemma Ends(c: Code, code: Code, pool: seq<word>, pc: nat)
    requires Progress(c, code, pool, pc) && pc >= |c|
    ensures Optimised(c, code, pool)
  {
    PoolEnds(c, 0, pc);
    forall b: nat | b < |code| && Boundary(c, b) ensures b <= pc {
      if pc < b {
        OneLine(c, 0, pc, b);
      }
    }
  }

  /** std::binary_search. */
  method BinarySearch(s: seq<nat>, x: nat) returns (found: bool)
    requires Ascending(s)
    ensures found <==> x in s
  {
    var lo, hi := 0, |s|;
    while lo < hi
      invariant 0 <= lo <= hi <= |s|
      invariant forall i :: 0 <= i < lo ==> s[i] < x
      invariant forall i :: hi <= i < |s| ==> s[i] > x
    {
      var mid := (lo + hi) / 2;
      if s[mid] == x {
        return true;
      } else if s[mid] < x {
        lo := mid + 1;
      } else {
        hi := mid;
      }
    }
    found := false;
  }

  class Preparation {
    const pCode: Code
    var code: Code
    var pool: seq<word>
    var jumpDests: seq<nat>

    /** Ready to run: as it is, or optimised. */
    ghost predicate Ready(optimised: bool)
      reads this
    {
      && Table(pCode, jumpDests, |pCode|)
      && if optimised then Optimised(pCode, code, pool) else code == Plain(pCode) && pool == []
    }

    constructor (pCode: Code)
      ensures this.pCode == pCode && pool == [] && jumpDests == []
    {
      this.pCode := pCode;
      code, pool, jumpDests := [], [], [];
    }

    method CopyCode(extraBytes: nat)
      modifies this`code
      ensures |code| == |pCode| + extraBytes && pCode <= code && forall i :: |pCode| <= i < |code| ==> code[i] == 0
    {
      code := pCode + seq(extraBytes, _ => 0);
    }

    /** The first loop of optimize: find the jump destinations, invalidate synthetic instructions. */
    method BuildTable()
      requires jumpDests == []
      modifies this`code, this`jumpDests
      ensures code == Plain(pCode) && Table(pCode, jumpDests, |pCode|)
    {
      CopyCode(EXTRA);
      var nBytes := |pCode|;
      var pc := 0;
      while pc < nBytes
        invariant Boundary(pCode, pc) && CleanedTo(pCode, code, pc)
        invariant Table(pCode, jumpDests, pc)
        decreases nBytes - pc
      {
        ghost var start := pc;
        var op := code[pc];
        ReachesOn(pCode, 0, pc);
        TableOn(pCode, jumpDests, pc);
        forall p: nat | pc < p < Next(pCode, pc) ensures !Boundary(pCode, p) {
          NoneInside(pCode, pc, p);
        }
        if op == PUSHC || op == JUMPC || op == JUMPCI {
          code := code[pc := INVALID];
        }
        if op == JUMPDEST {
          jumpDests := jumpDests + [pc];
        } else if PUSH1 <= op <= PUSH32 {
          pc := pc + (op - PUSH1 + 1);
        }
        pc := pc + 1;
        assert pc == Next(pCode, start);
      }
      assert code == Plain(pCode);
      forall p: nat | IsJumpDest(pCode, p) ensures p < pc {
      }
    }

    /** verifyJumpDest; -1 where the source throws or returns -1. */
    method VerifyJumpDest(dest: word) returns (r: int)
      requires Table(pCode, jumpDests, |pCode|) && |pCode| <= MAX_DEST
      ensures r == if IsJumpDest(pCode, dest) then dest else -1
    {
      if dest <= MAX_DEST {
        var found := BinarySearch(jumpDests, dest);
        if found {
          return dest;
        }
      }
      r := -1;
    }

    /** The value of the bytes behind a PUSH. */
    method DecodeConstant(pc: nat, nPush: nat) returns (val: nat)
      requires 1 <= nPush <= 32 && pc + nPush < |code|
      ensures val == Number(code, pc + 1, nPush)
    {
      val := code[pc + 1];
      assert Number(code, pc + 1, 0) == 0;
      var i, n := pc + 2, nPush - 1;
      while n > 0
        invariant i == pc + 1 + nPush - n && n < nPush
        invariant val == Number(code, pc + 1, nPush - n)
      {
        val := val * 256 + code[i];
        i, n := i + 1, n - 1;
      }
    }

    /** Add a constant to the pool and turn its PUSH into a PUSHC: the offset in two bytes, then the
        number of bytes left to skip. */
    method Stash(pc: nat, nPush: nat, val: word)
      requires 5 < nPush <= 32 && pc + nPush < |code|
      modifies this`code, this`pool
      ensures pool == old(pool) + [val] && |code| == |old(code)|
      ensures code[pc] == PUSHC && code[pc + 3] == nPush - 2
      ensures code[pc + 1] as nat * 256 + code[pc + 2] as nat == |old(pool)| % POOL_LIMIT
      ensures forall p :: 0 <= p < |code| && (p < pc || p > pc + 3) ==> code[p] == old(code)[p]
    {
      var poolOff := |pool| % POOL_LIMIT;      // uint16_t
      pool := pool + [val];
      code := code[pc := PUSHC];
      code := code[pc + 3 := nPush - 2];
      code := code[pc + 2 := poolOff % 256];
      code := code[pc + 1 := poolOff / 256];
    }

    /** Replace a jump to a constant destination, if the destination is valid. */
    method ReplaceJump(i: nat, val: word)
      requires i < |code| && Table(pCode, jumpDests, |pCode|) && |pCode| <= MAX_DEST
      modifies this`code
      ensures |code| == |old(code)| && forall p :: 0 <= p < |code| && p != i ==> code[p] == old(code)[p]
      ensures code[i] ==
        if old(code)[i] == JUMP && IsJumpDest(pCode, val) then JUMPC
        else if old(code)[i] == JUMPI && IsJumpDest(pCode, val) then JUMPCI
        else old(code)[i]
    {
      var op := code[i];
      if op == JUMP {
        var r := VerifyJumpDest(val);
        if 0 <= r {
          code := code[i := JUMPC];
        }
      } else if op == JUMPI {
        var r := VerifyJumpDest(val);
        if 0 <= r {
          code := code[i := JUMPCI];
        }
      }
    }

    method OptimisePush(pc: nat)
      requires Progress(pCode, code, pool, pc) && pc < |pCode| && PushSize(pCode[pc]) > 0
      requires Table(pCode, jumpDests, |pCode|) && |pCode| <= MAX_DEST
      modifies this`code, this`pool
      ensures Progress(pCode, code, pool, Next(pCode, pc))
    {
      ghost var code0, pool0 := code, pool;
      var nPush := code[pc] - PUSH1 + 1;
      var val := DecodeConstant(pc, nPush);
      SameNumber(code, Plain(pCode), pc + 1, nPush);
      assert val == Pushed(pCode, pc);
      if 5 < nPush {
        Stash(pc, nPush, val);
      }
      VerifiedBy(pCode, pc);
      ReplaceJump(pc + nPush + 1, val);
      StepsOverPush(pCode, code0, code, pool0, pool, pc);
    }

    /** optimize. */
    method Optimise(optimising: bool)
      requires jumpDests == [] && pool == [] && |pCode| <= MAX_DEST
      modifies this
      ensures Ready(optimising)
    {
      BuildTable();
      if optimising {
        var nBytes := |pCode|;
        var pc := 0;
        Begins(pCode);
        while pc < nBytes
          invariant Progress(pCode, code, pool, pc) && Table(pCode, jumpDests, nBytes)
          decreases nBytes - pc
        {
          var op := code[pc];
          if PUSH1 <= op <= PUSH32 {
            OptimisePush(pc);
            pc := pc + (op - PUSH1 + 1);
          } else {
            StepsOver(pCode, code, pool, pc);
          }
          pc := pc + 1;
        }
        Ends(pCode, code, pool, pc);
      }
    }
  }

  lemma {:induction false} SameNumber(a: Code, b: Code, at: nat, n: nat)
    requires at + n <= |a| && at + n <= |b| && a[at..at + n] == b[at..at + n]
    ensures Number(a, at, n) == Number(b, at, n)
    decreases n
  {
    if n > 0 {
      assert a[at..at + n][n - 1] == b[at..at + n][n - 1];
      assert a[at..at + n - 1] == a[at..at + n][..n - 1] == b[at..at + n][..n - 1] == b[at..at + n - 1];
      SameNumber(a, b, at, n - 1);
    }
  }
}
