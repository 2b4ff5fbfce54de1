/**
 Running legacy code, for any meaning of its opcodes that halts, jumps and goes on where an EVM can, and
 when two codes cannot be told apart by running them: exactly if they look alike wherever a run can come
 and, if a run can come to a jump, have the same jump destinations.
 */
module LegacyRuns {
  import opened ByteStrings
  import opened Disassembler

  // ---- Running (Yellow Paper, section 9.4) ----

  datatype Outcome<S, R> = Continue(next: S) | Jump(target: int, next: S) | Halt(result: R)

  /** What each opcode does, given its immediate and its place. It does not see the rest of the code. */
  datatype Machine<!S, !R> = Machine(
    step: (Byte, Bytes, nat, S) -> Outcome<S, R>,
    badJump: S -> R
  )

  datatype Status<S, R> = Running(pc: nat, state: S) | Halted(result: R)

  /** The code is followed by zeros without end, so running past it is a STOP. */
  function At(code: Bytes, pc: nat): Byte {
    if pc < |code| then code[pc] else 0
  }

  predicate IsPush(op: Byte) {
    0x60 <= op <= 0x7F
  }

  function Data(code: Bytes, pc: nat): Bytes {
    seq<Byte>(if IsPush(At(code, pc)) then At(code, pc) - 0x5F else 0, k requires 0 <= k => At(code, pc + 1 + k))
  }

  /** The next instruction, N of section 9.4.3. */
  function NextPc(code: Bytes, pc: nat): nat {
    if IsPush(At(code, pc)) then pc + At(code, pc) - 0x60 + 2 else pc + 1
  }

  /** The valid jump destinations from `pc` on, D_J of section 9.4.3. */
  function JumpDests(code: Bytes, pc: nat): set<nat>
    decreases |code| - pc
  {
    if pc >= |code| then {}
    else if code[pc] == JUMPDEST then {pc} + JumpDests(code, NextPc(code, pc))
    else JumpDests(code, NextPc(code, pc))
  }

  function Run<S, R>(m: Machine<S, R>, code: Bytes, pc: nat, state: S, steps: nat): Status<S, R>
    decreases steps
  {
    if steps == 0 then Running(pc, state)
    else
      match m.step(At(code, pc), Data(code, pc), pc, state)
      case Continue(next) => Run(m, code, NextPc(code, pc), next, steps - 1)
      case Jump(target, next) =>
        if target in JumpDests(code, 0) then Run(m, code, target, next, steps - 1) else Halted(m.badJump(next))
      case Halt(result) => Halted(result)
  }

  const JUMP: Byte := 0x56
  const JUMPI: Byte := 0x57

  /** The opcodes that some fork without EOF gives a meaning. */
  predicate Valid(op: Byte) {
    || op <= 0x0B || 0x10 <= op <= 0x1E || op == 0x20 || 0x30 <= op <= 0x4A || 0x50 <= op <= 0xA4
    || 0xF0 <= op <= 0xF5 || op == 0xFA || op == 0xFD || op == 0xFF
  }

  /** STOP, RETURN, REVERT, SELFDESTRUCT and every opcode without a meaning halt the run. */
  predicate Halts(op: Byte) {
    op in {0x00, 0xF3, 0xFD, 0xFF} || !Valid(op)
  }

  predicate Jumps(op: Byte) {
    op == JUMP || op == JUMPI
  }

  /** A run can go on behind the opcode without a jump. */
  predicate GoesOn(op: Byte) {
    !Halts(op) && op != JUMP
  }

  /** The machine halts, jumps and goes on only where an EVM of some fork can. */
  ghost predicate LegacyMachine<S(!new), R>(m: Machine<S, R>) {
    forall op, data, pc, state ::
      var outcome := m.step(op, data, pc, state);
      (outcome.Continue? ==> GoesOn(op)) && (outcome.Jump? ==> Jumps(op))
  }

  /** `end` is met going through the instructions from `pc`. */
  predicate Boundary(code: Bytes, pc: nat, end: nat)
    requires end <= |code|
    decreases end - pc
  {
    pc == end || (pc < end && Boundary(code, NextPc(code, pc), end))
  }

  // ---- Where a run can come ----

  /** Some run goes from `from` to `p` without a jump. */
  predicate Walk(code: Bytes, from: nat, p: nat)
    decreases p - from
  {
    p == from || (from < p && GoesOn(At(code, from)) && Walk(code, NextPc(code, from), p))
  }

  /** Some run from `from` comes to a jump. */
  predicate MeetsJump(code: Bytes, from: nat)
    decreases |code| - from
  {
    from < |code| && (Jumps(code[from]) || (GoesOn(code[from]) && MeetsJump(code, NextPc(code, from))))
  }

  /** Some run comes to `p`. */
  predicate Reached(code: Bytes, p: nat) {
    Walk(code, 0, p) || (MeetsJump(code, 0) && exists d :: d in JumpDests(code, 0) && Walk(code, d, p))
  }

  /** Wherever a run can come, the codes have the same opcode, immediate and jump destinations. */
  ghost predicate Alike(c: Bytes, d: Bytes) {
    && (MeetsJump(c, 0) ==> JumpDests(c, 0) == JumpDests(d, 0))
    && forall p: nat :: Reached(c, p) ==> At(c, p) == At(d, p) && Data(c, p) == Data(d, p)
  }

  lemma {:induction false} WalkOn(code: Bytes, from: nat, p: nat)
    requires Walk(code, from, p) && GoesOn(At(code, p))
    ensures Walk(code, from, NextPc(code, p))
    decreases p - from
  {
    if from < p {
      WalkOn(code, NextPc(code, from), p);
    }
  }

  lemma ReachedOn(code: Bytes, p: nat)
    requires Reached(code, p) && GoesOn(At(code, p))
    ensures Reached(code, NextPc(code, p))
  {
    if Walk(code, 0, p) {
      WalkOn(code, 0, p);
    } else {
      var d :| d in JumpDests(code, 0) && Walk(code, d, p);
      WalkOn(code, d, p);
    }
  }

  /** Walking to a jump is meeting one, and one that is met can be walked to. */
  lemma {:induction false} WalkMeets(code: Bytes, from: nat, p: nat)
    requires Walk(code, from, p) && Jumps(At(code, p))
    ensures MeetsJump(code, from)
    decreases p - from
  {
    if from < p {
      WalkMeets(code, NextPc(code, from), p);
      assert from < |code|;
    }
  }

  lemma {:induction false} MetJump(code: Bytes, from: nat) returns (p: nat)
    requires MeetsJump(code, from)
    ensures Walk(code, from, p) && Jumps(At(code, p))
    decreases |code| - from
  {
    if Jumps(code[from]) {
      p := from;
    } else {
      p := MetJump(code, NextPc(code, from));
    }
  }

  lemma ReachedJump(code: Bytes, p: nat)
    requires Reached(code, p) && Jumps(At(code, p))
    ensures MeetsJump(code, 0)
  {
    if Walk(code, 0, p) {
      WalkMeets(code, 0, p);
    }
  }

  /** Codes that are alike run in lockstep, on every machine and from every place a run can come to. */
  lemma {:induction false} AlikeRun<S(!new), R>(m: Machine<S, R>, c: Bytes, d: Bytes, pc: nat, state: S, steps: nat)
    requires LegacyMachine(m) && Alike(c, d) && Reached(c, pc)
    ensures Run(m, c, pc, state, steps) == Run(m, d, pc, state, steps)
    decreases steps
  {
    if steps > 0 {
      match m.step(At(c, pc), Data(c, pc), pc, state)
      case Continue(next) =>
        ReachedOn(c, pc);
        AlikeRun(m, c, d, NextPc(c, pc), next, steps - 1);
      case Jump(target, next) =>
        ReachedJump(c, pc);
        if target in JumpDests(c, 0) {
          assert Walk(c, target, target);
          AlikeRun(m, c, d, target, next, steps - 1);
        }
      case Halt(_) =>
    }
  }

  // ---- A machine that tells codes apart ----

  datatype Command = Go | JumpTo(target: int)

  type Script = seq<Command>

  datatype Seen = Seen(op: Byte, data: Bytes) | NoDestination

  /** It goes where its script says as far as an EVM could, and then halts with what it sees there. */
  function Walker(): Machine<Script, Seen> {
    Machine(
      (op: Byte, data: Bytes, pc: nat, script: Script) =>
        if script != [] && script[0].Go? && GoesOn(op) then Continue(script[1..])
        else if script != [] && script[0].JumpTo? && Jumps(op) then Jump(script[0].target, script[1..])
        else Halt(Seen(op, data)),
      (script: Script) => NoDestination)
  }

  ghost predicate WalkerAgrees(c: Bytes, d: Bytes) {
    forall script: Script, steps: nat :: Run(Walker(), c, 0, script, steps) == Run(Walker(), d, 0, script, steps)
  }

  /** A script that brings the walker from `from` to `p`, where it has `later` left to do. */
  lemma {:induction false} WalkScript(code: Bytes, from: nat, p: nat, later: Script)
    returns (script: Script, steps: nat)
    requires Walk(code, from, p)
    ensures Run(Walker(), code, from, script, steps) == Running(p, later)
    decreases p - from
  {
    if from == p {
      script, steps := later, 0;
    } else {
      var rest, n := WalkScript(code, NextPc(code, from), p, later);
      script, steps := [Go] + rest, n + 1;
      assert script[1..] == rest;
    }
  }

  lemma {:induction false} RunOn<S, R>(m: Machine<S, R>, code: Bytes, pc: nat, state: S, steps: nat,
                                       p: nat, next: S, more: nat)
    requires Run(m, code, pc, state, steps) == Running(p, next)
    ensures Run(m, code, pc, state, steps + more) == Run(m, code, p, next, more)
    decreases steps
  {
    if steps > 0 {
      match m.step(At(code, pc), Data(code, pc), pc, state)
      case Continue(s) => RunOn(m, code, NextPc(code, pc), s, steps - 1, p, next, more);
      case Jump(target, s) => RunOn(m, code, target, s, steps - 1, p, next, more);
      case Halt(_) =>
    }
  }

  lemma ReachScript(code: Bytes, p: nat) returns (script: Script, steps: nat)
    requires Reached(code, p)
    ensures Run(Walker(), code, 0, script, steps) == Running(p, [])
  {
    if Walk(code, 0, p) {
      script, steps := WalkScript(code, 0, p, []);
    } else {
      var d :| d in JumpDests(code, 0) && Walk(code, d, p);
      var rest, n := WalkScript(code, d, p, []);
      var jump := MetJump(code, 0);
      var later := [JumpTo(d)] + rest;
      script, steps := WalkScript(code, 0, jump, later);
      RunOn(Walker(), code, 0, script, steps, jump, later, n + 1);
      assert later[1..] == rest;
      steps := steps + (n + 1);
    }
  }

  lemma WalkerSees(c: Bytes, d: Bytes, p: nat)
    requires WalkerAgrees(c, d) && Reached(c, p)
    ensures At(c, p) == At(d, p) && Data(c, p) == Data(d, p)
  {
    var script, n := ReachScript(c, p);
    assert Run(Walker(), d, 0, script, n) == Running(p, []);
    RunOn(Walker(), c, 0, script, n, p, [], 1);
    RunOn(Walker(), d, 0, script, n, p, [], 1);
    assert Run(Walker(), c, 0, script, n + 1) == Run(Walker(), d, 0, script, n + 1);
    assert Run(Walker(), c, p, [], 1) == Halted(Seen(At(c, p), Data(c, p)));
    assert Run(Walker(), d, p, [], 1) == Halted(Seen(At(d, p), Data(d, p)));
  }

  lemma WalkerJumps(c: Bytes, d: Bytes, t: nat)
    requires WalkerAgrees(c, d) && MeetsJump(c, 0)
    ensures t in JumpDests(c, 0) <==> t in JumpDests(d, 0)
  {
    var p := MetJump(c, 0);
    var last := [JumpTo(t)];
    var script, n := WalkScript(c, 0, p, last);
    assert Run(Walker(), d, 0, script, n) == Running(p, last);
    RunOn(Walker(), c, 0, script, n, p, last, 1);
    RunOn(Walker(), d, 0, script, n, p, last, 1);
    assert Run(Walker(), c, 0, script, n + 1) == Run(Walker(), d, 0, script, n + 1);
    JumpShows(c, p, t);
    WalkerSees(c, d, p);
    JumpShows(d, p, t);
  }

  lemma JumpShows(code: Bytes, p: nat, t: nat)
    requires Jumps(At(code, p))
    ensures Run(Walker(), code, p, [JumpTo(t)], 1) ==
            if t in JumpDests(code, 0) then Running(t, []) else Halted(NoDestination)
  {
    assert [JumpTo(t)][1..] == [];
  }

  lemma WalkerTells(c: Bytes, d: Bytes)
    requires WalkerAgrees(c, d)
    ensures Alike(c, d)
  {
    forall p: nat | Reached(c, p) ensures At(c, p) == At(d, p) && Data(c, p) == Data(d, p) {
      WalkerSees(c, d, p);
    }
    if MeetsJump(c, 0) {
      forall t: nat ensures t in JumpDests(c, 0) <==> t in JumpDests(d, 0) {
        WalkerJumps(c, d, t);
      }
    }
  }

  lemma WalkerIsLegacy()
    ensures LegacyMachine(Walker())
  {}

  /** No machine over scripts can tell the codes apart. */
  ghost predicate SameRuns(c: Bytes, d: Bytes) {
    forall m: Machine<Script, Seen>, script: Script, steps: nat ::
      LegacyMachine(m) ==> Run(m, c, 0, script, steps) == Run(m, d, 0, script, steps)
  }

  /** No machine can tell two codes apart exactly if they are alike; the walker tells all others apart. */
  lemma AlikeIffSameRuns(c: Bytes, d: Bytes)
    ensures Alike(c, d) <==> SameRuns(c, d)
    ensures Alike(c, d) <==> WalkerAgrees(c, d)
  {
    WalkerIsLegacy();
    if Alike(c, d) {
      forall m: Machine<Script, Seen>, script: Script, steps: nat | LegacyMachine(m)
        ensures Run(m, c, 0, script, steps) == Run(m, d, 0, script, steps)
      {
        AlikeRun(m, c, d, 0, script, steps);
      }
    }
    if SameRuns(c, d) {
      forall script: Script, steps: nat
        ensures Run(Walker(), c, 0, script, steps) == Run(Walker(), d, 0, script, steps)
      {
      }
    }
    if WalkerAgrees(c, d) {
      WalkerTells(c, d);
    }
  }

  // ---- The front part of a code ----

  /** The instruction at `p` holds the byte at `k`. */
  predicate Holds(code: Bytes, p: nat, k: nat) {
    p <= k < NextPc(code, p)
  }

  /** Some run comes to an instruction with a byte other than zero at `n` or behind it. */
  predicate SeenFrom(code: Bytes, n: nat) {
    exists p: nat, k: nat ::
      p < |code| && n <= k < |code| && Holds(code, p, k) && Reached(code, p) && code[k] != 0
  }

  lemma {:induction false} DestsOfFront(code: Bytes, pc: nat, n: nat, d: nat)
    requires n <= |code|
    ensures d in JumpDests(code, pc) ==> pc <= d < |code| && code[d] == JUMPDEST
    ensures d in JumpDests(code[..n], pc) <==> d in JumpDests(code, pc) && d < n
    decreases |code| - pc
  {
    if pc < |code| {
      DestsOfFront(code, NextPc(code, pc), n, d);
    }
  }

  lemma UnseenByte(code: Bytes, n: nat, p: nat, k: nat)
    requires n <= |code| && !SeenFrom(code, n) && Reached(code, p) && Holds(code, p, k)
    ensures At(code, k) == At(code[..n], k)
  {}

  lemma UnseenInstruction(code: Bytes, n: nat, p: nat)
    requires n <= |code| && !SeenFrom(code, n) && Reached(code, p)
    ensures At(code, p) == At(code[..n], p) && Data(code, p) == Data(code[..n], p)
  {
    UnseenByte(code, n, p, p);
    forall k: nat | k < |Data(code, p)| ensures Data(code, p)[k] == Data(code[..n], p)[k] {
      UnseenByte(code, n, p, p + 1 + k);
    }
  }

  lemma UnseenIsAlike(code: Bytes, n: nat)
    requires n <= |code| && !SeenFrom(code, n)
    ensures Alike(code, code[..n])
  {
    var front := code[..n];
    forall p: nat | Reached(code, p) ensures At(code, p) == At(front, p) && Data(code, p) == Data(front, p) {
      UnseenInstruction(code, n, p);
    }
    if MeetsJump(code, 0) {
      forall d: nat ensures d in JumpDests(code, 0) <==> d in JumpDests(front, 0) {
        DestsOfFront(code, 0, n, d);
        assert d in JumpDests(code, 0) ==> Walk(code, d, d) && Reached(code, d) && Holds(code, d, d);
      }
    }
  }

  lemma DataByte(code: Bytes, p: nat, k: nat)
    requires p < k && Holds(code, p, k)
    ensures k - p - 1 < |Data(code, p)| && Data(code, p)[k - p - 1] == At(code, k)
  {}

  lemma SeenIsNotAlike(code: Bytes, n: nat, p: nat, k: nat)
    requires p < |code| && n <= k < |code| && Holds(code, p, k) && Reached(code, p) && code[k] != 0
    ensures !Alike(code, code[..n])
  {
    var front := code[..n];
    if At(code, p) == At(front, p) && p < k {
      DataByte(code, p, k);
      DataByte(front, p, k);
    }
  }

  /** A front part is alike exactly if behind it runs see only zeros. */
  lemma FrontIsAlike(code: Bytes, n: nat)
    requires n <= |code|
    ensures Alike(code, code[..n]) <==> !SeenFrom(code, n)
  {
    if SeenFrom(code, n) {
      var p: nat, k: nat :|
        p < |code| && n <= k < |code| && Holds(code, p, k) && Reached(code, p) && code[k] != 0;
      SeenIsNotAlike(code, n, p, k);
    } else {
      UnseenIsAlike(code, n);
    }
  }

  /** A STOP at the end changes nothing. */
  lemma StopIsAlike(code: Bytes)
    ensures SameRuns(code, code + [0])
  {
    var stopped := code + [0];
    assert !SeenFrom(stopped, |code|);
    FrontIsAlike(stopped, |code|);
    assert stopped[..|code|] == code;
    AlikeIffSameRuns(stopped, code);
    forall m: Machine<Script, Seen>, script: Script, steps: nat | LegacyMachine(m)
      ensures Run(m, code, 0, script, steps) == Run(m, stopped, 0, script, steps)
    {
    }
  }
}
