/**
 The benchmark code generators: `generate_repeated_code` fills a contract with a loop, and
 `ExtCallGenerator.deploy_contracts` bounds how often a block is repeated.
 */
module LoopGenerators {
  import opened ByteStrings
  import opened Options
  import opened Bytecodes
  import LegacyRuns

  const JUMPDEST := Opcode([0x5B], 0, 0, None, false)
  const JUMP := Opcode([0x56], 1, 0, None, false)
  const PUSH0 := Opcode([0x5F], 0, 1, None, false)

  /** `_stack_argument_to_bytecode` for a number that is not negative: the shortest PUSH but PUSH1 for zero. */
  function Push(n: U256): (code: Bytecode)
    ensures WellFormed(code) && 2 <= |code.bytes| <= 33
    ensures code.bytes[0] == 0x5F + |code.bytes| - 1 && FromBE(code.bytes[1..]) == n
    ensures code.popped == code.minHeight == 0 && code.pushed == code.maxHeight == 1 && !code.terminating
  {
    var data := if n == 0 then [0] else ToBE(n);
    Pow256Of32();
    ToBELength(n, 32);
    FromToBE(n);
    assert FromBE([0]) == 0 by { FromBESnoc([], 0); assert [] + [0] == [0]; }
    var bytes: Bytes := [0x5F + |data|] + data;
    assert bytes[1..] == data;
    Opcode(bytes, 0, 1, None, false)
  }

  /** `Op.JUMP(n)`. */
  function JumpTo(n: U256): Bytecode {
    Add(Push(n), JUMP)
  }

  datatype GeneratorError = AssertionError | ValueError

  datatype Generated = Code(code: Bytecode) | Error(error: GeneratorError)

  function OrEmpty(code: Option<Bytecode>): Bytecode {
    if code.None? then EMPTY else code.value
  }

  /** The space the code around the repetitions is given. */
  function Overhead(setup: Bytecode, cleanup: Bytecode): int
    requires |setup.bytes| < TWO_TO_THE_256
  {
    |setup.bytes| + 1 + |cleanup.bytes| + |JumpTo(|setup.bytes|).bytes|
  }

  /** The jump back: `PUSH0` is used where the target is zero. */
  function JumpBack(target: U256): Bytecode {
    if target > 0 then JumpTo(target) else Add(PUSH0, JUMP)
  }

  /** The setup, the repetitions behind a JUMPDEST, the cleanup and the jump back. */
  function LoopAround(setup: Bytecode, repeats: Bytecode, cleanup: Bytecode): Bytecode
    requires |setup.bytes| < TWO_TO_THE_256
  {
    Add(Add(Add(Add(setup, JUMPDEST), repeats), cleanup), JumpBack(|setup.bytes|))
  }

  function Loop(setup: Bytecode, repeated: Bytecode, n: nat, cleanup: Bytecode): Bytecode
    requires |setup.bytes| < TWO_TO_THE_256
  {
    LoopAround(setup, Repeat(repeated, n), cleanup)
  }

  /** `generate_repeated_code`, with the final `_validate_code_size`. */
  method GenerateRepeatedCode(repeated: Bytecode, setupArg: Option<Bytecode>, cleanupArg: Option<Bytecode>,
                              maxCodeSize: nat)
    returns (r: Generated)
    ensures repeated.bytes == [] <==> r == Error(AssertionError)
    ensures repeated.bytes != [] ==>
              var setup, cleanup := OrEmpty(setupArg), OrEmpty(cleanupArg);
              (r == Error(ValueError) <==>
               |setup.bytes| >= TWO_TO_THE_256 || Overhead(setup, cleanup) > maxCodeSize)
    ensures r.Code? ==>
              var setup, cleanup := OrEmpty(setupArg), OrEmpty(cleanupArg);
              && r.code == Loop(setup, repeated, (maxCodeSize - Overhead(setup, cleanup)) / |repeated.bytes|, cleanup)
              && |r.code.bytes| <= maxCodeSize
  {
    if |repeated.bytes| == 0 {
      return Error(AssertionError);
    }
    var setup, cleanup := OrEmpty(setupArg), OrEmpty(cleanupArg);
    if |setup.bytes| >= TWO_TO_THE_256 {
      return Error(ValueError);
    }
    var overhead := Overhead(setup, cleanup);
    var availableSpace := maxCodeSize - overhead;
    var maxIterations := availableSpace / |repeated.bytes|;
    QuotientFits(availableSpace, |repeated.bytes|, maxIterations);
    var repeats := Multiply(repeated, maxIterations);
    if repeats.None? {
      return Error(ValueError);
    }
    LoopFits(setup, repeated, maxIterations, cleanup, maxCodeSize);
    var code := LoopAround(setup, repeats.value, cleanup);
    assert |code.bytes| <= maxCodeSize;  // so `_validate_code_size` never raises
    return Code(code);
  }

  lemma LoopFits(setup: Bytecode, repeated: Bytecode, n: nat, cleanup: Bytecode, maxCodeSize: nat)
    requires |setup.bytes| < TWO_TO_THE_256
    requires n * |repeated.bytes| <= maxCodeSize - Overhead(setup, cleanup)
    ensures |Loop(setup, repeated, n, cleanup).bytes| <= maxCodeSize
  {
    LoopLength(setup, repeated, n, cleanup);
  }

  lemma QuotientFits(space: int, size: nat, q: int)
    requires size > 0 && q == space / size
    ensures q >= 0 <==> space >= 0
    ensures q * size <= space < (q + 1) * size
  {
    var r := space % size;
    assert space == q * size + r && 0 <= r < size;
    if q < 0 {
      assert q * size <= -1 * size;
    } else {
      assert q * size >= 0;
    }
  }

  /** The space the whole code takes; the target zero saves one byte. */
  lemma LoopLength(setup: Bytecode, repeated: Bytecode, n: nat, cleanup: Bytecode)
    requires |setup.bytes| < TWO_TO_THE_256
    ensures |Loop(setup, repeated, n, cleanup).bytes| ==
            Overhead(setup, cleanup) + n * |repeated.bytes| - if setup.bytes == [] then 1 else 0
  {
    RepeatLength(repeated, n);
    if setup.bytes == [] {
      assert |JumpTo(0).bytes| == 3;
    }
  }

  /** The iterations the generator chooses. */
  function Iterations(setup: Bytecode, repeated: Bytecode, cleanup: Bytecode, maxCodeSize: nat): int
    requires |setup.bytes| < TWO_TO_THE_256 && repeated.bytes != []
  {
    (maxCodeSize - Overhead(setup, cleanup)) / |repeated.bytes|
  }

  /**
   One more repetition would be too long, with one exception: without a setup the jump back is a byte
   shorter than the space kept for it, and one more repetition fits when just that byte was missing.
   */
  lemma OneMoreFits(setup: Bytecode, repeated: Bytecode, cleanup: Bytecode, maxCodeSize: nat)
    requires |setup.bytes| < TWO_TO_THE_256 && repeated.bytes != [] && Overhead(setup, cleanup) <= maxCodeSize
    ensures Iterations(setup, repeated, cleanup, maxCodeSize) >= 0
    ensures var n := Iterations(setup, repeated, cleanup, maxCodeSize);
            |Loop(setup, repeated, n + 1, cleanup).bytes| <= maxCodeSize <==>
            setup.bytes == [] && (maxCodeSize - Overhead(setup, cleanup) + 1) % |repeated.bytes| == 0
  {
    var space, size := maxCodeSize - Overhead(setup, cleanup), |repeated.bytes|;
    var n := space / size;
    QuotientFits(space, size, n);
    LoopLength(setup, repeated, n + 1, cleanup);
    RemainderZero(space, size, n);
  }

  lemma RemainderZero(space: int, size: nat, q: int)
    requires size > 0 && q * size <= space < (q + 1) * size
    ensures (space + 1) % size == 0 <==> space + 1 == (q + 1) * size
  {
    var p := (space + 1) / size;
    Apart(p - (q + 1), size);
    Apart(p - q, size);
  }

  lemma Apart(k: int, size: nat)
    ensures k >= 1 ==> k * size >= size
    ensures k <= -1 ==> k * size + size <= 0
  {
    SameSign(if k >= 1 then k - 1 else if k <= -1 then -k - 1 else 0, size);
  }

  /** The jump back is a PUSH of the target, the shortest one, and a JUMP. */
  lemma JumpBackBytes(target: U256)
    ensures EndsWithJump(JumpBack(target).bytes, target)
  {
    var back := JumpBack(target).bytes;
    if target > 0 {
      var push := Push(target).bytes;
      assert back == push + [0x56];
      assert back[1..|back| - 1] == push[1..];
    } else {
      assert back == [0x5F, 0x56];
    }
  }

  lemma LoopBytes(setup: Bytecode, repeated: Bytecode, n: nat, cleanup: Bytecode)
    requires |setup.bytes| < TWO_TO_THE_256
    ensures Loop(setup, repeated, n, cleanup).bytes ==
            setup.bytes + [0x5B] + Repeat(repeated, n).bytes + cleanup.bytes + JumpBack(|setup.bytes|).bytes
  {}

  /**
   The loop closes: the byte at offset `len(setup)` is a JUMPDEST, and the code ends with a PUSH of
   exactly that offset and a JUMP.
   */
  lemma LoopJumpsToItsStart(setup: Bytecode, repeated: Bytecode, n: nat, cleanup: Bytecode)
    requires |setup.bytes| < TWO_TO_THE_256
    ensures var code := Loop(setup, repeated, n, cleanup).bytes;
            && |setup.bytes| < |code| && code[|setup.bytes|] == 0x5B
            && exists size :: JumpsBack(code, size, |setup.bytes|)
  {
    LoopBytes(setup, repeated, n, cleanup);
    var code, back := Loop(setup, repeated, n, cleanup).bytes, JumpBack(|setup.bytes|).bytes;
    JumpBackBytes(|setup.bytes|);
    Suffix(setup.bytes + [0x5B] + Repeat(repeated, n).bytes + cleanup.bytes, back);
    Middle(setup.bytes, 0x5B, Repeat(repeated, n).bytes, cleanup.bytes, back);
    assert JumpsBack(code, |back|, |setup.bytes|);
  }

  /** The last `size` bytes are the jump back to the target. */
  ghost predicate JumpsBack(code: Bytes, size: nat, target: nat) {
    size <= |code| && EndsWithJump(code[|code| - size..], target)
  }

  /** A PUSH of the target, with an immediate of the length its opcode says, and a JUMP. */
  predicate EndsWithJump(back: Bytes, target: nat) {
    && 2 <= |back| && back[|back| - 1] == 0x56
    && back[0] == 0x5F + |back| - 2
    && FromBE(back[1..|back| - 1]) == target
  }

  lemma Suffix(a: Bytes, b: Bytes)
    ensures (a + b)[|a + b| - |b|..] == b
  {}

  lemma Middle(a: Bytes, x: Byte, b: Bytes, c: Bytes, d: Bytes)
    ensures var s := a + [x] + b + c + d; |a| < |s| && s[|a|] == x
  {}

  // ---- The target is a valid jump destination ----

  lemma {:induction false} DestIffBoundary(code: Bytes, pc: nat, k: nat)
    requires pc <= k < |code| && code[k] == 0x5B
    ensures k in LegacyRuns.JumpDests(code, pc) <==> LegacyRuns.Boundary(code, pc, k)
    decreases k - pc
  {
    var next := LegacyRuns.NextPc(code, pc);
    if next <= k {
      DestIffBoundary(code, next, k);
    } else {
      DestsFrom(code, next);
    }
  }

  lemma {:induction false} DestsFrom(code: Bytes, pc: nat)
    ensures forall d :: d in LegacyRuns.JumpDests(code, pc) ==> d >= pc
    decreases |code| - pc
  {
    if pc < |code| {
      DestsFrom(code, LegacyRuns.NextPc(code, pc));
    }
  }

  lemma {:induction false} BoundaryOfPrefix(front: Bytes, code: Bytes, pc: nat)
    requires front <= code
    ensures LegacyRuns.Boundary(front, pc, |front|) <==> LegacyRuns.Boundary(code, pc, |front|)
    decreases |front| - pc
  {
    if pc < |front| {
      assert code[pc] == front[pc];
      BoundaryOfPrefix(front, code, LegacyRuns.NextPc(front, pc));
    }
  }

  /** The jump back is valid exactly if the setup does not end within the immediate of a PUSH. */
  lemma LoopTargetIsValid(setup: Bytecode, repeated: Bytecode, n: nat, cleanup: Bytecode)
    requires |setup.bytes| < TWO_TO_THE_256
    ensures |setup.bytes| in LegacyRuns.JumpDests(Loop(setup, repeated, n, cleanup).bytes, 0) <==>
            LegacyRuns.Boundary(setup.bytes, 0, |setup.bytes|)
  {
    var code := Loop(setup, repeated, n, cleanup).bytes;
    LoopJumpsToItsStart(setup, repeated, n, cleanup);
    LoopStartsWithSetup(setup, repeated, n, cleanup);
    DestIffBoundary(code, 0, |setup.bytes|);
    BoundaryOfPrefix(setup.bytes, code, 0);
  }

  lemma LoopStartsWithSetup(setup: Bytecode, repeated: Bytecode, n: nat, cleanup: Bytecode)
    requires |setup.bytes| < TWO_TO_THE_256
    ensures setup.bytes <= Loop(setup, repeated, n, cleanup).bytes
  {
    LoopBytes(setup, repeated, n, cleanup);
  }

  // ---- ExtCallGenerator ----

  /** The bound of `deploy_contracts`; `None` where it divides by zero. */
  method DeployIterations(attack: Bytecode, maxCodeSize: nat, maxStackHeight: nat) returns (n: Option<nat>)
    ensures n.None? <==> attack.bytes == []
    ensures n.Some? ==> n.value == ExtCallIterations(attack, maxCodeSize, maxStackHeight)
  {
    if |attack.bytes| == 0 {
      return None;
    }
    var stackDelta := attack.pushed - attack.popped;
    var maxIterations := maxCodeSize / |attack.bytes|;
    if stackDelta > 0 {
      maxIterations := Min(maxStackHeight / stackDelta, maxIterations);
    }
    return Some(maxIterations);
  }

  function ExtCallIterations(attack: Bytecode, maxCodeSize: nat, maxStackHeight: nat): nat
    requires attack.bytes != []
  {
    var bySize := maxCodeSize / |attack.bytes|;
    if Net(attack) > 0 then Min(maxStackHeight / Net(attack), bySize) else bySize
  }

  /** The bounds are what the two divisions promise. */
  lemma ExtCallIterationsFit(attack: Bytecode, maxCodeSize: nat, maxStackHeight: nat)
    requires attack.bytes != []
    ensures var n := ExtCallIterations(attack, maxCodeSize, maxStackHeight);
            n * |attack.bytes| <= maxCodeSize && n * Net(attack) <= maxStackHeight
  {
    var n := ExtCallIterations(attack, maxCodeSize, maxStackHeight);
    var bySize := maxCodeSize / |attack.bytes|;
    QuotientFits(maxCodeSize, |attack.bytes|, bySize);
    Monotone(n, bySize, |attack.bytes|);
    if Net(attack) > 0 {
      var byHeight := maxStackHeight / Net(attack);
      QuotientFits(maxStackHeight, Net(attack), byHeight);
      Monotone(n, byHeight, Net(attack));
    } else {
      SameSign(n, Net(attack));
    }
  }

  /** And one more repetition would pass one of them. */
  lemma ExtCallIterationsAreMost(attack: Bytecode, maxCodeSize: nat, maxStackHeight: nat)
    requires attack.bytes != []
    ensures var n := ExtCallIterations(attack, maxCodeSize, maxStackHeight);
            (n + 1) * |attack.bytes| > maxCodeSize || (n + 1) * Net(attack) > maxStackHeight
  {
    QuotientFits(maxCodeSize, |attack.bytes|, maxCodeSize / |attack.bytes|);
    if Net(attack) > 0 {
      QuotientFits(maxStackHeight, Net(attack), maxStackHeight / Net(attack));
    }
  }

  /** The height needed by the setup, or by the block that is lowest: the first or, falling by `-gain`, the last. */
  function NeedWith(setup: Bytecode, attack: Bytecode, gain: int): int {
    Max(setup.minHeight, attack.minHeight + Max(0, -gain) - Net(setup))
  }

  /** The peak from there: of the setup, or of the block that is highest, the first or, risen by `gain`, the last. */
  function PeakWith(setup: Bytecode, attack: Bytecode, gain: int): int {
    NeedWith(setup, attack, gain) +
    Max(setup.maxHeight - setup.minHeight, Net(setup) + attack.maxHeight - attack.minHeight + Max(0, gain))
  }

  function DeployedNeed(setup: Bytecode, attack: Bytecode, n: nat): int {
    if n == 0 then setup.minHeight else NeedWith(setup, attack, (n - 1) * Net(attack))
  }

  function DeployedPeak(setup: Bytecode, attack: Bytecode, n: nat): int {
    if n == 0 then setup.maxHeight else PeakWith(setup, attack, (n - 1) * Net(attack))
  }

  /** Closed forms for the code that is deployed, the setup and then the repetitions, growing or shrinking. */
  lemma DeployedFigures(setup: Bytecode, attack: Bytecode, n: nat, repeated: Bytecode)
    requires WellFormed(setup) && WellFormed(attack) && repeated == Repeat(attack, n)
    ensures Add(setup, repeated).minHeight == DeployedNeed(setup, attack, n)
    ensures Add(setup, repeated).maxHeight == DeployedPeak(setup, attack, n)
  {
    if n == 0 {
      NothingAdded(setup, repeated);
    } else {
      var gain := (n - 1) * Net(attack);
      RepeatFigures(attack, n);
      AddedFigures(setup, attack, repeated, gain);
    }
  }

  lemma NothingAdded(setup: Bytecode, nothing: Bytecode)
    requires WellFormed(setup) && nothing == EMPTY
    ensures Same(Add(setup, nothing), setup)
  {
    AddUnit(setup);
  }

  lemma AddedFigures(setup: Bytecode, attack: Bytecode, repeated: Bytecode, gain: int)
    requires Figures(attack, repeated, gain)
    ensures Add(setup, repeated).minHeight == NeedWith(setup, attack, gain)
    ensures Add(setup, repeated).maxHeight == PeakWith(setup, attack, gain)
  {
    AddIsMaxPlus(setup, repeated);
  }

  /**
   The repeated block never nets more than the stack limit and alone fits the code size. The contract that is
   deployed fits exactly if the setup does too, and it stays within the stack limit exactly if the closed
   form of its peak does.
   */
  lemma ExtCallBounds(setup: Bytecode, attack: Bytecode, maxCodeSize: nat, maxStackHeight: nat)
    requires WellFormed(setup) && WellFormed(attack) && attack.bytes != []
    ensures var n := ExtCallIterations(attack, maxCodeSize, maxStackHeight);
            var repeated := Repeat(attack, n);
            var code := Add(setup, repeated);
            && Net(repeated) <= maxStackHeight && |repeated.bytes| <= maxCodeSize
            && ((n + 1) * |attack.bytes| > maxCodeSize || (n + 1) * Net(attack) > maxStackHeight)
            && (|code.bytes| <= maxCodeSize <==> |setup.bytes| <= maxCodeSize - n * |attack.bytes|)
            && code.minHeight == DeployedNeed(setup, attack, n)
            && (code.maxHeight <= maxStackHeight <==> DeployedPeak(setup, attack, n) <= maxStackHeight)
  {
    var n := ExtCallIterations(attack, maxCodeSize, maxStackHeight);
    ExtCallIterationsFit(attack, maxCodeSize, maxStackHeight);
    ExtCallIterationsAreMost(attack, maxCodeSize, maxStackHeight);
    RepeatLength(attack, n);
    RepeatNet(attack, n);
    DeployedFigures(setup, attack, n, Repeat(attack, n));
  }

  lemma Monotone(k: nat, l: nat, d: nat)
    requires k <= l
    ensures k * d <= l * d
  {}

  lemma RepeatNet(a: Bytecode, n: nat)
    requires WellFormed(a)
    ensures Net(Repeat(a, n)) == n * Net(a)
  {
    if n >= 1 {
      RepeatFigures(a, n);
      SameSign(n - 1, Net(a));
    }
  }

  /** A block that pushes two and pops one, repeated as often as the bound allows, passes the stack limit. */
  lemma ExtCallOverflows()
    ensures var attack := Add(Add(PUSH0, PUSH0), Opcode([0x50], 1, 0, None, false));
            && WellFormed(attack) && attack.minHeight == 0
            && ExtCallIterations(attack, 24576, 1024) == 1024
            && Repeat(attack, 1024).maxHeight == 1025
  {
    var attack := Add(Add(PUSH0, PUSH0), Opcode([0x50], 1, 0, None, false));
    RepeatFigures(attack, 1024);
  }

  predicate PushesOne(op: Bytecode) {
    op.popped == 0 && op.pushed == 1 && op.minHeight == 0 && op.maxHeight == 1
  }

  /** A block that pushes one is within the limit by itself, and passes it behind any setup that only pushes. */
  lemma ExtCallSetupOverflows(setup: Bytecode, attack: Bytecode, k: nat, maxCodeSize: nat, maxStackHeight: nat)
    requires PushesOne(attack) && |attack.bytes| == 1 && 1 <= maxStackHeight <= maxCodeSize
    requires k >= 1 && setup.popped == 0 && setup.pushed == k && setup.minHeight == 0 && setup.maxHeight == k
    ensures ExtCallIterations(attack, maxCodeSize, maxStackHeight) == maxStackHeight
    ensures Repeat(attack, maxStackHeight).maxHeight == maxStackHeight
    ensures Add(setup, Repeat(attack, maxStackHeight)).minHeight == 0
    ensures Add(setup, Repeat(attack, maxStackHeight)).maxHeight == maxStackHeight + k
  {
    RepeatFigures(attack, maxStackHeight);
    PushesBehind(setup, attack, k, maxStackHeight, Repeat(attack, maxStackHeight));
  }

  lemma PushesBehind(setup: Bytecode, attack: Bytecode, k: nat, n: nat, repeated: Bytecode)
    requires PushesOne(attack) && n >= 1 && Figures(attack, repeated, n - 1)
    requires k >= 1 && setup.popped == 0 && setup.pushed == k && setup.minHeight == 0 && setup.maxHeight == k
    ensures repeated.maxHeight == n && Add(setup, repeated).minHeight == 0 && Add(setup, repeated).maxHeight == n + k
  {
    AddedFigures(setup, attack, repeated, n - 1);
  }
}
