/**
 The algebra of `Bytecode`: concatenation composes four stack figures by cases. The figures are a
 monoid under `+`, repetition has closed forms, and for a list of opcodes they say exactly what
 straight-line execution does to the height of the stack.
 */
module Bytecodes {
  import opened ByteStrings
  import opened Options

  datatype Bytecode = Bytecode(
    bytes: Bytes,
    popped: int,
    pushed: int,
    minHeight: int,
    maxHeight: int,
    terminating: bool
  )

  /** `Bytecode()`. */
  const EMPTY := Bytecode([], 0, 0, 0, 0, false)

  function Min(a: int, b: int): int {
    if a <= b then a else b
  }

  function Max(a: int, b: int): int {
    if a >= b then a else b
  }

  /** The default figures of the `Opcode` constructor. */
  function Opcode(bytes: Bytes, popped: int, pushed: int, minHeight: Option<int>, terminating: bool): Bytecode {
    var min := if minHeight.None? then popped else minHeight.value;
    Bytecode(bytes, popped, pushed, min, Max(min - popped + pushed, min), terminating)
  }

  /** `__eq__` between bytecodes: the terminating flag is not compared. */
  predicate Same(a: Bytecode, b: Bytecode) {
    && a.bytes == b.bytes
    && a.popped == b.popped && a.pushed == b.pushed
    && a.maxHeight == b.maxHeight && a.minHeight == b.minHeight
  }

  /** `__add__` between bytecodes. */
  function Add(a: Bytecode, b: Bytecode): Bytecode {
    var aBottom := 0 - a.popped;
    var bBottom := aBottom + a.pushed - b.popped;
    var cBottom := Min(aBottom, bBottom);
    var popped := if cBottom == aBottom then a.popped else a.popped - a.pushed + b.popped;
    var pushed := if cBottom == aBottom then a.pushed - b.popped + b.pushed else b.pushed;
    var minHeight := Max(a.minHeight, b.minHeight + a.popped - a.pushed);
    var maxHeight := Max(minHeight + a.maxHeight - a.minHeight,
                         minHeight - a.popped + a.pushed + b.maxHeight - b.minHeight);
    Bytecode(a.bytes + b.bytes, popped, pushed, minHeight, maxHeight, b.terminating)
  }

  /** What the figures of any real code satisfy. */
  predicate WellFormed(a: Bytecode) {
    && 0 <= a.popped <= a.minHeight <= a.maxHeight
    && 0 <= a.pushed
    && a.minHeight - a.popped + a.pushed <= a.maxHeight
  }

  function Net(a: Bytecode): int {
    a.pushed - a.popped
  }

  // ---- Laws of concatenation ----

  lemma AddWellFormed(a: Bytecode, b: Bytecode)
    requires WellFormed(a) && WellFormed(b)
    ensures WellFormed(Add(a, b)) && Net(Add(a, b)) == Net(a) + Net(b)
  {}

  /** Grouping does not matter, whatever the figures are. */
  lemma AddAssociative(a: Bytecode, b: Bytecode, c: Bytecode)
    ensures Add(Add(a, b), c) == Add(a, Add(b, c))
  {
    assert (a.bytes + b.bytes) + c.bytes == a.bytes + (b.bytes + c.bytes);
  }

  /** The empty bytecode is a unit exactly for figures that are in order on that side. */
  lemma AddUnit(a: Bytecode)
    ensures Add(EMPTY, a) == a <==> 0 <= a.popped && 0 <= a.minHeight <= a.maxHeight
    ensures Same(Add(a, EMPTY), a) <==>
            0 <= a.pushed && a.popped - a.pushed <= a.minHeight && a.minHeight + Net(a) <= a.maxHeight
    ensures WellFormed(a) ==> Add(EMPTY, a) == a && Same(Add(a, EMPTY), a)
  {
    assert [] + a.bytes == a.bytes && a.bytes + [] == a.bytes;
  }

  /** The case analysis of `__add__` is a composition of maxima. */
  lemma AddIsMaxPlus(a: Bytecode, b: Bytecode)
    ensures var c := Add(a, b);
            && c.popped == Max(a.popped, b.popped - Net(a))
            && c.minHeight == Max(a.minHeight, b.minHeight - Net(a))
            && c.maxHeight - c.minHeight == Max(a.maxHeight - a.minHeight, Net(a) + b.maxHeight - b.minHeight)
            && Net(c) == Net(a) + Net(b)
  {}

  /** Equality overlooks the terminating flag and nothing else. */
  lemma SameIsAllButTerminating(a: Bytecode, b: Bytecode)
    ensures Same(a, b) <==> a == b.(terminating := a.terminating)
  {}

  lemma AddSame(a: Bytecode, a': Bytecode, b: Bytecode, b': Bytecode)
    requires Same(a, a') && Same(b, b')
    ensures Same(Add(a, b), Add(a', b'))
  {}

  // ---- Repetition ----

  /** The result of `__mul__` for a count that is not negative. */
  function Repeat(a: Bytecode, n: nat): Bytecode {
    if n == 0 then EMPTY else if n == 1 then a else Add(Repeat(a, n - 1), a)
  }

  /** `__mul__`; `None` where it raises ValueError. */
  method Multiply(a: Bytecode, n: int) returns (r: Option<Bytecode>)
    ensures r == if n < 0 then None else Some(Repeat(a, n))
  {
    if n < 0 {
      return None;
    }
    if n == 0 {
      return Some(EMPTY);
    }
    var output := a;
    for i := 0 to n - 1
      invariant output == Repeat(a, i + 1)
    {
      output := Add(output, a);
    }
    return Some(output);
  }

  lemma {:induction false} RepeatWellFormed(a: Bytecode, n: nat)
    requires WellFormed(a)
    ensures WellFormed(Repeat(a, n))
  {
    if n > 1 {
      RepeatWellFormed(a, n - 1);
      AddWellFormed(Repeat(a, n - 1), a);
    }
  }

  lemma Regroup(x: Bytecode, y: Bytecode, z: Bytecode, xy: Bytecode, yz: Bytecode, xyz: Bytecode)
    requires xy == Add(x, y) && yz == Add(y, z) && xyz == Add(xy, z)
    ensures xyz == Add(x, yz)
  {
    AddAssociative(x, y, z);
  }

  /** The repetitions up to some count, in a list. */
  ghost predicate Powers(a: Bytecode, powers: seq<Bytecode>) {
    |powers| > 1 && powers[1] == a && forall k :: 1 < k < |powers| ==> powers[k] == Add(powers[k - 1], a)
  }

  lemma {:induction false} PowersAdd(a: Bytecode, powers: seq<Bytecode>, m: nat, n: nat)
    requires Powers(a, powers) && m >= 1 && n >= 1 && m + n < |powers|
    ensures powers[m + n] == Add(powers[m], powers[n])
    decreases n
  {
    if n > 1 {
      PowersAdd(a, powers, m, n - 1);
      Regroup(powers[m], powers[n - 1], a, powers[m + n - 1], powers[n], powers[m + n]);
    }
  }

  lemma {:induction false} PowersOf(a: Bytecode, n: nat) returns (powers: seq<Bytecode>)
    requires n >= 1
    ensures Powers(a, powers) && |powers| == n + 1
    ensures forall k :: 0 <= k <= n ==> powers[k] == Repeat(a, k)
  {
    if n == 1 {
      powers := [EMPTY, a];
    } else {
      powers := PowersOf(a, n - 1);
      powers := powers + [Repeat(a, n)];
    }
  }

  lemma RepeatAddSome(a: Bytecode, m: nat, n: nat)
    requires m >= 1 && n >= 1
    ensures Repeat(a, m + n) == Add(Repeat(a, m), Repeat(a, n))
  {
    var powers := PowersOf(a, m + n);
    PowersAdd(a, powers, m, n);
  }

  lemma RepeatAddNothing(a: Bytecode, n: nat, some: Bytecode)
    requires WellFormed(a) && some == Repeat(a, n)
    ensures Same(some, Add(some, EMPTY)) && Same(some, Add(EMPTY, some))
  {
    RepeatWellFormed(a, n);
    AddUnit(some);
  }

  /** Repeating m and then n times is repeating m + n times. */
  lemma RepeatAdd(a: Bytecode, m: nat, n: nat)
    requires WellFormed(a)
    ensures Same(Repeat(a, m + n), Add(Repeat(a, m), Repeat(a, n)))
  {
    if m == 0 || n == 0 {
      RepeatAddNothing(a, m + n, Repeat(a, m + n));
    } else {
      RepeatAddSome(a, m, n);
    }
  }

  /** The figures of repetitions whose first ones change the height by `gain` in all. */
  ghost predicate Figures(a: Bytecode, r: Bytecode, gain: int) {
    && r.popped == a.popped + Max(0, -gain)
    && r.pushed == a.pushed + Max(0, gain)
    && r.minHeight == a.minHeight + Max(0, -gain)
    && r.maxHeight == a.maxHeight + Max(-gain, gain)
  }

  lemma FiguresStep(a: Bytecode, r: Bytecode, gain: int)
    requires WellFormed(a) && Figures(a, r, gain)
    requires if Net(a) >= 0 then gain >= 0 else gain <= 0
    ensures Figures(a, Add(r, a), gain + Net(a))
  {}

  /** Closed forms for n repetitions: growth and peak are linear in n. */
  lemma {:induction false} RepeatFigures(a: Bytecode, n: nat)
    requires WellFormed(a) && n >= 1
    ensures Figures(a, Repeat(a, n), (n - 1) * Net(a))
  {
    if n > 1 {
      RepeatFigures(a, n - 1);
      SameSign(n - 2, Net(a));
      FiguresStep(a, Repeat(a, n - 1), (n - 2) * Net(a));
    }
  }

  lemma SameSign(k: nat, d: int)
    ensures if d >= 0 then k * d >= 0 else k * d <= 0
    ensures k * d + d == (k + 1) * d
  {}

  /** The bytes over and over, and the flag of the last repetition. */
  lemma {:induction false} RepeatBytes(a: Bytecode, n: nat, k: nat, i: nat)
    requires k < n && i < |a.bytes|
    ensures k * |a.bytes| + i < |Repeat(a, n).bytes| && Repeat(a, n).bytes[k * |a.bytes| + i] == a.bytes[i]
    ensures Repeat(a, n).terminating == a.terminating
  {
    RepeatLength(a, n);
    RepeatLength(a, n - 1);
    PlaceWithin(k, n, |a.bytes|, i);
    if n > 1 {
      if k < n - 1 {
        RepeatBytes(a, n - 1, k, i);
      }
      assert Repeat(a, n).bytes == Repeat(a, n - 1).bytes + a.bytes;
    }
  }

  lemma PlaceWithin(k: nat, n: nat, size: nat, i: nat)
    requires k < n && i < size
    ensures k * size + i < n * size && (k < n - 1 ==> k * size + i < (n - 1) * size)
  {
    var d: nat := n - 1 - k;
    assert n * size == k * size + d * size + size && d * size >= 0;
    assert (n - 1) * size == k * size + d * size;
    if d >= 1 {
      assert d * size == (d - 1) * size + size && (d - 1) * size >= 0;
    }
  }

  lemma {:induction false} RepeatLength(a: Bytecode, n: nat)
    ensures |Repeat(a, n).bytes| == n * |a.bytes|
  {
    if n > 1 {
      RepeatLength(a, n - 1);
      assert n * |a.bytes| == (n - 1) * |a.bytes| + |a.bytes|;
    }
  }

  // ---- What the figures mean ----

  /** The height after running a list of opcodes straight through from height `h`. */
  function HeightAfter(ops: seq<Bytecode>, h: int): int {
    if ops == [] then h else HeightAfter(ops[1..], h + Net(ops[0]))
  }

  /** No opcode finds fewer items than it needs. */
  ghost predicate NeverUnderflows(ops: seq<Bytecode>, h: int) {
    if ops == [] then h >= 0 else h >= ops[0].minHeight && NeverUnderflows(ops[1..], h + Net(ops[0]))
  }

  /** The greatest height seen before, between and after the opcodes. */
  function Peak(ops: seq<Bytecode>, h: int): int {
    if ops == [] then h else Max(h, Peak(ops[1..], h + Net(ops[0])))
  }

  /** The least height reached, within opcodes too: each pops before it pushes. */
  function Bottom(ops: seq<Bytecode>, h: int): int {
    if ops == [] then h else Min(h - ops[0].popped, Bottom(ops[1..], h + Net(ops[0])))
  }

  /** `sum(ops)`, or `+=` from the empty bytecode. */
  function Concat(ops: seq<Bytecode>): Bytecode {
    if ops == [] then EMPTY else Add(Concat(ops[..|ops| - 1]), ops[|ops| - 1])
  }

  /** The bytes of the opcodes one after another. */
  function AllBytes(ops: seq<Bytecode>): Bytes {
    if ops == [] then [] else ops[0].bytes + AllBytes(ops[1..])
  }

  lemma {:induction false} AllBytesAppend(ops: seq<Bytecode>, last: Bytecode)
    ensures AllBytes(ops + [last]) == AllBytes(ops) + last.bytes
  {
    if ops == [] {
      assert [last][1..] == [] && [] + last.bytes == last.bytes == last.bytes + [];
    } else {
      assert (ops + [last])[1..] == ops[1..] + [last];
      AllBytesAppend(ops[1..], last);
      assert ops[0].bytes + (AllBytes(ops[1..]) + last.bytes) == ops[0].bytes + AllBytes(ops[1..]) + last.bytes;
    }
  }

  /** The sum has the bytes of the opcodes in their order, and terminates if the last one does. */
  lemma {:induction false} ConcatBytes(ops: seq<Bytecode>)
    ensures Concat(ops).bytes == AllBytes(ops)
    ensures Concat(ops).terminating <==> ops != [] && ops[|ops| - 1].terminating
  {
    if ops != [] {
      var front, last := ops[..|ops| - 1], ops[|ops| - 1];
      ConcatBytes(front);
      AllBytesAppend(front, last);
      assert ops == front + [last];
    }
  }

  /** A single opcode as its constructor makes it by default. */
  predicate IsOpcode(op: Bytecode) {
    && 0 <= op.popped <= op.minHeight && 0 <= op.pushed
    && op.maxHeight == Max(op.minHeight - op.popped + op.pushed, op.minHeight)
  }

  /** The constructor makes such opcodes, with the figures it is given: at least what it pops must be there. */
  lemma OpcodeIsOpcode(bytes: Bytes, popped: nat, pushed: nat, minHeight: Option<int>, terminating: bool)
    requires minHeight.Some? ==> minHeight.value >= popped
    ensures var op := Opcode(bytes, popped, pushed, minHeight, terminating);
            && IsOpcode(op) && op.bytes == bytes && op.popped == popped && op.pushed == pushed
            && op.terminating == terminating
            && (minHeight.Some? ==> op.minHeight == minHeight.value) && (minHeight.None? ==> op.minHeight == popped)
  {}

  ghost predicate AllOpcodes(ops: seq<Bytecode>) {
    forall i :: 0 <= i < |ops| ==> IsOpcode(ops[i])
  }

  lemma {:induction false} ConcatWellFormed(ops: seq<Bytecode>)
    requires AllOpcodes(ops)
    ensures WellFormed(Concat(ops))
  {
    if ops != [] {
      ConcatWellFormed(ops[..|ops| - 1]);
      AddWellFormed(Concat(ops[..|ops| - 1]), ops[|ops| - 1]);
    }
  }

  /** Folding from the left is also folding from the right. */
  lemma {:induction false} ConcatFromFront(ops: seq<Bytecode>)
    requires AllOpcodes(ops) && ops != []
    ensures Same(Concat(ops), Add(ops[0], Concat(ops[1..])))
  {
    var n := |ops| - 1;
    if n == 0 {
      assert ops[..0] == [] && ops[1..] == [];
      AddUnit(ops[0]);
    } else {
      ConcatFromFront(ops[..n]);
      assert ops[..n][1..] == ops[1..][..n - 1];
      AddAssociative(ops[0], Concat(ops[1..n]), ops[n]);
      AddSame(Concat(ops[..n]), Add(ops[0], Concat(ops[1..n])), ops[n], ops[n]);
    }
  }

  /** What an opcode does to the height and what the rest does from there, in the figures of both together. */
  lemma FiguresOfBoth(a: Bytecode, rest: Bytecode, both: Bytecode, h: int)
    requires IsOpcode(a) && WellFormed(rest) && Same(both, Add(a, rest))
    ensures h >= both.minHeight <==> h >= a.minHeight && h + Net(a) >= rest.minHeight
    ensures h + both.maxHeight - both.minHeight == Max(h, h + Net(a) + rest.maxHeight - rest.minHeight)
    ensures h - both.popped == Min(h - a.popped, h + Net(a) - rest.popped)
    ensures Net(both) == Net(a) + Net(rest)
  {
    AddIsMaxPlus(a, rest);
  }

  /** The figures `c` are exact for running these opcodes from height `h`. */
  ghost predicate Exact(ops: seq<Bytecode>, h: int, c: Bytecode) {
    && (NeverUnderflows(ops, h) <==> h >= c.minHeight)
    && Peak(ops, h) == h + c.maxHeight - c.minHeight
    && Bottom(ops, h) == h - c.popped
    && HeightAfter(ops, h) == h + Net(c)
  }

  lemma ExactStep(ops: seq<Bytecode>, h: int, rest: Bytecode, both: Bytecode)
    requires ops != [] && IsOpcode(ops[0]) && WellFormed(rest) && Same(both, Add(ops[0], rest))
    requires Exact(ops[1..], h + Net(ops[0]), rest)
    ensures Exact(ops, h, both)
  {
    FiguresOfBoth(ops[0], rest, both, h);
  }

  ghost predicate AlwaysExact(ops: seq<Bytecode>, c: Bytecode) {
    forall h :: Exact(ops, h, c)
  }

  lemma AlwaysExactStep(ops: seq<Bytecode>, rest: Bytecode, both: Bytecode)
    requires ops != [] && IsOpcode(ops[0]) && WellFormed(rest) && Same(both, Add(ops[0], rest))
    requires AlwaysExact(ops[1..], rest)
    ensures AlwaysExact(ops, both)
  {
    forall h ensures Exact(ops, h, both) {
      var h' := h + Net(ops[0]);
      assert Exact(ops[1..], h', rest);
      ExactStep(ops, h, rest, both);
    }
  }

  lemma AlwaysExactFromRest(ops: seq<Bytecode>, rest: Bytecode, both: Bytecode)
    requires ops != [] && AllOpcodes(ops) && rest == Concat(ops[1..]) && both == Concat(ops)
    requires AlwaysExact(ops[1..], rest)
    ensures AlwaysExact(ops, both)
  {
    FirstAndRest(ops);
    AlwaysExactStep(ops, rest, both);
  }

  lemma NothingIsExact()
    ensures AlwaysExact([], EMPTY)
  {}

  lemma {:induction false} ConcatIsExact(ops: seq<Bytecode>)
    requires AllOpcodes(ops)
    ensures AlwaysExact(ops, Concat(ops))
  {
    if ops == [] {
      NothingIsExact();
    } else {
      ConcatIsExact(ops[1..]);
      AlwaysExactFromRest(ops, Concat(ops[1..]), Concat(ops));
    }
  }

  /**
   The figures of a list of opcodes are exact: `minHeight` is the least height from which it never
   underflows, `maxHeight` the peak reached from there, `popped` the depth it digs to, and
   pushed minus popped the change of height.
   */
  lemma FiguresAreExact(ops: seq<Bytecode>, h: int)
    requires AllOpcodes(ops)
    ensures Exact(ops, h, Concat(ops))
  {
    ConcatIsExact(ops);
  }

  lemma FirstAndRest(ops: seq<Bytecode>)
    requires AllOpcodes(ops) && ops != []
    ensures IsOpcode(ops[0]) && AllOpcodes(ops[1..])
    ensures WellFormed(Concat(ops[1..])) && Same(Concat(ops), Add(ops[0], Concat(ops[1..])))
  {
    ConcatFromFront(ops);
    ConcatWellFormed(ops[1..]);
  }
}
