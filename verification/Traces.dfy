/**
 Comparison of execution traces. With post-processing, the values that GAS pushed are erased from the
 trace lines in place, so comparing changes both sides. The verdicts do not notice.
 */
module Traces {
  import opened Options

  /** The part of a trace line that never changes. */
  datatype Step = Step(
    pc: int,
    op: int,
    gas: int,
    gasCost: Option<int>,
    memSize: int,
    depth: int,
    refund: int,
    opName: string,
    error: Option<string>
  )

  datatype Line = Line(step: Step, stack: seq<Option<int>>)

  class TraceLine {
    const step: Step
    var stack: seq<Option<int>>

    constructor (step: Step, stack: seq<Option<int>>)
      ensures this.step == step && this.stack == stack
    {
      this.step := step;
      this.stack := stack;
    }

    function Value(): Line
      reads this
    {
      Line(step, stack)
    }
  }

  function Values(lines: seq<TraceLine>): (r: seq<Line>)
    reads lines
    ensures |r| == |lines| && forall i :: 0 <= i < |lines| ==> r[i] == lines[i].Value()
  {
    if lines == [] then [] else Values(lines[..|lines| - 1]) + [lines[|lines| - 1].Value()]
  }

  // ---- Normal forms ----

  /** Line `i` shows the stack right after GAS pushed its result. */
  predicate AfterGas(lines: seq<Line>, i: nat)
    requires i < |lines|
  {
    i > 0 && lines[i - 1].step.opName == "GAS" && lines[i].step.depth == lines[i - 1].step.depth
  }

  function EraseTop(line: Line): Line {
    if line.stack == [] then line else line.(stack := line.stack[..|line.stack| - 1] + [None])
  }

  function NormalLine(lines: seq<Line>, i: nat): Line
    requires i < |lines|
  {
    if AfterGas(lines, i) then EraseTop(lines[i]) else lines[i]
  }

  /** The lines with the results of GAS erased. */
  function Normal(lines: seq<Line>): (r: seq<Line>)
    ensures |r| == |lines| && forall i :: 0 <= i < |lines| ==> r[i] == NormalLine(lines, i)
  {
    seq(|lines|, i requires 0 <= i < |lines| => NormalLine(lines, i))
  }

  /** A result of GAS is to be erased from an empty stack: IndexError. */
  ghost predicate Broken(lines: seq<Line>) {
    exists i :: 0 <= i < |lines| && AfterGas(lines, i) && lines[i].stack == []
  }

  /** Some results of GAS are erased, and the others are not. */
  ghost predicate PartlyErased(lines: seq<Line>, part: seq<Line>) {
    |part| == |lines| && forall i :: 0 <= i < |lines| ==> part[i] == lines[i] || part[i] == NormalLine(lines, i)
  }

  /** Erasing is idempotent, and whichever results are erased already, the normal form is the same. */
  lemma NormalOfPart(lines: seq<Line>, part: seq<Line>)
    requires PartlyErased(lines, part)
    ensures Normal(part) == Normal(lines)
    ensures Broken(part) <==> Broken(lines)
  {
    forall i | 0 <= i < |lines|
      ensures AfterGas(part, i) == AfterGas(lines, i)
      ensures part[i].stack == [] <==> lines[i].stack == []
      ensures NormalLine(part, i) == NormalLine(lines, i)
    {
    }
    if i :| 0 <= i < |lines| && AfterGas(lines, i) && lines[i].stack == [] {
      assert AfterGas(part, i);
    }
    assert Normal(part) == Normal(lines);
  }

  // ---- Comparing values ----

  datatype Verdict = Equivalent | Different | IndexError

  datatype Transaction = Transaction(lines: seq<Line>, output: Option<string>, gasUsed: Option<int>)

  /** A line without its gas counters. */
  function Key(line: Line): Line {
    line.(step := line.step.(gas := 0, gasCost := None))
  }

  predicate SameKeys(a: seq<Line>, b: seq<Line>) {
    |a| == |b| && forall i :: 0 <= i < |a| ==> Key(a[i]) == Key(b[i])
  }

  /** What is compared of the lines. */
  function Shown(lines: seq<Line>, post: bool): seq<Line> {
    if post then Normal(lines) else lines
  }

  /** The verdict on values: with post-processing, of their normal forms. */
  ghost function Compare(a: Transaction, b: Transaction, post: bool): Verdict {
    if |a.lines| != |b.lines| || a.output != b.output || (a.gasUsed != b.gasUsed && !post) then Different
    else if post && (Broken(a.lines) || Broken(b.lines)) then IndexError
    else if SameKeys(Shown(a.lines, post), Shown(b.lines, post)) then Equivalent
    else Different
  }

  // ---- The verdict, field by field ----

  /** All fields but the gas counters and the stack. */
  predicate SameBesideGas(a: Step, b: Step) {
    && a.pc == b.pc && a.op == b.op && a.memSize == b.memSize && a.depth == b.depth && a.refund == b.refund
    && a.opName == b.opName && a.error == b.error
  }

  lemma KeyIsAllBesideGas(a: Line, b: Line)
    ensures Key(a) == Key(b) <==> SameBesideGas(a.step, b.step) && a.stack == b.stack
  {}

  /** The top of the stack of line `i` is what GAS has just pushed: the line before ran GAS at the same depth. */
  predicate TopIsGas(lines: seq<Line>, i: nat)
    requires i < |lines|
  {
    i >= 1 && lines[i - 1].step.opName == "GAS" && lines[i - 1].step.depth == lines[i].step.depth
  }

  /** The stacks are the same, or, with post-processing, but for a top that GAS has just pushed. */
  ghost predicate SameStack(a: seq<Line>, b: seq<Line>, i: nat, post: bool)
    requires i < |a| == |b|
  {
    && |a[i].stack| == |b[i].stack|
    && forall k :: 0 <= k < |a[i].stack| ==>
         a[i].stack[k] == b[i].stack[k] || (post && TopIsGas(a, i) && k == |a[i].stack| - 1)
  }

  /** With post-processing, a stack on which the result of GAS is looked for is empty. */
  ghost predicate GasMissing(lines: seq<Line>) {
    exists i :: 0 <= i < |lines| && TopIsGas(lines, i) && |lines[i].stack| == 0
  }

  /** As many lines, the same output and, without post-processing, the same gas. */
  predicate SameSummary(a: Transaction, b: Transaction, post: bool) {
    |a.lines| == |b.lines| && a.output == b.output && (post || a.gasUsed == b.gasUsed)
  }

  /**
   Traces are equivalent exactly if they have the same summary and differ in nothing but the gas counters and,
   with post-processing, results of GAS. Post-processing raises exactly if such a result is not there.
   */
  lemma VerdictExactly(a: Transaction, b: Transaction, post: bool)
    ensures var raises := post && (GasMissing(a.lines) || GasMissing(b.lines));
            && (Compare(a, b, post) == IndexError <==> SameSummary(a, b, post) && raises)
            && (Compare(a, b, post) == Equivalent <==>
                  && SameSummary(a, b, post) && !raises
                  && forall i :: 0 <= i < |a.lines| ==>
                       SameBesideGas(a.lines[i].step, b.lines[i].step) && SameStack(a.lines, b.lines, i, post))
  {
    MissingIsBroken(a.lines);
    MissingIsBroken(b.lines);
    if SameSummary(a, b, post) && !(post && (GasMissing(a.lines) || GasMissing(b.lines))) {
      SameExactly(a.lines, b.lines, post);
    }
  }

  lemma MissingIsBroken(lines: seq<Line>)
    ensures GasMissing(lines) <==> Broken(lines)
  {
    if i :| 0 <= i < |lines| && TopIsGas(lines, i) && |lines[i].stack| == 0 {
      assert AfterGas(lines, i) && lines[i].stack == [];
    }
    if i :| 0 <= i < |lines| && AfterGas(lines, i) && lines[i].stack == [] {
      assert TopIsGas(lines, i) && |lines[i].stack| == 0;
    }
  }

  /** Line `i` of both, shown. */
  lemma SameLineExactly(a: seq<Line>, b: seq<Line>, i: nat, post: bool)
    requires i < |a| == |b| && !(post && (GasMissing(a) || GasMissing(b)))
    requires i >= 1 ==> SameBesideGas(a[i - 1].step, b[i - 1].step)
    ensures Key(Shown(a, post)[i]) == Key(Shown(b, post)[i]) <==>
            SameBesideGas(a[i].step, b[i].step) && SameStack(a, b, i, post)
  {
    KeyIsAllBesideGas(Shown(a, post)[i], Shown(b, post)[i]);
    if post && SameBesideGas(a[i].step, b[i].step) && TopIsGas(a, i) {
      assert TopIsGas(b, i) && AfterGas(a, i) && AfterGas(b, i);
      assert |a[i].stack| > 0 && |b[i].stack| > 0;
      SameBelowTop(a[i].stack, b[i].stack);
    }
  }

  lemma SameBelowTop(s: seq<Option<int>>, t: seq<Option<int>>)
    requires |s| > 0 && |t| > 0
    ensures s[..|s| - 1] + [None] == t[..|t| - 1] + [None] <==>
            |s| == |t| && forall k :: 0 <= k < |s| - 1 ==> s[k] == t[k]
  {
    var u, v := s[..|s| - 1] + [None], t[..|t| - 1] + [None];
    if u == v {
      assert |u| == |s| && |v| == |t|;
      assert forall k :: 0 <= k < |s| - 1 ==> u[k] == s[k] && v[k] == t[k];
    }
  }

  lemma SameExactly(a: seq<Line>, b: seq<Line>, post: bool)
    requires |a| == |b| && !(post && (GasMissing(a) || GasMissing(b)))
    ensures SameKeys(Shown(a, post), Shown(b, post)) <==>
            forall i :: 0 <= i < |a| ==> SameBesideGas(a[i].step, b[i].step) && SameStack(a, b, i, post)
  {
    if SameKeys(Shown(a, post), Shown(b, post)) {
      forall i | 0 <= i < |a| ensures SameBesideGas(a[i].step, b[i].step) && SameStack(a, b, i, post) {
        ShownStep(a, b, i, post);
        if i >= 1 {
          ShownStep(a, b, i - 1, post);
        }
        SameLineExactly(a, b, i, post);
      }
    } else if forall i :: 0 <= i < |a| ==> SameBesideGas(a[i].step, b[i].step) && SameStack(a, b, i, post) {
      forall i | 0 <= i < |a| ensures Key(Shown(a, post)[i]) == Key(Shown(b, post)[i]) {
        SameLineExactly(a, b, i, post);
      }
    }
  }

  lemma ShownStep(a: seq<Line>, b: seq<Line>, i: nat, post: bool)
    requires i < |a| == |b| && Key(Shown(a, post)[i]) == Key(Shown(b, post)[i])
    ensures SameBesideGas(a[i].step, b[i].step)
  {
    KeyIsAllBesideGas(Shown(a, post)[i], Shown(b, post)[i]);
  }

  function Erased(a: Transaction): Transaction {
    a.(lines := Normal(a.lines))
  }

  /** All that post-processing looks at. */
  ghost function Meaning(a: Transaction): (Transaction, bool) {
    (Erased(a), Broken(a.lines))
  }

  lemma CompareSameMeaning(a: Transaction, a': Transaction, b: Transaction, b': Transaction)
    requires Meaning(a) == Meaning(a') && Meaning(b) == Meaning(b')
    ensures Compare(a, b, true) == Compare(a', b', true)
  {
    assert |Normal(a.lines)| == |a.lines| && |Normal(a'.lines)| == |a'.lines|;
    assert Erased(a).output == a.output && Erased(a').output == a'.output;
  }

  lemma MeaningOfPart(a: Transaction, part: seq<Line>)
    requires PartlyErased(a.lines, part)
    ensures Meaning(a.(lines := part)) == Meaning(a)
  {
    NormalOfPart(a.lines, part);
  }

  /** On traces that can be post-processed, being equivalent is an equivalence relation. */
  lemma ComparingIsEquivalence(a: Transaction, b: Transaction, c: Transaction)
    requires !Broken(a.lines) && !Broken(b.lines) && !Broken(c.lines)
    ensures Compare(a, a, true) == Equivalent
    ensures Compare(a, b, true) == Compare(b, a, true)
    ensures Compare(a, b, true) == Equivalent && Compare(b, c, true) == Equivalent ==> Compare(a, c, true) == Equivalent
  {}

  /** Only the gas counters and the results of GAS are overlooked. */
  lemma PlainImpliesPost(a: Transaction, b: Transaction)
    requires !Broken(a.lines) && !Broken(b.lines) && Compare(a, b, false) == Equivalent
    ensures Compare(a, b, true) == Equivalent
  {
    forall i | 0 <= i < |a.lines| ensures Key(NormalLine(a.lines, i)) == Key(NormalLine(b.lines, i)) {
      assert Key(a.lines[i]) == Key(b.lines[i]);
      if i > 0 {
        assert Key(a.lines[i - 1]) == Key(b.lines[i - 1]);
      }
    }
  }

  /** A plain comparison after one with post-processing is no longer the plain comparison of the traces. */
  lemma PlainAfterPost(a: Transaction, b: Transaction)
    requires !Broken(a.lines) && !Broken(b.lines)
    ensures Compare(Erased(a), Erased(b), false) == Equivalent <==>
            Compare(a, b, true) == Equivalent && a.gasUsed == b.gasUsed
  {}

  /** Two traces in which GAS pushed 5 and 7: different, but equivalent once post-processing has erased both. */
  lemma ModesDoNotMix()
    ensures exists a, b :: Compare(a, b, false) == Different && Compare(Erased(a), Erased(b), false) == Equivalent
  {
    var gas := Step(0, 0x5A, 9, None, 0, 1, 0, "GAS", None);
    var next := Step(1, 0x00, 7, None, 0, 1, 0, "STOP", None);
    var a := Transaction([Line(gas, []), Line(next, [Some(5)])], None, None);
    var b := Transaction([Line(gas, []), Line(next, [Some(7)])], None, None);
    assert Key(a.lines[1]) != Key(b.lines[1]);
    assert NormalLine(a.lines, 1) == NormalLine(b.lines, 1) == Line(next, [None]);
    assert Compare(Erased(a), Erased(b), false) == Equivalent;
  }

  // ---- Erasing in place ----

  /** The line at `i` is one that `remove_gas` erases a result of GAS from. */
  predicate IsHit(lines: seq<TraceLine>, i: nat)
    requires i < |lines|
  {
    i > 0 && lines[i - 1].step.opName == "GAS" && lines[i].step.depth == lines[i - 1].step.depth
  }

  /** The line objects that are erased going through the first `n` places. */
  ghost function Hits(lines: seq<TraceLine>, n: nat): set<TraceLine>
    requires n <= |lines|
  {
    set i | 0 <= i < n && IsHit(lines, i) :: lines[i]
  }

  ghost function AllHits(lines: seq<TraceLine>): set<TraceLine> {
    Hits(lines, |lines|)
  }

  /** Somewhere in the list the line comes right after one that ran GAS at the same depth. */
  ghost predicate BehindGas(lines: seq<TraceLine>, line: TraceLine) {
    exists i :: 1 <= i < |lines| && lines[i] == line && lines[i - 1].step.opName == "GAS" &&
                lines[i - 1].step.depth == line.step.depth
  }

  lemma HitsAreBehindGas(lines: seq<TraceLine>)
    ensures forall line :: line in AllHits(lines) <==> BehindGas(lines, line)
  {
    forall line: TraceLine ensures line in AllHits(lines) <==> BehindGas(lines, line) {
      if i :| 1 <= i < |lines| && lines[i] == line && lines[i - 1].step.opName == "GAS" &&
              lines[i - 1].step.depth == line.step.depth {
        assert IsHit(lines, i);
      }
    }
  }

  /** All of a stack but its top. */
  function Topless(stack: seq<Option<int>>): seq<Option<int>> {
    if stack == [] then [] else stack[..|stack| - 1]
  }

  function EraseIf(hit: bool, line: Line): Line {
    if hit then EraseTop(line) else line
  }

  lemma HitsStep(lines: seq<TraceLine>, i: nat)
    requires i < |lines|
    ensures Hits(lines, i + 1) == Hits(lines, i) + (if IsHit(lines, i) then {lines[i]} else {})
  {
    if IsHit(lines, i) {
      assert lines[i] in Hits(lines, i + 1);
    }
  }

  /** The body of the loop of `remove_gas`. */
  method EraseAt(lines: seq<TraceLine>, i: nat) returns (ok: bool)
    requires 0 < i < |lines|
    modifies lines[i]
    ensures ok <==> !(IsHit(lines, i) && old(lines[i].stack) == [])
    ensures lines[i].Value() == EraseIf(IsHit(lines, i), old(lines[i].Value()))
  {
    var trace, previous := lines[i], lines[i - 1];
    if previous.step.opName == "GAS" && trace.step.depth == previous.step.depth {
      if trace.stack == [] {
        return false;
      }
      trace.stack := trace.stack[..|trace.stack| - 1] + [None];
    }
    return true;
  }

  /**
   `remove_gas`, for any list, even if lines occur in it several times. It stops with an IndexError at a stack
   that is empty; `done` places are done then.
   */
  method RemoveGas(lines: seq<TraceLine>) returns (ok: bool, ghost done: nat)
    modifies lines
    ensures done <= |lines| && (ok ==> done == |lines|)
    ensures forall line :: line in lines ==> line.Value() == EraseIf(line in Hits(lines, done), old(line.Value()))
    ensures ok <==> forall line :: line in AllHits(lines) ==> old(line.stack) != []
    ensures ok ==> forall line :: line in lines ==>
              line.stack == if BehindGas(lines, line) then Topless(old(line.stack)) + [None] else old(line.stack)
  {
    HitsAreBehindGas(lines);
    if |lines| == 0 {
      return true, 0;
    }
    done := 1;
    for i := 1 to |lines|
      invariant done == i
      invariant forall line :: line in lines ==> line.Value() == EraseIf(line in Hits(lines, i), old(line.Value()))
      invariant forall line :: line in Hits(lines, i) ==> old(line.stack) != []
    {
      HitsStep(lines, i);
      ok := EraseAt(lines, i);
      if !ok {
        assert lines[i] in AllHits(lines) && old(lines[i].stack) == [];
        return false, i;
      }
      done := i + 1;
    }
    ok := true;
  }

  /** `TraceLine.are_equivalent`, line by line. */
  method CompareLines(own: seq<TraceLine>, other: seq<TraceLine>) returns (v: Verdict)
    requires |own| == |other|
    ensures v == if SameKeys(Values(own), Values(other)) then Equivalent else Different
    ensures v == Equivalent <==>
              forall i :: 0 <= i < |own| ==> SameBesideGas(own[i].step, other[i].step) && own[i].stack == other[i].stack
  {
    for i := 0 to |own|
      invariant forall k :: 0 <= k < i ==> Key(Values(own)[k]) == Key(Values(other)[k])
      invariant forall k :: 0 <= k < i ==> SameBesideGas(own[k].step, other[k].step) && own[k].stack == other[k].stack
    {
      KeyIsAllBesideGas(own[i].Value(), other[i].Value());
      if Key(own[i].Value()) != Key(other[i].Value()) {
        return Different;
      }
    }
    return Equivalent;
  }

  // ---- Comparing lists that may share lines ----

  /** The values with the results of GAS erased from the lines in `hits`. */
  ghost function Without(lines: seq<TraceLine>, values: seq<Line>, hits: set<TraceLine>): (r: seq<Line>)
    requires |lines| == |values|
    ensures |r| == |lines| && forall i :: 0 <= i < |lines| ==> r[i] == EraseIf(lines[i] in hits, values[i])
  {
    seq(|lines|, i requires 0 <= i < |lines| => EraseIf(lines[i] in hits, values[i]))
  }

  ghost predicate EmptyHit(lines: seq<TraceLine>, values: seq<Line>, hits: set<TraceLine>)
    requires |lines| == |values|
  {
    exists i :: 0 <= i < |lines| && lines[i] in hits && values[i].stack == []
  }

  /** The verdict, whatever lines the two have in common: each line is erased wherever it occurs. */
  ghost function CompareShared(own: seq<TraceLine>, a: Transaction, other: seq<TraceLine>, b: Transaction,
                               post: bool): Verdict
    requires |own| == |a.lines| && |other| == |b.lines|
  {
    if |own| != |other| || a.output != b.output || (a.gasUsed != b.gasUsed && !post) then Different
    else LinesVerdict(own, a.lines, other, b.lines, HitsOf(own, other, post))
  }

  ghost function HitsOf(own: seq<TraceLine>, other: seq<TraceLine>, post: bool): set<TraceLine> {
    if post then AllHits(own) + AllHits(other) else {}
  }

  /** The verdict on the lines alone. */
  ghost function LinesVerdict(own: seq<TraceLine>, was: seq<Line>, other: seq<TraceLine>, was': seq<Line>,
                              hits: set<TraceLine>): Verdict
    requires |own| == |was| == |other| == |was'|
  {
    if EmptyHit(own, was, hits) || EmptyHit(other, was', hits) then IndexError
    else if SameKeys(Without(own, was, hits), Without(other, was', hits)) then Equivalent
    else Different
  }

  /** A line that occurs in both is behind GAS in both or in none. */
  ghost predicate Agree(own: seq<TraceLine>, other: seq<TraceLine>) {
    forall i, j :: 0 <= i < |own| && 0 <= j < |other| && own[i] == other[j] ==> IsHit(own, i) == IsHit(other, j)
  }

  /** The values are those of the lines at some time. */
  ghost predicate Had(lines: seq<TraceLine>, values: seq<Line>) {
    |lines| == |values| && forall i :: 0 <= i < |lines| ==> values[i].step == lines[i].step
  }

  lemma HitIsAfterGas(lines: seq<TraceLine>, values: seq<Line>, i: nat)
    requires Had(lines, values) && i < |lines|
    ensures IsHit(lines, i) == AfterGas(values, i)
  {}

  /** Lines that are behind GAS wherever they occur are erased as in the normal form. */
  lemma WithoutIsNormal(own: seq<TraceLine>, values: seq<Line>, other: seq<TraceLine>)
    requires Had(own, values) && Agree(own, own) && Agree(own, other)
    ensures Without(own, values, AllHits(own) + AllHits(other)) == Normal(values)
    ensures EmptyHit(own, values, AllHits(own) + AllHits(other)) <==> Broken(values)
  {
    var hits := AllHits(own) + AllHits(other);
    forall i | 0 <= i < |own| ensures own[i] in hits <==> AfterGas(values, i) {
      HitIsAfterGas(own, values, i);
    }
    assert Without(own, values, hits) == Normal(values);
  }

  /** If no line is behind GAS in one place and not in another, the verdict is that on the values. */
  lemma SharedIsPlain(own: seq<TraceLine>, a: Transaction, other: seq<TraceLine>, b: Transaction, post: bool)
    requires Had(own, a.lines) && Had(other, b.lines)
    requires Agree(own, own) && Agree(other, other) && Agree(own, other)
    ensures CompareShared(own, a, other, b, post) == Compare(a, b, post)
  {
    if post {
      WithoutIsNormal(own, a.lines, other);
      WithoutIsNormal(other, b.lines, own);
      assert AllHits(own) + AllHits(other) == AllHits(other) + AllHits(own);
    } else {
      assert Without(own, a.lines, {}) == a.lines && Without(other, b.lines, {}) == b.lines;
    }
  }

  /**
   Two traces of the same values, a line in front of a GAS and one behind it. Where these are one object it
   is erased in both places, and the traces differ.
   */
  lemma SharedLineShows(x: TraceLine, gas: TraceLine, y: TraceLine, gas': TraceLine, z: TraceLine)
    requires x != y && y != z && x.step == y.step == z.step && gas.step == gas'.step
    requires gas.step.opName == "GAS" && x.step.opName != "GAS" && gas.step.depth == x.step.depth
    ensures var line := Line(x.step, [Some(5)]);
            var a := Transaction([line, Line(gas.step, []), line], None, None);
            && Compare(a, a, true) == Equivalent
            && CompareShared([x, gas, x], a, [y, gas', z], a, true) == Different
  {
    var own, other := [x, gas, x], [y, gas', z];
    var line := Line(x.step, [Some(5)]);
    var values := [line, Line(gas.step, []), line];
    var hits := AllHits(own) + AllHits(other);
    HitsOfThree(x, gas, x);
    HitsOfThree(y, gas', z);
    assert Key(Without(own, values, hits)[0]) != Key(Without(other, values, hits)[0]);
    assert !Broken(values);
  }

  lemma HitsOfThree(first: TraceLine, gas: TraceLine, last: TraceLine)
    requires first.step.opName != "GAS" && gas.step.opName == "GAS" && gas.step.depth == last.step.depth
    ensures AllHits([first, gas, last]) == {last}
  {
    var lines := [first, gas, last];
    assert IsHit(lines, 2) && lines[2] in AllHits(lines);
  }

  lemma ErasedNow(lines: seq<TraceLine>, was: seq<Line>, erased: set<TraceLine>)
    requires |lines| == |was|
    requires forall i :: 0 <= i < |lines| ==> lines[i].Value() == EraseIf(lines[i] in erased, was[i])
    ensures Values(lines) == Without(lines, was, erased)
  {}

  lemma StacksOf(own: seq<TraceLine>, other: seq<TraceLine>)
    ensures var hits := AllHits(own) + AllHits(other);
            (forall line :: line in hits ==> line.stack != []) <==>
            !EmptyHit(own, Values(own), hits) && !EmptyHit(other, Values(other), hits)
  {
    var hits := AllHits(own) + AllHits(other);
    if line :| line in hits && line.stack == [] {
      if line in AllHits(own) {
        EmptyHitIn(own, hits, line);
      } else {
        EmptyHitIn(other, hits, line);
      }
    }
  }

  lemma EmptyHitIn(lines: seq<TraceLine>, hits: set<TraceLine>, line: TraceLine)
    requires line in lines && line in hits && line.stack == []
    ensures EmptyHit(lines, Values(lines), hits)
  {
    var i :| 0 <= i < |lines| && lines[i] == line;
    assert Values(lines)[i] == line.Value();
  }

  class TransactionTraces {
    const traces: seq<TraceLine>
    const output: Option<string>
    const gasUsed: Option<int>

    constructor (traces: seq<TraceLine>, output: Option<string>, gasUsed: Option<int>)
      ensures this.traces == traces && this.output == output && this.gasUsed == gasUsed
    {
      this.traces := traces;
      this.output := output;
      this.gasUsed := gasUsed;
    }

    function Value(): Transaction
      reads traces
    {
      Transaction(Values(traces), output, gasUsed)
    }

    /** `are_equivalent`. The list is copied, the lines in it are not; those in `erased` have changed. */
    method AreEquivalent(other: TransactionTraces, post: bool) returns (v: Verdict, ghost erased: set<TraceLine>)
      modifies traces, other.traces
      ensures v == CompareShared(traces, old(Value()), other.traces, old(other.Value()), post)
      ensures erased <= HitsOf(traces, other.traces, post)
      ensures forall line :: line in traces || line in other.traces ==>
                line.Value() == EraseIf(line in erased, old(line.Value()))
    {
      if |traces| != |other.traces| || output != other.output || (gasUsed != other.gasUsed && !post) {
        return Different, {};
      }
      v, erased := CompareShown(other, post);
    }

    /** The part behind the comparison of lengths, outputs and gas. */
    method CompareShown(other: TransactionTraces, post: bool) returns (v: Verdict, ghost erased: set<TraceLine>)
      requires |traces| == |other.traces|
      modifies traces, other.traces
      ensures v == LinesVerdict(traces, old(Values(traces)), other.traces, old(Values(other.traces)),
                                HitsOf(traces, other.traces, post))
      ensures erased <= HitsOf(traces, other.traces, post)
      ensures forall line :: line in traces || line in other.traces ==>
                line.Value() == EraseIf(line in erased, old(line.Value()))
    {
      erased := {};
      ghost var was, was' := Values(traces), Values(other.traces);
      if post {
        StacksOf(traces, other.traces);
        var ok;
        ok, erased := RemoveBoth(other);
        if !ok {
          return IndexError, erased;
        }
      }
      ErasedNow(traces, was, erased);
      ErasedNow(other.traces, was', erased);
      v := CompareLines(traces, other.traces);
    }

    /** Both sides lose the results of GAS, the second only if the first could. */
    method RemoveBoth(other: TransactionTraces) returns (ok: bool, ghost erased: set<TraceLine>)
      modifies traces, other.traces
      ensures var hits := AllHits(traces) + AllHits(other.traces);
              && erased <= hits && (ok ==> erased == hits)
              && (ok <==> forall line :: line in hits ==> old(line.stack) != [])
      ensures forall line :: line in traces || line in other.traces ==>
                line.Value() == EraseIf(line in erased, old(line.Value()))
    {
      ghost var done;
      ok, done := RemoveGas(traces);
      erased := Hits(traces, done);
      if ok {
        ok, done := RemoveGas(other.traces);
        erased := erased + Hits(other.traces, done);
      }
    }
  }

  // ---- All transactions, and many comparisons ----

  /** The first transactions that are not equivalent decide. */
  ghost function CompareAll(a: seq<Transaction>, b: seq<Transaction>, post: bool): Verdict {
    if |a| != |b| then Different
    else if a == [] then Equivalent
    else
      var v := Compare(a[0], b[0], post);
      if v == Equivalent then CompareAll(a[1..], b[1..], post) else v
  }

  /** All transactions are equivalent, or the first that are not decide; lists of different lengths are different. */
  lemma {:induction false} CompareAllExactly(a: seq<Transaction>, b: seq<Transaction>, post: bool)
    ensures |a| != |b| ==> CompareAll(a, b, post) == Different
    ensures |a| == |b| ==>
              (CompareAll(a, b, post) == Equivalent <==>
               forall i :: 0 <= i < |a| ==> Compare(a[i], b[i], post) == Equivalent)
    ensures |a| == |b| ==>
              forall i :: 0 <= i < |a| && Compare(a[i], b[i], post) != Equivalent &&
                          (forall j :: 0 <= j < i ==> Compare(a[j], b[j], post) == Equivalent) ==>
                CompareAll(a, b, post) == Compare(a[i], b[i], post)
  {
    if |a| == |b| && a != [] {
      CompareAllExactly(a[1..], b[1..], post);
      forall i | 0 <= i < |a| && Compare(a[i], b[i], post) != Equivalent &&
                 (forall j :: 0 <= j < i ==> Compare(a[j], b[j], post) == Equivalent)
        ensures CompareAll(a, b, post) == Compare(a[i], b[i], post)
      {
        if i > 0 {
          assert a[1..][i - 1] == a[i] && b[1..][i - 1] == b[i];
          assert forall j :: 0 <= j < i - 1 ==> a[1..][j] == a[j + 1] && b[1..][j] == b[j + 1];
        }
      }
      assert forall j :: 0 <= j < |a| - 1 ==> a[1..][j] == a[j + 1] && b[1..][j] == b[j + 1];
      if forall i :: 0 <= i < |a| ==> Compare(a[i], b[i], post) == Equivalent {
        assert forall j :: 0 <= j < |a| - 1 ==> Compare(a[1..][j], b[1..][j], post) == Equivalent;
      }
      if CompareAll(a, b, post) == Equivalent {
        forall i | 0 <= i < |a| ensures Compare(a[i], b[i], post) == Equivalent {
          if i > 0 {
            assert Compare(a[1..][i - 1], b[1..][i - 1], post) == Equivalent;
          }
        }
      }
    }
  }

  lemma CompareAllFrom(a: seq<Transaction>, b: seq<Transaction>, i: nat, post: bool)
    requires i < |a| == |b|
    ensures CompareAll(a[i..], b[i..], post) ==
            (if Compare(a[i], b[i], post) == Equivalent then CompareAll(a[i + 1..], b[i + 1..], post)
             else Compare(a[i], b[i], post))
  {}

  ghost function LinesOf(pool: set<TransactionTraces>): set<TraceLine> {
    set t, line | t in pool && line in t.traces :: line
  }

  lemma LinesIn(pool: set<TransactionTraces>, t: TransactionTraces)
    requires t in pool
    ensures forall line :: line in t.traces ==> line in LinesOf(pool)
  {}

  /** No line is behind GAS in one place and not in another. */
  ghost predicate AllAgree(pool: set<TransactionTraces>) {
    forall s, t :: s in pool && t in pool ==> Agree(s.traces, t.traces)
  }

  /** One comparison keeps the meaning of all traces around. */
  method CompareInPool(own: TransactionTraces, other: TransactionTraces, post: bool, ghost pool: set<TransactionTraces>)
    returns (v: Verdict)
    requires AllAgree(pool) && own in pool && other in pool
    modifies own.traces, other.traces
    ensures v == Compare(old(own.Value()), old(other.Value()), post)
    ensures forall t :: t in pool ==> Meaning(t.Value()) == old(Meaning(t.Value()))
    ensures !post ==> forall t :: t in pool ==> t.Value() == old(t.Value())
  {
    ghost var erased;
    v, erased := own.AreEquivalent(other, post);
    SharedIsPlain(own.traces, old(own.Value()), other.traces, old(other.Value()), post);
    forall t | t in pool
      ensures Meaning(t.Value()) == old(Meaning(t.Value())) && (!post ==> t.Value() == old(t.Value()))
    {
      ErasedMeans(own, other, erased, t, old(t.Value()));
    }
  }

  lemma ErasedMeans(own: TransactionTraces, other: TransactionTraces, erased: set<TraceLine>, t: TransactionTraces,
                    was: Transaction)
    requires Agree(own.traces, t.traces) && Agree(other.traces, t.traces) && Had(t.traces, was.lines)
    requires erased <= AllHits(own.traces) + AllHits(other.traces)
    requires was == t.Value().(lines := was.lines)
    requires forall i :: 0 <= i < |t.traces| ==> t.traces[i].Value() == EraseIf(t.traces[i] in erased, was.lines[i])
    ensures Meaning(t.Value()) == Meaning(was)
    ensures erased == {} ==> t.Value() == was
  {
    var now := Values(t.traces);
    ErasedIsPart(own.traces, other.traces, erased, t.traces, was.lines, now);
    MeaningOfPart(was, now);
    assert t.Value() == was.(lines := now);
    assert erased == {} ==> now == was.lines;
  }

  /** Erasing lines of two lists erases results of GAS, and nothing else, in any list that agrees with them. */
  lemma ErasedIsPart(own: seq<TraceLine>, other: seq<TraceLine>, erased: set<TraceLine>, lines: seq<TraceLine>,
                     was: seq<Line>, now: seq<Line>)
    requires Agree(own, lines) && Agree(other, lines) && Had(lines, was) && |now| == |lines|
    requires erased <= AllHits(own) + AllHits(other)
    requires forall i :: 0 <= i < |lines| ==> now[i] == EraseIf(lines[i] in erased, was[i])
    ensures PartlyErased(was, now)
  {
    forall i | 0 <= i < |lines| && lines[i] in erased ensures AfterGas(was, i) {
      HitIsAfterGas(lines, was, i);
    }
  }

  ghost function Current(root: seq<TransactionTraces>): (r: seq<Transaction>)
    reads LinesOf(set t | t in root)
    ensures |r| == |root| && forall i :: 0 <= i < |root| ==> r[i] == root[i].Value()
  {
    if root == [] then []
    else
      var last := root[|root| - 1];
      LinesIn((set t | t in root), last);
      Current(root[..|root| - 1]) + [last.Value()]
  }

  class Traces {
    var root: seq<TransactionTraces>

    constructor ()
      ensures root == []
    {
      root := [];
    }

    method Append(item: TransactionTraces)
      modifies this
      ensures root == old(root) + [item]
    {
      root := root + [item];
    }

    /** `are_equivalent`. */
    method AreEquivalent(other: Option<Traces>, post: bool, ghost pool: set<TransactionTraces>) returns (v: Verdict)
      requires AllAgree(pool) && (forall t :: t in root ==> t in pool)
      requires other.Some? ==> forall t :: t in other.value.root ==> t in pool
      modifies LinesOf(pool)
      ensures v == if other.None? then Different
                   else CompareAll(old(Current(root)), old(Current(other.value.root)), post)
      ensures forall t :: t in pool ==> Meaning(t.Value()) == old(Meaning(t.Value()))
      ensures !post ==> forall t :: t in pool ==> t.Value() == old(t.Value())
    {
      if other.None? || |root| != |other.value.root| {
        return Different;
      }
      v := CompareRoots(root, other.value.root, post, pool);
    }
  }

  /** The loop of `Traces.are_equivalent` over two lists of one length. */
  method CompareRoots(own: seq<TransactionTraces>, other: seq<TransactionTraces>, post: bool,
                      ghost pool: set<TransactionTraces>)
    returns (v: Verdict)
    requires AllAgree(pool) && |own| == |other|
    requires forall i :: 0 <= i < |own| ==> own[i] in pool && other[i] in pool
    modifies LinesOf(pool)
    ensures v == CompareAll(old(Current(own)), old(Current(other)), post)
    ensures forall t :: t in pool ==> Meaning(t.Value()) == old(Meaning(t.Value()))
    ensures !post ==> forall t :: t in pool ==> t.Value() == old(t.Value())
  {
    ghost var a, b := Current(own), Current(other);
    assert a[0..] == a && b[0..] == b;
    for i := 0 to |own|
      invariant CompareAll(a, b, post) == CompareAll(a[i..], b[i..], post)
      invariant forall t :: t in pool ==> Meaning(t.Value()) == old(Meaning(t.Value()))
      invariant !post ==> forall t :: t in pool ==> t.Value() == old(t.Value())
    {
      ghost var now, now' := own[i].Value(), other[i].Value();
      assert own[i] in pool && other[i] in pool;
      assert a[i] == old(own[i].Value()) && b[i] == old(other[i].Value());
      SameVerdict(a, b, i, now, now', post);
      LinesIn(pool, own[i]);
      LinesIn(pool, other[i]);
      v := CompareInPool(own[i], other[i], post, pool);
      if v != Equivalent {
        return;
      }
    }
    return Equivalent;
  }

  lemma SameVerdict(a: seq<Transaction>, b: seq<Transaction>, i: nat, now: Transaction, now': Transaction, post: bool)
    requires i < |a| == |b|
    requires Meaning(now) == Meaning(a[i]) && Meaning(now') == Meaning(b[i])
    requires !post ==> now == a[i] && now' == b[i]
    ensures CompareAll(a[i..], b[i..], post) ==
            (if Compare(now, now', post) == Equivalent then CompareAll(a[i + 1..], b[i + 1..], post)
             else Compare(now, now', post))
  {
    CompareAllFrom(a, b, i, post);
    if post {
      CompareSameMeaning(a[i], now, b[i], now');
    }
  }

  type Meanings = map<TransactionTraces, (Transaction, bool)>

  /** What the traces mean now. */
  ghost predicate Mean(pool: set<TransactionTraces>, meanings: Meanings)
    reads LinesOf(pool)
  {
    forall t :: t in pool ==> LinesInclude(pool, t) && t in meanings && meanings[t] == Meaning(t.Value())
  }

  ghost predicate LinesInclude(pool: set<TransactionTraces>, t: TransactionTraces) {
    forall line :: line in t.traces ==> line in LinesOf(pool)
  }

  /** These traces once had these values. */
  ghost predicate Were(pool: set<TransactionTraces>, meanings: Meanings, root: seq<TransactionTraces>,
                       values: seq<Transaction>) {
    && |root| == |values|
    && forall i :: 0 <= i < |root| ==> root[i] in pool && root[i] in meanings && meanings[root[i]] == Meaning(values[i])
  }

  ghost predicate AllWere(pool: set<TransactionTraces>, meanings: Meanings, roots: seq<seq<TransactionTraces>>,
                          values: seq<seq<Transaction>>) {
    |roots| == |values| && forall k :: 0 <= k < |roots| ==> Were(pool, meanings, roots[k], values[k])
  }

  ghost function Verdicts(a: seq<Transaction>, bs: seq<seq<Transaction>>): (r: seq<Verdict>)
    ensures |r| == |bs| && forall k :: 0 <= k < |bs| ==> r[k] == CompareAll(a, bs[k], true)
  {
    seq(|bs|, k requires 0 <= k < |bs| => CompareAll(a, bs[k], true))
  }

  /**
   Any sequence of comparisons with post-processing, among traces used again and again: every verdict is
   that of the values they had at the start. So a search may compare one baseline with many runs.
   */
  method CompareMany(base: seq<TransactionTraces>, others: seq<seq<TransactionTraces>>,
                     ghost pool: set<TransactionTraces>, ghost meanings: Meanings,
                     ghost a: seq<Transaction>, ghost bs: seq<seq<Transaction>>)
    returns (verdicts: seq<Verdict>)
    requires AllAgree(pool) && Mean(pool, meanings)
    requires Were(pool, meanings, base, a) && AllWere(pool, meanings, others, bs)
    modifies LinesOf(pool)
    ensures verdicts == Verdicts(a, bs) && Mean(pool, meanings)
  {
    verdicts := [];
    for k := 0 to |others|
      invariant Mean(pool, meanings) && verdicts == Verdicts(a, bs)[..k]
    {
      var v := CompareLater(base, others[k], pool, meanings, a, bs[k]);
      VerdictsStep(a, bs, k);
      verdicts := verdicts + [v];
    }
  }

  lemma VerdictsStep(a: seq<Transaction>, bs: seq<seq<Transaction>>, k: nat)
    requires k < |bs|
    ensures Verdicts(a, bs)[..k + 1] == Verdicts(a, bs)[..k] + [CompareAll(a, bs[k], true)]
  {}

  method CompareLater(base: seq<TransactionTraces>, other: seq<TransactionTraces>, ghost pool: set<TransactionTraces>,
                      ghost meanings: Meanings, ghost a: seq<Transaction>, ghost b: seq<Transaction>)
    returns (v: Verdict)
    requires AllAgree(pool) && Mean(pool, meanings)
    requires Were(pool, meanings, base, a) && Were(pool, meanings, other, b)
    modifies LinesOf(pool)
    ensures v == CompareAll(a, b, true) && Mean(pool, meanings)
  {
    SameMeanings(a, b, Current(base), Current(other));
    if |base| != |other| {
      return Different;
    }
    v := CompareRoots(base, other, true, pool);
  }

  lemma {:induction false} SameMeanings(a: seq<Transaction>, b: seq<Transaction>,
                                        a': seq<Transaction>, b': seq<Transaction>)
    requires |a| == |a'| && |b| == |b'|
    requires forall i :: 0 <= i < |a| ==> Meaning(a[i]) == Meaning(a'[i])
    requires forall i :: 0 <= i < |b| ==> Meaning(b[i]) == Meaning(b'[i])
    ensures CompareAll(a, b, true) == CompareAll(a', b', true)
  {
    if |a| == |b| && a != [] {
      CompareSameMeaning(a[0], a'[0], b[0], b'[0]);
      SameMeanings(a[1..], b[1..], a'[1..], b'[1..]);
    }
  }
}
