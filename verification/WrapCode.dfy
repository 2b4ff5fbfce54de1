/**
 `wrap_code` makes legacy code end in exactly one terminating opcode, and keeps its behaviour: in
 lockstep, for any meaning of the opcodes, every run takes the same steps and halts the same way.
 */
module WrapCode {
  import opened ByteStrings
  import opened Options
  import opened Disassembler
  import opened LegacyRuns

  const STOP := Instr(0x00, [])

  datatype Wrapped = Section(code: Bytes) | AssertionError | ValueError

  predicate Ends(i: Instr) {
    Terminating(i.opcode)
  }

  /** The instructions before the terminating ones at the end. */
  function Body(code: seq<Instr>): (r: seq<Instr>)
    ensures |r| <= |code| && r == code[..|r|]
    ensures r == [] || !Ends(r[|r| - 1])
    ensures forall k :: |r| <= k < |code| ==> Ends(code[k])
  {
    if code == [] || !Ends(code[|code| - 1]) then code else Body(code[..|code| - 1])
  }

  /** The first terminating instruction after the body is kept, or a STOP is added. */
  function Wrap(code: seq<Instr>): (r: seq<Instr>)
    ensures r != [] && Ends(r[|r| - 1])
    ensures |r| > 1 ==> !Ends(r[|r| - 2])
    ensures r <= code || r == code + [STOP]
  {
    Body(code) + [if Body(code) == code then STOP else code[|Body(code)|]]
  }

  lemma {:induction false} EachAssembles(code: seq<Instr>)
    requires forall k :: 0 <= k < |code| ==> Assemble(code[k]).Some?
    ensures AssembleAll(code).Some?
  {
    if code != [] {
      EachAssembles(code[1..]);
    }
  }

  lemma WrapAssembles(code: seq<Instr>)
    requires Canonical(code)
    ensures forall k :: 0 <= k < |Wrap(code)| ==> Assemble(Wrap(code)[k]).Some?
    ensures AssembleAll(Wrap(code)).Some?
  {
    forall i | i in code ensures Assemble(i).Some? {
      if i != Instr(RJUMPV, []) {
        AssembleComplete(i);
      }
    }
    EachAssembles(Wrap(code));
  }

  /** The code section `wrap_code` puts into its container. */
  method WrapCode(accountCode: Bytes) returns (r: Wrapped)
    ensures r.AssertionError? <==> accountCode == []
    ensures r.ValueError? <==> accountCode != [] && Parse(accountCode).None?
    ensures r.Section? ==>
              && AssembleAll(Wrap(Parse(accountCode).value)) == Some(r.code)
  {
    if |accountCode| == 0 {
      return AssertionError;
    }
    var parsed := ProcessEvmBytes(accountCode);
    if parsed.None? {
      return ValueError;
    }
    var opcodes := EndOnce(parsed.value);
    ParseIsCanonical(accountCode);
    WrapAssembles(parsed.value);
    var bytecode := Concatenate(opcodes);
    return Section(bytecode);
  }

  /** Adding a STOP or dropping terminating opcodes from the end. */
  method EndOnce(code: seq<Instr>) returns (opcodes: seq<Instr>)
    requires code != []
    ensures opcodes == Wrap(code)
  {
    opcodes := code;
    if !Ends(opcodes[|opcodes| - 1]) {
      opcodes := opcodes + [STOP];
    }
    while |opcodes| > 1 && Ends(opcodes[|opcodes| - 2]) && Ends(opcodes[|opcodes| - 1])
      invariant Wrap(code) <= opcodes
      invariant forall k :: |Body(code)| <= k < |opcodes| ==> Ends(opcodes[k])
      decreases |opcodes|
    {
      opcodes := opcodes[..|opcodes| - 1];
    }
    assert |opcodes| == |Wrap(code)|;
  }

  /** The bytecode of each opcode, added up. */
  method Concatenate(opcodes: seq<Instr>) returns (bytecode: Bytes)
    requires forall k :: 0 <= k < |opcodes| ==> Assemble(opcodes[k]).Some?
    ensures AssembleAll(opcodes) == Some(bytecode)
  {
    bytecode := [];
    for i := 0 to |opcodes|
      invariant AssembleAll(opcodes[..i]) == Some(bytecode)
    {
      AssembleOneMore(opcodes, i);
      bytecode := bytecode + Assemble(opcodes[i]).value;
    }
    assert opcodes[..|opcodes|] == opcodes;
  }

  lemma AssembleOneMore(code: seq<Instr>, i: nat)
    requires i < |code| && AssembleAll(code[..i]).Some? && Assemble(code[i]).Some?
    ensures AssembleAll(code[..i + 1]) == Some(AssembleAll(code[..i]).value + Assemble(code[i]).value)
  {
    var last := [code[i]];
    AssembleOne(code[i]);
    AssembleAllAppend(code[..i], last);
    assert code[..i + 1] == code[..i] + last;
  }

  lemma AssembleOne(i: Instr)
    ensures AssembleAll([i]) == Assemble(i)
  {
    assert [i][1..] == [];
    assert Assemble(i).Some? ==> Assemble(i).value + [] == Assemble(i).value;
  }

  // ---- Two codes with one body ----

  /** The codes are the same before `end`, and no jump leads further. */
  ghost predicate OneBody(c: Bytes, d: Bytes, end: nat) {
    && end <= |c| && end <= |d| && c[..end] == d[..end]
    && At(c, end) == At(d, end)
    && JumpDests(c, end) == {} && JumpDests(d, end) == {}
  }

  lemma SameInstruction(c: Bytes, d: Bytes, pc: nat, end: nat)
    requires OneBody(c, d, end) && Boundary(c, pc, end)
    ensures At(c, pc) == At(d, pc)
    ensures pc == end || (pc < end && Data(c, pc) == Data(d, pc) && NextPc(c, pc) == NextPc(d, pc)
                          && Boundary(c, NextPc(c, pc), end))
  {
    if pc < end {
      assert c[pc] == c[..end][pc] == d[..end][pc] == d[pc];
      var next := NextPc(c, pc);
      assert Boundary(c, next, end) && next <= end;
      forall k | pc < k < next ensures At(c, k) == At(d, k) {
        assert c[k] == c[..end][k] == d[..end][k] == d[k];
      }
    }
  }

  lemma {:induction false} SameJumpDests(c: Bytes, d: Bytes, pc: nat, end: nat)
    requires OneBody(c, d, end) && Boundary(c, pc, end)
    ensures JumpDests(c, pc) == JumpDests(d, pc)
    ensures forall k :: k in JumpDests(c, pc) ==> Boundary(c, k, end)
    decreases end - pc
  {
    if pc < end {
      SameInstruction(c, d, pc, end);
      SameJumpDests(c, d, NextPc(c, pc), end);
    }
  }

  /** A run within the body stays on its boundaries until it leaves it at the end. */
  lemma {:induction false} WalkWithin(c: Bytes, from: nat, p: nat, end: nat)
    requires end <= |c| && Boundary(c, from, end) && Walk(c, from, p)
    ensures (p <= end && Boundary(c, p, end)) || (GoesOn(At(c, end)) && Walk(c, NextPc(c, end), p))
    decreases end - from
  {
    if from < end && from < p {
      WalkWithin(c, NextPc(c, from), p, end);
    }
  }

  lemma ReachedWithin(c: Bytes, d: Bytes, p: nat, end: nat)
    requires OneBody(c, d, end) && Boundary(c, 0, end) && Reached(c, p)
    ensures (p <= end && Boundary(c, p, end)) || (GoesOn(At(c, end)) && Walk(c, NextPc(c, end), p))
  {
    SameJumpDests(c, d, 0, end);
    if Walk(c, 0, p) {
      WalkWithin(c, 0, p, end);
    } else {
      var t :| t in JumpDests(c, 0) && Walk(c, t, p);
      WalkWithin(c, t, p, end);
    }
  }

  /** If the codes halt alike where the body ends, they are alike. */
  lemma OneBodyIsAlike(c: Bytes, d: Bytes, end: nat)
    requires OneBody(c, d, end) && Boundary(c, 0, end) && Halts(At(c, end))
    ensures Alike(c, d)
  {
    SameJumpDests(c, d, 0, end);
    forall p: nat | Reached(c, p) ensures At(c, p) == At(d, p) && Data(c, p) == Data(d, p) {
      ReachedWithin(c, d, p, end);
      SameInstruction(c, d, p, end);
    }
  }

  /** If they go on alike to one last halt, they are alike exactly if no run sees the difference where the body ends. */
  lemma AlikeButAt(c: Bytes, d: Bytes, end: nat)
    requires OneBody(c, d, end) && Boundary(c, 0, end)
    requires var last := NextPc(c, end); At(c, last) == At(d, last) && Halts(At(c, last))
    ensures Alike(c, d) <==> Data(c, end) == Data(d, end) || !Reached(c, end)
  {
    SameJumpDests(c, d, 0, end);
    if Data(c, end) == Data(d, end) || !Reached(c, end) {
      forall p: nat | Reached(c, p) ensures At(c, p) == At(d, p) && Data(c, p) == Data(d, p) {
        ReachedWithin(c, d, p, end);
        if p <= end && Boundary(c, p, end) {
          SameInstruction(c, d, p, end);
        }
      }
    }
  }

  // ---- The code before and after `wrap_code` ----

  /** Legacy code knows no immediates but those of PUSH1 to PUSH32. */
  predicate Legacy(code: seq<Instr>) {
    forall k :: 0 <= k < |code| ==> IsLegacy(code[k].opcode)
  }

  predicate IsLegacy(op: Byte) {
    op != RJUMPV && (DataLength(op) > 0 ==> IsPush(op))
  }

  predicate Plain(i: Instr) {
    Complete(i) && IsLegacy(i.opcode)
  }

  predicate AllPlain(code: seq<Instr>) {
    forall k :: 0 <= k < |code| ==> Plain(code[k])
  }

  ghost predicate AllEnd(code: seq<Instr>) {
    forall k :: 0 <= k < |code| ==> Plain(code[k]) && Ends(code[k])
  }

  lemma LegacyNext(pre: Bytes, i: Instr, tail: Bytes)
    requires Plain(i)
    ensures Assemble(i).Some? && NextPc(pre + Assemble(i).value + tail, |pre|) == |pre| + |Assemble(i).value|
    ensures Assemble(i).value != [] && Assemble(i).value[0] == i.opcode
  {
    AssembleComplete(i);
    if DataLength(i.opcode) > 0 {
      ImmediateOfData(i);
    }
    var b := Assemble(i).value;
    assert (pre + b + tail)[|pre|] == b[0];
  }

  /** The end of every leading part of the instructions is an instruction boundary of the bytes. */
  lemma {:induction false} BoundaryOfAssembled(pre: Bytes, code: seq<Instr>, tail: Bytes)
    requires AllPlain(code)
    ensures AssembleAll(code).Some?
    ensures Boundary(pre + AssembleAll(code).value + tail, |pre|, |pre| + |AssembleAll(code).value|)
    decreases |code|
  {
    if code != [] {
      var i, rest := code[0], code[1..];
      LegacyNext(pre, i, []);
      var first := Assemble(i).value;
      BoundaryOfAssembled(pre + first, rest, tail);
      var behind := AssembleAll(rest).value;
      LegacyNext(pre, i, behind + tail);
      Regroup(pre, first, behind, tail);
    }
  }

  lemma Regroup(a: Bytes, b: Bytes, c: Bytes, d: Bytes)
    ensures a + (b + c) + d == a + b + c + d == a + b + (c + d)
  {}

  lemma {:induction false} TerminatingBytes(code: seq<Instr>)
    requires AllEnd(code)
    ensures AssembleAll(code).Some?
    ensures var b := AssembleAll(code).value;
            && (forall k :: 0 <= k < |b| ==> Terminating(b[k]))
            && (code != [] ==> b != [] && b[0] == code[0].opcode)
  {
    if code != [] {
      TerminatingBytes(code[1..]);
      assert Assemble(code[0]) == Some([code[0].opcode]);
    }
  }

  lemma {:induction false} NoJumpDests(code: Bytes, pc: nat)
    requires forall k :: pc <= k < |code| ==> Terminating(code[k])
    ensures JumpDests(code, pc) == {}
    decreases |code| - pc
  {
    if pc < |code| {
      NoJumpDests(code, pc + 1);
    }
  }

  /** A body followed by terminating bytes, and the same body followed by the first of them or a STOP. */
  lemma AgreeOnBody(body: Bytes, tail: Bytes, other: Bytes)
    requires forall k :: 0 <= k < |tail| ==> Terminating(tail[k])
    requires forall k :: 0 <= k < |other| ==> Terminating(other[k])
    requires At(tail, 0) == At(other, 0)
    ensures OneBody(body + tail, body + other, |body|) && Terminating(At(body + tail, |body|))
  {
    NoJumpDests(body + tail, |body|);
    NoJumpDests(body + other, |body|);
    assert At(body + tail, |body|) == At(tail, 0) && At(body + other, |body|) == At(other, 0);
  }

  lemma ParsedIsPlain(bs: Bytes)
    requires Parse(bs).Some? && Legacy(Parse(bs).value)
    ensures AllPlain(Parse(bs).value)
  {
    ParseIsCanonical(bs);
  }

  /** The bytes of a front part and what follows it. */
  lemma AssembleSplit(front: seq<Instr>, behind: seq<Instr>) returns (body: Bytes, tail: Bytes)
    requires AllPlain(front) && AllEnd(behind)
    ensures AssembleAll(front) == Some(body) && AssembleAll(front + behind) == Some(body + tail)
    ensures forall k :: 0 <= k < |tail| ==> Terminating(tail[k])
    ensures At(tail, 0) == if behind == [] then 0 else behind[0].opcode
    ensures Boundary(body + tail, 0, |body|)
  {
    TerminatingBytes(behind);
    tail := AssembleAll(behind).value;
    BoundaryFromStart(front, tail);
    AssembleAllAppend(front, behind);
    body := AssembleAll(front).value;
  }

  lemma BoundaryFromStart(code: seq<Instr>, tail: Bytes)
    requires AllPlain(code)
    ensures AssembleAll(code).Some?
    ensures Boundary(AssembleAll(code).value + tail, 0, |AssembleAll(code).value|)
  {
    BoundaryOfAssembled([], code, tail);
    assert [] + AssembleAll(code).value == AssembleAll(code).value;
  }

  /** The bytes of complete legacy code and of the wrapped code: one body, two tails. */
  lemma WrappedBytes(code: seq<Instr>) returns (body: Bytes, tail: Bytes, kept: Bytes)
    requires AllPlain(code)
    ensures AssembleAll(code) == Some(body + tail) && AssembleAll(Wrap(code)) == Some(body + kept)
    ensures OneBody(body + tail, body + kept, |body|) && Terminating(At(body + tail, |body|))
    ensures Boundary(body + tail, 0, |body|)
  {
    var front, behind, last := Parts(code);
    body, tail := AssembleSplit(front, behind);
    var body';
    body', kept := AssembleSplit(front, last);
    AgreeOnBody(body, tail, kept);
  }

  lemma Parts(code: seq<Instr>) returns (front: seq<Instr>, behind: seq<Instr>, last: seq<Instr>)
    requires AllPlain(code)
    ensures code == front + behind && Wrap(code) == front + last
    ensures AllPlain(front) && AllEnd(behind) && AllEnd(last)
    ensures last != [] && last[0].opcode == if behind == [] then 0 else behind[0].opcode
  {
    front := Body(code);
    behind := code[|front|..];
    last := [if front == code then STOP else code[|front|]];
    assert front == code ==> Plain(STOP);
  }

  /** The bytes of the code section `wrap_code` makes. */
  function WrappedCode(bs: Bytes): Bytes
    requires Parse(bs).Some?
  {
    ParseIsCanonical(bs);
    WrapAssembles(Parse(bs).value);
    AssembleAll(Wrap(Parse(bs).value)).value
  }

  lemma CompleteIsAlike(bs: Bytes)
    requires Parse(bs).Some? && Missing(bs) == 0 && Legacy(Parse(bs).value)
    ensures Alike(bs, WrappedCode(bs))
  {
    ParsedIsPlain(bs);
    ParseThenAssemble(bs);
    var body, tail, kept := WrappedBytes(Parse(bs).value);
    OneBodyIsAlike(bs, body + kept, |body|);
  }

  // ---- A PUSH that is cut short ----

  function Zeros(n: nat): Bytes {
    seq(n, _ => 0)
  }

  predicate AllZero(s: Bytes) {
    forall k :: 0 <= k < |s| ==> s[k] == 0
  }

  /** Where the last instruction begins. */
  function LastStart(bs: Bytes): nat
    decreases |bs|
  {
    if bs == [] || 1 + Width(bs) >= |bs| then 0 else 1 + Width(bs) + LastStart(bs[1 + Width(bs)..])
  }

  /** The last PUSH is cut short, not all its bytes are zero, and a run comes to it. */
  predicate CutPushSeen(bs: Bytes) {
    Missing(bs) > 0 && LastStart(bs) < |bs| && !AllZero(bs[LastStart(bs) + 1..]) && Reached(bs, LastStart(bs))
  }

  lemma {:induction false} Padded(s: Bytes, m: nat)
    ensures ToFixedBE(FromBE(s), |s| + m) == Zeros(m) + s
  {
    if s == [] {
      PaddedZero(m);
      assert Zeros(m) + [] == Zeros(m);
    } else {
      var rest, b := s[..|s| - 1], s[|s| - 1];
      Padded(rest, m);
      assert (FromBE(rest) * 256 + b) / 256 == FromBE(rest) && (FromBE(rest) * 256 + b) % 256 == b;
      assert Zeros(m) + rest + [b] == Zeros(m) + s;
    }
  }

  lemma {:induction false} PaddedZero(m: nat)
    ensures ToFixedBE(0, m) == Zeros(m)
  {
    if m > 0 {
      PaddedZero(m - 1);
      assert Zeros(m - 1) + [0] == Zeros(m);
    }
  }

  /** Moving zeros from behind to the front changes nothing exactly if there is nothing else. */
  lemma {:induction false} ZerosMove(s: Bytes, m: nat)
    requires m > 0
    ensures s + Zeros(m) == Zeros(m) + s <==> AllZero(s)
  {
    if AllZero(s) {
      assert s + Zeros(m) == Zeros(m) + s;
    } else if s + Zeros(m) == Zeros(m) + s {
      ZerosMoveBack(s, m, |s|);
      assert false;
    }
  }

  lemma {:induction false} ZerosMoveBack(s: Bytes, m: nat, n: nat)
    requires m > 0 && n <= |s| && s + Zeros(m) == Zeros(m) + s
    ensures AllZero(s[..n])
  {
    if n > 0 {
      ZerosMoveBack(s, m, n - 1);
      var k := n - 1;
      assert s[k] == (s + Zeros(m))[k] == (Zeros(m) + s)[k];
      if k >= m {
        assert s[k] == s[k - m] == s[..n - 1][k - m];
      }
    }
  }

  lemma {:induction false} BoundaryShift(front: Bytes, s: Bytes, pc: nat, end: nat)
    requires end <= |s|
    ensures Boundary(front + s, |front| + pc, |front| + end) <==> Boundary(s, pc, end)
    decreases end - pc
  {
    if pc < end {
      assert At(front + s, |front| + pc) == At(s, pc);
      BoundaryShift(front, s, NextPc(s, pc), end);
    }
  }

  /** The instructions but the last are as they were, and the last PUSH has its zeros in front. */
  ghost predicate CutShape(bs: Bytes, code: seq<Instr>) {
    var q, m := LastStart(bs), Missing(bs);
    && q < |bs| && IsPush(bs[q]) && |bs| - q - 1 + m == bs[q] - 0x5F && Boundary(bs, 0, q)
    && AssembleAll(code) == Some(bs[..q + 1] + Zeros(m) + bs[q + 1..])
    && code != [] && !Ends(code[|code| - 1])
  }

  lemma LegacyWidth(bs: Bytes)
    requires bs != [] && IsLegacy(bs[0])
    ensures First(bs).opcode == bs[0]
    ensures NextPc(bs, 0) == 1 + Width(bs) && (Width(bs) > 0 <==> IsPush(bs[0])) && Width(bs) == DataLength(bs[0])
  {}

  lemma AssembleCut(bs: Bytes)
    requires bs != [] && IsLegacy(bs[0]) && 1 + Width(bs) > |bs|
    ensures Assemble(First(bs)) == Some([bs[0]] + (Zeros(1 + Width(bs) - |bs|) + bs[1..]))
  {
    LegacyWidth(bs);
    var op, rest, w := bs[0], bs[1..], Width(bs);
    assert Take(rest, w) == rest;
    assert First(bs) == Instr(op, [FromBE(rest)]);
    TruncatedFits(rest, w);
    Padded(rest, w - |rest|);
    assert Unsigned(FromBE(rest), w) == Some(Zeros(w - |rest|) + rest);
    assert Immediate(op, [FromBE(rest)]) == Unsigned(FromBE(rest), w);
  }

  lemma CutOnly(bs: Bytes)
    requires bs != [] && IsLegacy(bs[0]) && 1 + Width(bs) > |bs|
    ensures Missing(bs) == 1 + Width(bs) - |bs| && CutShape(bs, [First(bs)])
  {
    LegacyWidth(bs);
    AssembleCut(bs);
    AssembleOne(First(bs));
    var m := 1 + Width(bs) - |bs|;
    assert bs[..1] == [bs[0]];
    Associative([bs[0]], Zeros(m), bs[1..]);
  }

  lemma Join(bs: Bytes, n: nat, q: nat, zeros: Bytes)
    requires n + q + 1 <= |bs|
    ensures bs[..n] + (bs[n..][..q + 1] + zeros + bs[n..][q + 1..]) == bs[..n + q + 1] + zeros + bs[n + q + 1..]
  {
    assert bs[..n] + bs[n..][..q + 1] == bs[..n + q + 1] && bs[n..][q + 1..] == bs[n + q + 1..];
    assert bs[..n] + (bs[n..][..q + 1] + zeros + bs[n..][q + 1..]) ==
           bs[..n] + bs[n..][..q + 1] + zeros + bs[n..][q + 1..];
  }

  lemma CutBehind(bs: Bytes, tail: Bytes, code: seq<Instr>)
    requires bs != [] && IsLegacy(bs[0]) && 1 + Width(bs) < |bs| && tail == bs[1 + Width(bs)..]
    requires CutShape(tail, code)
    ensures CutShape(bs, [First(bs)] + code)
  {
    LegacyWidth(bs);
    var n, q, m := 1 + Width(bs), LastStart(tail), Missing(tail);
    assert LastStart(bs) == n + q && Missing(bs) == m;
    BoundaryBehind(bs, n, tail, q);
    AssembleFirst(bs);
    AssembleAllCons(First(bs), code);
    Join(bs, n, q, Zeros(m));
  }

  lemma BoundaryBehind(bs: Bytes, n: nat, tail: Bytes, q: nat)
    requires 0 < n <= |bs| && tail == bs[n..] && NextPc(bs, 0) == n && q <= |tail| && Boundary(tail, 0, q)
    ensures Boundary(bs, 0, n + q)
  {
    assert bs == bs[..n] + tail;
    BoundaryShift(bs[..n], tail, 0, q);
  }

  lemma {:induction false} CutIsShaped(bs: Bytes)
    requires Parse(bs).Some? && Legacy(Parse(bs).value) && Missing(bs) > 0
    ensures CutShape(bs, Parse(bs).value)
    decreases |bs|
  {
    var n := 1 + Width(bs);
    var tail := Drop(bs, n);
    ParseCons(First(bs), bs, tail);
    assert Parse(bs).value[0] == First(bs);
    assert Parse(bs).value == [First(bs)] + Parse(tail).value;
    if n >= |bs| {
      assert [First(bs)] + [] == [First(bs)];
      CutOnly(bs);
    } else {
      assert Parse(bs).value[1..] == Parse(tail).value;
      CutIsShaped(tail);
      CutBehind(bs, tail, Parse(tail).value);
    }
  }

  lemma WrapCut(bs: Bytes, code: seq<Instr>, assembled: Bytes)
    requires Parse(bs) == Some(code) && AssembleAll(code) == Some(assembled)
    requires code != [] && !Ends(code[|code| - 1])
    ensures WrappedCode(bs) == assembled + [0]
  {
    WrapUnended(code);
  }

  lemma WrapUnended(code: seq<Instr>)
    requires code != [] && !Ends(code[|code| - 1]) && AssembleAll(code).Some?
    ensures AssembleAll(Wrap(code)) == Some(AssembleAll(code).value + [0])
  {
    assert Wrap(code) == code + [STOP];
    AssembleOne(STOP);
    AssembleAllAppend(code, [STOP]);
  }

  /** The bytes with `m` zeros put behind position `q`, and a STOP. */
  function Repaired(bs: Bytes, q: nat, m: nat): Bytes
    requires q < |bs|
  {
    bs[..q + 1] + Zeros(m) + bs[q + 1..] + [0]
  }

  lemma CutCodesAlike(bs: Bytes, q: nat, m: nat)
    requires q < |bs| && IsPush(bs[q]) && |bs| - q - 1 + m == bs[q] - 0x5F && m > 0 && Boundary(bs, 0, q)
    ensures Alike(bs, Repaired(bs, q, m)) <==> AllZero(bs[q + 1..]) || !Reached(bs, q)
  {
    CutBodies(bs, Repaired(bs, q, m), q, m);
    AlikeButAt(bs, Repaired(bs, q, m), q);
    ZerosMove(bs[q + 1..], m);
  }

  lemma ShapeAlike(bs: Bytes, code: seq<Instr>)
    requires CutShape(bs, code) && Missing(bs) > 0
    ensures Alike(bs, Repaired(bs, LastStart(bs), Missing(bs))) <==> !CutPushSeen(bs)
  {
    CutCodesAlike(bs, LastStart(bs), Missing(bs));
  }

  lemma CutIsAlike(bs: Bytes)
    requires Parse(bs).Some? && Legacy(Parse(bs).value) && Missing(bs) > 0
    ensures Alike(bs, WrappedCode(bs)) <==> !CutPushSeen(bs)
  {
    CutIsShaped(bs);
    ShapeAlike(bs, Parse(bs).value);
    CutWrapped(bs);
  }

  lemma CutWrapped(bs: Bytes)
    requires Parse(bs).Some? && Legacy(Parse(bs).value) && Missing(bs) > 0
    ensures LastStart(bs) < |bs| && WrappedCode(bs) == Repaired(bs, LastStart(bs), Missing(bs))
  {
    CutIsShaped(bs);
    var q, m := LastStart(bs), Missing(bs);
    WrapCut(bs, Parse(bs).value, bs[..q + 1] + Zeros(m) + bs[q + 1..]);
  }

  lemma DataIs(c: Bytes, q: nat, s: Bytes)
    requires IsPush(At(c, q)) && |s| == At(c, q) - 0x5F && forall k :: 0 <= k < |s| ==> At(c, q + 1 + k) == s[k]
    ensures Data(c, q) == s
  {}

  lemma CutBodies(bs: Bytes, w: Bytes, q: nat, m: nat)
    requires q < |bs| && IsPush(bs[q]) && |bs| - q - 1 + m == bs[q] - 0x5F
    requires w == bs[..q + 1] + Zeros(m) + bs[q + 1..] + [0]
    ensures OneBody(bs, w, q)
    ensures var last := NextPc(bs, q); At(bs, last) == At(w, last) == 0
    ensures Data(bs, q) == bs[q + 1..] + Zeros(m) && Data(w, q) == Zeros(m) + bs[q + 1..]
  {
    assert w[q] == bs[q] && w[..q] == bs[..q];
    var last := NextPc(bs, q);
    assert last == |bs| + m == |w| - 1;
    assert JumpDests(w, last) == {} by {
      assert w[last] == 0;
    }
    DataIs(bs, q, bs[q + 1..] + Zeros(m));
    DataIs(w, q, Zeros(m) + bs[q + 1..]);
  }

  /**
   Legacy code keeps its behaviour exactly if no run sees a last PUSH that is cut short and whose bytes are
   not all zero. Then it does on every machine: every run takes the same steps and halts the same way.
   */
  lemma WrapIsAlike(bs: Bytes)
    requires Parse(bs).Some? && Legacy(Parse(bs).value)
    ensures Alike(bs, WrappedCode(bs)) <==> !CutPushSeen(bs)
    ensures SameRuns(bs, WrappedCode(bs)) <==> !CutPushSeen(bs)
  {
    AlikeIffSameRuns(bs, WrappedCode(bs));
    if Missing(bs) == 0 {
      CompleteIsAlike(bs);
    } else {
      CutIsAlike(bs);
    }
  }

  lemma WrapPreservesBehaviour<S(!new), R>(m: Machine<S, R>, bs: Bytes, state: S, steps: nat)
    requires LegacyMachine(m)
    requires Parse(bs).Some? && Legacy(Parse(bs).value) && !CutPushSeen(bs)
    ensures Run(m, WrappedCode(bs), 0, state, steps) == Run(m, bs, 0, state, steps)
  {
    WrapIsAlike(bs);
    AlikeRun(m, bs, WrappedCode(bs), 0, state, steps);
  }

  // ---- Any code, legacy or not ----

  /** Every instruction is a terminating one. */
  predicate OnlyEnds(bs: Bytes)
    decreases |bs|
  {
    bs == [] || (Terminating(bs[0]) && OnlyEnds(Drop(bs, 1 + Width(bs))))
  }

  /** The bytes up to the first of the terminating instructions at the end. */
  function Kept(bs: Bytes): (n: nat)
    requires Missing(bs) == 0
    ensures n <= |bs|
    decreases |bs|
  {
    if bs == [] then 0
    else if OnlyEnds(bs) then 1 + Width(bs)
    else 1 + Width(bs) + Kept(Drop(bs, 1 + Width(bs)))
  }

  predicate EachEnds(code: seq<Instr>) {
    forall k :: 0 <= k < |code| ==> Ends(code[k])
  }

  lemma AllEndCons(i: Instr, rest: seq<Instr>)
    ensures EachEnds([i] + rest) <==> Ends(i) && EachEnds(rest)
  {
    if EachEnds([i] + rest) {
      assert ([i] + rest)[0] == i && forall k :: 0 <= k < |rest| ==> rest[k] == ([i] + rest)[k + 1];
    }
  }

  lemma {:induction false} OnlyEndsIsAll(bs: Bytes)
    requires Parse(bs).Some?
    ensures OnlyEnds(bs) <==> EachEnds(Parse(bs).value)
    decreases |bs|
  {
    if bs != [] {
      var tail := Drop(bs, 1 + Width(bs));
      OnlyEndsIsAll(tail);
      ParseCons(First(bs), bs, tail);
      AllEndCons(First(bs), Parse(tail).value);
    }
  }

  /** The body ends where it says. */
  lemma BodyIs(code: seq<Instr>, n: nat)
    requires n <= |code| && (n == 0 || !Ends(code[n - 1])) && EachEnds(code[n..])
    ensures Body(code) == code[..n]
  {
    var body := Body(code);
    forall k | n <= k < |code| ensures Ends(code[k]) {
      assert code[k] == code[n..][k - n];
    }
    assert |body| == n;
  }

  lemma WrapEnds(code: seq<Instr>)
    requires code != [] && EachEnds(code)
    ensures Wrap(code) == [code[0]]
  {
    BodyIs(code, 0);
  }

  lemma BodyCons(i: Instr, rest: seq<Instr>)
    requires !(Ends(i) && EachEnds(rest))
    ensures Body([i] + rest) == [i] + Body(rest)
  {
    var code, n := [i] + rest, |Body(rest)|;
    assert code[n + 1..] == rest[n..];
    BodyIs(code, n + 1);
  }

  lemma WrapCons(i: Instr, rest: seq<Instr>)
    requires !(Ends(i) && EachEnds(rest))
    ensures Wrap([i] + rest) == [i] + Wrap(rest)
  {
    BodyCons(i, rest);
    assert Body([i] + rest) == [i] + rest <==> Body(rest) == rest;
  }

  /** What is kept is a front part, or all with a STOP behind it. */
  ghost predicate KeptOf(bs: Bytes, kept: nat, wrapped: Bytes)
    requires kept <= |bs|
  {
    wrapped == bs[..kept] || (kept == |bs| && wrapped == bs + [0])
  }

  lemma KeptBehind(bs: Bytes, n: nat, kept: nat, wrapped: Bytes)
    requires n <= |bs| && kept <= |bs| - n && KeptOf(bs[n..], kept, wrapped)
    ensures KeptOf(bs, n + kept, bs[..n] + wrapped)
  {
    assert bs[..n] + bs[n..][..kept] == bs[..n + kept];
    assert bs[..n] + (bs[n..] + [0]) == bs + [0];
  }

  lemma FirstOfComplete(bs: Bytes)
    requires bs != [] && Missing(bs) == 0
    ensures var n := 1 + Width(bs);
            && n <= |bs| && Drop(bs, n) == bs[n..] && Missing(bs[n..]) == 0 && Assemble(First(bs)) == Some(bs[..n])
            && Kept(bs) == if OnlyEnds(bs) then n else n + Kept(bs[n..])
  {
    AssembleFirst(bs);
  }

  /** The terminating instructions at the end come down to the first. */
  lemma WrapOfEnds(i: Instr, rest: seq<Instr>, first: Bytes)
    requires Ends(i) && EachEnds(rest) && Assemble(i) == Some(first)
    ensures AssembleAll(Wrap([i] + rest)) == Some(first)
  {
    AllEndCons(i, rest);
    WrapEnds([i] + rest);
    AssembleOne(i);
  }

  lemma WrapOfOthers(i: Instr, rest: seq<Instr>, first: Bytes, wrapped: Bytes)
    requires !(Ends(i) && EachEnds(rest)) && Assemble(i) == Some(first)
    requires AssembleAll(Wrap(rest)) == Some(wrapped)
    ensures AssembleAll(Wrap([i] + rest)) == Some(first + wrapped)
  {
    WrapCons(i, rest);
    AssembleAllCons(i, Wrap(rest));
  }

  lemma EndsByParts(bs: Bytes, i: Instr, rest: seq<Instr>)
    requires Parse(bs) == Some([i] + rest)
    ensures OnlyEnds(bs) <==> Ends(i) && EachEnds(rest)
  {
    OnlyEndsIsAll(bs);
    AllEndCons(i, rest);
  }

  /** What is kept of the first instruction and of those behind it. */
  lemma KeptStep(bs: Bytes, n: nat, kept: nat, i: Instr, rest: seq<Instr>, wrapped: Bytes)
    requires n <= |bs| && kept <= |bs| - n && Assemble(i) == Some(bs[..n])
    requires AssembleAll(Wrap(rest)) == Some(wrapped) && KeptOf(bs[n..], kept, wrapped)
    ensures var ends, code := Ends(i) && EachEnds(rest), [i] + rest;
            var all := if ends then bs[..n] else bs[..n] + wrapped;
            AssembleAll(Wrap(code)) == Some(all) && KeptOf(bs, if ends then n else n + kept, all)
  {
    if Ends(i) && EachEnds(rest) {
      WrapOfEnds(i, rest, bs[..n]);
    } else {
      WrapOfOthers(i, rest, bs[..n], wrapped);
      KeptBehind(bs, n, kept, wrapped);
    }
  }

  lemma {:induction false} KeptIsWrapped(bs: Bytes, code: seq<Instr>) returns (wrapped: Bytes)
    requires Parse(bs) == Some(code) && Missing(bs) == 0
    ensures AssembleAll(Wrap(code)) == Some(wrapped) && KeptOf(bs, Kept(bs), wrapped)
    decreases |bs|
  {
    if bs == [] {
      AssembleOne(STOP);
      wrapped := [0];
    } else {
      var i, n := First(bs), 1 + Width(bs);
      FirstOfComplete(bs);
      ParseCons(i, bs, bs[n..]);
      var rest := Parse(bs[n..]).value;
      EndsByParts(bs, i, rest);
      var behind := KeptIsWrapped(bs[n..], rest);
      KeptStep(bs, n, Kept(bs[n..]), i, rest, behind);
      wrapped := if OnlyEnds(bs) then bs[..n] else bs[..n] + behind;
    }
  }

  /**
   Complete code, legacy or not, keeps its behaviour exactly if no run comes to a byte that is dropped, or to
   a PUSH that loses a part of its immediate, other than zeros.
   */
  lemma CompleteKeepsRuns(bs: Bytes)
    requires Parse(bs).Some? && Missing(bs) == 0
    ensures SameRuns(bs, WrappedCode(bs)) <==> !SeenFrom(bs, Kept(bs))
  {
    var wrapped := KeptIsWrapped(bs, Parse(bs).value);
    if wrapped == bs[..Kept(bs)] {
      FrontIsAlike(bs, Kept(bs));
      AlikeIffSameRuns(bs, WrappedCode(bs));
    } else {
      StopIsAlike(bs);
    }
  }

  /** Any code, legacy or not, keeps its behaviour exactly if the wrapped code is alike. */
  lemma WrapKeepsRunsIffAlike(bs: Bytes)
    requires Parse(bs).Some?
    ensures SameRuns(bs, WrappedCode(bs)) <==> Alike(bs, WrappedCode(bs))
  {
    AlikeIffSameRuns(bs, WrappedCode(bs));
  }

  // ---- What is not preserved ----

  const HIDDEN: Bytes := [0x60, 0x05, 0x56, 0x00, 0xE5, 0x5B, 0x00]
  const SHOWN: Bytes := [0x60, 0x05, 0x56, 0x00]

  const PUSH_5 := Instr(0x60, [5])
  const JUMP := Instr(0x56, [])
  const JUMPF_5B00 := Instr(0xE5, [0x5B00])

  /**
   Not legacy: the immediate of JUMPF hides a JUMPDEST from the disassembler. JUMPF follows a STOP, so
   `wrap_code` drops it, and with it the target of a jump.
   */
  lemma HiddenJumpDest()
    ensures Parse(HIDDEN) == Some([PUSH_5, JUMP, STOP, JUMPF_5B00]) && Missing(HIDDEN) == 0
    ensures AssembleAll(Wrap([PUSH_5, JUMP, STOP, JUMPF_5B00])) == Some(SHOWN)
    ensures 5 in JumpDests(HIDDEN, 0) && 5 !in JumpDests(SHOWN, 0) && !SameRuns(HIDDEN, SHOWN)
  {
    HiddenIsMissed();
    HiddenCode();
    HiddenWrap();
    ParseThenAssemble(HIDDEN);
    HiddenDests();
  }

  lemma HiddenWrap()
    ensures Wrap([PUSH_5, JUMP, STOP, JUMPF_5B00]) == [PUSH_5, JUMP, STOP]
  {
    assert [PUSH_5, JUMP] + [STOP, JUMPF_5B00] == [PUSH_5, JUMP, STOP, JUMPF_5B00];
    WrapDrops([PUSH_5, JUMP], STOP, JUMPF_5B00);
    assert [PUSH_5, JUMP] + [STOP] == [PUSH_5, JUMP, STOP];
  }

  lemma HiddenIsMissed()
    ensures !SameRuns(HIDDEN, SHOWN)
  {
    HiddenDests();
    AlikeIffSameRuns(HIDDEN, SHOWN);
  }

  lemma HiddenDests()
    ensures 5 in JumpDests(HIDDEN, 0) && 5 !in JumpDests(SHOWN, 0)
  {}

  lemma HiddenCode()
    ensures AssembleAll([PUSH_5, JUMP, STOP]) == Some(SHOWN)
    ensures Parse(HIDDEN) == Some([PUSH_5, JUMP, STOP, JUMPF_5B00])
    ensures AssembleAll([PUSH_5, JUMP, STOP, JUMPF_5B00]) == Some(HIDDEN)
  {
    AssembleData1(PUSH_5, 5);
    AssembleThree(PUSH_5, JUMP, STOP);
    assert [0x60] + [5] + [0x56] + [0] == SHOWN;
    AssembleData2(JUMPF_5B00, 0x5B, 0x00);
    AssembleOne(JUMPF_5B00);
    AssembleAllAppend([PUSH_5, JUMP, STOP], [JUMPF_5B00]);
    assert SHOWN + ([0xE5] + [0x5B, 0x00]) == HIDDEN;
    assert [PUSH_5, JUMP, STOP] + [JUMPF_5B00] == [PUSH_5, JUMP, STOP, JUMPF_5B00];
    HiddenIsCanonical();
    AssembleThenParse([PUSH_5, JUMP, STOP, JUMPF_5B00]);
  }

  lemma HiddenIsCanonical()
    ensures Canonical([PUSH_5, JUMP, STOP, JUMPF_5B00])
  {
    assert Pow256(1) == 256 && Pow256(2) == 65536;
  }

  lemma AssembleData1(i: Instr, b: Byte)
    requires DataLength(i.opcode) == 1 && i.opcode != EXCHANGE && i.operands == [b]
    ensures Assemble(i) == Some([i.opcode] + [b])
  {
    assert Pow256(1) == 256 && ToFixedBE(b, 1) == [b];
  }

  lemma AssembleData2(i: Instr, a: Byte, b: Byte)
    requires DataLength(i.opcode) == 2 && i.operands == [a as int * 256 + b]
    ensures Assemble(i) == Some([i.opcode] + [a, b])
  {
    var n: int := a as int * 256 + b;
    assert n / 256 == a && n % 256 == b && ToFixedBE(a, 1) == [a];
    assert Pow256(2) == 65536 && ToFixedBE(n, 2) == ToFixedBE(a, 1) + [b] == [a, b];
    assert Immediate(i.opcode, i.operands) == Unsigned(n, 2);
  }

  lemma AssembleThree(i: Instr, j: Instr, k: Instr)
    requires Assemble(i).Some? && Assemble(j).Some? && Assemble(k).Some?
    ensures AssembleAll([i, j, k]) == Some(Assemble(i).value + Assemble(j).value + Assemble(k).value)
  {
    var code := [i, j, k];
    assert code[..0] == [] && code[..3] == code && [] + Assemble(i).value == Assemble(i).value;
    AssembleOneMore(code, 0);
    AssembleOneMore(code, 1);
    AssembleOneMore(code, 2);
  }

  lemma WrapDrops(front: seq<Instr>, kept: Instr, dropped: Instr)
    requires front != [] && !Ends(front[|front| - 1]) && Ends(kept) && Ends(dropped)
    ensures Wrap(front + [kept, dropped]) == front + [kept]
  {
    var code := front + [kept, dropped];
    assert code[..|code| - 1] == front + [kept] && code[..|front|] == front;
  }
}
