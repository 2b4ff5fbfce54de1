/**
 The disassembler `process_evm_bytes` and its inverse, the assembly of `OpcodeWithOperands.bytecode`,
 over the opcode table of `Opcodes`.
 */
module Disassembler {
  import opened ByteStrings
  import opened Options

  const JUMPDEST: Byte := 0x5B
  const RJUMP: Byte := 0xE0
  const RJUMPI: Byte := 0xE1
  const RJUMPV: Byte := 0xE2
  const EXCHANGE: Byte := 0xE8

  /** The bytes of the members of `Opcodes`. */
  predicate Known(b: Byte) {
    || b <= 0x0B || 0x10 <= b <= 0x1E || b == 0x20 || 0x30 <= b <= 0x4A || 0x50 <= b <= 0xA4
    || 0xD0 <= b <= 0xD3 || 0xE0 <= b <= 0xE8 || 0xEC <= b <= 0xEE
    || 0xF0 <= b <= 0xF5 || 0xF7 <= b <= 0xFB || 0xFD <= b
  }

  /** `data_portion_length`. */
  function DataLength(b: Byte): nat {
    if 0x60 <= b <= 0x7F then b - 0x5F
    else if b in {0xD1, 0xE0, 0xE1, 0xE3, 0xE5} then 2
    else if b in {0xE6, 0xE7, 0xE8, 0xEC, 0xEE} then 1
    else 0
  }

  predicate Terminating(b: Byte) {
    b in {0x00, 0xE4, 0xE5, 0xEE, 0xF3, 0xFD, 0xFE}
  }

  predicate Signed(b: Byte) {
    b == RJUMP || b == RJUMPI
  }

  const STOP_BYTE: Byte := 0x00
  const DATALOADN: Byte := 0xD1
  const CALLF: Byte := 0xE3
  const RETF: Byte := 0xE4
  const JUMPF: Byte := 0xE5
  const DUPN: Byte := 0xE6
  const SWAPN: Byte := 0xE7
  const EOFCREATE: Byte := 0xEC
  const RETURNCODE: Byte := 0xEE
  const RETURN: Byte := 0xF3
  const REVERT: Byte := 0xFD
  const INVALID: Byte := 0xFE

  /** The table by its names: which opcodes have a data portion, read it with a sign, or end a code. */
  lemma TableByName(b: Byte)
    ensures 0x60 <= b <= 0x7F ==> DataLength(b) == b - 0x5F
    ensures b in {DATALOADN, RJUMP, RJUMPI, CALLF, JUMPF} ==> DataLength(b) == 2
    ensures b in {DUPN, SWAPN, EXCHANGE, EOFCREATE, RETURNCODE} ==> DataLength(b) == 1
    ensures DataLength(b) > 0 <==>
            || 0x60 <= b <= 0x7F || b in {DATALOADN, RJUMP, RJUMPI, CALLF, JUMPF}
            || b in {DUPN, SWAPN, EXCHANGE, EOFCREATE, RETURNCODE}
    ensures Signed(b) <==> b in {RJUMP, RJUMPI}
    ensures Terminating(b) <==> b in {STOP_BYTE, RETF, JUMPF, RETURNCODE, RETURN, REVERT, INVALID}
    ensures DataLength(b) > 0 || Terminating(b) ==> Known(b)
  {}

  datatype Instr = Instr(opcode: Byte, operands: seq<int>)

  // ---- Integers and bytes, as Python converts them ----

  /** `s[:n]`. */
  function Take(s: Bytes, n: nat): Bytes {
    if n <= |s| then s[..n] else s
  }

  /** `s[n:]`. */
  function Drop(s: Bytes, n: nat): Bytes {
    if n <= |s| then s[n..] else []
  }

  /** `n.to_bytes(w, "big", signed=False)`; `None` for its OverflowError. */
  function Unsigned(n: int, w: nat): Option<Bytes> {
    if 0 <= n < Pow256(w) then Some(ToFixedBE(n, w)) else None
  }

  predicate FitsSigned(n: int, w: nat) {
    0 <= 2 * n + Pow256(w) && 2 * n < Pow256(w)
  }

  /** `n.to_bytes(w, "big", signed=True)`. */
  function TwosComplement(n: int, w: nat): Option<Bytes> {
    if FitsSigned(n, w) then Some(ToFixedBE(if n < 0 then n + Pow256(w) else n, w)) else None
  }

  /** `int.from_bytes(s, "big", signed=signed)`. */
  function FromBytes(s: Bytes, signed: bool): int {
    if signed && 2 * FromBE(s) >= Pow256(|s|) then FromBE(s) - Pow256(|s|) else FromBE(s)
  }

  // ---- Parsing ----

  /** `n` two-byte offsets from the front of `s`, which may be too short. */
  function Offsets(s: Bytes, n: nat): (r: seq<int>)
    ensures |r| == n
    decreases n
  {
    if n == 0 then [] else [FromBytes(Take(s, 2), true)] + Offsets(Drop(s, 2), n - 1)
  }

  /** The immediate of the instruction at the front of `bs`, were it complete. */
  function Width(bs: Bytes): nat
    requires bs != []
  {
    if bs[0] == RJUMPV then (if |bs| == 1 then 0 else 1 + 2 * (bs[1] + 1)) else DataLength(bs[0])
  }

  /** The instruction at the front. */
  function First(bs: Bytes): Instr
    requires bs != []
  {
    var op, rest := bs[0], bs[1..];
    if DataLength(op) > 0 then Instr(op, [FromBytes(Take(rest, DataLength(op)), Signed(op))])
    else if op == RJUMPV && rest != [] then Instr(op, Offsets(rest[1..], rest[0] as int + 1))
    else Instr(op, [])
  }

  function Parse(bs: Bytes): Option<seq<Instr>>
    decreases |bs|
  {
    if bs == [] then Some([])
    else if !Known(bs[0]) then None
    else Cons(First(bs), Parse(Drop(bs, 1 + Width(bs))))
  }

  function Cons(i: Instr, code: Option<seq<Instr>>): Option<seq<Instr>> {
    if code.None? then None else Some([i] + code.value)
  }

  function Append(code: seq<Instr>, rest: Option<seq<Instr>>): Option<seq<Instr>> {
    if rest.None? then None else Some(code + rest.value)
  }

  lemma AppendCons(code: seq<Instr>, i: Instr, rest: Option<seq<Instr>>)
    ensures Append(code, Cons(i, rest)) == Append(code + [i], rest)
  {
    if rest.Some? {
      assert code + ([i] + rest.value) == code + [i] + rest.value;
    }
  }

  lemma OffsetsStep(operands: seq<int>, s: Bytes, n: nat)
    requires n > 0
    ensures operands + Offsets(s, n) == operands + [FromBytes(Take(s, 2), true)] + Offsets(Drop(s, 2), n - 1)
  {}

  lemma DropDrop(s: Bytes, m: nat, n: nat)
    ensures Drop(Drop(s, m), n) == Drop(s, m + n)
  {}

  /** The table of an RJUMPV, whose length byte is already taken. */
  method ReadOffsets(table: Bytes, n: nat) returns (operands: seq<int>, left: Bytes)
    ensures operands == Offsets(table, n) && left == Drop(table, 2 * n)
  {
    operands, left := [], table;
    for i := 0 to n
      invariant operands + Offsets(left, n - i) == Offsets(table, n)
      invariant left == Drop(table, 2 * i)
    {
      OffsetsStep(operands, left, n - i);
      DropDrop(table, 2 * i, 2);
      operands := operands + [FromBytes(Take(left, 2), true)];
      left := Drop(left, 2);
    }
  }

  /** The body of the loop of `process_evm_bytes`: an instruction is taken off the front. */
  method TakeInstruction(evmBytes: Bytes) returns (next: Instr, left: Bytes)
    requires evmBytes != []
    ensures next == First(evmBytes) && left == Drop(evmBytes, 1 + Width(evmBytes))
  {
    var op := evmBytes[0];
    left := evmBytes[1..];
    if DataLength(op) > 0 {
      next := Instr(op, [FromBytes(Take(left, DataLength(op)), Signed(op))]);
      left := Drop(left, DataLength(op));
    } else if op == RJUMPV {
      if left == [] {
        next := Instr(op, []);
      } else {
        var maxIndex := left[0];
        var operands;
        operands, left := ReadOffsets(left[1..], maxIndex as int + 1);
        next := Instr(op, operands);
      }
    } else {
      next := Instr(op, []);
    }
  }

  /** `process_evm_bytes`; `None` where it raises ValueError for an unknown opcode. */
  method ProcessEvmBytes(evmBytes: Bytes) returns (r: Option<seq<Instr>>)
    ensures r == Parse(evmBytes)
  {
    var opcodes: seq<Instr> := [];
    var left := evmBytes;
    assert Parse(left).Some? ==> [] + Parse(left).value == Parse(left).value;
    while left != []
      invariant Parse(evmBytes) == Append(opcodes, Parse(left))
      decreases |left|
    {
      if !Known(left[0]) {
        return None;
      }
      var next;
      next, left := TakeInstruction(left);
      AppendCons(opcodes, next, Parse(left));
      opcodes := opcodes + [next];
    }
    assert opcodes + [] == opcodes;
    return Some(opcodes);
  }

  // ---- Assembling ----

  /** The table of `_rjumpv_encoder`. */
  function EncodeOffsets(offsets: seq<int>): Option<Bytes> {
    if offsets == [] then Some([])
    else
      var first, rest := TwosComplement(offsets[0], 2), EncodeOffsets(offsets[1..]);
      if first.None? || rest.None? then None else Some(first.value + rest.value)
  }

  /** The data portion `__getitem__` makes of at least one operand; `None` where it raises. */
  function Immediate(op: Byte, operands: seq<int>): Option<Bytes>
    requires operands != []
  {
    if op == RJUMPV then
      var table := EncodeOffsets(operands);
      if |operands| > 256 || table.None? then None else Some([|operands| - 1] + table.value)
    else if op == EXCHANGE then
      if |operands| == 1 then Unsigned(operands[0], 1)
      else if |operands| == 2 && 2 <= operands[0] <= 0x11 && operands[0] + 1 <= operands[1] <= operands[0] + 0x10 then
        Unsigned((operands[0] - 2) * 16 + operands[1] - operands[0] - 1, 1)
      else None
    else if DataLength(op) > 0 && |operands| == 1 then
      if operands[0] < 0 then TwosComplement(operands[0], DataLength(op)) else Unsigned(operands[0], DataLength(op))
    else None
  }

  /**
   An EXCHANGE of two stack items is encoded exactly if they are near enough to the top and to each other, and
   both places can be read from the byte: the high nibble tells the first, the low one how much deeper the
   second is.
   */
  lemma ExchangeIsRead(x: int, y: int)
    ensures var data := Immediate(EXCHANGE, [x, y]);
            && (data.Some? <==> 2 <= x <= 17 && 1 <= y - x <= 16)
            && (data.Some? ==> |data.value| == 1 && data.value[0] / 16 == x - 2 && data.value[0] % 16 == y - x - 1)
  {
    if 2 <= x <= 17 && 1 <= y - x <= 16 {
      var n := (x - 2) * 16 + y - x - 1;
      assert 0 <= n < 256 && Pow256(1) == 256 && ToFixedBE(n, 1) == [n];
    }
  }

  /** `OpcodeWithOperands.bytecode`. */
  function Assemble(i: Instr): Option<Bytes> {
    if i.operands == [] then Some([i.opcode])
    else
      var data := Immediate(i.opcode, i.operands);
      if data.None? then None else Some([i.opcode] + data.value)
  }

  function AssembleAll(code: seq<Instr>): Option<Bytes> {
    if code == [] then Some([])
    else
      var first, rest := Assemble(code[0]), AssembleAll(code[1..]);
      if first.None? || rest.None? then None else Some(first.value + rest.value)
  }

  lemma AssembleAllCons(i: Instr, rest: seq<Instr>)
    requires Assemble(i).Some? && AssembleAll(rest).Some?
    ensures AssembleAll([i] + rest) == Some(Assemble(i).value + AssembleAll(rest).value)
  {
    assert ([i] + rest)[1..] == rest;
  }

  lemma {:induction false} AssembleAllAppend(a: seq<Instr>, b: seq<Instr>)
    requires AssembleAll(a).Some? && AssembleAll(b).Some?
    ensures AssembleAll(a + b) == Some(AssembleAll(a).value + AssembleAll(b).value)
  {
    if a == [] {
      assert a + b == b && [] + AssembleAll(b).value == AssembleAll(b).value;
    } else {
      var i, rest := a[0], a[1..];
      AssembleAllAppend(rest, b);
      assert a + b == [i] + (rest + b);
      AssembleAllCons(i, rest + b);
      Associative(Assemble(i).value, AssembleAll(rest).value, AssembleAll(b).value);
    }
  }

  lemma Associative(a: Bytes, b: Bytes, c: Bytes)
    ensures a + (b + c) == a + b + c
  {}

  // ---- Canonical instructions ----

  /** The operands are what some complete immediate of the opcode means. */
  predicate Complete(i: Instr) {
    if DataLength(i.opcode) > 0 then
      |i.operands| == 1 &&
      if Signed(i.opcode) then FitsSigned(i.operands[0], DataLength(i.opcode))
      else 0 <= i.operands[0] < Pow256(DataLength(i.opcode))
    else if i.opcode == RJUMPV then
      1 <= |i.operands| <= 256 && forall k :: 0 <= k < |i.operands| ==> FitsSigned(i.operands[k], 2)
    else i.operands == []
  }

  /** Known opcodes with complete operands; only the last may be an RJUMPV without its table. */
  predicate Canonical(code: seq<Instr>) {
    forall k :: 0 <= k < |code| ==>
      && Known(code[k].opcode)
      && (Complete(code[k]) || (k == |code| - 1 && code[k] == Instr(RJUMPV, [])))
  }

  lemma FromTwosComplement(n: int, w: nat)
    requires FitsSigned(n, w)
    ensures TwosComplement(n, w).Some? && |TwosComplement(n, w).value| == w
    ensures FromBytes(TwosComplement(n, w).value, true) == n
  {
    FromToFixedBE(if n < 0 then n + Pow256(w) else n, w);
  }

  lemma FromUnsigned(n: int, w: nat)
    requires 0 <= n < Pow256(w)
    ensures Unsigned(n, w).Some? && |Unsigned(n, w).value| == w
    ensures FromBytes(Unsigned(n, w).value, false) == n
  {
    FromToFixedBE(n, w);
  }

  lemma TwosComplementFrom(s: Bytes)
    ensures FitsSigned(FromBytes(s, true), |s|)
    ensures TwosComplement(FromBytes(s, true), |s|) == Some(s)
  {
    ToFixedFromBE(s);
  }

  lemma UnsignedFrom(s: Bytes)
    ensures 0 <= FromBytes(s, false) < Pow256(|s|)
    ensures Unsigned(FromBytes(s, false), |s|) == Some(s)
  {
    ToFixedFromBE(s);
  }

  // ---- Assembling and parsing back ----

  lemma {:induction false} OffsetsOfEncoded(offsets: seq<int>, tail: Bytes)
    requires forall k :: 0 <= k < |offsets| ==> FitsSigned(offsets[k], 2)
    ensures EncodeOffsets(offsets).Some? && |EncodeOffsets(offsets).value| == 2 * |offsets|
    ensures Offsets(EncodeOffsets(offsets).value + tail, |offsets|) == offsets
  {
    if offsets != [] {
      OffsetsOfEncoded(offsets[1..], tail);
      FromTwosComplement(offsets[0], 2);
      var first, rest := TwosComplement(offsets[0], 2).value, EncodeOffsets(offsets[1..]).value;
      assert first + rest + tail == first + (rest + tail);
      TakeDrop(first, rest + tail);
    }
  }

  lemma TakeDrop(a: Bytes, b: Bytes)
    ensures Take(a + b, |a|) == a && Drop(a + b, |a|) == b
  {}

  lemma AssembleComplete(i: Instr)
    requires Complete(i)
    ensures Assemble(i).Some? && Assemble(i).value != [] && Assemble(i).value[0] == i.opcode
  {
    if DataLength(i.opcode) > 0 {
      AssembleData(i, []);
    } else if i.opcode == RJUMPV {
      OffsetsOfEncoded(i.operands, []);
    }
  }

  lemma ImmediateOfData(i: Instr)
    requires Complete(i) && DataLength(i.opcode) > 0
    ensures var data := Immediate(i.opcode, i.operands);
            && data.Some? && |data.value| == DataLength(i.opcode)
            && FromBytes(data.value, Signed(i.opcode)) == i.operands[0]
  {
    var n, w := i.operands[0], DataLength(i.opcode);
    if n < 0 {
      FromTwosComplement(n, w);
    } else {
      FromUnsigned(n, w);
      if Signed(i.opcode) {
        FromTwosComplement(n, w);
      }
    }
  }

  lemma AssembleData(i: Instr, tail: Bytes)
    requires Complete(i) && DataLength(i.opcode) > 0
    ensures Assemble(i).Some?
    ensures First(Assemble(i).value + tail) == i
    ensures Drop(Assemble(i).value + tail, 1 + Width(Assemble(i).value + tail)) == tail
  {
    ImmediateOfData(i);
    var data := Immediate(i.opcode, i.operands).value;
    var all := [i.opcode] + data;
    assert (all + tail)[1..] == data + tail && (all + tail)[0] == i.opcode;
    TakeDrop(data, tail);
    TakeDrop(all, tail);
    assert i.operands == [i.operands[0]];
  }

  /** A complete instruction in front of anything is read back, and nothing more. */
  lemma FirstOfAssembled(i: Instr, tail: Bytes)
    requires Complete(i)
    ensures Assemble(i).Some? && Assemble(i).value != []
    ensures First(Assemble(i).value + tail) == i
    ensures Drop(Assemble(i).value + tail, 1 + Width(Assemble(i).value + tail)) == tail
  {
    if DataLength(i.opcode) > 0 {
      AssembleData(i, tail);
    } else if i.opcode == RJUMPV {
      OffsetsOfEncoded(i.operands, tail);
      var table := EncodeOffsets(i.operands).value;
      var all := [i.opcode, |i.operands| - 1] + table;
      assert Assemble(i).value == all;
      assert (all + tail)[1..][1..] == table + tail;
      TakeDrop(all, tail);
    } else {
      TakeDrop([i.opcode], tail);
    }
  }

  lemma ParseCons(i: Instr, bs: Bytes, tail: Bytes)
    requires bs != [] && Known(bs[0]) && First(bs) == i && Drop(bs, 1 + Width(bs)) == tail
    ensures Parse(bs) == Cons(i, Parse(tail))
  {}

  lemma ParseOfOneMore(i: Instr, rest: seq<Instr>)
    requires Known(i.opcode) && (Complete(i) || (rest == [] && i == Instr(RJUMPV, [])))
    requires AssembleAll(rest).Some? && Parse(AssembleAll(rest).value) == Some(rest)
    ensures AssembleAll([i] + rest).Some? && Parse(AssembleAll([i] + rest).value) == Some([i] + rest)
  {
    var tail := AssembleAll(rest).value;
    if Complete(i) {
      FirstOfAssembled(i, tail);
      AssembleComplete(i);
    } else {
      assert [RJUMPV] + tail == [RJUMPV];
    }
    AssembleAllCons(i, rest);
    ParseCons(i, Assemble(i).value + tail, tail);
  }

  lemma {:induction false} ParseOfAssembled(code: seq<Instr>)
    requires Canonical(code)
    ensures AssembleAll(code).Some? && Parse(AssembleAll(code).value) == Some(code)
  {
    if code != [] {
      ParseOfAssembled(code[1..]);
      ParseOfOneMore(code[0], code[1..]);
      assert code == [code[0]] + code[1..];
    }
  }

  lemma {:induction false} PowMonotone(v: nat, w: nat)
    requires v <= w
    ensures Pow256(v) <= Pow256(w)
  {
    if v < w {
      PowMonotone(v, w - 1);
    }
  }

  /** However few of its bytes are there, an operand is one of a complete immediate. */
  lemma TruncatedFits(s: Bytes, w: nat)
    ensures FitsSigned(FromBytes(Take(s, w), true), w)
    ensures 0 <= FromBytes(Take(s, w), false) < Pow256(w)
  {
    TwosComplementFrom(Take(s, w));
    UnsignedFrom(Take(s, w));
    PowMonotone(|Take(s, w)|, w);
  }

  lemma {:induction false} OffsetsFit(s: Bytes, n: nat)
    ensures forall k :: 0 <= k < n ==> FitsSigned(Offsets(s, n)[k], 2)
  {
    if n > 0 {
      TruncatedFits(s, 2);
      OffsetsFit(Drop(s, 2), n - 1);
    }
  }

  lemma FirstIsComplete(bs: Bytes)
    requires bs != []
    ensures Complete(First(bs)) || (bs == [RJUMPV] && First(bs) == Instr(RJUMPV, []))
  {
    if DataLength(bs[0]) > 0 {
      TruncatedFits(bs[1..], DataLength(bs[0]));
    } else if bs[0] == RJUMPV && |bs| > 1 {
      OffsetsFit(bs[2..], bs[1] as int + 1);
      assert bs[1..][1..] == bs[2..];
    }
  }

  lemma {:induction false} ParseIsCanonical(bs: Bytes)
    requires Parse(bs).Some?
    ensures Canonical(Parse(bs).value)
    decreases |bs|
  {
    if bs != [] {
      FirstIsComplete(bs);
      ParseIsCanonical(Drop(bs, 1 + Width(bs)));
    }
  }

  /** Assembling and parsing back returns the instructions exactly if they are canonical. */
  lemma AssembleThenParse(code: seq<Instr>)
    ensures AssembleAll(code).Some? && Parse(AssembleAll(code).value) == Some(code) <==> Canonical(code)
  {
    if Canonical(code) {
      ParseOfAssembled(code);
    } else if AssembleAll(code).Some? && Parse(AssembleAll(code).value).Some? {
      ParseIsCanonical(AssembleAll(code).value);
    }
  }

  // ---- Parsing and assembling back ----

  /** How many bytes the last immediate lacks. */
  function Missing(bs: Bytes): nat
    decreases |bs|
  {
    if bs == [] then 0
    else if 1 + Width(bs) >= |bs| then 1 + Width(bs) - |bs|
    else Missing(bs[1 + Width(bs)..])
  }

  lemma {:induction false} EncodedOffsets(s: Bytes, n: nat)
    ensures EncodeOffsets(Offsets(s, n)).Some? && |EncodeOffsets(Offsets(s, n)).value| == 2 * n
    ensures 2 * n <= |s| ==> EncodeOffsets(Offsets(s, n)).value == s[..2 * n]
  {
    OffsetsFit(s, n);
    OffsetsOfEncoded(Offsets(s, n), []);
    if n > 0 && 2 * n <= |s| {
      TwosComplementFrom(s[..2]);
      EncodedOffsets(s[2..], n - 1);
      assert s[..2] + s[2..][..2 * (n - 1)] == s[..2 * n];
    }
  }

  lemma ImmediateOfBytes(op: Byte, data: Bytes)
    requires 0 < DataLength(op) == |data|
    ensures Immediate(op, [FromBytes(data, Signed(op))]) == Some(data)
  {
    TwosComplementFrom(data);
    UnsignedFrom(data);
  }

  lemma AssembleFirstData(bs: Bytes)
    requires bs != [] && DataLength(bs[0]) > 0
    ensures Assemble(First(bs)).Some? && |Assemble(First(bs)).value| == 1 + Width(bs)
    ensures 1 + Width(bs) <= |bs| ==> Assemble(First(bs)).value == bs[..1 + Width(bs)]
  {
    var op, rest := bs[0], bs[1..];
    var w := DataLength(op);
    var taken := Take(rest, w);
    var i := Instr(op, [FromBytes(taken, Signed(op))]);
    assert First(bs) == i;
    TruncatedFits(rest, w);
    ImmediateOfData(i);
    if w < |bs| {
      ImmediateOfBytes(op, taken);
      assert bs[..1 + w] == [op] + taken;
    }
  }

  lemma AssembleFirstTable(bs: Bytes)
    requires |bs| > 1 && bs[0] == RJUMPV
    ensures Assemble(First(bs)).Some? && |Assemble(First(bs)).value| == 1 + Width(bs)
    ensures 1 + Width(bs) <= |bs| ==> Assemble(First(bs)).value == bs[..1 + Width(bs)]
  {
    var table, n := bs[2..], bs[1] as int + 1;
    assert bs[1..][1..] == table;
    EncodedOffsets(table, n);
    var e := EncodeOffsets(Offsets(table, n)).value;
    assert Immediate(RJUMPV, Offsets(table, n)) == Some([n - 1] + e);
    assert Assemble(First(bs)) == Some([RJUMPV] + ([n - 1] + e));
    if 2 + 2 * n <= |bs| {
      assert bs[..2 + 2 * n] == [RJUMPV] + ([n - 1] + table[..2 * n]);
    }
  }

  /** Assembling the first instruction gives its bytes, or as many as it should have had. */
  lemma AssembleFirst(bs: Bytes)
    requires bs != []
    ensures Assemble(First(bs)).Some? && |Assemble(First(bs)).value| == 1 + Width(bs)
    ensures 1 + Width(bs) <= |bs| ==> Assemble(First(bs)).value == bs[..1 + Width(bs)]
  {
    if DataLength(bs[0]) > 0 {
      AssembleFirstData(bs);
    } else if bs[0] == RJUMPV && |bs| > 1 {
      AssembleFirstTable(bs);
    }
  }

  /**
   Assembling what was parsed returns the bytes exactly if no immediate is cut short; otherwise the
   result is longer by what was missing.
   */
  lemma {:induction false} ParseThenAssemble(bs: Bytes)
    requires Parse(bs).Some?
    ensures AssembleAll(Parse(bs).value).Some?
    ensures |AssembleAll(Parse(bs).value).value| == |bs| + Missing(bs)
    ensures AssembleAll(Parse(bs).value).value == bs <==> Missing(bs) == 0
    decreases |bs|
  {
    if bs != [] {
      var n := 1 + Width(bs);
      var tail := Drop(bs, n);
      ParseCons(First(bs), bs, tail);
      ParseThenAssemble(tail);
      AssembleFirst(bs);
      AssembleAllCons(First(bs), Parse(tail).value);
      MissingCons(bs);
      SplitEqual(bs, n, Assemble(First(bs)).value, AssembleAll(Parse(tail).value).value);
    }
  }

  lemma MissingCons(bs: Bytes)
    requires bs != []
    ensures Missing(bs) == if |bs| < 1 + Width(bs) then 1 + Width(bs) - |bs| else Missing(Drop(bs, 1 + Width(bs)))
  {}

  lemma SplitEqual(bs: Bytes, n: nat, front: Bytes, tail: Bytes)
    requires |front| == n && (n <= |bs| ==> front == bs[..n])
    ensures front + tail == bs <==> n <= |bs| && tail == Drop(bs, n)
  {
    if n <= |bs| {
      assert bs == bs[..n] + bs[n..];
      assert (front + tail)[n..] == tail;
    }
  }

  /** One pass settles: what was parsed, complete or not, assembles to bytes that parse to the same. */
  lemma ParseIsStable(bs: Bytes)
    requires Parse(bs).Some?
    ensures AssembleAll(Parse(bs).value).Some?
    ensures Parse(AssembleAll(Parse(bs).value).value) == Parse(bs)
  {
    ParseIsCanonical(bs);
    AssembleThenParse(Parse(bs).value);
  }
}
