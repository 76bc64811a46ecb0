/** `parse_instruction`: one line of assembly text to a 20-character bit
    string. The model splits it in two: `Decode` turns the text into an
    `Instr` (every exception the source can raise comes from this half),
    and `Encode` writes the instruction with the field encoders, which
    never fail. */
module Instructions {
  import opened Results
  import opened PythonText
  import opened PythonNumbers
  import opened Registers
  import opened Fields

  /** The exceptions the assembler can raise, one per cause. */
  datatype AsmError =
    | UnsupportedInstruction(instruction: string)  // the ValueError of the dispatch
    | MissingToken(instruction: string)            // IndexError on the token list
    | NotAnInteger(literal: string)                // ValueError of int(s)
    | MalformedOffset(operand: string)             // unpacking offset_reg.split("(")
    | NotBinary(literal: string)                   // ValueError of int(s, 2)
    | NoSignedField(word: string)                  // to_hex on a word without '-'

  /** The text of the dispatch error. */
  function UnsupportedMessage(instruction: string): string {
    "Unsupported instruction: " + instruction
  }

  /** The dispatch error names the offending instruction. */
  lemma UnsupportedMessageNamesInstruction(instruction: string)
    ensures Contains(UnsupportedMessage(instruction), instruction)
  {
    var m := UnsupportedMessage(instruction);
    var p := "Unsupported instruction: ";
    assert m[|p|..|p| + |instruction|] == instruction;
    assert OccursAt(m, instruction, |p|);
    ContainsIffOccurs(m, instruction);
  }

  /** How a mnemonic reads its operands. */
  datatype Shape =
    | RegisterOp   // op rd, rs, rt
    | ShiftOp      // op rt, rs, shamt
    | ImmediateOp  // op rt, rs, imm   (also beq/bneq: op rt, rs, offset)
    | MemoryOp     // op rt, offset(rs)
    | JumpOp       // op target

  /** A table entry: the 4-bit opcode, as a number, and the operand shape. */
  datatype Operation = Operation(opcode: nat, shape: Shape)

  /** The 16 mnemonics of the dispatch, in source order. */
  const Mnemonics: seq<string> := [
    "add", "addi", "sub", "subi", "and", "andi", "or", "ori",
    "lw", "sw", "sll", "srl", "nor", "beq", "bneq", "j"]

  /** The dispatch table: opcode and operand shape of each mnemonic. */
  function OperationOf(m: string): (r: Option<Operation>)
    ensures r.Some? ==> r.value.opcode < 16
  {
    if m == "add" then Some(Operation(9, RegisterOp))
    else if m == "addi" then Some(Operation(14, ImmediateOp))
    else if m == "sub" then Some(Operation(13, RegisterOp))
    else if m == "subi" then Some(Operation(8, ImmediateOp))
    else if m == "and" then Some(Operation(1, RegisterOp))
    else if m == "andi" then Some(Operation(2, ImmediateOp))
    else if m == "or" then Some(Operation(5, RegisterOp))
    else if m == "ori" then Some(Operation(10, ImmediateOp))
    else if m == "lw" then Some(Operation(7, MemoryOp))
    else if m == "sw" then Some(Operation(0, MemoryOp))
    else if m == "sll" then Some(Operation(6, ShiftOp))
    else if m == "srl" then Some(Operation(11, ShiftOp))
    else if m == "nor" then Some(Operation(4, RegisterOp))
    else if m == "beq" then Some(Operation(12, ImmediateOp))
    else if m == "bneq" then Some(Operation(15, ImmediateOp))
    else if m == "j" then Some(Operation(3, JumpOp))
    else None
  }

  /** The opcodes of the dispatch, in source order. */
  const Opcodes: seq<nat> := [9, 14, 13, 8, 1, 2, 5, 10, 7, 0, 6, 11, 4, 12, 15, 3]

  /** Exactly the 16 mnemonics are supported, the k-th with the k-th opcode. */
  lemma DispatchTable(m: string)
    ensures OperationOf(m).Some? <==> m in Mnemonics
    ensures forall k :: 0 <= k < 16 && Mnemonics[k] == m ==> OperationOf(m).value.opcode == Opcodes[k]
  {
  }

  /** No two mnemonics share an opcode; every 4-bit opcode is used. */
  lemma OpcodesDistinct()
    ensures |Opcodes| == 16
    ensures forall i, j :: 0 <= i < j < 16 ==> Opcodes[i] != Opcodes[j]
    ensures forall c :: 0 <= c < 16 ==> c in Opcodes
  {
  }

  /** `instruction.replace(",", " ").split()`; the per-token strip and the
      filter that follow in the source keep every token as it is. */
  function Tokenize(instruction: string): (tokens: seq<string>) {
    Words(ReplaceChar(instruction, ',', ' '))
  }

  /** Tokens are non-empty and hold neither whitespace nor commas. */
  lemma {:induction false} TokensAreWords(instruction: string)
    ensures forall k :: 0 <= k < |Tokenize(instruction)| ==> IsWord(Tokenize(instruction)[k])
  {
    WordsAreWords(ReplaceChar(instruction, ',', ' '));
  }

  /** A decoded instruction: opcode and register operands as written, plus
      the numeric fields as Python integers. */
  datatype Instr =
    | RInstr(opcode: nat, rs: string, rt: string, rd: string, shamt: int)
    | IInstr(opcode: nat, rs: string, rt: string, imm: int)
    | JInstr(opcode: nat, target: int)

  /** `int(s)`, with its ValueError. */
  function Int(s: string): (r: Result<int, AsmError>)
    ensures r.Ok? <==> ParseInt(s).Some?
    ensures r.Ok? ==> r.value == ParseInt(s).value
    ensures r.Err? ==> r.error == NotAnInteger(s)
  {
    match ParseInt(s)
    case Some(v) => Ok(v)
    case None => Err(NotAnInteger(s))
  }

  /** The number of operand tokens each shape reads. */
  function Arity(shape: Shape): nat {
    match shape
    case RegisterOp => 3
    case ShiftOp => 3
    case ImmediateOp => 3
    case MemoryOp => 2
    case JumpOp => 1
  }

  /** The text-to-instruction half of `parse_instruction`. */
  function Decode(instruction: string): (r: Result<Instr, AsmError>)
    ensures r.Ok? ==> r.value.opcode < 16
    ensures var tokens := Tokenize(instruction);
            r.Ok? ==> |tokens| >= 2 && OperationOf(tokens[0]).Some?
                      && r.value.opcode == OperationOf(tokens[0]).value.opcode
    ensures var tokens := Tokenize(instruction);
            r == Err(UnsupportedInstruction(instruction))
            <==> |tokens| >= 1 && OperationOf(tokens[0]).None?
    ensures var tokens := Tokenize(instruction);
            r == Err(MissingToken(instruction))
            <==> |tokens| == 0
                 || (OperationOf(tokens[0]).Some? && |tokens| <= Arity(OperationOf(tokens[0]).value.shape))
  {
    var tokens := Tokenize(instruction);
    if |tokens| == 0 then Err(MissingToken(instruction))
    else match OperationOf(tokens[0])
      case None => Err(UnsupportedInstruction(instruction))
      case Some(Operation(op, shape)) =>
        if |tokens| <= Arity(shape) then Err(MissingToken(instruction))
        else DecodeOperands(op, shape, tokens)
  }

  /** Reads the operands of one shape; the tokens are long enough. */
  function DecodeOperands(op: nat, shape: Shape, tokens: seq<string>): (r: Result<Instr, AsmError>)
    requires |tokens| > Arity(shape)
    ensures r.Ok? ==> r.value.opcode == op
    ensures r.Err? ==> r.error.NotAnInteger? || r.error.MalformedOffset?
  {
    match shape
    case RegisterOp =>
      Ok(RInstr(op, tokens[2], tokens[3], tokens[1], 0))
    case ShiftOp =>
      var shamt :- Int(tokens[3]);
      Ok(RInstr(op, tokens[2], tokens[1], "0000", shamt))
    case ImmediateOp =>
      var imm :- Int(tokens[3]);
      Ok(IInstr(op, tokens[2], tokens[1], imm))
    case MemoryOp =>
      var pieces := SplitOn(tokens[2], '(');
      if |pieces| != 2 then Err(MalformedOffset(tokens[2]))
      else
        var rs := RStripChar(pieces[1], ')');
        var offset :- Int(pieces[0]);
        Ok(IInstr(op, rs, tokens[1], offset))
    case JumpOp =>
      var target :- Int(tokens[1]);
      Ok(JInstr(op, target))
  }

  /** An operand the encoder writes with a '-' sign: a negative shift
      amount, immediate or jump target. */
  predicate HasNegativeField(ins: Instr) {
    match ins
    case RInstr(_, _, _, _, shamt) => shamt < 0
    case IInstr(_, _, _, imm) => imm < 0
    case JInstr(_, target) => target < 0
  }

  /** The instruction-to-bits half: the field encoders, with `j` writing a
      zero second byte. The word is never shorter than 20 characters, opens
      with the opcode, and holds a '-' exactly when a field is negative:
      the test `assemble` uses to choose `to_hex`. */
  function Encode(ins: Instr): (w: string)
    requires ins.opcode < 16
    ensures |w| >= 20 && w[..4] == FixedBin(ins.opcode)
    ensures '-' in w <==> HasNegativeField(ins)
  {
    var op := FixedBin(ins.opcode);
    match ins
    case RInstr(_, rs, rt, rd, shamt) =>
      RTypeSign(op, rs, rt, rd, shamt);
      RType(op, rs, rt, rd, shamt)
    case IInstr(_, rs, rt, imm) =>
      ITypeSign(op, rs, rt, imm);
      IType(op, rs, rt, imm)
    case JInstr(_, target) =>
      JTypeSign(op, target);
      JType(op, target, 0)
  }

  /** `parse_instruction`: the error of the first step that fails, or a
      word that opens with the opcode of its mnemonic and holds a '-'
      exactly when a field of the decoded instruction is negative. */
  function ParseInstruction(instruction: string): (r: Result<string, AsmError>)
    ensures var tokens := Tokenize(instruction);
            r == Err(UnsupportedInstruction(instruction))
            <==> |tokens| >= 1 && OperationOf(tokens[0]).None?
    ensures var tokens := Tokenize(instruction);
            r.Ok? ==> |tokens| >= 2 && OperationOf(tokens[0]).Some? && |r.value| >= 20
                      && r.value[..4] == FixedBin(OperationOf(tokens[0]).value.opcode)
    ensures r.Ok? <==> Decode(instruction).Ok?
    ensures r.Ok? ==> ('-' in r.value <==> HasNegativeField(Decode(instruction).value))
  {
    var ins :- Decode(instruction);
    Ok(Encode(ins))
  }

  /** The numeric fields fit the widths of their format: a 4-bit shift
      amount, an immediate readable as an 8-bit value (unsigned or two's
      complement), an 8-bit jump target. */
  predicate InRange(ins: Instr) {
    ins.opcode < 16
    && match ins
       case RInstr(_, _, _, _, shamt) => 0 <= shamt < 16
       case IInstr(_, _, _, imm) => -128 <= imm < 256
       case JInstr(_, target) => 0 <= target < 256
  }

  /** The machine word an in-range instruction stands for: the fields packed
      from the high end, a negative immediate as its 8-bit two's complement. */
  function WordValue(ins: Instr): (v: nat)
    requires InRange(ins)
    ensures v < 1048576
  {
    var op := ins.opcode;
    match ins
    case RInstr(_, rs, rt, rd, shamt) =>
      CodeValue(rs);
      CodeValue(rt);
      CodeValue(rd);
      op * 65536 + NumberOf(rs) * 4096 + NumberOf(rt) * 256 + NumberOf(rd) * 16 + shamt
    case IInstr(_, rs, rt, imm) =>
      CodeValue(rs);
      CodeValue(rt);
      op * 65536 + NumberOf(rs) * 4096 + NumberOf(rt) * 256 + Byte(imm)
    case JInstr(_, target) =>
      op * 65536 + target * 256
  }

  /** An in-range instruction whose fields are non-negative encodes to a
      20-digit binary numeral of its machine word. */
  lemma {:induction false} EncodeValue(ins: Instr)
    requires InRange(ins) && !(ins.IInstr? && ins.imm < 0)
    ensures |Encode(ins)| == 20 && IsBits(Encode(ins))
    ensures BinValue(Encode(ins)) == WordValue(ins)
  {
    FixedBinValue(ins.opcode);
    match ins
    case RInstr(op, rs, rt, rd, shamt) => RTypeValue(FixedBin(op), rs, rt, rd, shamt);
    case IInstr(op, rs, rt, imm) => ITypeValue(FixedBin(op), rs, rt, imm);
    case JInstr(op, target) => JTypeValue(FixedBin(op), target);
  }

  // ------------------------------------------------------------ placement

  /** The mnemonics of each shape. */
  lemma Shapes(m: string)
    ensures m in ["add", "sub", "and", "or", "nor"] <==> OperationOf(m).Some? && OperationOf(m).value.shape == RegisterOp
    ensures m in ["sll", "srl"] <==> OperationOf(m).Some? && OperationOf(m).value.shape == ShiftOp
    ensures m in ["addi", "subi", "andi", "ori", "beq", "bneq"]
            <==> OperationOf(m).Some? && OperationOf(m).value.shape == ImmediateOp
    ensures m in ["lw", "sw"] <==> OperationOf(m).Some? && OperationOf(m).value.shape == MemoryOp
    ensures m == "j" <==> OperationOf(m).Some? && OperationOf(m).value.shape == JumpOp
  {
  }

  /** add/sub/and/or/nor: opcode, then the codes of the second, third and
      first operands, then a zero shift amount. */
  lemma RegisterPlacement(instruction: string, op: nat)
    requires var t := Tokenize(instruction);
             |t| >= 4 && OperationOf(t[0]) == Some(Operation(op, RegisterOp))
    ensures op < 16
    ensures var t := Tokenize(instruction);
            ParseInstruction(instruction)
            == Ok(FixedBin(op) + RegisterCode(t[2]) + RegisterCode(t[3]) + RegisterCode(t[1]) + "0000")
  {
    var t := Tokenize(instruction);
    FormatZero(4);
    assert Repeat('0', 4) == "0000";
    assert Decode(instruction) == DecodeOperands(op, RegisterOp, t);
  }

  /** beq/bneq (and the other immediate forms): the second operand fills the
      rs slot, the first the rt slot, and the number is the 8-bit field. */
  lemma BranchPlacement(instruction: string, op: nat, offset: int)
    requires var t := Tokenize(instruction);
             |t| >= 4 && OperationOf(t[0]) == Some(Operation(op, ImmediateOp))
             && ParseInt(t[3]) == Some(offset)
    ensures op < 16
    ensures var t := Tokenize(instruction);
            ParseInstruction(instruction)
            == Ok(FixedBin(op) + RegisterCode(t[2]) + RegisterCode(t[1]) + FormatBin(offset, 8))
  {
    var t := Tokenize(instruction);
    assert Decode(instruction) == Ok(IInstr(op, t[2], t[1], offset));
  }

  /** lw/sw with an operand that splits at '(' into exactly two pieces:
      the second piece, with its trailing ')'s removed, fills the rs slot and
      the first is the 8-bit offset field. "4($t0)", "4($t0" and "4($t0))"
      all name $t0 this way; `OffsetOperand` gives the split of `offset(reg)`. */
  lemma {:induction false} MemoryPlacement(instruction: string, op: nat, offset: string, base: string, v: int)
    requires var t := Tokenize(instruction);
             |t| >= 3 && OperationOf(t[0]) == Some(Operation(op, MemoryOp))
             && SplitOn(t[2], '(') == [offset, base]
    requires ParseInt(offset) == Some(v)
    ensures op < 16
    ensures var t := Tokenize(instruction);
            ParseInstruction(instruction)
            == Ok(FixedBin(op) + RegisterCode(RStripChar(base, ')')) + RegisterCode(t[1]) + FormatBin(v, 8))
  {
    var t := Tokenize(instruction);
    var reg := RStripChar(base, ')');
    assert Int(offset) == Ok(v);
    var ins := IInstr(op, reg, t[1], v);
    assert DecodeOperands(op, MemoryOp, t) == Ok(ins);
    assert Decode(instruction) == Ok(ins);
    assert Encode(ins) == IType(FixedBin(op), reg, t[1], v);
  }

  /** `offset_reg.split("(")` and `rstrip(")")` on an operand `offset(reg)`. */
  lemma OffsetOperand(offset: string, reg: string)
    requires '(' !in offset && '(' !in reg && !EndsWithChar(reg, ')')
    ensures var pieces := SplitOn(offset + "(" + reg + ")", '(');
            |pieces| == 2 && pieces[0] == offset && RStripChar(pieces[1], ')') == reg
  {
    var tail := reg + ")";
    assert offset + "(" + reg + ")" == offset + "(" + tail;
    assert '(' !in tail;
    SplitOfJoin([offset, tail], '(');
    assert JoinOn([offset, tail], '(') == offset + "(" + tail;
    assert tail[..|tail| - 1] == reg;
  }

  /** An operand without exactly one '(' makes lw/sw fail. */
  lemma MemoryMalformed(instruction: string, op: nat)
    requires var t := Tokenize(instruction);
             |t| >= 3 && OperationOf(t[0]) == Some(Operation(op, MemoryOp))
             && |SplitOn(t[2], '(')| != 2
    ensures Decode(instruction) == Err(MalformedOffset(Tokenize(instruction)[2]))
  {
  }

  /** Commas separate operands exactly as spaces do: two lines that agree
      once commas are read as spaces encode identically. */
  lemma CommasAsSpaces(a: string, b: string)
    requires ReplaceChar(a, ',', ' ') == ReplaceChar(b, ',', ' ')
    ensures ParseInstruction(a).Ok? <==> ParseInstruction(b).Ok?
    ensures ParseInstruction(a).Ok? ==> ParseInstruction(a) == ParseInstruction(b)
  {
  }

  /** A first token outside the 16 mnemonics is rejected with an error that
      carries the whole instruction. */
  lemma Unsupported(instruction: string)
    requires |Tokenize(instruction)| >= 1 && Tokenize(instruction)[0] !in Mnemonics
    ensures ParseInstruction(instruction) == Err(UnsupportedInstruction(instruction))
    ensures Contains(UnsupportedMessage(instruction), instruction)
  {
    DispatchTable(Tokenize(instruction)[0]);
    UnsupportedMessageNamesInstruction(instruction);
  }
}
