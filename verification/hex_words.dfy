/** From bit string to hex text: `to_hex` for words that hold a negative
    field, the per-line choice `assemble` makes between it and a plain
    `hex(int(bits, 2))`, and the image-file rendering of one word. */
module HexWords {
  import opened Results
  import opened PythonText
  import opened PythonNumbers
  import opened Registers
  import opened Fields
  import opened Instructions

  /** `int(s, 2)`, with its ValueError. */
  function Binary(s: string): (r: Result<nat, AsmError>)
    ensures r.Ok? <==> s != [] && IsBits(s)
    ensures r.Ok? ==> r.value == BinValue(s)
    ensures r.Err? ==> r.error == NotBinary(s)
  {
    match ParseBinary(s)
    case Some(v) => Ok(v)
    case None => Err(NotBinary(s))
  }

  /** `to_hex`: the text before the first '-' is read as the high part, the
      text between the first and second '-' as the magnitude of a negative
      field of its own length L, which is rebuilt as 2^L - magnitude, plus a
      further 2^L when L < 8; the result is `hex` of the high part followed
      by the digits of the rebuilt field. Without a '-' the source would
      read an unbound variable. */
  function ToHex(parsed: string): (r: Result<string, AsmError>)
    ensures r == Err(NoSignedField(parsed)) <==> '-' !in parsed
    ensures r.Ok? ==> |r.value| >= 4 && r.value[..2] == "0x" && IsHex(r.value[2..])
  {
    ContainsChar(parsed, '-');
    if !Contains(parsed, "-") then Err(NoSignedField(parsed))
    else
      var pieces := SplitOn(parsed, '-');
      Recombine(pieces[0], pieces[1])
  }

  /** The return expression of `to_hex`, from the text before the first '-'
      and the text after it. */
  function Recombine(high: string, field: string): (r: Result<string, AsmError>)
    ensures r.Ok? <==> high != [] && IsBits(high) && field != [] && IsBits(field)
    ensures r.Ok? ==> |r.value| >= 4 && r.value[..2] == "0x" && IsHex(r.value[2..])
  {
    var decimal :- Binary(field);
    var top :- Binary(high);
    var rebuilt := Rebuilt(|field|, decimal);
    var tail := SliceFrom(PyHex(-rebuilt), 3);
    assert rebuilt >= 1 && tail == HexDigits(rebuilt) by {
      assert PyHex(-rebuilt) == "-0x" + HexDigits(rebuilt);
    }
    HexConcat(HexDigits(top), tail);
    assert PyHex(top) + tail == "0x" + (HexDigits(top) + tail);
    Ok(PyHex(top) + tail)
  }

  /** The field value `to_hex` rebuilds from a magnitude of `length` digits. */
  function Rebuilt(length: nat, magnitude: nat): int {
    var complement := Pow2(length) - magnitude;
    if length < 8 then complement + Pow2(length) else complement
  }

  /** `to_hex` on a bit string, a '-' and a further bit string. */
  lemma ToHexOfSigned(w: string, high: string, field: string)
    requires high != [] && IsBits(high) && field != [] && IsBits(field)
    requires w == high + "-" + field
    ensures ToHex(w) == Ok(PyHex(BinValue(high)) + SliceFrom(PyHex(-Rebuilt(|field|, BinValue(field))), 3))
  {
    SplitAtSign(w, high, field);
    RecombineBits(high, field);
  }

  lemma RecombineBits(high: string, field: string)
    requires high != [] && IsBits(high) && field != [] && IsBits(field)
    ensures Recombine(high, field)
            == Ok(PyHex(BinValue(high)) + SliceFrom(PyHex(-Rebuilt(|field|, BinValue(field))), 3))
  {
  }

  /** `to_hex` cuts a bit string, a '-' and a further bit string at the '-'. */
  lemma SplitAtSign(w: string, high: string, field: string)
    requires IsBits(high) && IsBits(field)
    requires w == high + "-" + field
    ensures ToHex(w) == Recombine(high, field)
  {
    assert '-' !in high by {
      assert forall i :: 0 <= i < |high| ==> high[i] == '0' || high[i] == '1';
    }
    assert '-' !in field by {
      assert forall i :: 0 <= i < |field| ==> field[i] == '0' || field[i] == '1';
    }
    SplitOfJoin([high, field], '-');
    assert JoinOn([high, field], '-') == w;
    assert w[|high|] == '-';
    ContainsChar(w, '-');
  }

  /** The number of binary digits `:08b` writes for the magnitude m of a
      negative 8-bit immediate: seven (zero-filled) up to 127, eight for 128. */
  function MagnitudeLength(m: int): nat {
    if m < 128 then 7 else 8
  }

  /** For a magnitude m of an 8-bit immediate, written in seven digits when
      m < 128 and in eight for m = 128, the rebuilt field is 256 - m. */
  lemma RebuiltByte(length: nat, m: nat)
    requires 1 <= m <= 128 && length == MagnitudeLength(m)
    ensures Rebuilt(length, m) == 256 - m
  {
    MagnitudeWidths();
  }

  /** One iteration of `assemble` on a code line: encode it, then render the
      word in hex, through `to_hex` when it holds a '-'. Every word it
      produces is "0x" followed by hex digits, the shape the image writer
      cuts at index 2. */
  function AssembleLine(line: string): (r: Result<string, AsmError>)
    ensures ParseInstruction(line).Err? ==> r == Err(ParseInstruction(line).error)
    ensures r.Ok? ==> ParseInstruction(line).Ok?
    ensures r.Ok? ==> |r.value| >= 3 && r.value[..2] == "0x" && IsHex(r.value[2..])
  {
    var parsed :- ParseInstruction(line);
    if Contains(parsed, "-") then ToHex(parsed)
    else
      var v :- Binary(ReplaceAll(parsed, " ", ""));
      assert PyHex(v) == "0x" + HexDigits(v);
      Ok(PyHex(v))
  }

  /** The image-file text of one word: "0x" cut off, spaces removed, and
      zero-filled to five characters when shorter. */
  function ImageLine(word: string): (code: string)
    ensures |code| >= 5
  {
    var code := ReplaceAll(SliceFrom(word, 2), " ", "");
    if |code| < 5 then ZFill(code, 5) else code
  }

  // ------------------------------------------------------------ lemmas

  lemma Pow16Values()
    ensures Pow16(2) == 256 && Pow16(3) == 4096 && Pow16(5) == 1048576
  {
    assert Pow16(2) == 256;
    assert Pow16(3) == 16 * Pow16(2);
    assert Pow16(5) == 256 * Pow16(3);
  }

  lemma MagnitudeWidths()
    ensures Pow2(7) == 128 && Pow2(8) == 256
  {
    assert Pow2(7) == 128;
    assert Pow2(8) == 2 * Pow2(7);
  }

  /** Hex text contains neither spaces nor signs. */
  lemma HexHasNoSpace(s: string)
    requires IsHex(s)
    ensures !Contains(s, " ") && !Contains(s, "-")
  {
    ContainsChar(s, ' ');
    ContainsChar(s, '-');
  }

  lemma HexConcat(a: string, b: string)
    requires IsHex(a) && IsHex(b)
    ensures IsHex(a + b)
  {
    assert forall i :: 0 <= i < |a + b| ==> (a + b)[i] == if i < |a| then a[i] else b[i - |a|];
  }

  /** The image text of `"0x" + x` for up to five hex digits is x, zero-filled
      to five digits. */
  lemma {:induction false} ImageOfHex(x: string)
    requires IsHex(x) && 1 <= |x| <= 5
    ensures ImageLine("0x" + x) == ZeroPad(x, 5)
  {
    assert SliceFrom("0x" + x, 2) == x;
    HexHasNoSpace(x);
    assert IsHexDigit(x[0]);
  }

  /** Zero-filling text that ends in a fixed suffix pads only the front. */
  lemma ZeroPadAppend(a: string, b: string, k: nat)
    requires |a| <= k
    ensures ZeroPad(a + b, k + |b|) == ZeroPad(a, k) + b
  {
    if |a| < k {
      assert Repeat('0', k - |a|) + (a + b) == (Repeat('0', k - |a|) + a) + b;
    }
  }

  /** For 16 <= n < 256 the shortest hex numeral has exactly two digits. */
  lemma TwoHexDigits(n: nat)
    requires 16 <= n < 256
    ensures HexDigits(n) == FixedHex(n, 2)
  {
    Pow16Values();
    HexDigitsLength(n, 2);
    assert |HexDigits(n)| >= 2;
    ZeroPadHex(n, 2);
  }

  /** The magnitude of a negative 8-bit immediate, as `:08b` writes it, is
      seven digits long up to 127 and eight digits long for 128. */
  lemma {:induction false} MagnitudeField(d: nat) returns (f: string)
    requires 1 <= d <= 128
    ensures f == ZeroPad(Bin(d), 7)
    ensures f != [] && IsBits(f) && '-' !in f && BinValue(f) == d
    ensures |f| == MagnitudeLength(d)
  {
    MagnitudeWidths();
    f := ZeroPad(Bin(d), 7);
    ZeroPadBinValue(Bin(d), 7);
    BinLength(d, 7);
    BinLength(d, 8);
  }

  /** `to_hex` on an I-type word with a negative immediate in [-128, -1]:
      the hex of the 12-bit prefix, then exactly two hex digits whose value
      is 256 + imm, the immediate's 8-bit two's complement. This holds both
      when the magnitude takes seven digits (then re-biased by 2^7) and when
      it takes eight. */
  lemma {:induction false} ToHexNegativeImmediate(op: string, rs: string, rt: string, imm: int)
    requires IsOpcode(op) && -128 <= imm <= -1
    ensures var prefix := op + RegisterCode(rs) + RegisterCode(rt);
            IsBits(prefix) && |prefix| == 12
            && ToHex(IType(op, rs, rt, imm))
               == Ok("0x" + HexDigits(BinValue(prefix)) + FixedHex(256 + imm, 2))
  {
    var prefix, field := SignedWordShape(op, rs, rt, imm);
    NegativeField(IType(op, rs, rt, imm), prefix, field, -imm);
  }

  /** An I-type word with a negative immediate in [-128, -1] is a 12-bit
      prefix, a '-', and a field of seven or eight bits denoting -imm. */
  lemma SignedWordShape(op: string, rs: string, rt: string, imm: int) returns (prefix: string, field: string)
    requires IsOpcode(op) && -128 <= imm <= -1
    ensures prefix == op + RegisterCode(rs) + RegisterCode(rt)
    ensures IsBits(prefix) && |prefix| == 12
    ensures field != [] && IsBits(field) && BinValue(field) == -imm
    ensures |field| == MagnitudeLength(-imm)
    ensures IType(op, rs, rt, imm) == prefix + "-" + field
  {
    field := MagnitudeField(-imm);
    ITypeNegative(op, rs, rt, imm);
    prefix := op + RegisterCode(rs) + RegisterCode(rt);
  }

  /** `to_hex` on a 12-bit prefix, '-' and the field `:08b` writes for the
      magnitude d of a negative 8-bit immediate. */
  lemma NegativeField(w: string, prefix: string, field: string, d: int)
    requires IsBits(prefix) && |prefix| == 12 && 1 <= d <= 128
    requires field != [] && IsBits(field) && BinValue(field) == d
    requires |field| == MagnitudeLength(d)
    requires w == prefix + "-" + field
    ensures ToHex(w) == Ok("0x" + HexDigits(BinValue(prefix)) + FixedHex(256 - d, 2))
  {
    SplitAtSign(w, prefix, field);
    SignedRecombine(prefix, field, d);
  }

  lemma SignedRecombine(prefix: string, field: string, d: int)
    requires IsBits(prefix) && |prefix| == 12 && 1 <= d <= 128
    requires field != [] && IsBits(field) && BinValue(field) == d
    requires |field| == MagnitudeLength(d)
    ensures Recombine(prefix, field) == Ok("0x" + HexDigits(BinValue(prefix)) + FixedHex(256 - d, 2))
  {
    RecombineBits(prefix, field);
    SignedTailOfField(field, d);
    var p := BinValue(prefix);
    assert PyHex(p) == "0x" + HexDigits(p);
  }

  /** The digits `to_hex` keeps from the rebuilt field of a negative 8-bit
      immediate are the two hex digits of its two's complement. */
  lemma SignedTailOfField(field: string, d: int)
    requires IsBits(field) && 1 <= d <= 128 && BinValue(field) == d
    requires |field| == MagnitudeLength(d)
    ensures SliceFrom(PyHex(-Rebuilt(|field|, BinValue(field))), 3) == FixedHex(256 - d, 2)
  {
    var n := Rebuilt(|field|, BinValue(field));
    RebuiltByte(|field|, d);
    assert n == 256 - d;
    SignedTail(n);
  }

  /** `hex(-n)[3:]` for 16 <= n < 256: the two hex digits of n. */
  lemma SignedTail(n: int)
    requires 16 <= n < 256
    ensures SliceFrom(PyHex(-n), 3) == FixedHex(n, 2)
  {
    assert PyHex(-n) == "-0x" + HexDigits(n);
    assert SliceFrom(PyHex(-n), 3) == HexDigits(n);
    TwoHexDigits(n);
  }

  /** Every in-range instruction, once assembled and rendered, is exactly the
      five-digit hex numeral of its machine word. */
  lemma LineImage(line: string, ins: Instr)
    requires Decode(line) == Ok(ins) && InRange(ins)
    ensures AssembleLine(line).Ok?
    ensures ImageLine(AssembleLine(line).value) == FixedHex(WordValue(ins), 5)
  {
    if ins.IInstr? && ins.imm < 0 {
      LineImageSigned(line, ins);
    } else {
      LineImageUnsigned(line, ins);
    }
  }

  lemma {:induction false} LineImageUnsigned(line: string, ins: Instr)
    requires Decode(line) == Ok(ins) && InRange(ins) && !(ins.IInstr? && ins.imm < 0)
    ensures AssembleLine(line).Ok?
    ensures ImageLine(AssembleLine(line).value) == FixedHex(WordValue(ins), 5)
  {
    UnsignedAssembly(line, ins);
    UnsignedImage(AssembleLine(line).value, WordValue(ins));
  }

  /** A line whose instruction has no negative field assembles to `hex` of
      its machine word. */
  lemma UnsignedAssembly(line: string, ins: Instr)
    requires Decode(line) == Ok(ins) && InRange(ins) && !(ins.IInstr? && ins.imm < 0)
    ensures AssembleLine(line) == Ok(PyHex(WordValue(ins)))
  {
    var w := Encode(ins);
    assert ParseInstruction(line) == Ok(w);
    EncodeValue(ins);
    AssembleBits(line, w, WordValue(ins));
  }

  /** A line that parses to a bit string without '-' assembles to `hex` of
      the number the bits denote. */
  lemma AssembleBits(line: string, w: string, v: nat)
    requires ParseInstruction(line) == Ok(w) && w != [] && IsBits(w) && BinValue(w) == v
    ensures AssembleLine(line) == Ok(PyHex(v))
  {
    BitsHaveNoSpace(w);
    assert ReplaceAll(w, " ", "") == w;
    assert Binary(w) == Ok(v);
  }

  lemma BitsHaveNoSpace(w: string)
    requires IsBits(w)
    ensures !Contains(w, " ") && !Contains(w, "-")
  {
    assert IsHex(w) by {
      assert forall i :: 0 <= i < |w| ==> IsHexDigit(w[i]);
    }
    HexHasNoSpace(w);
  }

  /** The image text of `hex(v)` for a 20-bit v is its five-digit numeral. */
  lemma UnsignedImage(text: string, v: nat)
    requires v < 1048576 && text == PyHex(v)
    ensures ImageLine(text) == FixedHex(v, 5)
  {
    Pow16Values();
    assert text == "0x" + HexDigits(v);
    HexDigitsLength(v, 5);
    ImageOfHex(HexDigits(v));
    ZeroPadHex(v, 5);
  }

  lemma {:induction false} LineImageSigned(line: string, ins: Instr)
    requires Decode(line) == Ok(ins) && InRange(ins) && ins.IInstr? && ins.imm < 0
    ensures AssembleLine(line).Ok?
    ensures ImageLine(AssembleLine(line).value) == FixedHex(WordValue(ins), 5)
  {
    var p := SignedAssembly(line, ins);
    SignedImage(AssembleLine(line).value, p, 256 + ins.imm, WordValue(ins));
  }

  /** A line holding an I-type instruction with a negative immediate in range
      assembles, through `to_hex`, to "0x", the hex numeral of the 12-bit
      prefix p, and two hex digits of the immediate's two's complement. */
  lemma {:induction false} SignedAssembly(line: string, ins: Instr) returns (p: nat)
    requires Decode(line) == Ok(ins) && InRange(ins) && ins.IInstr? && ins.imm < 0
    ensures p < 4096 && WordValue(ins) == p * 256 + (256 + ins.imm)
    ensures AssembleLine(line) == Ok("0x" + HexDigits(p) + FixedHex(256 + ins.imm, 2))
  {
    var w := Encode(ins);
    assert ParseInstruction(line) == Ok(w);
    var op, rs, rt, imm := FixedBin(ins.opcode), ins.rs, ins.rt, ins.imm;
    assert w == IType(op, rs, rt, imm);
    var prefix, field := SignedWordShape(op, rs, rt, imm);
    assert w[12] == '-';
    ContainsChar(w, '-');
    NegativeField(w, prefix, field, -imm);
    PrefixValue(ins.opcode, rs, rt);
    p := BinValue(prefix);
    Pow2Bound(prefix);
  }

  /** A 12-bit string denotes less than 4096. */
  lemma Pow2Bound(prefix: string)
    requires IsBits(prefix) && |prefix| == 12
    ensures BinValue(prefix) < 4096
  {
    assert Pow2(12) == 4096 by {
      MagnitudeWidths();
      assert Pow2(12) == 16 * Pow2(8) by { Pow2Values(); }
    }
  }

  /** The image text of "0x", the hex numeral of p < 4096 and two digits of
      b is the five-digit hex numeral of p * 256 + b. */
  lemma {:induction false} SignedImage(text: string, p: nat, b: nat, v: nat)
    requires p < 4096 && b < 256 && v == p * 256 + b
    requires text == "0x" + HexDigits(p) + FixedHex(b, 2)
    ensures v < 1048576 && ImageLine(text) == FixedHex(v, 5)
  {
    var high := HexDigits(p);
    var low := FixedHex(b, 2);
    HexDigitsLength(p, 3);
    assert text == "0x" + (high + low);
    ImageSplit(high, low);
    ZeroPadHex(p, 3);
    FixedHexJoin(p, b, v);
  }

  /** Five hex digits of p * 256 + b are three of p and two of b. */
  lemma FixedHexJoin(p: nat, b: nat, v: nat)
    requires p < 4096 && b < 256 && v == p * 256 + b
    ensures p < Pow16(3) && b < Pow16(2) && v < Pow16(5)
    ensures FixedHex(v, 5) == FixedHex(p, 3) + FixedHex(b, 2)
  {
    Pow16Values();
    assert p * Pow16(2) + b == v;
    FixedHexConcat(p, b, 3, 2);
  }

  /** The image text of "0x", at most three hex digits and two more hex
      digits is the first part zero-filled to three, then the two. */
  lemma ImageSplit(high: string, low: string)
    requires IsHex(high) && 1 <= |high| <= 3 && IsHex(low) && |low| == 2
    ensures ImageLine("0x" + (high + low)) == ZeroPad(high, 3) + low
  {
    HexConcat(high, low);
    ImageOfHex(high + low);
    ZeroPadAppend(high, low, 3);
  }

  /** The 12-bit prefix of an I-type word denotes opcode and register numbers. */
  lemma PrefixValue(op: nat, rs: string, rt: string)
    requires op < 16
    ensures var prefix := FixedBin(op) + RegisterCode(rs) + RegisterCode(rt);
            IsBits(prefix) && |prefix| == 12
            && BinValue(prefix) == op * 256 + NumberOf(rs) * 16 + NumberOf(rt)
  {
    var prefix := FixedBin(op) + RegisterCode(rs) + RegisterCode(rt);
    Layout3(FixedBin(op), RegisterCode(rs), RegisterCode(rt), []);
    assert prefix + [] == prefix;
    Value12(prefix);
    FixedBinValue(op);
    CodeValue(rs);
    CodeValue(rt);
  }
}
