/** The three instruction formats: each concatenates a 4-bit opcode with
    register codes and numeric fields written by `format(v, '0{w}b')`.
    In range, every format gives a 20-bit word:

      R: opcode(4) rs(4) rt(4) rd(4) shamt(4)
      I: opcode(4) rs(4) rt(4) imm(8)
      J: opcode(4) imm(8) zero(8)                                        */
module Fields {
  import opened PythonText
  import opened PythonNumbers
  import opened Registers

  /** A 4-bit opcode as the dispatch table writes it. */
  predicate IsOpcode(op: string) {
    |op| == 4 && IsBits(op)
  }

  /** `r_type`. */
  function RType(op: string, rs: string, rt: string, rd: string, shamt: int): (w: string)
    ensures IsOpcode(op) && 0 <= shamt < 16 ==>
              |w| == 20 && IsBits(w) && w[..4] == op && w[4..8] == RegisterCode(rs)
              && w[8..12] == RegisterCode(rt) && w[12..16] == RegisterCode(rd)
              && BinValue(w[16..]) == shamt
  {
    var w := op + RegisterCode(rs) + RegisterCode(rt) + RegisterCode(rd) + FormatBin(shamt, 4);
    if IsOpcode(op) && 0 <= shamt < 16 then
      FormatBinFits(shamt, 4);
      Layout4(op, RegisterCode(rs), RegisterCode(rt), RegisterCode(rd), FormatBin(shamt, 4));
      w
    else w
  }

  /** `i_type`. */
  function IType(op: string, rs: string, rt: string, imm: int): (w: string)
    ensures IsOpcode(op) && 0 <= imm < 256 ==>
              |w| == 20 && IsBits(w) && w[..4] == op && w[4..8] == RegisterCode(rs)
              && w[8..12] == RegisterCode(rt) && BinValue(w[12..]) == imm
  {
    var w := op + RegisterCode(rs) + RegisterCode(rt) + FormatBin(imm, 8);
    if IsOpcode(op) && 0 <= imm < 256 then
      FormatBinFits(imm, 8);
      Layout3(op, RegisterCode(rs), RegisterCode(rt), FormatBin(imm, 8));
      w
    else w
  }

  /** `j_type`: the target and then the `zero` argument, 8 bits each. */
  function JType(op: string, target: int, zero: int): (w: string)
    ensures IsOpcode(op) && 0 <= target < 256 && 0 <= zero < 256 ==>
              |w| == 20 && IsBits(w) && w[..4] == op
              && BinValue(w[4..12]) == target && BinValue(w[12..]) == zero
  {
    var w := op + FormatBin(target, 8) + FormatBin(zero, 8);
    if IsOpcode(op) && 0 <= target < 256 && 0 <= zero < 256 then
      FormatBinFits(target, 8);
      FormatBinFits(zero, 8);
      Layout2(op, FormatBin(target, 8), FormatBin(zero, 8));
      w
    else w
  }

  lemma Layout2(a: string, b: string, c: string)
    requires |a| == 4 && |b| == 8
    requires IsBits(a) && IsBits(b) && IsBits(c)
    ensures IsBits(a + b + c)
    ensures (a + b + c)[..4] == a && (a + b + c)[4..12] == b && (a + b + c)[12..] == c
  {
    BitsConcat(a, b);
    BitsConcat(a + b, c);
  }

  lemma Layout3(a: string, b: string, c: string, d: string)
    requires |a| == 4 && |b| == 4 && |c| == 4
    requires IsBits(a) && IsBits(b) && IsBits(c) && IsBits(d)
    ensures IsBits(a + b + c + d)
    ensures (a + b + c + d)[..4] == a && (a + b + c + d)[4..8] == b
    ensures (a + b + c + d)[8..12] == c && (a + b + c + d)[12..] == d
  {
    BitsConcat(a, b);
    BitsConcat(a + b, c);
    BitsConcat(a + b + c, d);
  }

  lemma Layout4(a: string, b: string, c: string, d: string, e: string)
    requires |a| == 4 && |b| == 4 && |c| == 4 && |d| == 4
    requires IsBits(a) && IsBits(b) && IsBits(c) && IsBits(d) && IsBits(e)
    ensures IsBits(a + b + c + d + e)
    ensures (a + b + c + d + e)[..4] == a && (a + b + c + d + e)[4..8] == b
    ensures (a + b + c + d + e)[8..12] == c && (a + b + c + d + e)[12..16] == d
    ensures (a + b + c + d + e)[16..] == e
  {
    Layout3(a, b, c, d);
    BitsConcat(a + b + c + d, e);
  }

  /** Appending a formatted field keeps the text before it, adds at least
      the field's width, and brings in a '-' exactly when the value is
      negative. */
  lemma AppendField(t: string, v: int, width: nat)
    ensures var s := t + FormatBin(v, width);
            |s| >= |t| + width && s[..|t|] == t && ('-' in s <==> '-' in t || v < 0)
  {
    var f := FormatBin(v, width);
    if v >= 0 {
      BitsHaveNoSign(f);
    } else {
      assert f[0] == '-';
    }
    assert (t + f)[..|t|] == t;
  }

  /** An R-type word opens with its opcode and holds a '-' exactly when its
      shift amount is negative. */
  lemma RTypeSign(op: string, rs: string, rt: string, rd: string, shamt: int)
    requires IsOpcode(op)
    ensures var w := RType(op, rs, rt, rd, shamt);
            |w| >= 20 && w[..4] == op && ('-' in w <==> shamt < 0)
  {
    var prefix := op + RegisterCode(rs) + RegisterCode(rt) + RegisterCode(rd);
    var w := prefix + FormatBin(shamt, 4);
    assert RType(op, rs, rt, rd, shamt) == w;
    Layout3(op, RegisterCode(rs), RegisterCode(rt), RegisterCode(rd));
    BitsHaveNoSign(prefix);
    AppendField(prefix, shamt, 4);
    PrefixOfPrefix(w, prefix, op);
  }

  /** An I-type word opens with its opcode and holds a '-' exactly when its
      immediate is negative. */
  lemma ITypeSign(op: string, rs: string, rt: string, imm: int)
    requires IsOpcode(op)
    ensures var w := IType(op, rs, rt, imm);
            |w| >= 20 && w[..4] == op && ('-' in w <==> imm < 0)
  {
    var prefix := op + RegisterCode(rs) + RegisterCode(rt);
    var w := prefix + FormatBin(imm, 8);
    assert IType(op, rs, rt, imm) == w;
    BitsConcat(op, RegisterCode(rs));
    BitsConcat(op + RegisterCode(rs), RegisterCode(rt));
    BitsHaveNoSign(prefix);
    AppendField(prefix, imm, 8);
    assert prefix[..4] == op;
    PrefixOfPrefix(w, prefix, op);
  }

  /** A J-type word with a zero last field opens with its opcode and holds a
      '-' exactly when its target is negative. */
  lemma JTypeSign(op: string, target: int)
    requires IsOpcode(op)
    ensures var w := JType(op, target, 0);
            |w| >= 20 && w[..4] == op && ('-' in w <==> target < 0)
  {
    var prefix := op + FormatBin(target, 8);
    var w := prefix + FormatBin(0, 8);
    assert JType(op, target, 0) == w;
    BitsHaveNoSign(op);
    AppendField(op, target, 8);
    AppendField(prefix, 0, 8);
    PrefixOfPrefix(w, prefix, op);
  }

  /** A prefix of a prefix. */
  lemma PrefixOfPrefix(w: string, t: string, p: string)
    requires |p| <= |t| <= |w| && w[..|t|] == t && t[..|p|] == p
    ensures w[..|p|] == p
  {
    assert w[..|p|] == w[..|t|][..|p|];
  }

  lemma BitsHaveNoSign(s: string)
    requires IsBits(s)
    ensures '-' !in s
  {
  }

  /** The two's-complement reading used for a signed 8-bit field. */
  function Byte(v: int): (b: nat)
    requires -128 <= v < 256
    ensures b < 256 && (b - v) % 256 == 0
  {
    if v < 0 then 256 + v else v
  }

  /** An R-type word in range denotes the fields packed high to low. */
  lemma {:induction false} RTypeValue(op: string, rs: string, rt: string, rd: string, shamt: int)
    requires IsOpcode(op) && 0 <= shamt < 16
    ensures BinValue(RType(op, rs, rt, rd, shamt))
            == BinValue(op) * 65536 + NumberOf(rs) * 4096 + NumberOf(rt) * 256
               + NumberOf(rd) * 16 + shamt
  {
    Pow2Values();
    FormatBinFits(shamt, 4);
    CodeValue(rs);
    CodeValue(rt);
    CodeValue(rd);
    Pack44444(op, RegisterCode(rs), RegisterCode(rt), RegisterCode(rd), FormatBin(shamt, 4));
  }

  /** An I-type word with a non-negative immediate in range denotes the
      fields packed high to low. */
  lemma {:induction false} ITypeValue(op: string, rs: string, rt: string, imm: int)
    requires IsOpcode(op) && 0 <= imm < 256
    ensures BinValue(IType(op, rs, rt, imm))
            == BinValue(op) * 65536 + NumberOf(rs) * 4096 + NumberOf(rt) * 256 + imm
  {
    Pow2Values();
    FormatBinFits(imm, 8);
    CodeValue(rs);
    CodeValue(rt);
    Pack4448(op, RegisterCode(rs), RegisterCode(rt), FormatBin(imm, 8));
  }

  /** A J-type word in range denotes opcode, target and zero packed high to
      low; with zero = 0 the last eight bits are all '0'. */
  lemma {:induction false} JTypeValue(op: string, target: int)
    requires IsOpcode(op) && 0 <= target < 256
    ensures BinValue(JType(op, target, 0)) == BinValue(op) * 65536 + target * 256
    ensures JType(op, target, 0)[12..] == "00000000"
  {
    var t := FormatBin(target, 8);
    var z := FormatBin(0, 8);
    Pow2Values();
    FormatBinFits(target, 8);
    ZeroByte();
    assert JType(op, target, 0) == op + t + z;
    Pack488(op, t, z);
    assert (op + t + z)[12..] == z;
  }

  lemma ZeroByte()
    ensures FormatBin(0, 8) == "00000000" && IsBits("00000000") && BinValue("00000000") == 0
  {
    Pow2Values();
    FormatBinFits(0, 8);
    FormatZero(8);
    assert Repeat('0', 8) == "00000000";
  }

  lemma Pow2Values()
    ensures Pow2(4) == 16 && Pow2(8) == 256
  {
    assert Pow2(4) == 16;
    assert Pow2(8) == 16 * Pow2(4);
  }

  /** Five 4-bit fields, high to low. */
  lemma Pack44444(a: string, b: string, c: string, d: string, e: string)
    requires IsBits(a) && IsBits(b) && IsBits(c) && IsBits(d) && IsBits(e)
    requires |b| == 4 && |c| == 4 && |d| == 4 && |e| == 4
    ensures IsBits(a + b + c + d + e)
    ensures BinValue(a + b + c + d + e)
            == BinValue(a) * 65536 + BinValue(b) * 4096 + BinValue(c) * 256 + BinValue(d) * 16 + BinValue(e)
  {
    Pow2Values();
    BinValueConcat(a, b);
    BinValueConcat(a + b, c);
    BinValueConcat(a + b + c, d);
    BinValueConcat(a + b + c + d, e);
  }

  /** Three 4-bit fields and an 8-bit one, high to low. */
  lemma Pack4448(a: string, b: string, c: string, d: string)
    requires IsBits(a) && IsBits(b) && IsBits(c) && IsBits(d)
    requires |b| == 4 && |c| == 4 && |d| == 8
    ensures IsBits(a + b + c + d)
    ensures BinValue(a + b + c + d) == BinValue(a) * 65536 + BinValue(b) * 4096 + BinValue(c) * 256 + BinValue(d)
  {
    Pow2Values();
    BinValueConcat(a, b);
    BinValueConcat(a + b, c);
    BinValueConcat(a + b + c, d);
  }

  /** A 4-bit field and two 8-bit ones, high to low. */
  lemma Pack488(a: string, b: string, c: string)
    requires IsBits(a) && IsBits(b) && IsBits(c)
    requires |b| == 8 && |c| == 8
    ensures IsBits(a + b + c)
    ensures BinValue(a + b + c) == BinValue(a) * 65536 + BinValue(b) * 256 + BinValue(c)
  {
    Pow2Values();
    BinValueConcat(a, b);
    BinValueConcat(a + b, c);
  }

  /** Three 4-bit fields. */
  lemma Value12(h: string)
    requires IsBits(h) && |h| == 12
    ensures BinValue(h) == BinValue(h[..4]) * 256 + BinValue(h[4..8]) * 16 + BinValue(h[8..])
  {
    Pow2Values();
    var a, b, c := h[..4], h[4..8], h[8..];
    assert h == a + b + c;
    BinValueConcat(a, b);
    BinValueConcat(a + b, c);
  }

  /** A negative immediate leaves the 12-bit prefix intact and writes '-'
      followed by its magnitude, zero-filled to seven digits. */
  lemma {:induction false} ITypeNegative(op: string, rs: string, rt: string, imm: int)
    requires IsOpcode(op) && imm < 0
    ensures var w := IType(op, rs, rt, imm);
            var prefix := op + RegisterCode(rs) + RegisterCode(rt);
            && |prefix| == 12 && IsBits(prefix)
            && w == prefix + "-" + ZeroPad(Bin(-imm), 7)
  {
    Layout3(op, RegisterCode(rs), RegisterCode(rt), []);
    assert op + RegisterCode(rs) + RegisterCode(rt) + [] == op + RegisterCode(rs) + RegisterCode(rt);
  }
}
