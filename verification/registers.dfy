/** The register file the assembler knows: seven named registers, each with
    a 4-bit code, and the lookup that turns an operand token into that code. */
module Registers {
  import opened Results
  import opened PythonNumbers

  datatype Register = Zero | T0 | T1 | T2 | T3 | T4 | SP

  /** The assembly name of a register, as written in source programs. */
  function Name(r: Register): string {
    match r
    case Zero => "$zero"
    case T0 => "$t0"
    case T1 => "$t1"
    case T2 => "$t2"
    case T3 => "$t3"
    case T4 => "$t4"
    case SP => "$sp"
  }

  /** The register number, which the encoder writes as a 4-bit field. */
  function Number(r: Register): nat {
    match r
    case Zero => 0
    case T0 => 1
    case T1 => 2
    case T2 => 3
    case T3 => 4
    case T4 => 5
    case SP => 6
  }

  /** The register an operand token names, if any. */
  function Named(name: string): (r: Option<Register>)
    ensures r.Some? ==> Name(r.value) == name
    ensures r.None? ==> forall g: Register :: Name(g) != name
  {
    if name == "$zero" then Some(Zero)
    else if name == "$t0" then Some(T0)
    else if name == "$t1" then Some(T1)
    else if name == "$t2" then Some(T2)
    else if name == "$t3" then Some(T3)
    else if name == "$t4" then Some(T4)
    else if name == "$sp" then Some(SP)
    else None
  }

  /** The number the encoder uses for an operand token: the register's number,
      and 0 (the code of $zero) for any token that names no register. */
  function NumberOf(name: string): nat {
    match Named(name)
    case Some(r) => Number(r)
    case None => 0
  }

  /** The code table, entry for entry. */
  const CodeTable: map<string, string> := map[
    "$zero" := "0000", "$t0" := "0001", "$t1" := "0010", "$t2" := "0011",
    "$t3" := "0100", "$t4" := "0101", "$sp" := "0110"]

  /** `register_to_binary`: the table entry of the token, "0000" otherwise.
      The lookup never fails. */
  function RegisterCode(name: string): (code: string)
    ensures |code| == 4 && IsBits(code)
    ensures name !in CodeTable ==> code == "0000"
  {
    if name in CodeTable then CodeTable[name] else "0000"
  }

  /** Each register's code is its number in four binary digits. */
  lemma CodeOfRegister(r: Register)
    ensures RegisterCode(Name(r)) == FixedBin(Number(r))
    ensures BinValue(RegisterCode(Name(r))) == Number(r)
  {
    FixedBinValue(Number(r));
  }

  /** The four-digit binary numeral of n < 16. */
  function FixedBin(n: nat): (s: string)
    requires n < 16
    ensures |s| == 4 && IsBits(s)
  {
    [Bit(n / 8), Bit(n / 4 % 2), Bit(n / 2 % 2), Bit(n % 2)]
  }

  function Bit(b: nat): char
    requires b < 2
  {
    if b == 0 then '0' else '1'
  }

  /** The four-digit numeral of n denotes n. */
  lemma FixedBinValue(n: nat)
    requires n < 16
    ensures BinValue(FixedBin(n)) == n
  {
    var s := FixedBin(n);
    var s1, s2, s3 := s[..1], s[..2], s[..3];
    assert s1[..0] == [] && s2[..1] == s1 && s3[..2] == s2 && s[..3] == s3;
    assert BinValue(s1) == n / 8;
    assert BinValue(s2) == n / 4;
    assert BinValue(s3) == n / 2;
  }

  /** The code of any token denotes the number the encoder uses for it:
      the register's number, or 0 for a token naming no register. */
  lemma {:induction false} CodeValue(name: string)
    ensures BinValue(RegisterCode(name)) == NumberOf(name)
    ensures NumberOf(name) < 16
  {
    match Named(name)
    case Some(r) => CodeOfRegister(r);
    case None =>
      assert name !in CodeTable;
      FixedBinValue(0);
      assert FixedBin(0) == "0000";
  }

  /** Distinct registers have distinct names and distinct codes. */
  lemma CodesDistinct(r: Register, g: Register)
    requires r != g
    ensures Name(r) != Name(g)
    ensures RegisterCode(Name(r)) != RegisterCode(Name(g))
  {
    CodeOfRegister(r);
    CodeOfRegister(g);
  }

  /** A token that names no register is encoded exactly like $zero. */
  lemma UnknownIsZero(name: string)
    requires Named(name).None?
    ensures RegisterCode(name) == RegisterCode(Name(Zero))
  {
    assert name !in CodeTable;
  }
}
