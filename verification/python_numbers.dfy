/** The Python number conversions the assembler relies on: `int(s)`,
    `str(n)`, `int(s, 2)`, `format(v, '0{w}b')` and `hex(n)`, together with
    the numeric meaning of the digit strings they produce. */
module PythonNumbers {
  import opened Results
  import opened PythonText

  function Pow2(n: nat): (p: nat)
    ensures p >= 1
  {
    if n == 0 then 1 else 2 * Pow2(n - 1)
  }

  function Pow16(n: nat): (p: nat)
    ensures p >= 1
  {
    if n == 0 then 1 else 16 * Pow16(n - 1)
  }

  lemma {:induction false} Pow2Monotonic(a: nat, b: nat)
    requires a <= b
    ensures Pow2(a) <= Pow2(b)
    decreases b
  {
    if a < b {
      Pow2Monotonic(a, b - 1);
    }
  }

  function Max(a: int, b: int): int {
    if a < b then b else a
  }

  // ---------------------------------------------------------------- decimal

  predicate IsDigit(c: char) {
    '0' <= c <= '9'
  }

  function DigitValue(c: char): (d: nat)
    requires IsDigit(c)
    ensures d < 10
  {
    (c as int) - ('0' as int)
  }

  function DigitChar(d: nat): (c: char)
    requires d < 10
    ensures IsDigit(c) && DigitValue(c) == d
  {
    (('0' as int) + d) as char
  }

  predicate IsDigitsOrUnderscores(d: string) {
    forall i :: 0 <= i < |d| ==> IsDigit(d[i]) || d[i] == '_'
  }

  /** Python's shape for the digits of an integer literal: ASCII digits,
      optionally grouped by single underscores between digits. */
  predicate IsDigitGroups(d: string) {
    && |d| > 0 && IsDigit(d[0]) && IsDigit(d[|d| - 1])
    && IsDigitsOrUnderscores(d)
    && (forall i :: 0 <= i < |d| - 1 ==> d[i] == '_' ==> d[i + 1] != '_')
  }

  /** The number the decimal digits of d denote, underscores ignored. */
  function DecimalValue(d: string): nat
    requires IsDigitsOrUnderscores(d)
  {
    if d == [] then 0
    else if d[|d| - 1] == '_' then DecimalValue(d[..|d| - 1])
    else 10 * DecimalValue(d[..|d| - 1]) + DigitValue(d[|d| - 1])
  }

  /** `int(s)` for a str s in base 10: surrounding whitespace, one optional
      sign, then digit groups; anything else raises ValueError (None). */
  function ParseInt(s: string): Option<int> {
    ParseNumeral(Strip(s))
  }

  /** `int` on text already stripped: one optional sign, then digit groups. */
  function ParseNumeral(t: string): Option<int> {
    var signed := |t| > 0 && (t[0] == '-' || t[0] == '+');
    var body := if signed then t[1..] else t;
    if !IsDigitGroups(body) then None
    else
      var magnitude: int := DecimalValue(body);
      Some(if signed && t[0] == '-' then -magnitude else magnitude)
  }

  /** `str(n)` for n >= 0: the shortest decimal numeral. */
  function NatToDecimal(n: nat): (s: string)
    ensures |s| >= 1 && forall i :: 0 <= i < |s| ==> IsDigit(s[i])
    ensures DecimalValue(s) == n
    ensures s[0] != '0' || s == "0"
  {
    if n < 10 then [DigitChar(n)]
    else
      var high := NatToDecimal(n / 10);
      var s := high + [DigitChar(n % 10)];
      assert s[..|s| - 1] == high;
      s
  }

  /** `str(n)`: a '-' for negative n, then the decimal numeral of |n|. */
  function IntToString(n: int): (s: string)
    ensures ParseInt(s) == Some(n)
    ensures s != [] && NoSpace(s)
  {
    var digits := NatToDecimal(if n < 0 then -n else n);
    var s := if n < 0 then "-" + digits else digits;
    ParseSignedDigits(n, digits, s);
    s
  }

  lemma ParseSignedDigits(n: int, digits: string, s: string)
    requires digits == NatToDecimal(if n < 0 then -n else n)
    requires s == if n < 0 then "-" + digits else digits
    ensures ParseInt(s) == Some(n)
    ensures s != [] && NoSpace(s)
  {
    if n < 0 {
      ParseMinusDigits(digits);
    } else {
      ParseDigits(digits);
    }
  }

  /** A numeral of plain digits reads as its value. */
  lemma ParseDigits(digits: string)
    requires |digits| >= 1 && forall i :: 0 <= i < |digits| ==> IsDigit(digits[i])
    ensures ParseInt(digits) == Some(DecimalValue(digits))
    ensures NoSpace(digits)
  {
    assert IsDigitGroups(digits);
    assert NoSpace(digits) by {
      forall i | 0 <= i < |digits|
        ensures !IsSpace(digits[i])
      {
        assert IsDigit(digits[i]);
      }
    }
    ParseUnsigned(digits);
  }

  lemma ParseUnsigned(t: string)
    requires IsStripped(t) && |t| > 0 && t[0] != '-' && t[0] != '+' && IsDigitGroups(t)
    ensures ParseInt(t) == Some(DecimalValue(t) as int)
  {
    assert Strip(t) == t;
    assert ParseNumeral(t) == Some(DecimalValue(t) as int);
  }

  /** A '-' and a numeral of plain digits read as the negated value. */
  lemma ParseMinusDigits(digits: string)
    requires |digits| >= 1 && forall i :: 0 <= i < |digits| ==> IsDigit(digits[i])
    ensures ParseInt("-" + digits) == Some(-(DecimalValue(digits) as int))
    ensures NoSpace("-" + digits)
  {
    var s := "-" + digits;
    assert IsDigitGroups(digits);
    assert s[0] == '-' && s[1..] == digits;
    assert NoSpace(s) by {
      forall i | 0 <= i < |s|
        ensures !IsSpace(s[i])
      {
        if i > 0 {
          assert s[i] == digits[i - 1];
        }
      }
    }
    ParseNegative(s, digits);
  }

  lemma ParseNegative(t: string, body: string)
    requires IsStripped(t) && |t| > 0 && t[0] == '-' && t[1..] == body && IsDigitGroups(body)
    ensures ParseInt(t) == Some(-(DecimalValue(body) as int))
  {
    assert Strip(t) == t;
    assert ParseNumeral(t) == Some(-(DecimalValue(body) as int));
  }

  // ----------------------------------------------------------------- binary

  predicate IsBits(s: string) {
    forall i :: 0 <= i < |s| ==> s[i] == '0' || s[i] == '1'
  }

  /** The unsigned number a string of binary digits denotes. */
  function BinValue(s: string): (v: nat)
    requires IsBits(s)
    ensures v < Pow2(|s|)
  {
    if s == [] then 0
    else 2 * BinValue(s[..|s| - 1]) + (if s[|s| - 1] == '1' then 1 else 0)
  }

  lemma BitsConcat(a: string, b: string)
    requires IsBits(a) && IsBits(b)
    ensures IsBits(a + b)
  {
    var s := a + b;
    assert forall i :: 0 <= i < |s| ==> s[i] == (if i < |a| then a[i] else b[i - |a|]);
  }

  lemma ShiftAdd(x: nat, p: nat, y: nat, bit: nat)
    ensures 2 * (x * p + y) + bit == x * (2 * p) + (2 * y + bit)
  {
  }

  lemma MulDistributes(x: nat, c: nat, p: nat)
    ensures x * (c * p) == c * (x * p)
  {
  }

  lemma {:induction false} BinValueConcat(a: string, b: string)
    requires IsBits(a) && IsBits(b)
    ensures IsBits(a + b)
    ensures BinValue(a + b) == BinValue(a) * Pow2(|b|) + BinValue(b)
    decreases |b|
  {
    var s := a + b;
    BitsConcat(a, b);
    if b != [] {
      var init := b[..|b| - 1];
      assert s[..|s| - 1] == a + init;
      BinValueConcat(a, init);
      var bit := if b[|b| - 1] == '1' then 1 else 0;
      var x, p, y := BinValue(a), Pow2(|init|), BinValue(init);
      assert s[|s| - 1] == b[|b| - 1];
      assert BinValue(s) == 2 * (x * p + y) + bit;
      assert BinValue(b) == 2 * y + bit;
      assert Pow2(|b|) == 2 * p;
      ShiftAdd(x, p, y, bit);
      assert BinValue(s) == x * (2 * p) + BinValue(b);
    } else {
      assert s == a;
    }
  }

  lemma {:induction false} BinValueZeros(n: nat)
    ensures IsBits(Repeat('0', n)) && BinValue(Repeat('0', n)) == 0
    decreases n
  {
    if n > 0 {
      var z := Repeat('0', n);
      assert z[..n - 1] == Repeat('0', n - 1);
      BinValueZeros(n - 1);
    }
  }

  /** Zero-padding a binary numeral keeps its value. */
  lemma ZeroPadBinValue(s: string, w: nat)
    requires IsBits(s)
    ensures IsBits(ZeroPad(s, w)) && BinValue(ZeroPad(s, w)) == BinValue(s)
  {
    if |s| < w {
      BinValueZeros(w - |s|);
      BinValueConcat(Repeat('0', w - |s|), s);
    }
  }

  /** A binary numeral with a leading one is at least 2^(length - 1). */
  lemma {:induction false} LeadingOneValue(s: string)
    requires IsBits(s) && s != [] && s[0] == '1'
    ensures BinValue(s) >= Pow2(|s| - 1)
    decreases |s|
  {
    if |s| > 1 {
      LeadingOneValue(s[..|s| - 1]);
    }
  }

  /** `bin(n)` without its "0b" prefix: the shortest binary numeral of n. */
  function Bin(n: nat): (s: string)
    ensures IsBits(s) && |s| >= 1 && BinValue(s) == n
    ensures s[0] == '1' || s == "0"
  {
    if n < 2 then (if n == 0 then "0" else "1")
    else
      var high := Bin(n / 2);
      var s := high + (if n % 2 == 0 then "0" else "1");
      assert s[..|s| - 1] == high;
      s
  }

  /** The numeral of a positive n fits in w digits exactly when n < 2^w. */
  lemma BinLength(n: nat, w: nat)
    requires n >= 1
    ensures |Bin(n)| <= w <==> n < Pow2(w)
  {
    var s := Bin(n);
    LeadingOneValue(s);
    if |s| <= w {
      Pow2Monotonic(|s|, w);
    } else {
      Pow2Monotonic(w, |s| - 1);
    }
  }

  /** `int(s, 2)`, for strings over the digits 0 and 1. */
  function ParseBinary(s: string): (r: Option<nat>)
    ensures r.Some? <==> s != [] && IsBits(s)
  {
    if s != [] && IsBits(s) then Some(BinValue(s)) else None
  }

  /** `format(v, '0{w}b')`: the binary digits of |v|, zero-filled so that
      the text, counting a '-' sign for negative v, is at least w wide.
      The width is a minimum: nothing is ever truncated. */
  function FormatBin(v: int, w: nat): (s: string)
    ensures v >= 0 ==> IsBits(s) && BinValue(s) == v && |s| == Max(w, |Bin(v)|)
    ensures v < 0 ==> |s| == 1 + Max(w - 1, |Bin(-v)|) && s[0] == '-'
                      && IsBits(s[1..]) && BinValue(s[1..]) == -v
  {
    if v >= 0 then
      ZeroPadBinValue(Bin(v), w);
      ZeroPad(Bin(v), w)
    else
      var width := if w > 0 then w - 1 else 0;
      ZeroPadBinValue(Bin(-v), width);
      var s := "-" + ZeroPad(Bin(-v), width);
      assert s[1..] == ZeroPad(Bin(-v), width);
      s
  }

  /** Zero formats to w zeros. */
  lemma FormatZero(w: nat)
    requires w >= 1
    ensures FormatBin(0, w) == Repeat('0', w)
  {
    assert Bin(0) == "0";
    assert Repeat('0', w - 1) + "0" == Repeat('0', w);
  }

  /** A value in [0, 2^w) formats to exactly w binary digits. */
  lemma FormatBinFits(v: int, w: nat)
    requires 0 <= v < Pow2(w) && w >= 1
    ensures IsBits(FormatBin(v, w)) && |FormatBin(v, w)| == w
    ensures BinValue(FormatBin(v, w)) == v
  {
    if v >= 1 {
      BinLength(v, w);
    }
  }

  // -------------------------------------------------------------------- hex

  predicate IsHexDigit(c: char) {
    ('0' <= c <= '9') || ('a' <= c <= 'f')
  }

  predicate IsHex(s: string) {
    forall i :: 0 <= i < |s| ==> IsHexDigit(s[i])
  }

  function HexChar(d: nat): (c: char)
    requires d < 16
    ensures IsHexDigit(c)
  {
    if d < 10 then (('0' as int) + d) as char else (('a' as int) + d - 10) as char
  }

  function HexDigitValue(c: char): (d: nat)
    requires IsHexDigit(c)
    ensures d < 16 && HexChar(d) == c
  {
    if c <= '9' then (c as int) - ('0' as int) else (c as int) - ('a' as int) + 10
  }

  /** The number a string of lower-case hex digits denotes. */
  function HexValue(s: string): nat
    requires IsHex(s)
  {
    if s == [] then 0 else 16 * HexValue(s[..|s| - 1]) + HexDigitValue(s[|s| - 1])
  }

  /** `hex(n)[2:]` for n >= 0: the shortest lower-case hex numeral. */
  function HexDigits(n: nat): (s: string)
    ensures |s| >= 1 && IsHex(s)
    ensures s[0] != '0' || s == "0"
  {
    if n < 16 then [HexChar(n)] else HexDigits(n / 16) + [HexChar(n % 16)]
  }

  /** `hex(n)`: "0x" and the hex numeral of |n|, after a '-' for negative n. */
  function PyHex(n: int): string {
    if n < 0 then "-0x" + HexDigits(-n) else "0x" + HexDigits(n)
  }

  /** The k lowest hex digits of n, most significant first: the reference
      rendering of a k-digit machine word. */
  function FixedHex(n: nat, k: nat): (s: string)
    requires n < Pow16(k)
    ensures |s| == k && IsHex(s)
  {
    if k == 0 then [] else FixedHex(n / 16, k - 1) + [HexChar(n % 16)]
  }

  lemma HexValueSnoc(s: string, d: nat)
    requires IsHex(s) && d < 16
    ensures IsHex(s + [HexChar(d)]) && HexValue(s + [HexChar(d)]) == 16 * HexValue(s) + d
  {
    var t := s + [HexChar(d)];
    assert t[..|t| - 1] == s;
  }

  /** The shortest hex numeral of n denotes n. */
  lemma {:induction false} HexDigitsValue(n: nat)
    ensures HexValue(HexDigits(n)) == n
    decreases n
  {
    if n < 16 {
      HexValueSnoc([], n);
      assert [] + [HexChar(n)] == HexDigits(n);
    } else {
      HexDigitsValue(n / 16);
      HexValueSnoc(HexDigits(n / 16), n % 16);
    }
  }

  /** The k-digit rendering of n denotes n. */
  lemma {:induction false} FixedHexValue(n: nat, k: nat)
    requires n < Pow16(k)
    ensures HexValue(FixedHex(n, k)) == n
    decreases k
  {
    if k > 0 {
      Pow16Step(k);
      FixedHexValue(n / 16, k - 1);
      HexValueSnoc(FixedHex(n / 16, k - 1), n % 16);
    }
  }

  lemma {:induction false} FixedHexZero(k: nat)
    ensures FixedHex(0, k) == Repeat('0', k)
    decreases k
  {
    if k > 0 {
      FixedHexZero(k - 1);
      assert Repeat('0', k) == Repeat('0', k - 1) + ['0'];
    }
  }

  lemma {:induction false} HexDigitsLength(n: nat, k: nat)
    requires n < Pow16(k) && k >= 1
    ensures |HexDigits(n)| <= k
    decreases k
  {
    if n >= 16 {
      HexDigitsLength(n / 16, k - 1);
    }
  }

  /** Zero-filling the shortest hex numeral to k digits gives the k-digit
      rendering. */
  lemma {:induction false} ZeroPadHex(n: nat, k: nat)
    requires n < Pow16(k) && k >= 1
    ensures ZeroPad(HexDigits(n), k) == FixedHex(n, k)
    decreases k
  {
    if n < 16 {
      ZeroPadHexDigit(n, k);
    } else {
      var q := n / 16;
      FixedHexSnoc(n, k);
      var c := HexChar(n % 16);
      var high := HexDigits(q);
      assert k - 1 >= 1;
      HexDigitsLength(q, k - 1);
      ZeroPadHex(q, k - 1);
      assert HexDigits(n) == high + [c];
      ZeroPadSnoc(high, c, k);
    }
  }

  lemma ZeroPadHexDigit(n: nat, k: nat)
    requires n < 16 && k >= 1
    ensures n < Pow16(k)
    ensures ZeroPad(HexDigits(n), k) == FixedHex(n, k)
  {
    Pow16Step(k);
    FixedHexZero(k - 1);
    var c := HexChar(n);
    assert n / 16 == 0 && n % 16 == n;
    assert FixedHex(n, k) == FixedHex(n / 16, k - 1) + [HexChar(n % 16)];
    assert FixedHex(n, k) == FixedHex(0, k - 1) + [c];
    assert HexDigits(n) == [c];
    assert ZeroPad([c], k) == Repeat('0', k - 1) + [c];
  }

  lemma ZeroPadSnoc(s: string, c: char, k: nat)
    requires |s| < k
    ensures ZeroPad(s + [c], k) == ZeroPad(s, k - 1) + [c]
  {
    if |s| + 1 < k {
      assert Repeat('0', k - 1 - |s|) + (s + [c]) == (Repeat('0', k - 1 - |s|) + s) + [c];
    }
  }

  lemma Pow16Step(m: nat)
    requires m >= 1
    ensures Pow16(m) == 16 * Pow16(m - 1)
  {
  }

  /** One step of the k-digit rendering: the last digit is n % 16. */
  lemma FixedHexSnoc(n: nat, k: nat)
    requires k >= 1 && n < Pow16(k)
    ensures n / 16 < Pow16(k - 1)
    ensures FixedHex(n, k) == FixedHex(n / 16, k - 1) + [HexChar(n % 16)]
  {
  }

  lemma Split16(n: nat, x: nat, r: nat)
    requires n == 16 * x + r && r < 16
    ensures n / 16 == x && n % 16 == r
  {
  }

  /** The k + m digit rendering of a * 16^m + b is the k-digit rendering of
      a followed by the m-digit rendering of b. */
  lemma FixedHexConcat(a: nat, b: nat, k: nat, m: nat)
    requires a < Pow16(k) && b < Pow16(m)
    ensures a * Pow16(m) + b < Pow16(k + m)
    ensures FixedHex(a * Pow16(m) + b, k + m) == FixedHex(a, k) + FixedHex(b, m)
  {
    var x, y := FixedHex(a, k), FixedHex(b, m);
    FixedHexValue(a, k);
    FixedHexValue(b, m);
    HexValueConcat(x, y);
    var s := x + y;
    assert |s| == k + m;
    assert HexValue(s) == a * Pow16(m) + b;
    FixedHexOfValue(s);
  }

  /** A k-digit hex numeral denotes a number below 16^k. */
  lemma {:induction false} HexValueBound(s: string)
    requires IsHex(s)
    ensures HexValue(s) < Pow16(|s|)
  {
    if s != [] {
      HexValueBound(s[..|s| - 1]);
    }
  }

  /** Rendering the number a hex numeral denotes to its own width gives the
      numeral back. */
  lemma {:induction false} FixedHexOfValue(s: string)
    requires IsHex(s)
    ensures HexValue(s) < Pow16(|s|)
    ensures FixedHex(HexValue(s), |s|) == s
  {
    HexValueBound(s);
    if s != [] {
      var init, d := s[..|s| - 1], HexDigitValue(s[|s| - 1]);
      FixedHexOfValue(init);
      var n := HexValue(s);
      Split16(n, HexValue(init), d);
      FixedHexSnoc(n, |s|);
      assert s == init + [s[|s| - 1]];
    }
  }

  /** The number a concatenation denotes: the first part shifted by the
      width of the second, plus the second. */
  lemma {:induction false} HexValueConcat(a: string, b: string)
    requires IsHex(a) && IsHex(b)
    ensures IsHex(a + b)
    ensures HexValue(a + b) == HexValue(a) * Pow16(|b|) + HexValue(b)
  {
    assert forall i :: 0 <= i < |a + b| ==> (a + b)[i] == if i < |a| then a[i] else b[i - |a|];
    if b == [] {
      assert a + b == a;
    } else {
      var init, d := b[..|b| - 1], HexDigitValue(b[|b| - 1]);
      HexValueConcat(a, init);
      assert (a + b)[..|a + b| - 1] == a + init;
      var x, p := HexValue(a), Pow16(|init|);
      Pow16Step(|b|);
      MulDistributes(x, 16, p);
      assert HexValue(a + b) == 16 * (x * p + HexValue(init)) + d;
    }
  }
}
