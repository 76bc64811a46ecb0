/** `assemble`: the driver loop that encodes every code line of a program in
    order, and the image file written from the words it returns. */
module Assembler {
  import opened Results
  import opened PythonText
  import opened PythonNumbers
  import opened Instructions
  import opened HexWords

  /** A line `assemble` encodes: non-empty once stripped, and not a comment. */
  predicate IsCodeLine(line: string) {
    Strip(line) != [] && !StartsWith(Strip(line), "#")
  }

  /** The stripped code lines of a program, in their original order. */
  function CodeLines(lines: seq<string>): (code: seq<string>)
    ensures |code| <= |lines|
  {
    if lines == [] then []
    else (if IsCodeLine(lines[0]) then [Strip(lines[0])] else []) + CodeLines(lines[1..])
  }

  /** `assemble`: each code line, stripped, becomes one word; the first line
      that raises ends the run with its error (lemma AssembleFirstError). It
      succeeds exactly when every code line assembles, and then returns the
      word of each code line, in order. */
  function Assemble(lines: seq<string>): (r: Result<seq<string>, AsmError>)
    ensures r.Ok? <==> AllEncode(AssembleLine, CodeLines(lines))
    ensures r.Ok? ==> WordsOf(AssembleLine, CodeLines(lines), r.value)
  {
    EncodeWords(AssembleLine, lines);
    EncodeLines(AssembleLine, lines)
  }

  /** The loop of `assemble`, with the per-line step `encode` as a parameter:
      one word per code line. */
  function EncodeLines(encode: string -> Result<string, AsmError>, lines: seq<string>)
    : (r: Result<seq<string>, AsmError>)
    ensures r.Ok? ==> |r.value| == |CodeLines(lines)|
  {
    if lines == [] then Ok([])
    else if IsCodeLine(lines[0]) then
      var word :- encode(Strip(lines[0]));
      var rest :- EncodeLines(encode, lines[1..]);
      Ok([word] + rest)
    else EncodeLines(encode, lines[1..])
  }

  /** The image file: the header line, then each word with "0x" cut off,
      spaces removed and zero-filled to five characters. */
  function Image(words: seq<string>): (image: seq<string>)
    ensures |image| == |words| + 1 && image[0] == "v2.0 raw"
    ensures forall i :: 1 <= i < |image| ==> |image[i]| >= 5
  {
    ["v2.0 raw"] + ImageLines(words)
  }

  function ImageLines(words: seq<string>): (lines: seq<string>)
    ensures |lines| == |words|
    ensures forall i :: 0 <= i < |lines| ==> |lines[i]| >= 5
  {
    if words == [] then [] else [ImageLine(words[0])] + ImageLines(words[1..])
  }

  // ------------------------------------------------------------ lemmas

  /** Every code line is stripped, non-empty and not a comment (which lines
      are kept, and in what order, follows from CodeLinesAppend). */
  lemma {:induction false} CodeLinesAreCode(lines: seq<string>)
    ensures forall i :: 0 <= i < |CodeLines(lines)| ==>
              CodeLines(lines)[i] != [] && IsStripped(CodeLines(lines)[i])
              && !StartsWith(CodeLines(lines)[i], "#")
  {
    if lines != [] {
      CodeLinesAreCode(lines[1..]);
    }
  }

  lemma CodeLinesAppend(a: seq<string>, b: seq<string>)
    ensures CodeLines(a + b) == CodeLines(a) + CodeLines(b)
  {
    if a != [] {
      assert (a + b)[1..] == a[1..] + b;
      CodeLinesAppend(a[1..], b);
    } else {
      assert a + b == b;
    }
  }

  /** When `assemble` raises, the error is that of the first code line that
      does not assemble. */
  lemma AssembleFirstError(lines: seq<string>)
    requires Assemble(lines).Err?
    ensures FirstFailure(AssembleLine, CodeLines(lines), Assemble(lines).error)
  {
    EncodeFirstError(AssembleLine, lines);
  }

  /** Every line of `code` encodes. */
  predicate AllEncode(encode: string -> Result<string, AsmError>, code: seq<string>) {
    forall i :: 0 <= i < |code| ==> encode(code[i]).Ok?
  }

  /** `words` holds, position by position, the word of each line of `code`. */
  predicate WordsOf(encode: string -> Result<string, AsmError>, code: seq<string>, words: seq<string>) {
    |words| == |code| && forall i :: 0 <= i < |code| ==> encode(code[i]) == Ok(words[i])
  }

  lemma AllEncodeCons(encode: string -> Result<string, AsmError>, line: string, rest: seq<string>)
    ensures AllEncode(encode, [line] + rest) <==> encode(line).Ok? && AllEncode(encode, rest)
  {
    var code := [line] + rest;
    assert forall i :: 1 <= i < |code| ==> code[i] == rest[i - 1];
    if AllEncode(encode, code) {
      assert code[0] == line;
      forall j | 0 <= j < |rest|
        ensures encode(rest[j]).Ok?
      {
        assert rest[j] == code[j + 1];
      }
    }
    if encode(line).Ok? && AllEncode(encode, rest) {
      forall i | 0 <= i < |code|
        ensures encode(code[i]).Ok?
      {
        if i > 0 {
          assert code[i] == rest[i - 1];
        }
      }
    }
  }

  /** Encoding one more line in front puts its word in front. */
  lemma EncodedCons(encode: string -> Result<string, AsmError>, line: string, rest: seq<string>,
                    word: string, words: seq<string>)
    requires encode(line) == Ok(word) && WordsOf(encode, rest, words)
    ensures WordsOf(encode, [line] + rest, [word] + words)
  {
  }

  lemma {:induction false} EncodeWords(encode: string -> Result<string, AsmError>, lines: seq<string>)
    ensures EncodeLines(encode, lines).Ok? <==> AllEncode(encode, CodeLines(lines))
    ensures EncodeLines(encode, lines).Ok? ==>
              WordsOf(encode, CodeLines(lines), EncodeLines(encode, lines).value)
  {
    if lines != [] {
      EncodeWords(encode, lines[1..]);
      var rest := CodeLines(lines[1..]);
      if IsCodeLine(lines[0]) {
        var line := Strip(lines[0]);
        assert CodeLines(lines) == [line] + rest;
        AllEncodeCons(encode, line, rest);
        if EncodeLines(encode, lines).Ok? {
          EncodedCons(encode, line, rest, encode(line).value, EncodeLines(encode, lines[1..]).value);
        }
      } else {
        assert CodeLines(lines) == rest;
      }
    }
  }

  /** Line i of `code` raises e, and every line before it encodes. */
  predicate FirstFailure(encode: string -> Result<string, AsmError>, code: seq<string>, e: AsmError) {
    exists i :: 0 <= i < |code| && encode(code[i]) == Err(e) && AllEncode(encode, code[..i])
  }

  lemma FirstFailureCons(encode: string -> Result<string, AsmError>, line: string, rest: seq<string>, e: AsmError)
    requires encode(line) == Err(e) || (encode(line).Ok? && FirstFailure(encode, rest, e))
    ensures FirstFailure(encode, [line] + rest, e)
  {
    var code := [line] + rest;
    if encode(line) == Err(e) {
      assert code[0] == line && code[..0] == [];
    } else {
      var i :| 0 <= i < |rest| && encode(rest[i]) == Err(e) && AllEncode(encode, rest[..i]);
      assert code[i + 1] == rest[i];
      assert code[..i + 1] == [line] + rest[..i];
      AllEncodeCons(encode, line, rest[..i]);
    }
  }

  lemma {:induction false} EncodeFirstError(encode: string -> Result<string, AsmError>, lines: seq<string>)
    requires EncodeLines(encode, lines).Err?
    ensures FirstFailure(encode, CodeLines(lines), EncodeLines(encode, lines).error)
  {
    var rest := CodeLines(lines[1..]);
    if IsCodeLine(lines[0]) {
      var line := Strip(lines[0]);
      assert CodeLines(lines) == [line] + rest;
      if encode(line).Ok? {
        EncodeFirstError(encode, lines[1..]);
      }
      FirstFailureCons(encode, line, rest, EncodeLines(encode, lines).error);
    } else {
      EncodeFirstError(encode, lines[1..]);
      assert CodeLines(lines) == rest;
    }
  }

  /** The image holds, after the header, the image text of each word in turn. */
  lemma {:induction false} ImageLinesAt(words: seq<string>)
    ensures forall i :: 0 <= i < |words| ==> ImageLines(words)[i] == ImageLine(words[i])
  {
    if words != [] {
      var rest := words[1..];
      ImageLinesAt(rest);
      var lines := ImageLines(words);
      assert lines == [ImageLine(words[0])] + ImageLines(rest);
      forall i | 0 < i < |words|
        ensures lines[i] == ImageLine(words[i])
      {
        assert lines[i] == ImageLines(rest)[i - 1] && rest[i - 1] == words[i];
      }
    }
  }

  /** The reference image of a program: for each instruction, the five-digit
      hex numeral of its machine word. */
  function ReferenceImage(prog: seq<Instr>): (image: seq<string>)
    requires forall i :: 0 <= i < |prog| ==> InRange(prog[i])
    ensures |image| == |prog|
  {
    if prog == [] then [] else [FixedHex(WordValue(prog[0]), 5)] + ReferenceImage(prog[1..])
  }

  /** A program whose code lines all decode to in-range instructions
      assembles, and its image is the header followed by the five-digit hex
      numerals of the instructions' machine words, in program order. */
  lemma {:induction false} ProgramImage(lines: seq<string>, prog: seq<Instr>)
    requires |prog| == |CodeLines(lines)|
    requires forall i :: 0 <= i < |prog| ==> Decode(CodeLines(lines)[i]) == Ok(prog[i]) && InRange(prog[i])
    ensures Assemble(lines).Ok?
    ensures Image(Assemble(lines).value) == ["v2.0 raw"] + ReferenceImage(prog)
  {
    var code := CodeLines(lines);
    forall i | 0 <= i < |code|
      ensures AssembleLine(code[i]).Ok?
    {
      LineImage(code[i], prog[i]);
    }
    var words := Assemble(lines).value;
    ImageLinesAt(words);
    ReferenceImageAt(prog);
    forall i | 0 <= i < |words|
      ensures ImageLines(words)[i] == ReferenceImage(prog)[i]
    {
      LineImage(code[i], prog[i]);
    }
  }

  lemma {:induction false} ReferenceImageAt(prog: seq<Instr>)
    requires forall i :: 0 <= i < |prog| ==> InRange(prog[i])
    ensures forall i :: 0 <= i < |prog| ==> ReferenceImage(prog)[i] == FixedHex(WordValue(prog[i]), 5)
  {
    if prog != [] {
      ReferenceImageAt(prog[1..]);
    }
  }
}
