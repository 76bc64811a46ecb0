/** The script's top level: the program's code lines are written to a
    cleaned file behind a stack prologue, with short lines zero-filled; the
    file is read back, labels are resolved, every line is assembled, and the
    words go to the image file. */
module Driver {
  import opened Results
  import opened PythonText
  import opened PythonNumbers
  import opened Instructions
  import opened HexWords
  import opened Labels
  import opened Assembler

  /** The first line of the cleaned file, trailing space included. */
  const Prologue: string := "addi $sp, $sp, -1 "

  /** The prologue as it is read back. */
  const PrologueLine: string := "addi $sp, $sp, -1"

  /** The instruction the prologue stands for: $sp := $sp + (-1). */
  const PrologueInstr: Instr := IInstr(14, "$sp", "$sp", -1)

  /** A code line shorter than five characters is zero-filled to five. */
  function PadShort(code: string): (r: string)
    ensures |r| >= 5
    ensures |code| >= 5 ==> r == code
  {
    if |code| < 5 then ZFill(code, 5) else code
  }

  function PadAll(code: seq<string>): (r: seq<string>)
    ensures |r| == |code|
    ensures forall i :: 0 <= i < |r| ==> |r[i]| >= 5
  {
    if code == [] then [] else [PadShort(code[0])] + PadAll(code[1..])
  }

  /** The lines of the cleaned file: the prologue, then each code line of the
      program (`read_mips_code` keeps the same lines as `assemble`), padded. */
  function CleanedFile(source: seq<string>): (f: seq<string>)
    ensures |f| == |CodeLines(source)| + 1 && f[0] == Prologue
    ensures forall i :: 1 <= i < |f| ==> |f[i]| >= 5
  {
    [Prologue] + PadAll(CodeLines(source))
  }

  /** `load_mips_code_to_array`: the non-empty stripped lines of a file. */
  function LoadLines(lines: seq<string>): (loaded: seq<string>)
    ensures |loaded| <= |lines|
    ensures forall i :: 0 <= i < |loaded| ==> loaded[i] != [] && IsStripped(loaded[i])
  {
    if lines == [] then []
    else (if Strip(lines[0]) != [] then [Strip(lines[0])] else []) + LoadLines(lines[1..])
  }

  /** The whole script: the lines of the image file, or the error that stops
      it. A successful run always starts with the header and the prologue's
      word "e66ff", whatever the program. */
  function Run(source: seq<string>): (r: Result<seq<string>, AsmError>)
    ensures r.Ok? ==> |r.value| >= 2 && r.value[0] == "v2.0 raw" && r.value[1] == "e66ff"
  {
    var loaded := LoadLines(CleanedFile(source));
    var table := LabelTable(loaded);
    var resolved := ReplaceLabels(RemoveLabels(loaded), table);
    var words :- Assemble(resolved);
    ResolvedHead(source);
    PrologueWordFirst(resolved, words);
    Ok(Image(words))
  }

  /** When `assemble` gets the prologue first, the image line after the
      header is the prologue's. */
  lemma PrologueWordFirst(resolved: seq<string>, words: seq<string>)
    requires resolved != [] && resolved[0] == PrologueLine && Assemble(resolved) == Ok(words)
    ensures |Image(words)| >= 2 && Image(words)[1] == "e66ff"
  {
    HeadCode(resolved);
    PrologueImage();
    ImageLinesAt(words);
  }

  /** Label resolution leaves the prologue in front of whatever it does to
      the program: the prologue is no label line and holds no "beq", "bneq"
      or 'j'. */
  lemma ResolvedHead(source: seq<string>)
    ensures var loaded := LoadLines(CleanedFile(source));
            var resolved := ReplaceLabels(RemoveLabels(loaded), LabelTable(loaded));
            resolved != [] && resolved[0] == PrologueLine
  {
    var loaded := LoadLines(CleanedFile(source));
    RemovedHead(source);
    ReplacedHead(RemoveLabels(loaded), LabelTable(loaded));
  }

  /** `remove_labels` keeps the prologue first. */
  lemma RemovedHead(source: seq<string>)
    ensures var removed := RemoveLabels(LoadLines(CleanedFile(source)));
            removed != [] && removed[0] == PrologueLine
  {
    var padded := PadAll(CodeLines(source));
    ReloadCleaned(source);
    PrologueClean();
    RemoveLabelsAppend([PrologueLine], padded);
    assert [PrologueLine][..0] == [];
  }

  /** Label substitution keeps the prologue first. */
  lemma ReplacedHead(removed: seq<string>, table: Table)
    requires removed != [] && removed[0] == PrologueLine
    ensures var resolved := ReplaceLabels(removed, table);
            resolved != [] && resolved[0] == PrologueLine
  {
    PrologueClean();
    assert removed[0..] == removed;
    PrologueUntouched(table);
  }

  /** No label entry rewrites the prologue. */
  lemma PrologueUntouched(table: Table)
    ensures ReplaceLine(PrologueLine, 0, table) == PrologueLine
  {
    assert 'b' !in PrologueLine && 'j' !in PrologueLine;
    ContainsHead(PrologueLine, "beq");
    ContainsHead(PrologueLine, "bneq");
    ContainsHead(PrologueLine, "j");
  }

  /** A list that starts with the prologue has the prologue as its first
      code line. */
  lemma HeadCode(lines: seq<string>)
    requires lines != [] && lines[0] == PrologueLine
    ensures CodeLines(lines) != [] && CodeLines(lines)[0] == PrologueLine
  {
    PrologueClean();
  }

  /** No line is a label line. */
  predicate NoLabelLines(code: seq<string>) {
    forall i :: 0 <= i < |code| ==> !IsLabelLine(code[i])
  }

  /** A loaded line: non-empty, stripped, and not a comment. */
  predicate IsCleanLine(line: string) {
    line != [] && IsStripped(line) && !StartsWith(line, "#")
  }

  // ------------------------------------------------------------ padding

  lemma {:induction false} PadAllAt(code: seq<string>)
    ensures forall i :: 0 <= i < |code| ==> PadAll(code)[i] == PadShort(code[i])
  {
    if code != [] {
      PadAllAt(code[1..]);
    }
  }

  /** Padding keeps a clean line clean and leaves its last character, and so
      whether it is a label line, as it was; only a lone sign changes its
      last character, to '0'. */
  lemma PadShortClean(line: string)
    requires IsCleanLine(line)
    ensures IsCleanLine(PadShort(line))
    ensures IsLabelLine(PadShort(line)) <==> IsLabelLine(line)
  {
    var r := PadShort(line);
    if |line| < 5 {
      PadEnds(line);
      SameEnds(line, r);
    }
  }

  /** A line whose ends agree with a clean line's, up to a '0' standing in
      for a sign or a leading character, is clean, and a label line exactly
      when the clean line is. */
  lemma SameEnds(line: string, r: string)
    requires IsCleanLine(line) && r != []
    requires r[0] == line[0] || r[0] == '0'
    requires r[|r| - 1] == line[|line| - 1] || (line[|line| - 1] != ':' && r[|r| - 1] == '0')
    ensures IsCleanLine(r)
    ensures IsLabelLine(r) <==> IsLabelLine(line)
  {
    assert line[..1] == [line[0]];
    assert r[..1] == [r[0]];
    assert IsStripped(r);
    LabelLineIsStrippedColon(r);
    LabelLineIsStrippedColon(line);
  }

  /** The first character of a padded line is its own or '0', and the last
      is its own unless the line is a lone sign. */
  lemma PadEnds(line: string)
    requires line != []
    ensures var r := PadShort(line);
            && (r[0] == line[0] || r[0] == '0')
            && (r[|r| - 1] == line[|line| - 1] || (line[|line| - 1] != ':' && r[|r| - 1] == '0'))
  {
    var r := PadShort(line);
    if |line| < 5 {
      if line[0] == '+' || line[0] == '-' {
        assert r == [line[0]] + ZeroPad(line[1..], 4);
      } else {
        assert r == ZeroPad(line, 5);
      }
    }
  }

  /** Every mnemonic starts with a letter. */
  lemma MnemonicsStartWithLetter(m: string)
    requires m in Mnemonics
    ensures m != [] && 'a' <= m[0] <= 'z'
  {
  }

  /** The first token of a line that starts with a printing character other
      than ',' begins with that character. */
  lemma FirstTokenStart(line: string)
    requires line != [] && !IsSpace(line[0]) && line[0] != ','
    ensures |Tokenize(line)| >= 1 && Tokenize(line)[0] != [] && Tokenize(line)[0][0] == line[0]
  {
    var s := ReplaceChar(line, ',', ' ');
    assert s[0] == line[0];
    var n := WordLength(s);
    assert Words(s) == [s[..n]] + Words(s[n..]);
  }

  /** A code line shorter than five characters becomes, once zero-filled, a
      line whose first token starts with '0' or a sign: no mnemonic, so
      `parse_instruction` raises "Unsupported instruction". A short jump such
      as "j 5" is rejected this way. */
  lemma ShortLineRejected(line: string)
    requires IsCleanLine(line) && |line| < 5
    ensures AssembleLine(PadShort(line)) == Err(UnsupportedInstruction(PadShort(line)))
  {
    var r := PadShort(line);
    assert r[0] == '0' || r[0] == '+' || r[0] == '-';
    FirstTokenStart(r);
    var m := Tokenize(r)[0];
    if m in Mnemonics {
      MnemonicsStartWithLetter(m);
      assert false;
    }
    DispatchTable(m);
  }

  // ------------------------------------------------------------ reloading

  /** Reading back a file of clean lines gives the same lines. */
  lemma {:induction false} LoadClean(lines: seq<string>)
    requires forall i :: 0 <= i < |lines| ==> IsCleanLine(lines[i])
    ensures LoadLines(lines) == lines
  {
    if lines != [] {
      assert IsCleanLine(lines[0]);
      LoadClean(lines[1..]);
    }
  }

  /** A stripped line with one trailing whitespace character strips back to
      itself. */
  lemma StripTrailing(b: string, c: char)
    requires b != [] && IsStripped(b) && IsSpace(c)
    ensures Strip(b + [c]) == b
  {
    var s := b + [c];
    assert LStrip(s) == s;
    assert s[..|s| - 1] == b;
    assert RStrip(b) == b;
  }

  /** The padded code lines are clean. */
  lemma PaddedClean(source: seq<string>)
    ensures forall i :: 0 <= i < |PadAll(CodeLines(source))| ==> IsCleanLine(PadAll(CodeLines(source))[i])
  {
    var code := CodeLines(source);
    CodeLinesAreCode(source);
    PadAllAt(code);
    forall i | 0 <= i < |code|
      ensures IsCleanLine(PadAll(code)[i])
    {
      assert IsCleanLine(code[i]);
      PadShortClean(code[i]);
    }
  }

  /** Writing the cleaned file and loading it back yields the prologue
      without its trailing space, then the padded code lines, unchanged. */
  lemma ReloadCleaned(source: seq<string>)
    ensures LoadLines(CleanedFile(source)) == [PrologueLine] + PadAll(CodeLines(source))
  {
    var padded := PadAll(CodeLines(source));
    var file := CleanedFile(source);
    assert PrologueLine + [' '] == Prologue;
    StripTrailing(PrologueLine, ' ');
    assert file[0] == Prologue && file[1..] == padded;
    PaddedClean(source);
    LoadClean(padded);
  }

  // ------------------------------------------------------------ the prologue

  lemma PrologueTokens()
    ensures Tokenize(PrologueLine) == ["addi", "$sp", "$sp", "-1"]
  {
    PrologueSpaced();
    SpacedTokens(ReplaceChar(PrologueLine, ',', ' '));
  }

  lemma SpacedTokens(s: string)
    requires s == "addi" + (" " + SpacedOperands())
    ensures Words(s) == ["addi", "$sp", "$sp", "-1"]
  {
    OperandTokens();
    EncodedWordsOf("addi", " " + SpacedOperands(), ["$sp", "$sp", "-1"]);
  }

  lemma PrologueSpaced()
    ensures ReplaceChar(PrologueLine, ',', ' ') == "addi" + (" " + SpacedOperands())
  {
  }

  /** The operands of the prologue with each comma turned into a space. */
  function SpacedOperands(): string {
    "$sp" + (" " + (" " + ("$sp" + (" " + (" " + "-1")))))
  }

  lemma OperandTokens()
    ensures Words(" " + SpacedOperands()) == ["$sp", "$sp", "-1"]
  {
    var last := " " + (" " + "-1");
    LastTokens();
    var second := SpacedWord("$sp", last, ["-1"]);
    WordsOfSpace(second);
    var first := SpacedWord("$sp", " " + second, ["$sp", "-1"]);
    assert first == " " + SpacedOperands();
  }

  /** A space, a word, then text that starts with a space. */
  lemma SpacedWord(w: string, rest: string, ws: seq<string>) returns (t: string)
    requires IsWord(w) && rest != [] && IsSpace(rest[0]) && Words(rest) == ws
    ensures t == " " + (w + rest) && Words(t) == [w] + ws
  {
    t := " " + (w + rest);
    WordsOfSpace(w + rest);
    EncodedWordsOf(w, rest, ws);
  }

  lemma LastTokens()
    ensures Words(" " + (" " + "-1")) == ["-1"]
  {
    WordsOfCons("-1", []);
    assert "-1" + [] == "-1";
    WordsOfSpace("-1");
    WordsOfSpace(" " + "-1");
  }

  /** One more word in front of a space. */
  lemma EncodedWordsOf(w: string, rest: string, ws: seq<string>)
    requires IsWord(w) && rest != [] && IsSpace(rest[0]) && Words(rest) == ws
    ensures Words(w + rest) == [w] + ws
  {
    WordsOfCons(w, rest);
  }

  lemma MinusOne()
    ensures ParseInt("-1") == Some(-1)
  {
    ParseMinusDigits("1");
    assert "-" + "1" == "-1";
    assert DecimalValue("1") == 1;
  }

  /** The prologue decodes to addi with $sp as both registers and immediate
      -1, a word whose low byte is 0xFF; its image line is "e66ff". */
  lemma PrologueImage()
    ensures Decode(PrologueLine) == Ok(PrologueInstr)
    ensures InRange(PrologueInstr) && WordValue(PrologueInstr) == 0xE66FF
    ensures AssembleLine(PrologueLine).Ok?
    ensures ImageLine(AssembleLine(PrologueLine).value) == "e66ff"
  {
    PrologueDecode();
    PrologueWord();
    LineImage(PrologueLine, PrologueInstr);
    PrologueHex();
  }

  lemma PrologueDecode()
    ensures Decode(PrologueLine) == Ok(PrologueInstr)
  {
    PrologueTokens();
    MinusOne();
    ImmediateDecode(PrologueLine, ["addi", "$sp", "$sp", "-1"], 14, -1);
  }

  /** A four-token immediate line decodes to its I-type instruction. */
  lemma ImmediateDecode(line: string, tokens: seq<string>, op: nat, v: int)
    requires Tokenize(line) == tokens && |tokens| == 4
    requires OperationOf(tokens[0]) == Some(Operation(op, ImmediateOp))
    requires ParseInt(tokens[3]) == Some(v)
    ensures Decode(line) == Ok(IInstr(op, tokens[2], tokens[1], v))
  {
    assert Int(tokens[3]) == Ok(v);
    assert DecodeOperands(op, ImmediateOp, tokens) == Ok(IInstr(op, tokens[2], tokens[1], v));
  }

  lemma PrologueWord()
    ensures InRange(PrologueInstr) && WordValue(PrologueInstr) == 0xE66FF
  {
  }

  lemma PrologueHex()
    ensures FixedHex(0xE66FF, 5) == "e66ff"
  {
    assert FixedHex(0xE, 1) == "e";
    assert FixedHex(0xE6, 2) == "e6";
    assert FixedHex(0xE66, 3) == "e66";
    assert FixedHex(0xE66F, 4) == "e66f";
  }

  // ------------------------------------------------------------ whole runs

  /** A label-free run: the table is empty and every loaded line is
      assembled as it was loaded. */
  lemma {:induction false} LabelTableOfCode(lines: seq<string>)
    requires NoLabelLines(lines)
    ensures LabelTable(lines) == []
  {
    if lines != [] {
      LabelTableOfCode(lines[..|lines| - 1]);
    }
  }

  /** The lines `assemble` encodes in a clean list are all of them. */
  lemma {:induction false} CodeLinesOfClean(lines: seq<string>)
    requires forall i :: 0 <= i < |lines| ==> IsCleanLine(lines[i])
    ensures CodeLines(lines) == lines
  {
    if lines != [] {
      assert IsCleanLine(lines[0]);
      CodeLinesOfClean(lines[1..]);
    }
  }

  /** Label resolution leaves a list of clean, non-label lines as it is,
      and `assemble` encodes every one of them. */
  lemma ResolveCode(lines: seq<string>)
    requires forall i :: 0 <= i < |lines| ==> IsCleanLine(lines[i]) && !IsLabelLine(lines[i])
    ensures ReplaceLabels(RemoveLabels(lines), LabelTable(lines)) == lines
    ensures CodeLines(lines) == lines
  {
    LabelTableOfCode(lines);
    RemoveLabelsOfCode(lines);
    ReplaceLabelsOfCode(lines, []);
    assert ReplaceLabels(lines, []) == lines;
    CodeLinesOfClean(lines);
  }

  lemma PrologueClean()
    ensures IsCleanLine(PrologueLine) && !IsLabelLine(PrologueLine)
  {
    assert LastNonSpace(PrologueLine) == Some('1');
  }

  /** The loaded lines of a label-free program are clean and not labels. */
  lemma LoadedClean(source: seq<string>)
    requires NoLabelLines(CodeLines(source))
    ensures var loaded := [PrologueLine] + PadAll(CodeLines(source));
            forall i :: 0 <= i < |loaded| ==> IsCleanLine(loaded[i]) && !IsLabelLine(loaded[i])
  {
    var code := CodeLines(source);
    var padded := PadAll(code);
    var loaded := [PrologueLine] + padded;
    CodeLinesAreCode(source);
    PadAllAt(code);
    PrologueClean();
    forall i | 0 <= i < |loaded|
      ensures IsCleanLine(loaded[i]) && !IsLabelLine(loaded[i])
    {
      if i > 0 {
        assert loaded[i] == PadShort(code[i - 1]);
        assert IsCleanLine(code[i - 1]) && !IsLabelLine(code[i - 1]);
        PadShortClean(code[i - 1]);
      }
    }
  }

  /** For a program without label lines, the lines `assemble` receives are
      the prologue and the padded code lines. */
  lemma ResolvedWithoutLabels(source: seq<string>) returns (resolved: seq<string>)
    requires NoLabelLines(CodeLines(source))
    ensures resolved == [PrologueLine] + PadAll(CodeLines(source))
    ensures Run(source) == (var words :- Assemble(resolved); Ok(Image(words)))
    ensures CodeLines(resolved) == resolved
  {
    resolved := [PrologueLine] + PadAll(CodeLines(source));
    ReloadCleaned(source);
    LoadedClean(source);
    ResolveCode(resolved);
  }

  /** A label-free program whose code lines are at least five characters
      long and decode to in-range instructions runs to the image: the
      header, the prologue word "e66ff", then the five-digit hex numeral of
      each instruction's word, in program order. */
  lemma ProgramRun(source: seq<string>, prog: seq<Instr>)
    requires NoLabelLines(CodeLines(source))
    requires |prog| == |CodeLines(source)|
    requires forall i :: 0 <= i < |prog| ==>
               |CodeLines(source)[i]| >= 5 && Decode(CodeLines(source)[i]) == Ok(prog[i]) && InRange(prog[i])
    ensures Run(source) == Ok(["v2.0 raw", "e66ff"] + ReferenceImage(prog))
  {
    var resolved := ResolvedWithoutLabels(source);
    var full := WithPrologue(source, prog, resolved);
    ProgramImage(resolved, full);
    var tail := ReferenceImage(prog);
    PrologueImage();
    PrologueHex();
    ReferenceImageCons(PrologueInstr, prog);
    Prepend2("v2.0 raw", "e66ff", tail);
  }

  lemma Prepend2<T>(a: T, b: T, t: seq<T>)
    ensures [a] + ([b] + t) == [a, b] + t
  {
  }

  /** The instructions `assemble` sees: the prologue's, then the program's. */
  lemma WithPrologue(source: seq<string>, prog: seq<Instr>, resolved: seq<string>) returns (full: seq<Instr>)
    requires |prog| == |CodeLines(source)|
    requires forall i :: 0 <= i < |prog| ==>
               |CodeLines(source)[i]| >= 5 && Decode(CodeLines(source)[i]) == Ok(prog[i]) && InRange(prog[i])
    requires resolved == [PrologueLine] + PadAll(CodeLines(source)) && CodeLines(resolved) == resolved
    ensures full == [PrologueInstr] + prog
    ensures |full| == |CodeLines(resolved)|
    ensures forall i :: 0 <= i < |full| ==> Decode(CodeLines(resolved)[i]) == Ok(full[i]) && InRange(full[i])
  {
    var code := CodeLines(source);
    full := [PrologueInstr] + prog;
    PadAllAt(code);
    PrologueDecode();
    PrologueWord();
    forall i | 0 <= i < |full|
      ensures Decode(resolved[i]) == Ok(full[i]) && InRange(full[i])
    {
      if i > 0 {
        assert resolved[i] == code[i - 1] && full[i] == prog[i - 1];
      }
    }
  }

  lemma ReferenceImageCons(ins: Instr, prog: seq<Instr>)
    requires InRange(ins) && forall i :: 0 <= i < |prog| ==> InRange(prog[i])
    ensures ReferenceImage([ins] + prog) == [FixedHex(WordValue(ins), 5)] + ReferenceImage(prog)
  {
    assert ([ins] + prog)[1..] == prog;
  }

  /** A label-free program with a code line shorter than five characters
      fails: that line, zero-filled, no longer names an instruction. */
  lemma ShortProgramRejected(source: seq<string>, i: nat)
    requires NoLabelLines(CodeLines(source))
    requires i < |CodeLines(source)| && |CodeLines(source)[i]| < 5
    ensures Run(source).Err?
  {
    var code := CodeLines(source);
    var resolved := ResolvedWithoutLabels(source);
    CodeLinesAreCode(source);
    PadAllAt(code);
    ShortLineRejected(code[i]);
    assert resolved[i + 1] == PadShort(code[i]);
  }
}
