/** One whole run of the script on a program with a label: a counting loop
    whose branch jumps back to its own label,

      LOOP:
      addi $t0,$t0,1
      beq $t0,$t1,LOOP

    The loaded file holds the prologue at index 0, so "LOOP" names index 1,
    and the branch at index 2 is rewritten with the offset 1 - 2 - 1 = -2. */
module SampleRun {
  import opened Results
  import opened PythonText
  import opened PythonNumbers
  import opened Instructions
  import opened HexWords
  import opened Labels
  import opened Assembler
  import opened Driver

  const LabelDef: string := "LOOP:"
  const AddLine: string := "addi $t0,$t0,1"
  const BranchLine: string := "beq $t0,$t1,LOOP"
  const ResolvedBranch: string := "beq $t0,$t1,-2"
  const LoopSource: seq<string> := [LabelDef, AddLine, BranchLine]

  /** The label table of the loaded loop: "LOOP" names index 1. */
  const LoopTable: Table := [("LOOP", 1)]

  const AddInstr: Instr := IInstr(14, "$t0", "$t0", 1)
  const BranchInstr: Instr := IInstr(12, "$t1", "$t0", -2)

  /** The script turns the loop into the header, the prologue word and the
      two words of the loop, the branch carrying the offset -2 as 0xFE. */
  lemma LoopProgram()
    ensures Run(LoopSource) == Ok(["v2.0 raw", "e66ff", "e1101", "c21fe"])
  {
    LoopRun(LoopSource);
  }

  lemma LoopRun(source: seq<string>)
    requires |source| == 3 && source[0] == LabelDef && source[1] == AddLine && source[2] == BranchLine
    ensures Run(source) == Ok(["v2.0 raw", "e66ff", "e1101", "c21fe"])
  {
    var resolved := LoopResolution(source);
    LoopAssembled(resolved);
  }

  /** The lines `assemble` receives: the prologue, the increment, and the
      branch with its offset in place of the label. */
  lemma LoopResolution(source: seq<string>) returns (resolved: seq<string>)
    requires |source| == 3 && source[0] == LabelDef && source[1] == AddLine && source[2] == BranchLine
    ensures var loaded := LoadLines(CleanedFile(source));
            resolved == ReplaceLabels(RemoveLabels(loaded), LabelTable(loaded))
    ensures |resolved| == 3 && resolved[0] == PrologueLine && resolved[1] == AddLine && resolved[2] == ResolvedBranch
  {
    var loaded := LoopLoaded(source);
    resolved := LoopResolved(RemoveLabels(loaded));
  }

  /** The reloaded loop: its table, and the lines left once the label line
      is removed. */
  lemma LoopLoaded(source: seq<string>) returns (loaded: seq<string>)
    requires |source| == 3 && source[0] == LabelDef && source[1] == AddLine && source[2] == BranchLine
    ensures loaded == LoadLines(CleanedFile(source)) && LabelTable(loaded) == LoopTable
    ensures var removed := RemoveLabels(loaded);
            |removed| == 3 && removed[0] == PrologueLine && removed[1] == AddLine && removed[2] == BranchLine
  {
    loaded := LoopReload(source);
    LoopLabels(loaded);
  }

  lemma LoopReload(source: seq<string>) returns (loaded: seq<string>)
    requires |source| == 3 && source[0] == LabelDef && source[1] == AddLine && source[2] == BranchLine
    ensures loaded == LoadLines(CleanedFile(source))
    ensures |loaded| == 4 && loaded[0] == PrologueLine && loaded[1] == LabelDef
            && loaded[2] == AddLine && loaded[3] == BranchLine
  {
    LoopLineKinds();
    loaded := CleanReload(source);
  }

  lemma LoopLabels(loaded: seq<string>)
    requires |loaded| == 4 && loaded[0] == PrologueLine && loaded[1] == LabelDef
    requires loaded[2] == AddLine && loaded[3] == BranchLine
    ensures LabelTable(loaded) == LoopTable
    ensures var removed := RemoveLabels(loaded);
            |removed| == 3 && removed[0] == PrologueLine && removed[1] == AddLine && removed[2] == BranchLine
  {
    LoopLineKinds();
    PrologueClean();
    LoopTableOf(loaded);
    LoopRemoved(loaded);
  }

  /** `assemble` and the image writer on the resolved lines. */
  lemma LoopAssembled(resolved: seq<string>)
    requires |resolved| == 3 && resolved[0] == PrologueLine && resolved[1] == AddLine && resolved[2] == ResolvedBranch
    ensures Assemble(resolved).Ok?
    ensures Image(Assemble(resolved).value) == ["v2.0 raw", "e66ff", "e1101", "c21fe"]
  {
    var prog := [PrologueInstr, AddInstr, BranchInstr];
    LoopDecode(resolved, prog);
    ProgramImage(resolved, prog);
    LoopImage(prog);
    Cons4(Image(Assemble(resolved).value), "v2.0 raw", ReferenceImage(prog), "e66ff", "e1101", "c21fe");
  }

  lemma Cons4<T>(s: seq<T>, h: T, rest: seq<T>, a: T, b: T, c: T)
    requires s == [h] + rest && rest == [a, b, c]
    ensures s == [h, a, b, c]
  {
  }

  /** The loop's lines: clean, at least five characters long, and only the
      first a label line. */
  lemma LoopLineKinds()
    ensures IsCleanLine(LabelDef) && |LabelDef| >= 5 && IsLabelLine(LabelDef)
    ensures IsCleanLine(AddLine) && |AddLine| >= 5 && !IsLabelLine(AddLine)
    ensures IsCleanLine(BranchLine) && |BranchLine| >= 5 && !IsLabelLine(BranchLine)
  {
    assert LastNonSpace(AddLine) == Some('1');
    assert LastNonSpace(BranchLine) == Some('P');
  }

  /** Writing and reloading the cleaned file of clean lines at least five
      characters long puts the prologue in front of them, unchanged. */
  lemma CleanReload(source: seq<string>) returns (loaded: seq<string>)
    requires forall i :: 0 <= i < |source| ==> IsCleanLine(source[i]) && |source[i]| >= 5
    ensures loaded == LoadLines(CleanedFile(source)) == [PrologueLine] + source
  {
    loaded := LoadLines(CleanedFile(source));
    CodeLinesOfClean(source);
    PadAllAt(source);
    assert PadAll(source) == source;
    ReloadCleaned(source);
  }

  /** The label line is the only one: it defines "LOOP" with value 1. */
  lemma LoopTableOf(loaded: seq<string>)
    requires |loaded| == 4 && loaded[0] == PrologueLine && loaded[1] == LabelDef
    requires !IsLabelLine(loaded[2]) && !IsLabelLine(loaded[3])
    ensures LabelTable(loaded) == LoopTable
  {
    PrologueClean();
    var l1, l2, l3 := loaded[..1], loaded[..2], loaded[..3];
    assert l2[..1] == l1 && l3[..2] == l2 && loaded[..3] == l3;
    LabelTableOfCode(l1);
    RemoveLabelsOfCode(l1);
    LoopLabelName();
    SnocTable(l2, l1, LabelDef);
    SnocTable(l3, l2, loaded[2]);
    SnocTable(loaded, l3, loaded[3]);
  }

  lemma LoopLabelName()
    ensures IsLabelLine(LabelDef) && LabelName(LabelDef) == "LOOP"
  {
    LabelNameOfDefinition("LOOP");
    assert "LOOP" + ":" == LabelDef;
  }

  /** `remove_labels` drops the label line alone. */
  lemma LoopRemoved(loaded: seq<string>)
    requires |loaded| == 4 && !IsLabelLine(loaded[0]) && IsLabelLine(loaded[1])
    requires !IsLabelLine(loaded[2]) && !IsLabelLine(loaded[3])
    ensures RemoveLabels(loaded) == [loaded[0], loaded[2], loaded[3]]
  {
    var l1, l2, l3 := loaded[..1], loaded[..2], loaded[..3];
    assert l1[..0] == [] && l2[..1] == l1 && l3[..2] == l2 && loaded[..3] == l3;
    assert RemoveLabels(l1) == [loaded[0]];
    assert RemoveLabels(l2) == [loaded[0]];
    assert RemoveLabels(l3) == [loaded[0], loaded[2]];
  }

  /** Label substitution leaves the prologue and the addi line alone and
      puts the offset -2 in place of "LOOP" in the branch. */
  lemma LoopResolved(removed: seq<string>) returns (resolved: seq<string>)
    requires |removed| == 3 && removed[0] == PrologueLine && removed[1] == AddLine && removed[2] == BranchLine
    ensures resolved == ReplaceLabels(removed, LoopTable)
    ensures |resolved| == 3 && resolved[0] == PrologueLine && resolved[1] == AddLine && resolved[2] == ResolvedBranch
  {
    PrologueClean();
    LoopLineKinds();
    ReplaceLabelsOfCode(removed, LoopTable);
    resolved := ReplaceLabels(removed, LoopTable);
    PrologueUntouched(LoopTable);
    AddUntouched();
    BranchResolved();
  }

  lemma AddUntouched()
    ensures ReplaceLine(AddLine, 1, LoopTable) == AddLine
  {
    AddHasNoLabel();
    ReplaceLineUntouched(AddLine, 1, LoopTable);
  }

  lemma AddHasNoLabel()
    ensures !Contains(AddLine, "LOOP")
  {
    assert 'L' !in AddLine;
    ContainsHead(AddLine, "LOOP");
  }

  /** The branch names "LOOP" once, at its end. */
  lemma BranchResolved()
    ensures ReplaceLine(BranchLine, 2, LoopTable) == ResolvedBranch
  {
    var before := "beq $t0,$t1,";
    BranchTriggers(before);
    ReplaceLineFirst(BranchLine, 2, LoopTable, 0);
    SubstituteOnce(BranchLine, 2, "LOOP", 1, before, []);
    MinusTwo();
    assert before + "-2" + [] == ResolvedBranch;
  }

  lemma BranchTriggers(before: string)
    requires before == "beq $t0,$t1,"
    ensures BranchLine == before + "LOOP" + [] && IsBranchLine(BranchLine)
    ensures Triggers(BranchLine, "LOOP")
    ensures forall i :: 0 <= i < |before| ==> !OccursAt(BranchLine, "LOOP", i)
  {
    assert OccursAt(BranchLine, "LOOP", 12);
    ContainsIffOccurs(BranchLine, "LOOP");
    assert StartsWith(BranchLine, "beq");
    forall i | 0 <= i < |before|
      ensures !OccursAt(BranchLine, "LOOP", i)
    {
      assert BranchLine[i] != 'L';
      assert i + 4 <= |BranchLine| ==> BranchLine[i..i + 4][0] == BranchLine[i];
    }
  }

  lemma MinusTwo()
    ensures IntToString(-2) == "-2"
  {
    assert NatToDecimal(2) == "2";
  }

  /** The three resolved lines are the code lines `assemble` encodes, and
      they decode to the prologue's, the increment's and the branch's
      instructions, all in range. */
  lemma LoopDecode(resolved: seq<string>, prog: seq<Instr>)
    requires |resolved| == 3 && resolved[0] == PrologueLine && resolved[1] == AddLine && resolved[2] == ResolvedBranch
    requires |prog| == 3 && prog[0] == PrologueInstr && prog[1] == AddInstr && prog[2] == BranchInstr
    ensures |prog| == |CodeLines(resolved)|
    ensures forall i :: 0 <= i < |prog| ==> Decode(CodeLines(resolved)[i]) == Ok(prog[i]) && InRange(prog[i])
  {
    LoopCode(resolved);
    LoopWords(resolved, prog);
    DecodeThree(resolved, prog);
  }

  lemma DecodeThree(code: seq<string>, prog: seq<Instr>)
    requires |code| == 3 && |prog| == 3
    requires Decode(code[0]) == Ok(prog[0]) && InRange(prog[0])
    requires Decode(code[1]) == Ok(prog[1]) && InRange(prog[1])
    requires Decode(code[2]) == Ok(prog[2]) && InRange(prog[2])
    ensures forall i :: 0 <= i < 3 ==> Decode(code[i]) == Ok(prog[i]) && InRange(prog[i])
  {
    forall i | 0 <= i < 3
      ensures Decode(code[i]) == Ok(prog[i]) && InRange(prog[i])
    {
      if i == 0 {
      } else if i == 1 {
      } else {
        assert i == 2;
      }
    }
  }

  lemma LoopCode(resolved: seq<string>)
    requires |resolved| == 3 && resolved[0] == PrologueLine && resolved[1] == AddLine && resolved[2] == ResolvedBranch
    ensures CodeLines(resolved) == resolved
  {
    PrologueClean();
    LoopLineKinds();
    ResolvedBranchClean();
    CodeLinesOfClean(resolved);
  }

  lemma ResolvedBranchClean()
    ensures IsCleanLine(ResolvedBranch)
  {
  }

  lemma LoopWords(resolved: seq<string>, prog: seq<Instr>)
    requires |resolved| == 3 && resolved[0] == PrologueLine && resolved[1] == AddLine && resolved[2] == ResolvedBranch
    requires |prog| == 3 && prog[0] == PrologueInstr && prog[1] == AddInstr && prog[2] == BranchInstr
    ensures Decode(resolved[0]) == Ok(prog[0]) && InRange(prog[0])
    ensures Decode(resolved[1]) == Ok(prog[1]) && InRange(prog[1])
    ensures Decode(resolved[2]) == Ok(prog[2]) && InRange(prog[2])
  {
    PrologueDecode();
    PrologueWord();
    AddDecode();
    AddHex();
    BranchDecode();
    BranchHex();
  }

  lemma AddDecode()
    ensures Decode(AddLine) == Ok(AddInstr)
  {
    AddTokens();
    ParseDigits("1");
    assert DecimalValue("1") == 1;
    ImmediateDecode(AddLine, ["addi", "$t0", "$t0", "1"], 14, 1);
  }

  lemma AddTokens()
    ensures Tokenize(AddLine) == ["addi", "$t0", "$t0", "1"]
  {
    LiteralTokens(AddLine, ["addi", "$t0", "$t0", "1"]);
  }

  lemma BranchDecode()
    ensures Decode(ResolvedBranch) == Ok(BranchInstr)
  {
    var tokens := ["beq", "$t0", "$t1", "-2"];
    BranchTokens();
    BeqOperation();
    ParseMinusTwo();
    ImmediateDecode(ResolvedBranch, tokens, 12, -2);
  }

  lemma BeqOperation()
    ensures OperationOf("beq") == Some(Operation(12, ImmediateOp))
  {
  }

  lemma BranchTokens()
    ensures Tokenize(ResolvedBranch) == ["beq", "$t0", "$t1", "-2"]
  {
    LiteralTokens(ResolvedBranch, ["beq", "$t0", "$t1", "-2"]);
  }

  lemma ParseMinusTwo()
    ensures ParseInt("-2") == Some(-2)
  {
    ParseMinusDigits("2");
    assert DecimalValue("2") == 2;
  }

  /** A line of four words, the first followed by a space and the others
      by single commas, tokenizes to those words. */
  lemma LiteralTokens(line: string, tokens: seq<string>)
    requires |tokens| == 4 && forall k :: 0 <= k < 4 ==> IsWord(tokens[k]) && ',' !in tokens[k]
    requires line == tokens[0] + " " + tokens[1] + "," + tokens[2] + "," + tokens[3]
    ensures Tokenize(line) == tokens
  {
    var spaced := tokens[0] + " " + (tokens[1] + " " + (tokens[2] + " " + tokens[3]));
    assert JoinWords(tokens) == spaced by {
      JoinWords4(tokens);
    }
    CommasToSpaces(tokens[0], tokens[1], tokens[2], tokens[3]);
    WordsOfJoin(tokens);
  }

  lemma JoinWords4(tokens: seq<string>)
    requires |tokens| == 4
    ensures JoinWords(tokens) == tokens[0] + " " + (tokens[1] + " " + (tokens[2] + " " + tokens[3]))
  {
    var t1, t2, t3 := tokens[1..], tokens[2..], tokens[3..];
    assert t1[1..] == t2 && t2[1..] == t3 && t3 == [tokens[3]];
    assert JoinWords(t3) == tokens[3];
    assert JoinWords(t2) == tokens[2] + " " + tokens[3];
    assert JoinWords(t1) == tokens[1] + " " + (tokens[2] + " " + tokens[3]);
  }

  /** Turning the commas of "a b,c,d" into spaces gives "a b c d", grouped
      the way `JoinWords` builds it. */
  lemma CommasToSpaces(a: string, b: string, c: string, d: string)
    requires ',' !in a && ',' !in b && ',' !in c && ',' !in d
    ensures ReplaceChar(a + " " + b + "," + c + "," + d, ',', ' ') == a + " " + (b + " " + (c + " " + d))
  {
    var line := a + " " + b + "," + c + "," + d;
    var spaced := a + " " + (b + " " + (c + " " + d));
    var r := ReplaceChar(line, ',', ' ');
    forall i | 0 <= i < |line|
      ensures r[i] == spaced[i]
    {
      if i < |a| + 1 + |b| {
        assert line[i] == spaced[i] && line[i] != ',';
      } else if i == |a| + 1 + |b| {
      } else if i < |a| + 1 + |b| + 1 + |c| {
        assert line[i] == c[i - (|a| + 1 + |b| + 1)] == spaced[i];
      } else if i == |a| + 1 + |b| + 1 + |c| {
      } else {
        assert line[i] == d[i - (|a| + 1 + |b| + 1 + |c| + 1)] == spaced[i];
      }
    }
  }

  /** The image lines of the three instructions. */
  lemma LoopImage(prog: seq<Instr>)
    requires |prog| == 3 && prog[0] == PrologueInstr && prog[1] == AddInstr && prog[2] == BranchInstr
    ensures InRange(prog[0]) && InRange(prog[1]) && InRange(prog[2])
    ensures ReferenceImage(prog) == ["e66ff", "e1101", "c21fe"]
  {
    PrologueWord();
    PrologueHex();
    AddHex();
    BranchHex();
    ImageOfThree(prog, "e66ff", "e1101", "c21fe");
  }

  lemma ImageOfThree(prog: seq<Instr>, a: string, b: string, c: string)
    requires |prog| == 3 && InRange(prog[0]) && InRange(prog[1]) && InRange(prog[2])
    requires FixedHex(WordValue(prog[0]), 5) == a && FixedHex(WordValue(prog[1]), 5) == b
    requires FixedHex(WordValue(prog[2]), 5) == c
    ensures ReferenceImage(prog) == [a, b, c]
  {
    ReferenceImageAt(prog);
  }

  lemma AddHex()
    ensures InRange(AddInstr) && FixedHex(WordValue(AddInstr), 5) == "e1101"
  {
    assert WordValue(AddInstr) == 0xE1101;
    assert FixedHex(0xE, 1) == "e";
    assert FixedHex(0xE1, 2) == "e1";
    assert FixedHex(0xE11, 3) == "e11";
    assert FixedHex(0xE110, 4) == "e110";
  }

  lemma BranchHex()
    ensures InRange(BranchInstr) && FixedHex(WordValue(BranchInstr), 5) == "c21fe"
  {
    assert WordValue(BranchInstr) == 0xC21FE;
    assert FixedHex(0xC, 1) == "c";
    assert FixedHex(0xC2, 2) == "c2";
    assert FixedHex(0xC21, 3) == "c21";
    assert FixedHex(0xC21F, 4) == "c21f";
  }
}
