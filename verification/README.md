# A verified model of the 8-bit MIPS assembler script

The script `mips_to_assembly.py` turns a small MIPS-like assembly program into a
Logisim ROM image. Each instruction becomes a 20-bit word with these fields:

- a 4-bit opcode;
- 4-bit register codes;
- 8-bit immediates.

The script runs these stages in order:

1. It keeps the program's code lines. Blank lines and `#` comments are dropped.
2. It writes them to a cleaned file behind a stack prologue `addi $sp, $sp, -1`. Lines shorter than five characters are zero-filled.
3. It reads the cleaned file back.
4. It records every label line (`name:`) with the index of the code line that follows it.
5. It deletes the label lines.
6. It replaces label names in branch and jump lines with offsets or line numbers.
7. It encodes every line with `parse_instruction`. This gives a binary string; the register lookup is `register_to_binary`, and the field formatters are `r_type`, `i_type` and `j_type`.
8. It turns each binary string into a hex numeral with `hex`, or with `to_hex` when a negative immediate left a `-` inside the string.
9. It writes the image file: a `v2.0 raw` header, then one zero-filled five-digit line per word.

The Dafny project models each stage as a pure function over Python values:

- strings are `seq<char>`;
- lists are sequences;
- the label dictionary is an insertion-ordered association list;
- exceptions are `Err` values of `AsmError`.

It then proves what the stages guarantee:

- the encoding of every field;
- round trips for the Python primitives the script relies on;
- the meaning of the label table;
- the first-error behaviour of `assemble`;
- the image of a whole program.

Modules, in dependency order:

| module | file | models |
|---|---|---|
| `Results` | results.dfy | `Option`, `Result` |
| `PythonText` | python_text.dfy | `str.strip`/`lstrip`/`rstrip`, `split()`, `split(c)`, `replace`, `in`, `zfill`, slicing |
| `PythonNumbers` | python_numbers.dfy | `int(s)`, `str(n)`, `int(s, 2)`, the `0{w}b` format, `hex` |
| `Registers` | registers.dfy | `register_to_binary` |
| `Fields` | fields.dfy | `r_type`, `i_type`, `j_type` |
| `Instructions` | instructions.dfy | `parse_instruction` |
| `HexWords` | hex_words.dfy | `to_hex`, one line of `assemble`, one line of the image |
| `Assembler` | assembler.dfy | `assemble`, the image file |
| `Labels` | labels.dfy | `get_label_line_numbers`, `remove_labels`, `replace_labels_with_line_numbers` |
| `Driver` | driver.dfy | the top-level script: prologue, zero-fill, reload, pipeline |
| `SampleRun` | sample_run.dfy | one whole run of the script on a counting loop with a label |

`parse_instruction` is split into two parts:

- `Decode`, from the instruction text to an `Instr` datatype. Every error the function can raise arises here.
- `Encode`, from `Instr` to the bit string.

This split is exact: the register lookup and the formatting steps never fail.

A machine word is *in range* (`Instructions.InRange`) when all of these hold:

- every shift amount is below 16;
- every immediate lies in -128..255;
- every jump target lies in 0..255.

For such a word, the image line that `assemble` and the image writer give it is the five-digit hex numeral of the word's value, `WordValue` (`HexWords.LineImage`). The script rejects a code line shorter than five characters before that point: it zero-fills the line, so `j 5` becomes `00j 5`, which raises the unsupported-instruction error (`Driver.ShortLineRejected`).

## Model

| member | source | states |
|---|---|---|
| Registers.RegisterCode | B1_05_Necessary_Content/mips_to_assembly.py:4-10 | every token gets a four-digit binary code, and a token missing from the table gets "0000" |
| Registers.CodeOfRegister | B1_05_Necessary_Content/mips_to_assembly.py:6-9 | the code of each of the seven registers is its register number written in four binary digits |
| Registers.CodeValue | B1_05_Necessary_Content/mips_to_assembly.py:4-10 | the value of any token's code is that register's number (0 for an unknown token), below 16 |
| Registers.CodesDistinct | B1_05_Necessary_Content/mips_to_assembly.py:6-9 | different registers have different names and different codes |
| Registers.UnknownIsZero | B1_05_Necessary_Content/mips_to_assembly.py:10 | a token that names no register is encoded exactly as `$zero` |
| Fields.RType | B1_05_Necessary_Content/mips_to_assembly.py:13-15 | with a 4-bit opcode and a shift amount below 16, the word is 20 bits: opcode, rs, rt, rd codes, then the shift amount |
| Fields.IType | B1_05_Necessary_Content/mips_to_assembly.py:18-20 | with a 4-bit opcode and an immediate in 0..255, the word is 20 bits: opcode, rs, rt codes, then the immediate |
| Fields.JType | B1_05_Necessary_Content/mips_to_assembly.py:22-27 | with a 4-bit opcode and target and filler in 0..255, the word is 20 bits: opcode, target, filler |
| Fields.RTypeValue | B1_05_Necessary_Content/mips_to_assembly.py:13-15 | the numeric value of an R-type word is opcode·2^16 + rs·2^12 + rt·2^8 + rd·2^4 + shift amount |
| Fields.ITypeValue | B1_05_Necessary_Content/mips_to_assembly.py:18-20 | the numeric value of an I-type word is opcode·2^16 + rs·2^12 + rt·2^8 + immediate |
| Fields.JTypeValue | B1_05_Necessary_Content/mips_to_assembly.py:22-27 | a jump word's value is opcode·2^16 + target·2^8, and its low byte is all zeros |
| Fields.ITypeNegative | B1_05_Necessary_Content/mips_to_assembly.py:18-20 | a negative immediate makes the word the 12-bit prefix, then "-", then the magnitude zero-padded to seven binary digits |
| Fields.RTypeSign | B1_05_Necessary_Content/mips_to_assembly.py:13-15 | an R-type word has at least 20 characters, opens with the opcode, and holds a "-" exactly when the shift amount is negative |
| Fields.ITypeSign | B1_05_Necessary_Content/mips_to_assembly.py:18-20 | an I-type word has at least 20 characters, opens with the opcode, and holds a "-" exactly when the immediate is negative |
| Fields.JTypeSign | B1_05_Necessary_Content/mips_to_assembly.py:22-27 | a jump word has at least 20 characters, opens with the opcode, and holds a "-" exactly when the target is negative |
| PythonNumbers.FormatBin | B1_05_Necessary_Content/mips_to_assembly.py:20 | the `0{w}b` format: a non-negative value gives its binary digits padded to the width; a negative one gives "-" then the magnitude padded to width − 1 |
| PythonNumbers.FormatBinFits | B1_05_Necessary_Content/mips_to_assembly.py:20 | a value below 2^w is formatted in exactly w binary digits that read back as the value |
| PythonNumbers.BinLength | B1_05_Necessary_Content/mips_to_assembly.py:20 | the binary numeral of a positive n fits in w digits exactly when n < 2^w |
| Instructions.DispatchTable | B1_05_Necessary_Content/mips_to_assembly.py:40-123 | a mnemonic is accepted exactly when it is one of the sixteen, and each accepted mnemonic gets its own opcode |
| Instructions.OpcodesDistinct | B1_05_Necessary_Content/mips_to_assembly.py:40-120 | the sixteen opcodes are pairwise distinct and cover every 4-bit value |
| Instructions.Shapes | B1_05_Necessary_Content/mips_to_assembly.py:40-120 | which mnemonics take three registers, a shift, an immediate, a memory operand or a jump target, each an if-and-only-if |
| Instructions.TokensAreWords | B1_05_Necessary_Content/mips_to_assembly.py:32-38 | every token is non-empty and free of whitespace, so the per-token strip and the filter leave the token list unchanged |
| Instructions.Int | B1_05_Necessary_Content/mips_to_assembly.py:49 | `int(val)` succeeds exactly when the text is a Python integer literal, returns its value, and otherwise fails naming the text |
| Instructions.Decode | B1_05_Necessary_Content/mips_to_assembly.py:30-123 | unsupported exactly when the first token is no mnemonic; missing token exactly when there are too few tokens; on success the opcode is the mnemonic's |
| Instructions.ParseInstruction | B1_05_Necessary_Content/mips_to_assembly.py:30-123 | `parse_instruction`: the unsupported-instruction error arises exactly when the first token is no mnemonic; it succeeds exactly when `Decode` does, with at least 20 characters opening with the mnemonic's opcode, and holds a "-" exactly when the decoded instruction has a negative field |
| Instructions.Encode | B1_05_Necessary_Content/mips_to_assembly.py:13-27 | the word has at least 20 characters, opens with the opcode's four binary digits, and holds a "-" exactly when the shift amount, immediate or jump target is negative |
| Instructions.DecodeOperands | B1_05_Necessary_Content/mips_to_assembly.py:40-120 | once enough tokens are present, the only errors are a bad integer and a malformed memory operand, and the opcode is the dispatched one |
| Instructions.WordValue | B1_05_Necessary_Content/mips_to_assembly.py:13-27 | an in-range instruction's word value fits in 20 bits |
| Instructions.EncodeValue | B1_05_Necessary_Content/mips_to_assembly.py:13-27 | an in-range instruction without a negative immediate encodes to 20 binary digits whose value is its word value |
| Instructions.RegisterPlacement | B1_05_Necessary_Content/mips_to_assembly.py:40-43 | `add` and the other three-register operations put the opcode, then operands 2, 3 and 1, then "0000" |
| Instructions.BranchPlacement | B1_05_Necessary_Content/mips_to_assembly.py:106-114 | branch and immediate operations put the opcode, operand 2, operand 1, then the integer in eight binary digits |
| Instructions.MemoryPlacement | B1_05_Necessary_Content/mips_to_assembly.py:76-87 | `lw`/`sw` with `offset(reg)` put the opcode, the base register, operand 1, then the offset in eight binary digits |
| Instructions.OffsetOperand | B1_05_Necessary_Content/mips_to_assembly.py:79-80 | splitting `offset(reg)` on "(" and stripping ")" gives back exactly the offset and the register |
| Instructions.MemoryMalformed | B1_05_Necessary_Content/mips_to_assembly.py:79 | a memory operand that does not split into exactly two pieces on "(" is rejected |
| Instructions.CommasAsSpaces | B1_05_Necessary_Content/mips_to_assembly.py:32 | two instructions that agree once commas become spaces assemble to the same word |
| Instructions.Unsupported | B1_05_Necessary_Content/mips_to_assembly.py:122-123 | an unknown first token raises the unsupported-instruction error for that line |
| Instructions.UnsupportedMessageNamesInstruction | B1_05_Necessary_Content/mips_to_assembly.py:123 | the error message contains the offending instruction |
| HexWords.Binary | B1_05_Necessary_Content/mips_to_assembly.py:133 | on the bit strings the encoder produces, `int(s, 2)` succeeds exactly when the string is non-empty and returns its binary value |
| HexWords.ToHex | B1_05_Necessary_Content/mips_to_assembly.py:127-143 | `to_hex` fails on the unbound high half exactly when the word holds no "-" |
| HexWords.Recombine | B1_05_Necessary_Content/mips_to_assembly.py:130-141 | the signed branch succeeds exactly when both halves around "-" are non-empty binary strings |
| HexWords.ToHexOfSigned | B1_05_Necessary_Content/mips_to_assembly.py:129-141 | for `high-field`, the result is hex of the high half followed by `hex(-rebuilt)[3:]` |
| HexWords.RebuiltByte | B1_05_Necessary_Content/mips_to_assembly.py:131-137 | for a magnitude 1..128 in its formatted width, the rebuilt value is 256 − magnitude, the two's-complement byte |
| HexWords.SignedTail | B1_05_Necessary_Content/mips_to_assembly.py:141 | for 16 ≤ n < 256, `hex(-n)[3:]` is n in exactly two hex digits |
| HexWords.ToHexNegativeImmediate | B1_05_Necessary_Content/mips_to_assembly.py:127-141 | an I-type word with immediate −128..−1 becomes hex of its 12-bit prefix followed by the two hex digits of 256 + immediate |
| HexWords.UnsignedAssembly | B1_05_Necessary_Content/mips_to_assembly.py:158-160 | a line with no negative immediate assembles to `hex` of its word value |
| HexWords.SignedAssembly | B1_05_Necessary_Content/mips_to_assembly.py:154-157 | a line with a negative immediate assembles to the prefix's hex digits followed by the two hex digits of its two's-complement byte |
| HexWords.ImageOfHex | B1_05_Necessary_Content/mips_to_assembly.py:272-275 | an image line of "0x" plus up to five hex digits is those digits zero-filled to five |
| HexWords.AssembleLine | B1_05_Necessary_Content/mips_to_assembly.py:152-160 | one line of `assemble`: a `parse_instruction` error is passed on unchanged, and a success is "0x" followed by hex digits |
| HexWords.ImageLine | B1_05_Necessary_Content/mips_to_assembly.py:272-275 | one line of the image writer has at least five characters; `HexWords.ImageOfHex` states its digits |
| HexWords.SignedImage | B1_05_Necessary_Content/mips_to_assembly.py:272-275 | the image line of a signed word is its full value in five hex digits |
| HexWords.LineImage | B1_05_Necessary_Content/mips_to_assembly.py:146-160 | a line that decodes to an in-range instruction assembles, and its image line is the word value in five hex digits |
| Assembler.CodeLinesAreCode | B1_05_Necessary_Content/mips_to_assembly.py:149-151 | the lines `assemble` encodes are stripped, non-empty and not comments |
| Assembler.CodeLines | B1_05_Necessary_Content/mips_to_assembly.py:149-151 | the lines `assemble` encodes are no more than the input lines; `Assembler.CodeLinesAreCode` and `Assembler.CodeLinesAppend` state which they are |
| Assembler.EncodeLines | B1_05_Necessary_Content/mips_to_assembly.py:148-162 | on success there is one word per code line; `Assembler.EncodeWords` states which words |
| Assembler.CodeLinesAppend | B1_05_Necessary_Content/mips_to_assembly.py:149-151 | the code lines of two concatenated programs are the concatenated code lines |
| Assembler.Assemble | B1_05_Necessary_Content/mips_to_assembly.py:146-162 | `assemble`: it succeeds exactly when every code line encodes, and then returns each line's word in order |
| Assembler.EncodeWords | B1_05_Necessary_Content/mips_to_assembly.py:146-162 | the loop over code lines succeeds exactly when every line encodes, and then returns each line's word in order, for any per-line encoder |
| Assembler.AssembleFirstError | B1_05_Necessary_Content/mips_to_assembly.py:146-162 | when `assemble` raises, the error is that of the first code line that fails, and all earlier lines encode |
| Assembler.Image | B1_05_Necessary_Content/mips_to_assembly.py:269-276 | the image is the "v2.0 raw" header plus one line of at least five characters per word |
| Assembler.ProgramImage | B1_05_Necessary_Content/mips_to_assembly.py:146-162 | a program of in-range instructions assembles, and its image is the header then each word in five hex digits |
| Assembler.ImageLinesAt | B1_05_Necessary_Content/mips_to_assembly.py:271-276 | line i of the image body is the image line of word i |
| Labels.LabelLineIsStrippedColon | B1_05_Necessary_Content/mips_to_assembly.py:196 | a line is a label line exactly when its last non-whitespace character is ":" |
| Labels.IsLabelLine | B1_05_Necessary_Content/mips_to_assembly.py:196 | a line is a label line exactly when some ":" in it is followed only by whitespace |
| Labels.LabelName | B1_05_Necessary_Content/mips_to_assembly.py:197 | the key a label line defines is no longer than the line, and does not start with "0" or end with ":" |
| Labels.LabelNameOfDefinition | B1_05_Necessary_Content/mips_to_assembly.py:196-197 | a line `name:` is a label line and defines name itself, when name is stripped and neither starts with "0" nor ends with ":" |
| Labels.LabelTable | B1_05_Necessary_Content/mips_to_assembly.py:191-201 | the table built from the lines has no duplicate key and at most one entry per label line |
| Labels.GetLabelLineNumbers | B1_05_Necessary_Content/mips_to_assembly.py:191-201 | the loop with its running label count builds the same table as the reference definition |
| Labels.UpToPrefix | B1_05_Necessary_Content/mips_to_assembly.py:195-199 | after n lines, the loop's counter and table are the label count and table of the first n lines |
| Labels.LabelTableStep | B1_05_Necessary_Content/mips_to_assembly.py:196-199 | one more line adds one label and records `line_number − label_count` for it, or changes nothing |
| Labels.LookupHasKey | B1_05_Necessary_Content/mips_to_assembly.py:198 | a lookup in the table succeeds exactly on the table's keys |
| Labels.PutLookup | B1_05_Necessary_Content/mips_to_assembly.py:198 | after an assignment the key reads back the new value, and every other key is unchanged |
| Labels.PutKeys | B1_05_Necessary_Content/mips_to_assembly.py:198 | assigning a new key appends it, and reassigning an old key keeps its position |
| Labels.PutHasKey | B1_05_Necessary_Content/mips_to_assembly.py:198 | after an assignment the keys are the old keys plus the assigned one |
| Labels.PutDistinct | B1_05_Necessary_Content/mips_to_assembly.py:198 | assignment keeps the keys free of duplicates |
| Labels.RemoveLabels | B1_05_Necessary_Content/mips_to_assembly.py:203-204 | removing labels leaves no label line and drops exactly as many lines as there are labels |
| Labels.RemoveLabelsAppend | B1_05_Necessary_Content/mips_to_assembly.py:203-204 | removal works line by line: removing from a concatenation concatenates the removals |
| Labels.RemoveLabelsOfCode | B1_05_Necessary_Content/mips_to_assembly.py:203-204 | a program without label lines is left unchanged |
| Labels.AllLabels | B1_05_Necessary_Content/mips_to_assembly.py:203-204 | a program of label lines only is removed entirely |
| Labels.LabelKeyDefined | B1_05_Necessary_Content/mips_to_assembly.py:196-198 | every label line's name is a key of the table |
| Labels.LabelKeySource | B1_05_Necessary_Content/mips_to_assembly.py:196-198 | every key of the table is the name of some label line |
| Labels.LabelValue | B1_05_Necessary_Content/mips_to_assembly.py:198 | a label's value is the number of code lines before its last definition |
| Labels.LabelTarget | B1_05_Necessary_Content/mips_to_assembly.py:198 | that number indexes, in the label-free program, the first code line after the label |
| Labels.ReplaceLineUntouched | B1_05_Necessary_Content/mips_to_assembly.py:214-227 | a line that no label triggers is kept as it is |
| Labels.ReplaceLineFirst | B1_05_Necessary_Content/mips_to_assembly.py:215-225 | a line is rewritten by the first label, in table order, that triggers it, and by no other |
| Labels.SubstituteOnce | B1_05_Necessary_Content/mips_to_assembly.py:216-223 | a line naming the label once gets, in that spot, the offset `label_line − line_number − 1` if it is a branch line and `label_line` otherwise; the rest of the line is kept |
| Labels.ReplaceLabelsOfCode | B1_05_Necessary_Content/mips_to_assembly.py:207-229 | on a label-free program, there is one output line per input line, and line k is rewritten with line number k |
| Labels.ReplaceLine | B1_05_Necessary_Content/mips_to_assembly.py:214-227 | a line is changed only if it is a branch line or contains "j" |
| Labels.ReplaceFrom | B1_05_Necessary_Content/mips_to_assembly.py:210-227 | the loop from line i on emits one line per non-label line of that suffix |
| Labels.ReplaceLabels | B1_05_Necessary_Content/mips_to_assembly.py:207-229 | `replace_labels_with_line_numbers` emits one line per non-label line |
| Driver.PadShort | B1_05_Necessary_Content/mips_to_assembly.py:240-242 | the written line has at least five characters, and a line of five or more is written as it is |
| Driver.PadAll | B1_05_Necessary_Content/mips_to_assembly.py:239-243 | one written line per code line, each at least five characters long; `Driver.PadAllAt` states their text |
| Driver.CleanedFile | B1_05_Necessary_Content/mips_to_assembly.py:237-243 | the cleaned file is the prologue followed by one line of at least five characters per code line |
| Driver.LoadLines | B1_05_Necessary_Content/mips_to_assembly.py:177-188 | the loaded lines are stripped and non-empty, and no more than the file's lines |
| Driver.Run | B1_05_Necessary_Content/mips_to_assembly.py:232-276 | a successful run yields the "v2.0 raw" header, then "e66ff", the image line of the prologue |
| Driver.ResolvedHead | B1_05_Necessary_Content/mips_to_assembly.py:236-258 | after the label passes, the lines `assemble` receives start with the prologue |
| Driver.PrologueUntouched | B1_05_Necessary_Content/mips_to_assembly.py:214-227 | the label substitution never changes the prologue line, whatever the table holds |
| Driver.PrologueWordFirst | B1_05_Necessary_Content/mips_to_assembly.py:267-276 | when lines starting with the prologue assemble, the first image line after the header is "e66ff" |
| Driver.PadAllAt | B1_05_Necessary_Content/mips_to_assembly.py:239-243 | every written code line is its padded source line, in order |
| Driver.PadShortClean | B1_05_Necessary_Content/mips_to_assembly.py:241-242 | zero-filling keeps a loaded line non-empty, stripped and not a comment, and keeps it a label line exactly when it was one |
| Driver.ShortLineRejected | B1_05_Necessary_Content/mips_to_assembly.py:241-242 | a code line shorter than five characters, once zero-filled, raises the unsupported-instruction error |
| Driver.LoadClean | B1_05_Necessary_Content/mips_to_assembly.py:177-188 | loading stripped non-empty lines returns them unchanged |
| Driver.ReloadCleaned | B1_05_Necessary_Content/mips_to_assembly.py:236-248 | reading the cleaned file back gives the prologue, without its trailing space, followed by the padded code lines |
| Driver.PrologueImage | B1_05_Necessary_Content/mips_to_assembly.py:238 | the prologue decodes to `$sp := $sp + (−1)`, whose word is 0xE66FF, and its image line is "e66ff" |
| Driver.LabelTableOfCode | B1_05_Necessary_Content/mips_to_assembly.py:191-201 | a program without label lines has an empty label table |
| Driver.ResolveCode | B1_05_Necessary_Content/mips_to_assembly.py:251-258 | on clean label-free lines, label extraction, removal and replacement return the lines unchanged |
| Driver.ResolvedWithoutLabels | B1_05_Necessary_Content/mips_to_assembly.py:245-267 | for a label-free program, the script assembles exactly the prologue and the padded code lines |
| Driver.ProgramRun | B1_05_Necessary_Content/mips_to_assembly.py:232-276 | a label-free program of in-range instructions, each line at least five long, yields the header, "e66ff", then each word in five hex digits |
| Driver.ShortProgramRejected | B1_05_Necessary_Content/mips_to_assembly.py:236-267 | a label-free program with any code line shorter than five characters makes the script fail |
| PythonText.Strip | B1_05_Necessary_Content/mips_to_assembly.py:150 | the stripped line has no surrounding whitespace, is no longer than the line, and stripping is idempotent |
| PythonText.LStripShape | B1_05_Necessary_Content/mips_to_assembly.py:150 | `lstrip` removes exactly the leading whitespace: the result is a suffix that starts with a non-space character |
| PythonText.RStripShape | B1_05_Necessary_Content/mips_to_assembly.py:150 | `rstrip` removes exactly the trailing whitespace: the result is a prefix that ends in a non-space character |
| PythonText.RStripCharShape | B1_05_Necessary_Content/mips_to_assembly.py:197 | `rstrip(':')` removes exactly the trailing colons |
| PythonText.LStripCharShape | B1_05_Necessary_Content/mips_to_assembly.py:197 | `lstrip('0')` removes exactly the leading zeros |
| PythonText.WordsOfJoin | B1_05_Necessary_Content/mips_to_assembly.py:32 | `split()` of words joined by spaces gives back the words |
| PythonText.WordsAreWords | B1_05_Necessary_Content/mips_to_assembly.py:32 | every piece `split()` returns is non-empty and free of whitespace |
| PythonText.SplitOfJoin | B1_05_Necessary_Content/mips_to_assembly.py:79 | `split(c)` of pieces joined by c, none containing c, gives back the pieces |
| PythonText.JoinOfSplit | B1_05_Necessary_Content/mips_to_assembly.py:79 | joining the pieces of `split(c)` with c gives back the string |
| PythonText.SplitOn | B1_05_Necessary_Content/mips_to_assembly.py:79 | there are at least two pieces exactly when c occurs, and no piece contains c |
| PythonText.ReplaceChar | B1_05_Necessary_Content/mips_to_assembly.py:32 | every comma becomes a space and every other character is kept |
| PythonText.ZFill | B1_05_Necessary_Content/mips_to_assembly.py:242 | `zfill` pads with zeros to the width, after a leading sign if there is one, and leaves a wide enough string as it is |
| PythonText.ReplaceFirstOccurrence | B1_05_Necessary_Content/mips_to_assembly.py:219 | `str.replace` rewrites the first occurrence of the pattern in place, keeps the text before it, and continues after it |
| PythonText.ContainsIffOccurs | B1_05_Necessary_Content/mips_to_assembly.py:216 | the `in` test holds exactly when the pattern occurs at some position |
| PythonText.ContainsHead | B1_05_Necessary_Content/mips_to_assembly.py:216 | if the pattern occurs in the text, the pattern's first character occurs in it |
| PythonNumbers.IntToString | B1_05_Necessary_Content/mips_to_assembly.py:219 | `str(n)` is a space-free numeral that `int` parses back to n |
| PythonNumbers.ParseUnsigned | B1_05_Necessary_Content/mips_to_assembly.py:49 | an unsigned literal of digit groups parses to its decimal value |
| PythonNumbers.ParseNegative | B1_05_Necessary_Content/mips_to_assembly.py:49 | a literal "-" followed by digit groups parses to the negated decimal value |
| PythonNumbers.Bin | B1_05_Necessary_Content/mips_to_assembly.py:20 | the binary numeral of n reads back as n and has no leading zero |
| PythonNumbers.HexDigitsValue | B1_05_Necessary_Content/mips_to_assembly.py:159 | the digits `hex` writes read back as the number |
| PythonNumbers.ZeroPadHex | B1_05_Necessary_Content/mips_to_assembly.py:274-275 | zero-filling the hex digits of n < 16^k to width k gives n in exactly k hex digits |
| PythonNumbers.FixedHexOfValue | B1_05_Necessary_Content/mips_to_assembly.py:274-275 | a k-digit hex string is the k-digit numeral of its own value |
| SampleRun.LoopProgram | B1_05_Necessary_Content/mips_to_assembly.py:232-276 | the script turns `LOOP:` / `addi $t0,$t0,1` / `beq $t0,$t1,LOOP` into the header, "e66ff", "e1101" and "c21fe" |
| SampleRun.LoopTableOf | B1_05_Necessary_Content/mips_to_assembly.py:191-201 | with the prologue at index 0, the label line `LOOP:` at index 1 gives the table `{"LOOP": 1}` |
| SampleRun.LoopResolution | B1_05_Necessary_Content/mips_to_assembly.py:245-258 | the lines `assemble` receives for the loop are the prologue, the increment, and the branch with "-2" in place of "LOOP" |
| SampleRun.BranchResolved | B1_05_Necessary_Content/mips_to_assembly.py:214-221 | the branch at index 2 to the label at index 1 gets the offset 1 − 2 − 1 = −2 |

## Left out

- File input and output are not modelled. The script reads `input.asm.txt`, writes and rereads `mips_cleaned.txt`, and writes `instruction_formatted.txt` and the image file. A file is modelled as a sequence of lines without line breaks, so a line holding an embedded line break, which the round trip through a file would split, is not represented.
- Every `print` is not modelled (lines 128, 254, 257, 259-260, 266, 277), because console output has no effect on the result.
- `read_mips_code` (lines 165-174) has no member of its own. It keeps the same stripped non-comment lines that `assemble` keeps, so `Assembler.CodeLines` stands for both.
- The `else` branch of `to_hex` (lines 142-143) is modelled as the error `NoSignedField`. It reads `parsed2` before any assignment, so it would raise. `assemble` calls `to_hex` only when the word holds a "-", so this branch is unreachable from the script.
- Python exceptions are modelled by kind only (`AsmError`), and only the unsupported-instruction message text is modelled. The kinds are a missing token (`IndexError`), a bad integer or bad binary string (`ValueError`), and a memory operand that does not split in two.
- `int(s)` is modelled for ASCII digits, an optional sign, underscores between digits and surrounding whitespace. Unicode digits and the interpreter's limit on the number of digits are not modelled.
- HexWords.Binary / PythonNumbers.ParseBinary: `int(s, 2)` is modelled only on strings of 0s and 1s, since the encoder never produces anything else. Python also accepts surrounding whitespace, a sign, a `0b` prefix and underscores, which the model rejects.
- Words outside the in-range bounds are computed by the model as the script computes them, but no lemma describes their image. A shift amount of 16 or more, a jump target of 256 or more and an immediate above 255 widen the word beyond 20 binary digits. An immediate from −255 to −129 keeps the 20 digits plus the sign: its image line has five digits and holds the immediate wrapped modulo 256 (`addi $t0,$t0,-200` gives `e1138`), and from −255 to −241 the wrapped byte has a single hex digit, so the line is zero-filled at the front (−250 gives `0e116`).
- A negative jump target puts a "-" into the target field, ahead of the 8-bit filler. `to_hex` then splits at that sign and rebuilds the filler as if it were the signed field. The model computes this, but no lemma describes it.
- A negative shift amount puts the "-" into the last field of the R-type word, and `to_hex` rebuilds that field. The model computes this, but no lemma describes it. From −1 to −7 the field holds three digits, the rebuilt value is 16 plus the amount, and the image keeps five digits (`sll $t0,$t1,-1` gives `6210f`). From −8 to −15 the field holds four digits, the rebuilt value is 32 plus the amount, and the image line has six digits (`sll $t0,$t1,-8` gives `621018`). Below −15 the field is wider still.
- The token filter at lines 36-38 keeps every token, because its condition is always true. The per-token strip at line 34 has no effect, because `split()` returns whitespace-free tokens. Both are modelled as the identity, justified by `Instructions.TokensAreWords`.
- The `$sp` special case at lines 47-48 converts the value with `int` twice. The result is the same as converting it once, and that is how it is modelled.
- PythonText.ReplaceAll: its own contract states only that a string without the pattern is unchanged. How an occurrence is replaced is stated by `PythonText.ReplaceFirstOccurrence`.
- Labels.LabelTable: its own contract states distinct keys and a size bound; the entries are stated by `Labels.GetLabelLineNumbers`, `Labels.LabelKeyDefined`, `Labels.LabelKeySource`, `Labels.LabelValue` and `Labels.LabelTarget`.
- Labels.ReplaceLine: its own contract states only which lines may change; the rewritten text is stated by `Labels.ReplaceLineUntouched`, `Labels.ReplaceLineFirst` and `Labels.SubstituteOnce`.
- Labels.ReplaceFrom: its own contract states the number of lines; their text is stated by `Labels.ReplaceLabelsOfCode`.
- Labels.ReplaceLabels: its own contract states the number of lines; their text is stated by `Labels.ReplaceLabelsOfCode`.
- Assembler.CodeLines: its own contract states a length bound; the lines kept are stated by `Assembler.CodeLinesAreCode` and `Assembler.CodeLinesAppend`.
- Assembler.EncodeLines: its own contract states the number of words; the words and the error are stated by `Assembler.EncodeWords` and `Assembler.AssembleFirstError`.
- HexWords.ImageLine: its own contract states a length bound; its digits are stated by `HexWords.ImageOfHex` and `HexWords.SignedImage`.
- Driver.PadAll: its own contract states lengths; the text is stated by `Driver.PadAllAt`.
- Driver.CleanedFile: its own contract states the shape of the file; its text is stated by `Driver.PadAllAt` and `Driver.ReloadCleaned`.
- Driver.LoadLines: its own contract states that the lines are stripped and non-empty; which lines they are is stated by `Driver.LoadClean`.
- Driver.Run: its own contract states the first two image lines; the rest is stated by `Driver.ProgramRun`, `Driver.ShortProgramRejected` and `SampleRun.LoopProgram`.
