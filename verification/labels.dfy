/** The label passes that run before `assemble`: the table from label name
    to instruction index, the removal of label lines, and the substitution
    of label text by a branch offset or a jump address. */
module Labels {
  import opened Results
  import opened PythonText
  import opened PythonNumbers

  /** A label line: its last non-whitespace character is ':', which is
      `line.strip().endswith(':')` (lemma LabelLineIsStrippedColon). */
  predicate IsLabelLine(line: string): (b: bool)
    ensures b <==> exists p :: 0 <= p < |line| && line[p] == ':' && SpaceAfter(line, p)
  {
    ColonPosition(line);
    LastNonSpace(line) == Some(':')
  }

  /** Only whitespace follows position p. */
  predicate SpaceAfter(s: string, p: nat) {
    forall q :: p < q < |s| ==> IsSpace(s[q])
  }

  /** The last non-whitespace character is ':' exactly when some ':' is
      followed only by whitespace. */
  lemma ColonPosition(s: string)
    ensures LastNonSpace(s) == Some(':') <==> exists p :: 0 <= p < |s| && s[p] == ':' && SpaceAfter(s, p)
  {
    if LastNonSpace(s) == Some(':') {
      var p := LastNonSpaceSome(s);
      assert s[p] == ':' && SpaceAfter(s, p);
    }
    if exists p :: 0 <= p < |s| && s[p] == ':' && SpaceAfter(s, p) {
      var p :| 0 <= p < |s| && s[p] == ':' && SpaceAfter(s, p);
      LastNonSpaceAt(s, p);
    }
  }

  /** Where the last non-whitespace character sits. */
  lemma {:induction false} LastNonSpaceSome(s: string) returns (p: nat)
    requires LastNonSpace(s).Some?
    ensures p < |s| && LastNonSpace(s) == Some(s[p]) && SpaceAfter(s, p)
  {
    if IsSpace(s[|s| - 1]) {
      var init := s[..|s| - 1];
      p := LastNonSpaceSome(init);
      assert s[p] == init[p];
      forall q | p < q < |s|
        ensures IsSpace(s[q])
      {
        if q < |s| - 1 {
          assert s[q] == init[q];
        }
      }
    } else {
      p := |s| - 1;
    }
  }

  function LastNonSpace(s: string): Option<char> {
    if s == [] then None
    else if IsSpace(s[|s| - 1]) then LastNonSpace(s[..|s| - 1])
    else Some(s[|s| - 1])
  }

  /** The last non-whitespace character is the last character of the
      stripped text. */
  lemma LastNonSpaceOfStrip(s: string)
    ensures LastNonSpace(s) == if Strip(s) == [] then None else Some(Strip(s)[|Strip(s)| - 1])
  {
    if Strip(s) == [] {
      StripEmpty(s);
      LastNonSpaceNone(s);
    } else {
      var p := StripLast(s);
      LastNonSpaceAt(s, p);
    }
  }

  /** Text that strips to nothing is all whitespace. */
  lemma StripEmpty(s: string)
    requires Strip(s) == []
    ensures forall q :: 0 <= q < |s| ==> IsSpace(s[q])
  {
    var left := LStrip(s);
    LStripShape(s);
    RStripShape(left);
    assert RStrip(left) == [];
    assert left == [];
  }

  /** The last character of the stripped text sits at p, with only
      whitespace after it. */
  lemma StripLast(s: string) returns (p: nat)
    requires Strip(s) != []
    ensures p < |s| && s[p] == Strip(s)[|Strip(s)| - 1] && !IsSpace(s[p])
    ensures forall q :: p < q < |s| ==> IsSpace(s[q])
  {
    var left := LStrip(s);
    var r := RStrip(left);
    assert Strip(s) == r;
    assert left == s[|s| - |left|..] by {
      LStripShape(s);
    }
    assert r == left[..|r|] && !IsSpace(r[|r| - 1]) && forall i :: |r| <= i < |left| ==> IsSpace(left[i]) by {
      RStripShape(left);
    }
    p := LastOfSuffix(s, left, r);
  }

  /** Position arithmetic for `StripLast`: r is a prefix of the suffix
      `left` of s, followed in `left` only by whitespace. */
  lemma LastOfSuffix(s: string, left: string, r: string) returns (p: nat)
    requires |left| <= |s| && left == s[|s| - |left|..]
    requires r != [] && |r| <= |left| && r == left[..|r|] && !IsSpace(r[|r| - 1])
    requires forall i :: |r| <= i < |left| ==> IsSpace(left[i])
    ensures p < |s| && s[p] == r[|r| - 1] && !IsSpace(s[p])
    ensures forall q :: p < q < |s| ==> IsSpace(s[q])
  {
    var start := |s| - |left|;
    p := start + |r| - 1;
    assert s[p] == left[|r| - 1];
    forall q | p < q < |s|
      ensures IsSpace(s[q])
    {
      assert s[q] == left[q - start];
    }
  }

  lemma {:induction false} LastNonSpaceNone(s: string)
    requires forall q :: 0 <= q < |s| ==> IsSpace(s[q])
    ensures LastNonSpace(s) == None
  {
    if s != [] {
      LastNonSpaceNone(s[..|s| - 1]);
    }
  }

  lemma {:induction false} LastNonSpaceAt(s: string, p: nat)
    requires p < |s| && !IsSpace(s[p])
    requires forall q :: p < q < |s| ==> IsSpace(s[q])
    ensures LastNonSpace(s) == Some(s[p])
  {
    if p < |s| - 1 {
      LastNonSpaceAt(s[..|s| - 1], p);
    }
  }

  /** The predicate is the source's test. */
  lemma LabelLineIsStrippedColon(line: string)
    ensures IsLabelLine(line) <==> EndsWithChar(Strip(line), ':')
  {
    LastNonSpaceOfStrip(line);
  }

  /** The key a label line defines: the stripped line without its trailing
      ':'s and then without its leading '0's. So no key starts with '0' or
      ends with ':', and "name:" defines name itself when name has neither
      (lemma LabelNameOfDefinition). */
  function LabelName(line: string): (r: string)
    ensures |r| <= |line|
    ensures r == [] || (r[0] != '0' && r[|r| - 1] != ':')
  {
    var s := RStripChar(Strip(line), ':');
    RStripCharShape(Strip(line), ':');
    LStripCharShape(s, '0');
    LStripChar(s, '0')
  }

  /** The line "name:" is a label line defining name, when name is stripped
      text that neither starts with '0' nor ends with ':'. */
  lemma LabelNameOfDefinition(name: string)
    requires name != [] && !IsSpace(name[0]) && !IsSpace(name[|name| - 1])
    requires name[0] != '0' && name[|name| - 1] != ':'
    ensures IsLabelLine(name + ":") && LabelName(name + ":") == name
  {
    var line := name + ":";
    assert IsStripped(line);
    assert line[..|line| - 1] == name;
    assert RStripChar(line, ':') == name;
  }

  // ------------------------------------------------------------ the table

  /** A Python dict from label name to line number, as an association list
      in key-insertion order. */
  type Table = seq<(string, int)>

  function Keys(t: Table): (keys: seq<string>)
    ensures |keys| == |t|
  {
    if t == [] then [] else [t[0].0] + Keys(t[1..])
  }

  /** `k in t`. */
  predicate HasKey(t: Table, k: string) {
    k in Keys(t)
  }

  /** `t.get(k)`: the value of the entry with key k. */
  function Lookup(t: Table, k: string): Option<int> {
    if t == [] then None else if t[0].0 == k then Some(t[0].1) else Lookup(t[1..], k)
  }

  /** No key appears twice, as in any dict. */
  predicate DistinctKeys(t: Table) {
    forall i, j :: 0 <= i < j < |t| ==> t[i].0 != t[j].0
  }

  /** `t[k] = v`: an existing key keeps its position and takes the new value;
      a new key goes at the end. */
  function Put(t: Table, k: string, v: int): (r: Table)
    ensures |r| >= |t|
  {
    if t == [] then [(k, v)]
    else if t[0].0 == k then [(k, v)] + t[1..]
    else [t[0]] + Put(t[1..], k, v)
  }

  /** A key is found exactly when it is one of the keys. */
  lemma {:induction false} LookupHasKey(t: Table, k: string)
    ensures Lookup(t, k).Some? <==> HasKey(t, k)
  {
    if t != [] {
      LookupHasKey(t[1..], k);
      assert Keys(t) == [t[0].0] + Keys(t[1..]);
    }
  }

  /** After `t[k] = v`, k maps to v and every other key to what it did. */
  lemma {:induction false} PutLookup(t: Table, k: string, v: int, g: string)
    ensures Lookup(Put(t, k, v), g) == if g == k then Some(v) else Lookup(t, g)
  {
    if t != [] && t[0].0 != k {
      PutLookup(t[1..], k, v, g);
      assert Put(t, k, v)[1..] == Put(t[1..], k, v);
    }
  }

  /** `t[k] = v` keeps the key order, appending k when it is new. */
  lemma {:induction false} PutKeys(t: Table, k: string, v: int)
    ensures Keys(Put(t, k, v)) == if HasKey(t, k) then Keys(t) else Keys(t) + [k]
  {
    if t != [] && t[0].0 != k {
      PutKeys(t[1..], k, v);
      assert Put(t, k, v)[1..] == Put(t[1..], k, v);
    }
  }

  /** After `t[k] = v` the keys are those of t and k. */
  lemma PutHasKey(t: Table, k: string, v: int, g: string)
    ensures HasKey(Put(t, k, v), g) <==> g == k || HasKey(t, g)
  {
    PutKeys(t, k, v);
  }

  /** `t[k] = v` keeps the keys distinct. */
  lemma {:induction false} PutDistinct(t: Table, k: string, v: int)
    requires DistinctKeys(t)
    ensures DistinctKeys(Put(t, k, v))
  {
    if t != [] && t[0].0 != k {
      var r := Put(t, k, v);
      PutDistinct(t[1..], k, v);
      PutKeys(t[1..], k, v);
      KeysAt(t[1..]);
      KeysAt(Put(t[1..], k, v));
      assert r == [t[0]] + Put(t[1..], k, v);
      forall j | 0 < j < |r|
        ensures r[0].0 != r[j].0
      {
        assert r[j] == Put(t[1..], k, v)[j - 1];
        assert r[j].0 in Keys(Put(t[1..], k, v));
        assert r[0].0 !in Keys(t[1..]) by {
          forall m | 0 <= m < |t| - 1
            ensures Keys(t[1..])[m] != t[0].0
          {
            assert t[1..][m] == t[m + 1];
          }
        }
      }
    }
  }

  lemma {:induction false} KeysAt(t: Table)
    ensures forall i :: 0 <= i < |t| ==> Keys(t)[i] == t[i].0
  {
    if t != [] {
      KeysAt(t[1..]);
    }
  }

  // ------------------------------------------------------------ label lines

  /** The number of label lines. */
  function CountLabels(lines: seq<string>): (n: nat)
    ensures n <= |lines|
  {
    if lines == [] then 0
    else CountLabels(lines[..|lines| - 1]) + (if IsLabelLine(lines[|lines| - 1]) then 1 else 0)
  }

  /** `remove_labels`: the lines that are not label lines, in order. */
  function RemoveLabels(lines: seq<string>): (code: seq<string>)
    ensures |code| + CountLabels(lines) == |lines|
    ensures forall i :: 0 <= i < |code| ==> !IsLabelLine(code[i])
  {
    if lines == [] then []
    else
      var init := lines[..|lines| - 1];
      var last := lines[|lines| - 1];
      RemoveLabels(init) + (if IsLabelLine(last) then [] else [last])
  }

  /** The reference label table: each label line, in order, records the
      number of non-label lines before it, with dict assignment. */
  function LabelTable(lines: seq<string>): (t: Table)
    ensures DistinctKeys(t) && |t| <= CountLabels(lines)
  {
    if lines == [] then []
    else
      var init := lines[..|lines| - 1];
      var last := lines[|lines| - 1];
      var t := LabelTable(init);
      if IsLabelLine(last) then
        PutDistinct(t, LabelName(last), |RemoveLabels(init)|);
        PutKeys(t, LabelName(last), |RemoveLabels(init)|);
        Put(t, LabelName(last), |RemoveLabels(init)|)
      else t
  }

  /** `get_label_line_numbers`: the loop of the source, with its running
      count of label lines. */
  method GetLabelLineNumbers(lines: seq<string>) returns (table: Table)
    ensures table == LabelTable(lines)
  {
    table := [];
    var labelCount := 0;
    var lineNumber := 0;
    while lineNumber < |lines|
      invariant 0 <= lineNumber <= |lines|
      invariant labelCount == CountUpTo(lines, lineNumber)
      invariant table == TableUpTo(lines, lineNumber)
    {
      var line := lines[lineNumber];
      assert IsLabelLine(line) <==> EndsWithChar(Strip(line), ':') by {
        LabelLineIsStrippedColon(line);
      }
      if EndsWithChar(Strip(line), ':') {
        var name := LStripChar(RStripChar(Strip(line), ':'), '0');
        table := Put(table, name, lineNumber - labelCount);
        labelCount := labelCount + 1;
      }
      lineNumber := lineNumber + 1;
    }
    UpToPrefix(lines, |lines|);
    assert lines[..|lines|] == lines;
  }

  /** The label lines among the first n lines. */
  function CountUpTo(lines: seq<string>, n: nat): nat
    requires n <= |lines|
  {
    if n == 0 then 0 else CountUpTo(lines, n - 1) + (if IsLabelLine(lines[n - 1]) then 1 else 0)
  }

  /** The table after the first n lines, indexed the way the loop walks. */
  function TableUpTo(lines: seq<string>, n: nat): Table
    requires n <= |lines|
  {
    if n == 0 then []
    else
      var t := TableUpTo(lines, n - 1);
      if IsLabelLine(lines[n - 1]) then Put(t, LabelName(lines[n - 1]), n - 1 - CountUpTo(lines, n - 1)) else t
  }

  /** The loop's view of the first n lines is the reference table of that
      prefix. */
  lemma {:induction false} UpToPrefix(lines: seq<string>, n: nat)
    requires n <= |lines|
    ensures CountUpTo(lines, n) == CountLabels(lines[..n])
    ensures TableUpTo(lines, n) == LabelTable(lines[..n])
  {
    if n > 0 {
      UpToPrefix(lines, n - 1);
      LabelTableStep(lines, n - 1);
    }
  }

  /** One more line extends the table and the count as the loop body does. */
  lemma LabelTableStep(lines: seq<string>, n: nat)
    requires n < |lines|
    ensures CountLabels(lines[..n + 1]) == CountLabels(lines[..n]) + (if IsLabelLine(lines[n]) then 1 else 0)
    ensures LabelTable(lines[..n + 1])
            == if IsLabelLine(lines[n])
               then Put(LabelTable(lines[..n]), LabelName(lines[n]), n - CountLabels(lines[..n]))
               else LabelTable(lines[..n])
  {
    var prefix := lines[..n + 1];
    var init := lines[..n];
    assert prefix[..|prefix| - 1] == init && prefix[|prefix| - 1] == lines[n];
    SnocTable(prefix, init, lines[n]);
  }

  lemma SnocTable(prefix: seq<string>, init: seq<string>, last: string)
    requires prefix != [] && prefix[..|prefix| - 1] == init && prefix[|prefix| - 1] == last
    ensures CountLabels(prefix) == CountLabels(init) + (if IsLabelLine(last) then 1 else 0)
    ensures LabelTable(prefix)
            == if IsLabelLine(last)
               then Put(LabelTable(init), LabelName(last), |init| - CountLabels(init))
               else LabelTable(init)
  {
    var t := LabelTable(init);
    var v := |RemoveLabels(init)|;
    assert LabelTable(prefix) == if IsLabelLine(last) then Put(t, LabelName(last), v) else t;
    assert v == |init| - CountLabels(init);
  }

  // ------------------------------------------------------------ substitution

  /** The branch test of the substitution loop. */
  predicate IsBranchLine(line: string) {
    Contains(line, "beq") || Contains(line, "bneq")
  }

  /** A label the substitution loop acts on: its text occurs in the line,
      and the line is a branch or holds a 'j'. */
  predicate Triggers(line: string, name: string) {
    Contains(line, name) && (IsBranchLine(line) || Contains(line, "j"))
  }

  /** The substitution made for a triggering label: in a branch at index k
      every occurrence becomes the offset target - k - 1, otherwise the
      absolute target. */
  function Substitute(line: string, k: int, name: string, target: int): string {
    var value := if IsBranchLine(line) then target - k - 1 else target;
    ReplaceAll(line, name, IntToString(value))
  }

  /** The inner loop of `replace_labels_with_line_numbers` for the line at
      index k: the entries in table order, stopping at the first one that
      triggers. */
  function ReplaceLine(line: string, k: int, table: Table): (r: string)
    ensures r != line ==> IsBranchLine(line) || Contains(line, "j")
  {
    if table == [] then line
    else
      var (name, target) := table[0];
      if Contains(line, name) then
        if Contains(line, "beq") || Contains(line, "bneq") then
          ReplaceAll(line, name, IntToString(target - k - 1))
        else if Contains(line, "j") then
          ReplaceAll(line, name, IntToString(target))
        else ReplaceLine(line, k, table[1..])
      else ReplaceLine(line, k, table[1..])
  }

  /** `replace_labels_with_line_numbers` from index i on: label lines are
      skipped, every other line is rewritten with its own index. */
  function ReplaceFrom(lines: seq<string>, i: nat, table: Table): (r: seq<string>)
    requires i <= |lines|
    ensures |r| == |RemoveLabels(lines[i..])| <= |lines| - i
    decreases |lines| - i
  {
    if i == |lines| then []
    else
      assert lines[i..] == [lines[i]] + lines[i + 1..];
      RemoveLabelsAppend([lines[i]], lines[i + 1..]);
      assert RemoveLabels([lines[i]]) == RemoveLabels([]) + (if IsLabelLine(lines[i]) then [] else [lines[i]]);
      (if IsLabelLine(lines[i]) then [] else [ReplaceLine(lines[i], i, table)])
      + ReplaceFrom(lines, i + 1, table)
  }

  /** `replace_labels_with_line_numbers`: one line out for every line that
      `remove_labels` keeps. */
  function ReplaceLabels(lines: seq<string>, table: Table): (r: seq<string>)
    ensures |r| == |RemoveLabels(lines)|
  {
    assert lines[0..] == lines;
    ReplaceFrom(lines, 0, table)
  }

  // ------------------------------------------------------------ lemmas

  lemma RemoveLabelsAppend(a: seq<string>, b: seq<string>)
    ensures RemoveLabels(a + b) == RemoveLabels(a) + RemoveLabels(b)
    decreases |b|
  {
    if b == [] {
      assert a + b == a;
    } else {
      var init := b[..|b| - 1];
      assert (a + b)[..|a + b| - 1] == a + init;
      assert (a + b)[|a + b| - 1] == b[|b| - 1];
      RemoveLabelsAppend(a, init);
    }
  }

  /** A list without label lines is left as it is by `remove_labels`. */
  lemma {:induction false} RemoveLabelsOfCode(lines: seq<string>)
    requires forall i :: 0 <= i < |lines| ==> !IsLabelLine(lines[i])
    ensures RemoveLabels(lines) == lines
  {
    if lines != [] {
      var init := lines[..|lines| - 1];
      RemoveLabelsOfCode(init);
      assert init + [lines[|lines| - 1]] == lines;
    }
  }

  /** Every label line defines a key of the table. */
  lemma {:induction false} LabelKeyDefined(lines: seq<string>, i: nat)
    requires i < |lines| && IsLabelLine(lines[i])
    ensures HasKey(LabelTable(lines), LabelName(lines[i]))
  {
    var init := lines[..|lines| - 1];
    var last := lines[|lines| - 1];
    var k := LabelName(lines[i]);
    if i < |lines| - 1 {
      assert init[i] == lines[i];
      LabelKeyDefined(init, i);
    }
    if IsLabelLine(last) {
      PutHasKey(LabelTable(init), LabelName(last), |RemoveLabels(init)|, k);
    }
  }

  /** Every key of the table comes from a label line: the witness returned. */
  lemma {:induction false} LabelKeySource(lines: seq<string>, k: string) returns (i: nat)
    requires HasKey(LabelTable(lines), k)
    ensures i < |lines| && IsLabelLine(lines[i]) && LabelName(lines[i]) == k
  {
    var init := lines[..|lines| - 1];
    var last := lines[|lines| - 1];
    if IsLabelLine(last) && LabelName(last) == k {
      i := |lines| - 1;
    } else {
      if IsLabelLine(last) {
        PutHasKey(LabelTable(init), LabelName(last), |RemoveLabels(init)|, k);
      }
      i := LabelKeySource(init, k);
      assert init[i] == lines[i];
    }
  }

  /** The value of a label is the number of non-label lines before its last
      definition. */
  lemma {:induction false} LabelValue(lines: seq<string>, i: nat)
    requires i < |lines| && IsLabelLine(lines[i])
    requires forall j :: i < j < |lines| ==> !(IsLabelLine(lines[j]) && LabelName(lines[j]) == LabelName(lines[i]))
    ensures Lookup(LabelTable(lines), LabelName(lines[i])) == Some(|RemoveLabels(lines[..i])|)
  {
    var init := lines[..|lines| - 1];
    var last := lines[|lines| - 1];
    if i < |lines| - 1 {
      assert init[i] == lines[i];
      assert init[..i] == lines[..i];
      LabelValue(init, i);
    } else {
      assert init == lines[..i];
    }
    if IsLabelLine(last) {
      PutLookup(LabelTable(init), LabelName(last), |RemoveLabels(init)|, LabelName(lines[i]));
    }
  }

  /** The value a label line records is the index, in the output of
      `remove_labels`, of the first instruction after it. */
  lemma LabelTarget(lines: seq<string>, i: nat, j: nat)
    requires i < j < |lines| && IsLabelLine(lines[i]) && !IsLabelLine(lines[j])
    requires forall m :: i < m < j ==> IsLabelLine(lines[m])
    ensures |RemoveLabels(lines[..i])| < |RemoveLabels(lines)|
    ensures RemoveLabels(lines)[|RemoveLabels(lines[..i])|] == lines[j]
  {
    AllLabels(lines[i..j]);
    assert lines == lines[..i] + lines[i..j] + ([lines[j]] + lines[j + 1..]);
    RemoveLabelsAppend(lines[..i], lines[i..j]);
    RemoveLabelsAppend(lines[..i] + lines[i..j], [lines[j]] + lines[j + 1..]);
    RemoveLabelsAppend([lines[j]], lines[j + 1..]);
    assert RemoveLabels([lines[j]]) == RemoveLabels([]) + [lines[j]];
  }

  lemma {:induction false} AllLabels(lines: seq<string>)
    requires forall m :: 0 <= m < |lines| ==> IsLabelLine(lines[m])
    ensures RemoveLabels(lines) == []
  {
    if lines != [] {
      AllLabels(lines[..|lines| - 1]);
    }
  }

  /** A line the substitution never acts on comes out unchanged; in
      particular one that contains no label text at all. */
  lemma {:induction false} ReplaceLineUntouched(line: string, k: int, table: Table)
    requires forall i :: 0 <= i < |table| ==> !Triggers(line, table[i].0)
    ensures ReplaceLine(line, k, table) == line
  {
    if table != [] {
      assert !Triggers(line, table[0].0);
      ReplaceLineUntouched(line, k, table[1..]);
    }
  }

  /** Only the first entry, in table order, that triggers is applied. */
  lemma {:induction false} ReplaceLineFirst(line: string, k: int, table: Table, i: nat)
    requires i < |table| && Triggers(line, table[i].0)
    requires forall j :: 0 <= j < i ==> !Triggers(line, table[j].0)
    ensures ReplaceLine(line, k, table) == Substitute(line, k, table[i].0, table[i].1)
  {
    if i > 0 {
      assert !Triggers(line, table[0].0);
      ReplaceLineFirst(line, k, table[1..], i - 1);
    }
  }

  /** A line that names the label once has the name replaced in place: by the
      relative offset target - k - 1 in a branch at index k, by the target
      line itself otherwise. */
  lemma SubstituteOnce(line: string, k: int, name: string, target: int, before: string, after: string)
    requires name != [] && line == before + name + after
    requires forall i :: 0 <= i < |before| ==> !OccursAt(line, name, i)
    requires !Contains(after, name)
    ensures Substitute(line, k, name, target)
            == before + IntToString(if IsBranchLine(line) then target - k - 1 else target) + after
  {
    var value := if IsBranchLine(line) then target - k - 1 else target;
    ReplaceFirstOccurrence(before, name, after, IntToString(value));
  }

  /** On a label-free list, the substitution keeps the length and rewrites
      each line with its own index. */
  lemma {:induction false} ReplaceLabelsOfCode(lines: seq<string>, table: Table)
    requires forall i :: 0 <= i < |lines| ==> !IsLabelLine(lines[i])
    ensures |ReplaceLabels(lines, table)| == |lines|
    ensures forall k :: 0 <= k < |lines| ==> ReplaceLabels(lines, table)[k] == ReplaceLine(lines[k], k, table)
  {
    ReplaceFromOfCode(lines, 0, table);
  }

  lemma {:induction false} ReplaceFromOfCode(lines: seq<string>, i: nat, table: Table)
    requires i <= |lines|
    requires forall m :: i <= m < |lines| ==> !IsLabelLine(lines[m])
    ensures |ReplaceFrom(lines, i, table)| == |lines| - i
    ensures forall k :: i <= k < |lines| ==> ReplaceFrom(lines, i, table)[k - i] == ReplaceLine(lines[k], k, table)
    decreases |lines| - i
  {
    if i < |lines| {
      ReplaceFromOfCode(lines, i + 1, table);
      var rest := ReplaceFrom(lines, i + 1, table);
      var r := ReplaceFrom(lines, i, table);
      assert r == [ReplaceLine(lines[i], i, table)] + rest;
      forall k | i < k < |lines|
        ensures r[k - i] == ReplaceLine(lines[k], k, table)
      {
        assert r[k - i] == rest[k - (i + 1)];
      }
    }
  }
}
