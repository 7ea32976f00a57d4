/** The text-writing helpers of the base class of the generated text
    template: an output buffer that inserts the current indent at the start of
    every line, and a stack of indents. */
module TemplateText {
  import opened Common

  /** The values `Environment.NewLine` takes. */
  predicate IsNewLine(nl: string)
  {
    nl == "\n" || nl == "\r\n"
  }

  predicate StartsWith(s: string, prefix: string)
  {
    |prefix| <= |s| && s[..|prefix|] == prefix
  }

  /** `String.EndsWith`, compared ordinally. */
  predicate EndsWith(s: string, suffix: string)
  {
    |suffix| <= |s| && s[|s| - |suffix|..] == suffix
  }

  /** `String.Replace(pattern, replacement)`: ordinal, scanning left to right,
      replacing non-overlapping occurrences. */
  function Replace(s: string, pattern: string, replacement: string): string
    requires pattern != ""
    decreases |s|
  {
    if s == "" then ""
    else if StartsWith(s, pattern) then replacement + Replace(s[|pattern|..], pattern, replacement)
    else [s[0]] + Replace(s[1..], pattern, replacement)
  }

  /** The text as it should appear in the output: every newline that has
      more text after it is followed by `indent`; a final newline is not. */
  function IndentLines(text: string, indent: string, nl: string): string
    requires nl != ""
    decreases |text|
  {
    if text == "" then ""
    else if StartsWith(text, nl) then
      nl + (if |text| == |nl| then "" else indent) + IndentLines(text[|nl|..], indent, nl)
    else [text[0]] + IndentLines(text[1..], indent, nl)
  }

  /** No proper suffix of `nl` is also a prefix of it, so two occurrences of
      `nl` in a text never overlap. */
  predicate Borderless(nl: string)
  {
    nl != "" && forall j :: 0 < j < |nl| ==> nl[j..] != nl[..|nl| - j]
  }

  lemma NewLinesAreBorderless(nl: string)
    requires IsNewLine(nl)
    ensures Borderless(nl)
  {
    if nl == "\r\n" {
      assert nl[1..] == "\n" && nl[..1] == "\r";
    }
  }

  /** Dropping the first `k` characters (one character, or one newline at the
      front) keeps whether the text ends with a newline, unless nothing is
      left. */
  lemma EndsWithAfterDrop(text: string, k: nat, nl: string)
    requires Borderless(nl)
    requires 0 < k < |text|
    requires (k == 1 && !StartsWith(text, nl)) || (k == |nl| && StartsWith(text, nl))
    ensures EndsWith(text[k..], nl) == EndsWith(text, nl)
  {
    var rest := text[k..];
    if |nl| <= |rest| {
      assert rest[|rest| - |nl|..] == text[|text| - |nl|..];
    } else if k == 1 {
      assert |text| == |nl| ==> text[|text| - |nl|..] == text[..|nl|];
    } else {
      // a newline at the front and one at the end would overlap by j characters
      var j := |rest|;
      assert text[..|nl|][j..] == text[j..|nl|];
      assert |text| - |nl| == j;
      assert text[j..][..|nl| - j] == text[j..|nl|];
    }
  }

  /** Replacing every newline by newline-plus-indent yields the indented text,
      plus one indent too many when the text ends with a newline. */
  predicate ReplaceAgrees(text: string, indent: string, nl: string)
    requires Borderless(nl)
  {
    Replace(text, nl, nl + indent) == IndentLines(text, indent, nl) + (if EndsWith(text, nl) then indent else "")
  }

  lemma {:induction false} ReplaceMatchesIndentLines(text: string, indent: string, nl: string)
    requires Borderless(nl)
    ensures ReplaceAgrees(text, indent, nl)
    decreases |text|
  {
    if text == "" {
    } else if StartsWith(text, nl) {
      ReplaceMatchesIndentLines(text[|nl|..], indent, nl);
      ReplaceAgreesAfterNewLine(text, indent, nl);
    } else {
      ReplaceMatchesIndentLines(text[1..], indent, nl);
      ReplaceAgreesAfterChar(text, indent, nl);
    }
  }

  lemma ReplaceAgreesAfterNewLine(text: string, indent: string, nl: string)
    requires Borderless(nl) && StartsWith(text, nl)
    requires ReplaceAgrees(text[|nl|..], indent, nl)
    ensures ReplaceAgrees(text, indent, nl)
  {
    var rest := text[|nl|..];
    var tail := if EndsWith(text, nl) then indent else "";
    assert Replace(text, nl, nl + indent) == (nl + indent) + Replace(rest, nl, nl + indent);
    if rest == "" {
      assert text == nl;
      assert EndsWith(text, nl);
    } else {
      EndsWithAfterDrop(text, |nl|, nl);
      assert IndentLines(text, indent, nl) == nl + indent + IndentLines(rest, indent, nl);
    }
  }

  lemma ReplaceAgreesAfterChar(text: string, indent: string, nl: string)
    requires Borderless(nl) && text != "" && !StartsWith(text, nl)
    requires ReplaceAgrees(text[1..], indent, nl)
    ensures ReplaceAgrees(text, indent, nl)
  {
    var rest := text[1..];
    if rest == "" {
      assert !EndsWith(text, nl) by { assert |text| < |nl| || text == text[..|nl|]; }
    } else {
      EndsWithAfterDrop(text, 1, nl);
    }
    assert Replace(text, nl, nl + indent) == [text[0]] + Replace(rest, nl, nl + indent);
    assert IndentLines(text, indent, nl) == [text[0]] + IndentLines(rest, indent, nl);
  }

  /** With an empty indent the text is written unchanged. */
  lemma {:induction false} IndentLinesWithoutIndent(text: string, nl: string)
    requires nl != ""
    ensures IndentLines(text, "", nl) == text
    decreases |text|
  {
    if text == "" {
    } else if StartsWith(text, nl) {
      IndentLinesWithoutIndent(text[|nl|..], nl);
      assert text == nl + text[|nl|..];
    } else {
      IndentLinesWithoutIndent(text[1..], nl);
      assert text == [text[0]] + text[1..];
    }
  }

  lemma EndsWithAppend(prefix: string, s: string, suffix: string)
    requires EndsWith(s, suffix)
    ensures EndsWith(prefix + s, suffix)
  {
    assert (prefix + s)[|prefix + s| - |suffix|..] == s[|s| - |suffix|..];
  }

  /** A text that ends with a newline still does once indented. */
  lemma {:induction false} IndentLinesKeepsFinalNewLine(text: string, indent: string, nl: string)
    requires Borderless(nl)
    requires EndsWith(text, nl)
    ensures EndsWith(IndentLines(text, indent, nl), nl)
    decreases |text|
  {
    if StartsWith(text, nl) {
      var rest := text[|nl|..];
      if rest == "" {
        assert IndentLines(text, indent, nl) == nl;
      } else {
        EndsWithAfterDrop(text, |nl|, nl);
        IndentLinesKeepsFinalNewLine(rest, indent, nl);
        assert IndentLines(text, indent, nl) == (nl + indent) + IndentLines(rest, indent, nl);
        EndsWithAppend(nl + indent, IndentLines(rest, indent, nl), nl);
      }
    } else {
      var rest := text[1..];
      EndsWithAfterDrop(text, 1, nl);
      IndentLinesKeepsFinalNewLine(rest, indent, nl);
      assert IndentLines(text, indent, nl) == [text[0]] + IndentLines(rest, indent, nl);
      EndsWithAppend([text[0]], IndentLines(rest, indent, nl), nl);
    }
  }

  /** The text `Write` appends after any leading indent: unchanged under an
      empty indent; otherwise every newline is replaced by newline-plus-indent,
      and the indent after a final newline is cut off again. */
  function IndentText(text: string, indent: string, nl: string): (r: string)
    requires Borderless(nl)
    ensures r == IndentLines(text, indent, nl)
  {
    if |indent| == 0 then
      IndentLinesWithoutIndent(text, nl);
      text
    else
      var replaced := Replace(text, nl, nl + indent);
      ReplaceMatchesIndentLines(text, indent, nl);
      if EndsWith(text, nl) then replaced[..|replaced| - |indent|] else replaced
  }

  /** The sum of a list of lengths. */
  function Sum(lengths: seq<int>): int
  {
    if lengths == [] then 0 else Sum(lengths[..|lengths| - 1]) + lengths[|lengths| - 1]
  }

  predicate AllNonNegative(lengths: seq<int>)
  {
    forall i :: 0 <= i < |lengths| ==> lengths[i] >= 0
  }

  /** Each pushed length is at most the sum of the stack it tops. */
  lemma {:induction false} SumBoundsLast(lengths: seq<int>)
    requires lengths != [] && AllNonNegative(lengths)
    ensures 0 <= lengths[|lengths| - 1] <= Sum(lengths)
    decreases |lengths|
  {
    var prefix := lengths[..|lengths| - 1];
    if prefix != [] {
      SumBoundsLast(prefix);
    }
  }

  /** `ExecutableAssemblyBase`. */
  class ExecutableAssemblyBase {
    const newLine: string                // Environment.NewLine
    var generationEnvironment: string    // the generated output
    var currentIndent: string
    var indentLengths: seq<int>
    var endsWithNewline: bool

    ghost predicate Valid()
      reads this
    {
      && Borderless(newLine)
      && AllNonNegative(indentLengths)
      && |currentIndent| == Sum(indentLengths)
      && (endsWithNewline ==> EndsWith(generationEnvironment, newLine))
    }

    constructor (newLine: string)
      requires IsNewLine(newLine)
      ensures Valid() && this.newLine == newLine
      ensures generationEnvironment == "" && currentIndent == "" && indentLengths == [] && !endsWithNewline
    {
      NewLinesAreBorderless(newLine);
      this.newLine := newLine;
      generationEnvironment := "";
      currentIndent := "";
      indentLengths := [];
      endsWithNewline := false;
    }

    /** What `Write(text)` appends in the current state: the indent when a
        line starts, then the text with the indent after each inner newline. */
    function Appended(text: Option<string>): string
      reads this
      requires newLine != ""
    {
      if text.None? || text.value == "" then ""
      else
        (if generationEnvironment == "" || endsWithNewline then currentIndent else "")
        + IndentLines(text.value, currentIndent, newLine)
    }

    method Write(text: Option<string>)
      requires Valid()
      modifies this
      ensures Valid()
      ensures generationEnvironment == old(generationEnvironment) + old(Appended(text))
      ensures endsWithNewline
              == if text.None? || text.value == "" then old(endsWithNewline) else EndsWith(text.value, newLine)
      ensures currentIndent == old(currentIndent) && indentLengths == old(indentLengths)
    {
      if text.None? || text.value == "" {
        return;
      }
      var t := text.value;
      var atLineStart := endsWithNewline;
      // at the start of a line, the indent goes first
      var lead := "";
      if |generationEnvironment| == 0 || atLineStart {
        lead := currentIndent;
        atLineStart := false;
      }
      if EndsWith(t, newLine) {
        atLineStart := true;
      }
      var indented := IndentText(t, currentIndent, newLine);
      if atLineStart {
        IndentLinesKeepsFinalNewLine(t, currentIndent, newLine);
        EndsWithAppend(lead, indented, newLine);
        EndsWithAppend(generationEnvironment, lead + indented, newLine);
      }
      generationEnvironment, endsWithNewline := generationEnvironment + (lead + indented), atLineStart;
    }

    method WriteLine(text: Option<string>)
      requires Valid()
      modifies this
      ensures Valid()
      ensures generationEnvironment == old(generationEnvironment) + old(Appended(text)) + newLine
      ensures endsWithNewline
      ensures currentIndent == old(currentIndent) && indentLengths == old(indentLengths)
    {
      Write(text);
      generationEnvironment := generationEnvironment + newLine;
      endsWithNewline := true;
    }

    method PushIndent(indent: Option<string>) returns (outcome: Outcome)
      requires Valid()
      modifies this
      ensures Valid()
      ensures indent.None? ==> outcome == Fail(ArgumentNull("indent"))
                               && currentIndent == old(currentIndent) && indentLengths == old(indentLengths)
      ensures indent.Some? ==> outcome == Pass
                               && currentIndent == old(currentIndent) + indent.value
                               && indentLengths == old(indentLengths) + [|indent.value|]
      ensures generationEnvironment == old(generationEnvironment) && endsWithNewline == old(endsWithNewline)
    {
      if indent.None? {
        return Fail(ArgumentNull("indent"));
      }
      currentIndent := currentIndent + indent.value;
      indentLengths := indentLengths + [|indent.value|];
      assert indentLengths[..|indentLengths| - 1] == old(indentLengths);
      outcome := Pass;
    }

    method PopIndent() returns (popped: string)
      requires Valid()
      modifies this
      ensures Valid()
      ensures old(indentLengths) == [] ==> popped == "" && currentIndent == old(currentIndent) && indentLengths == []
      ensures old(indentLengths) != [] ==>
                && indentLengths == old(indentLengths)[..|old(indentLengths)| - 1]
                && |popped| == old(indentLengths)[|old(indentLengths)| - 1]
                && currentIndent + popped == old(currentIndent)
      ensures generationEnvironment == old(generationEnvironment) && endsWithNewline == old(endsWithNewline)
    {
      popped := "";
      if |indentLengths| > 0 {
        var indentLength := indentLengths[|indentLengths| - 1];
        SumBoundsLast(indentLengths);
        indentLengths := indentLengths[..|indentLengths| - 1];
        if indentLength > 0 {
          popped := currentIndent[|currentIndent| - indentLength..];
          currentIndent := currentIndent[..|currentIndent| - indentLength];
        }
      }
    }

    method ClearIndent()
      requires Valid()
      modifies this
      ensures Valid()
      ensures currentIndent == "" && indentLengths == []
      ensures generationEnvironment == old(generationEnvironment) && endsWithNewline == old(endsWithNewline)
    {
      indentLengths := [];
      currentIndent := "";
    }
  }

  /** Pushing an indent and popping it again returns that indent and
      restores the indent and the stack. */
  method PushThenPop(writer: ExecutableAssemblyBase, indent: string) returns (popped: string)
    requires writer.Valid()
    modifies writer
    ensures writer.Valid()
    ensures popped == indent
    ensures writer.currentIndent == old(writer.currentIndent) && writer.indentLengths == old(writer.indentLengths)
    ensures writer.generationEnvironment == old(writer.generationEnvironment)
  {
    ghost var before, stack := writer.currentIndent, writer.indentLengths;
    var _ := writer.PushIndent(Some(indent));
    assert (stack + [|indent|])[..|stack|] == stack;
    popped := writer.PopIndent();
    assert writer.currentIndent + popped == before + indent;
    assert |writer.currentIndent| == |before|;
    assert (before + indent)[..|before|] == before && (before + indent)[|before|..] == indent;
    assert (writer.currentIndent + popped)[|before|..] == popped;
  }
}
