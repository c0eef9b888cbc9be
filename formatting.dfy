/**
 * `format_code_by_language`: a line-by-line re-indenter for Python, a newline
 * inserter for JavaScript, and a strip-and-drop-blank-lines clean-up for every
 * other language.
 */
module Formatting {
  import opened Text

  // ---------------------------------------------------------------------
  // Python

  /** The indentation of a line at `level`: four spaces per level. */
  function Indent(level: nat): string {
    seq(4 * level, _ => ' ')
  }

  /** The stripped lines the formatter treats as dedenting keywords. */
  const DEDENT_KEYWORDS: seq<string> := ["else:", "elif", "except:", "finally:"]

  /** One output line and the indentation level the next line starts at. */
  datatype LineResult = LineResult(text: string, level: nat)

  /** The output lines so far and the current indentation level. */
  datatype PyState = PyState(lines: seq<string>, level: nat)

  /** What the formatter does with one input line when the current level is `level`. */
  function FormatPyLine(line: string, level: nat): LineResult {
    var stripped := Strip(line);
    if stripped == "" then LineResult("", level)
    else if EndsWith(stripped, ":") then LineResult(Indent(level) + stripped, level + 1)
    else if stripped in DEDENT_KEYWORDS then
      var outer := if level > 0 then level - 1 else 0;
      LineResult(Indent(outer) + stripped, outer + 1)
    else LineResult(Indent(level) + stripped, level)
  }

  /** The formatter's state after the given lines, starting at level 0: one output line per input line. */
  function FormatPyLines(lines: seq<string>): (st: PyState)
    ensures |st.lines| == |lines|
  {
    if |lines| == 0 then PyState([], 0)
    else
      var before := FormatPyLines(lines[..|lines| - 1]);
      var step := FormatPyLine(lines[|lines| - 1], before.level);
      PyState(before.lines + [step.text], step.level)
  }

  /** The indentation level in force when line `i` is reached. */
  function LevelBefore(lines: seq<string>, i: nat): nat
    requires i <= |lines|
  {
    FormatPyLines(lines[..i]).level
  }

  /** The Python branch of the formatter as a function of the code. */
  function PythonFormatted(code: string): string {
    Join(FormatPyLines(Split(code, '\n')).lines, '\n')
  }

  /**
   * How one line is formatted: a blank line becomes empty and leaves the level
   * alone; any other line is its stripped text after 4k spaces. The level goes
   * up by one after a line ending in a colon. Of the dedenting keywords only
   * the bare word `elif` ever reaches the dedent branch, because the other
   * three end in a colon: `elif` is written one level out (never below 0) and
   * the level after it is the old level, or 1 when that was 0.
   */
  lemma FormatPyLineCases(line: string, level: nat)
    ensures var s, r := Strip(line), FormatPyLine(line, level);
      && (s == "" ==> r == LineResult("", level))
      && (s != "" ==> r.text == Indent(if s == "elif" && level > 0 then level - 1 else level) + s)
      && (s != "" && EndsWith(s, ":") ==> r.level == level + 1)
      && (s == "elif" ==> r.level == if level == 0 then 1 else level)
      && (s != "" && s != "elif" && !EndsWith(s, ":") ==> r.level == level)
  {
  }

  /** `else:` is not dedented: it stays at the level of the block it closes and opens a deeper one. */
  lemma ElseIsNotDedented()
    ensures FormatPyLine("else:", 1) == LineResult("    else:", 2)
  {
  }

  /** Output line `i` is what the formatter makes of input line `i` at the level in force there. */
  lemma {:induction false} FormatPyLinesAt(lines: seq<string>, i: nat)
    requires i < |lines|
    ensures FormatPyLines(lines).lines[i] == FormatPyLine(lines[i], LevelBefore(lines, i)).text
  {
    var init := lines[..|lines| - 1];
    if i < |lines| - 1 {
      FormatPyLinesAt(init, i);
      assert init[..i] == lines[..i] && init[i] == lines[i];
    }
  }

  /** Formatting one line adds spaces only, so it adds no line break. */
  lemma FormatPyLineNoBreaks(line: string, level: nat)
    requires '\n' !in line
    ensures '\n' !in FormatPyLine(line, level).text
  {
    var s := Strip(line);
    StripFacts(line);
    var r := FormatPyLine(line, level);
    if s != "" {
      var k := if s in DEDENT_KEYWORDS && !EndsWith(s, ":") && level > 0 then level - 1 else level;
      assert r.text == Indent(k) + s;
      assert '\n' !in Indent(k);
    }
  }

  /** No output line of the Python branch contains a line break, when no input line does. */
  lemma FormatPyLinesNoBreaks(lines: seq<string>)
    requires forall i :: 0 <= i < |lines| ==> '\n' !in lines[i]
    ensures forall i :: 0 <= i < |lines| ==> '\n' !in FormatPyLines(lines).lines[i]
  {
    forall i | 0 <= i < |lines| ensures '\n' !in FormatPyLines(lines).lines[i] {
      FormatPyLinesAt(lines, i);
      FormatPyLineNoBreaks(lines[i], LevelBefore(lines, i));
    }
  }

  /** The Python branch's output splits back into exactly the formatted lines. */
  lemma PythonFormattedSplits(code: string)
    ensures Split(PythonFormatted(code), '\n') == FormatPyLines(Split(code, '\n')).lines
  {
    var input := Split(code, '\n');
    FormatPyLinesNoBreaks(input);
    SplitJoin(FormatPyLines(input).lines, '\n');
  }

  /** The level after line `i` is what formatting line `i` leaves. */
  lemma LevelStep(input: seq<string>, i: nat)
    requires i < |input|
    ensures LevelBefore(input, i + 1) == FormatPyLine(input[i], LevelBefore(input, i)).level
  {
    var pre := input[..i + 1];
    assert pre[..|pre| - 1] == input[..i] && pre[|pre| - 1] == input[i];
  }

  /**
   * The Python branch keeps the line structure: exactly one output line per
   * `\n`-separated input line, and output line `i` is input line `i` formatted
   * at the level the lines before it leave, starting from level 0.
   */
  lemma PythonFormattedLines(code: string)
    ensures var input, output := Split(code, '\n'), Split(PythonFormatted(code), '\n');
      && |output| == |input|
      && LevelBefore(input, 0) == 0
      && (forall i :: 0 <= i < |input| ==> output[i] == FormatPyLine(input[i], LevelBefore(input, i)).text)
      && (forall i :: 0 <= i < |input| ==> LevelBefore(input, i + 1) == FormatPyLine(input[i], LevelBefore(input, i)).level)
  {
    var input := Split(code, '\n');
    PythonFormattedSplits(code);
    forall i | 0 <= i < |input|
      ensures FormatPyLines(input).lines[i] == FormatPyLine(input[i], LevelBefore(input, i)).text
    {
      FormatPyLinesAt(input, i);
    }
    forall i | 0 <= i < |input|
      ensures LevelBefore(input, i + 1) == FormatPyLine(input[i], LevelBefore(input, i)).level
    {
      LevelStep(input, i);
    }
  }

  /** The Python branch: the loop over the lines with its running indentation level. */
  method FormatPython(code: string) returns (formatted: string)
    ensures formatted == PythonFormatted(code)
  {
    var lines := Split(code, '\n');
    var out: seq<string> := [];
    var level: nat := 0;
    for i := 0 to |lines|
      invariant FormatPyLines(lines[..i]) == PyState(out, level)
    {
      assert lines[..i + 1][..i] == lines[..i];
      var stripped := Strip(lines[i]);
      if stripped == "" {
        out := out + [""];
        continue;
      }
      if EndsWith(stripped, ":") {
        out := out + [Indent(level) + stripped];
        level := level + 1;
      } else if stripped in DEDENT_KEYWORDS {
        level := if level > 0 then level - 1 else 0;
        out := out + [Indent(level) + stripped];
        level := level + 1;
      } else {
        out := out + [Indent(level) + stripped];
      }
    }
    assert lines[..|lines|] == lines;
    formatted := Join(out, '\n');
  }

  // ---------------------------------------------------------------------
  // JavaScript

  /** `s.replace(c, rep)` for a one-character pattern: every occurrence, left to right. */
  function ReplaceChar(s: string, c: char, rep: string): string {
    if |s| == 0 then ""
    else (if s[0] == c then rep else [s[0]]) + ReplaceChar(s[1..], c, rep)
  }

  /** The JavaScript branch: a line break after every `;` and `{`, and before every `}`. */
  function FormatJavaScript(code: string): string {
    ReplaceChar(ReplaceChar(ReplaceChar(code, ';', ";\n"), '{', "{\n"), '}', "\n}")
  }

  /** Replacing works piece by piece: the replacement of a concatenation is the concatenation of the replacements. */
  lemma {:induction false} ReplaceCharConcat(a: string, b: string, c: char, rep: string)
    ensures ReplaceChar(a + b, c, rep) == ReplaceChar(a, c, rep) + ReplaceChar(b, c, rep)
  {
    if |a| > 0 {
      assert (a + b)[0] == a[0] && (a + b)[1..] == a[1..] + b;
      ReplaceCharConcat(a[1..], b, c, rep);
    } else {
      assert a + b == b;
    }
  }

  /** The JavaScript branch formats a concatenation piece by piece. */
  lemma FormatJavaScriptConcat(a: string, b: string)
    ensures FormatJavaScript(a + b) == FormatJavaScript(a) + FormatJavaScript(b)
  {
    ReplaceCharConcat(a, b, ';', ";\n");
    var a1, b1 := ReplaceChar(a, ';', ";\n"), ReplaceChar(b, ';', ";\n");
    ReplaceCharConcat(a1, b1, '{', "{\n");
    var a2, b2 := ReplaceChar(a1, '{', "{\n"), ReplaceChar(b1, '{', "{\n");
    ReplaceCharConcat(a2, b2, '}', "\n}");
  }

  /** One character is replaced when it is the pattern and kept otherwise. */
  lemma ReplaceCharSingle(ch: char, c: char, rep: string)
    ensures ReplaceChar([ch], c, rep) == if ch == c then rep else [ch]
  {
    assert [ch][1..] == [];
  }

  /** Replacing in a two-character text replaces in each character. */
  lemma ReplaceCharPair(x: char, y: char, c: char, rep: string)
    ensures ReplaceChar([x, y], c, rep) == ReplaceChar([x], c, rep) + ReplaceChar([y], c, rep)
  {
    assert [x, y] == [x] + [y];
    ReplaceCharConcat([x], [y], c, rep);
  }

  /**
   * What the JavaScript branch makes of one character: a line break after `;`
   * and `{`, a line break before `}`, and every other character as it is.
   */
  lemma FormatJavaScriptChar(ch: char)
    ensures FormatJavaScript([ch]) ==
      if ch == ';' then ";\n" else if ch == '{' then "{\n" else if ch == '}' then "\n}" else [ch]
  {
    ReplaceCharSingle(ch, ';', ";\n");
    ReplaceCharSingle('\n', '{', "{\n");
    ReplaceCharSingle('\n', '}', "\n}");
    if ch == ';' {
      ReplaceCharPair(';', '\n', '{', "{\n");
      ReplaceCharSingle(';', '{', "{\n");
      ReplaceCharPair(';', '\n', '}', "\n}");
      ReplaceCharSingle(';', '}', "\n}");
    } else {
      ReplaceCharSingle(ch, '{', "{\n");
      if ch == '{' {
        ReplaceCharPair('{', '\n', '}', "\n}");
        ReplaceCharSingle('{', '}', "\n}");
      } else {
        ReplaceCharSingle(ch, '}', "\n}");
      }
    }
  }

  /** The text with its line breaks taken out. */
  function WithoutBreaks(s: string): (r: string)
    ensures '\n' !in r
  {
    if |s| == 0 then ""
    else (if s[0] == '\n' then "" else [s[0]]) + WithoutBreaks(s[1..])
  }

  lemma {:induction false} WithoutBreaksConcat(a: string, b: string)
    ensures WithoutBreaks(a + b) == WithoutBreaks(a) + WithoutBreaks(b)
  {
    if |a| > 0 {
      assert (a + b)[0] == a[0] && (a + b)[1..] == a[1..] + b;
      WithoutBreaksConcat(a[1..], b);
    } else {
      assert a + b == b;
    }
  }

  /** Replacing a character by itself padded with line breaks changes nothing but line breaks. */
  lemma {:induction false} ReplaceCharOnlyAddsBreaks(s: string, c: char, rep: string)
    requires WithoutBreaks(rep) == [c]
    ensures WithoutBreaks(ReplaceChar(s, c, rep)) == WithoutBreaks(s)
  {
    if |s| > 0 {
      ReplaceCharOnlyAddsBreaks(s[1..], c, rep);
      var head := if s[0] == c then rep else [s[0]];
      WithoutBreaksConcat(head, ReplaceChar(s[1..], c, rep));
      WithoutBreaksConcat([s[0]], s[1..]);
      assert s == [s[0]] + s[1..];
      assert WithoutBreaks([s[0]]) == (if s[0] == '\n' then "" else [s[0]]);
    }
  }

  /** The JavaScript branch only inserts line breaks: with them taken out, the code is unchanged. */
  lemma JavaScriptOnlyAddsBreaks(code: string)
    ensures WithoutBreaks(FormatJavaScript(code)) == WithoutBreaks(code)
  {
    assert WithoutBreaks(";\n") == ";" by { assert (";\n")[1..] == "\n"; }
    assert WithoutBreaks("{\n") == "{" by { assert ("{\n")[1..] == "\n"; }
    assert WithoutBreaks("\n}") == "}" by { assert ("\n}")[1..] == "}"; }
    var a := ReplaceChar(code, ';', ";\n");
    var b := ReplaceChar(a, '{', "{\n");
    ReplaceCharOnlyAddsBreaks(code, ';', ";\n");
    ReplaceCharOnlyAddsBreaks(a, '{', "{\n");
    ReplaceCharOnlyAddsBreaks(b, '}', "\n}");
  }

  // ---------------------------------------------------------------------
  // every other language

  /** The stripped lines that are not blank, in order. */
  function NonBlankStripped(lines: seq<string>): (r: seq<string>)
    ensures |r| <= |lines|
    ensures forall i :: 0 <= i < |r| ==> r[i] != "" && Strip(r[i]) == r[i]
    ensures (forall i :: 0 <= i < |lines| ==> '\n' !in lines[i]) ==> forall i :: 0 <= i < |r| ==> '\n' !in r[i]
  {
    if |lines| == 0 then []
    else
      var s := Strip(lines[0]);
      StripIdempotent(lines[0]);
      StripFacts(lines[0]);
      (if s == "" then [] else [s]) + NonBlankStripped(lines[1..])
  }

  /** The fallback branch: strip every line and drop the blank ones. */
  function CleanUp(code: string): string {
    Join(NonBlankStripped(Split(code, '\n')), '\n')
  }

  /** The filter works line by line: filtering a concatenation concatenates the filtered parts. */
  lemma {:induction false} NonBlankStrippedConcat(a: seq<string>, b: seq<string>)
    ensures NonBlankStripped(a + b) == NonBlankStripped(a) + NonBlankStripped(b)
  {
    if |a| > 0 {
      assert (a + b)[0] == a[0] && (a + b)[1..] == a[1..] + b;
      NonBlankStrippedConcat(a[1..], b);
    } else {
      assert a + b == b;
    }
  }

  /** One line is dropped when it is blank and kept stripped otherwise. */
  lemma NonBlankStrippedLine(line: string)
    ensures NonBlankStripped([line]) == if Strip(line) == "" then [] else [Strip(line)]
  {
    assert [line][1..] == [];
  }

  /**
   * Every non-blank input line survives, stripped, and every kept line is the
   * stripped form of some input line.
   */
  lemma {:induction false} NonBlankStrippedMembers(lines: seq<string>)
    ensures var r := NonBlankStripped(lines);
      && (forall i :: 0 <= i < |lines| && Strip(lines[i]) != "" ==> Strip(lines[i]) in r)
      && (forall j :: 0 <= j < |r| ==> exists i :: 0 <= i < |lines| && r[j] == Strip(lines[i]))
  {
    if |lines| > 0 {
      var tail := lines[1..];
      NonBlankStrippedMembers(tail);
      var head := if Strip(lines[0]) == "" then [] else [Strip(lines[0])];
      var r := NonBlankStripped(lines);
      assert r == head + NonBlankStripped(tail);
      forall i | 0 <= i < |lines| && Strip(lines[i]) != "" ensures Strip(lines[i]) in r {
        if i > 0 { assert lines[i] == tail[i - 1]; }
      }
      forall j | 0 <= j < |r| ensures exists i :: 0 <= i < |lines| && r[j] == Strip(lines[i]) {
        if j >= |head| {
          var k :| 0 <= k < |tail| && r[j] == Strip(tail[k]);
          assert tail[k] == lines[k + 1];
        } else {
          assert r[j] == Strip(lines[0]);
        }
      }
    }
  }

  /** Lines that are already stripped and non-blank all survive the filter. */
  lemma {:induction false} NonBlankStrippedKeepsClean(lines: seq<string>)
    requires forall i :: 0 <= i < |lines| ==> lines[i] != "" && Strip(lines[i]) == lines[i]
    ensures NonBlankStripped(lines) == lines
  {
    if |lines| > 0 {
      NonBlankStrippedKeepsClean(lines[1..]);
      assert lines == [lines[0]] + lines[1..];
    }
  }

  /**
   * The lines of the cleaned-up text are exactly the non-blank input lines,
   * stripped, in their order (no lines at all gives the empty text).
   */
  lemma CleanUpLines(code: string)
    ensures var kept := NonBlankStripped(Split(code, '\n'));
      && (kept == [] ==> CleanUp(code) == "")
      && (kept != [] ==> Split(CleanUp(code), '\n') == kept)
  {
    var kept := NonBlankStripped(Split(code, '\n'));
    if kept != [] {
      SplitJoin(kept, '\n');
    }
  }

  /** Cleaning up twice is cleaning up once. */
  lemma CleanUpIdempotent(code: string)
    ensures CleanUp(CleanUp(code)) == CleanUp(code)
  {
    var kept := NonBlankStripped(Split(code, '\n'));
    CleanUpLines(code);
    if kept == [] {
      assert Split("", '\n') == [""];
      assert NonBlankStripped([""]) == [];
    } else {
      NonBlankStrippedKeepsClean(kept);
    }
  }

  // ---------------------------------------------------------------------
  // dispatch

  /** `format_code_by_language`: the Python, JavaScript or fallback branch by the language tag. */
  method FormatCode(code: string, language: string) returns (formatted: string)
    ensures language == "python" ==> formatted == PythonFormatted(code)
    ensures language == "javascript" ==> formatted == FormatJavaScript(code)
    ensures language != "python" && language != "javascript" ==> formatted == CleanUp(code)
  {
    if language == "python" {
      formatted := FormatPython(code);
    } else if language == "javascript" {
      formatted := FormatJavaScript(code);
    } else {
      formatted := CleanUp(code);
    }
  }
}
