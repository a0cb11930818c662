/**
 * `beautify_file`: the downloaded diff is read back line by line and
 * rewritten as plain code. Two variants exist. The GitLab and GitHub
 * scripts strip the first character of every `+` and `-` line (keeping
 * removed code); the Jira script strips `+` lines and drops `-` lines.
 * Every other line has its hunk headers removed.
 */
module Beautify {
  import opened Strings
  import opened HunkHeader

  /** What happens to a line that starts with `-`. */
  datatype Variant =
    | KeepRemoved   // gitlab-merge-commit-downloader.py, github-mr-commits-downloader.py
    | DropRemoved   // jira-epic-mr-downloader.py

  /** What one line of the diff contributes to the rewritten file. */
  function BeautifyLine(v: Variant, line: string): (r: string)
    ensures |r| <= |line|
  {
    if StartsWith(line, "+") then line[1..]
    else if StartsWith(line, "-") then (if v == KeepRemoved then line[1..] else "")
    else RemoveHeaders(line)
  }

  /** The rewritten file: the lines' contributions, in order; never longer than the lines it came from. */
  function Beautify(v: Variant, lines: seq<string>): (r: string)
    ensures |r| <= |Concat(lines)|
  {
    if lines == [] then "" else BeautifyLine(v, lines[0]) + Beautify(v, lines[1..])
  }

  /** The whole rewrite of a file's text, as it is read back in text mode; never longer than the text. */
  function BeautifyText(v: Variant, text: string): (r: string)
    ensures |r| <= |text|
  {
    Beautify(v, Lines(UniversalNewlines(text)))
  }

  /** The output is the concatenation of the outputs for any split of the lines. */
  lemma {:induction false} BeautifyAppend(v: Variant, xs: seq<string>, ys: seq<string>)
    ensures Beautify(v, xs + ys) == Beautify(v, xs) + Beautify(v, ys)
  {
    if xs == [] {
      assert xs + ys == ys;
    } else {
      assert (xs + ys)[0] == xs[0] && (xs + ys)[1..] == xs[1..] + ys;
      BeautifyAppend(v, xs[1..], ys);
      AppendAssoc(BeautifyLine(v, xs[0]), Beautify(v, xs[1..]), Beautify(v, ys));
    }
  }

  /** A single line's contribution is what `BeautifyLine` gives it. */
  lemma BeautifyOne(v: Variant, line: string)
    ensures Beautify(v, [line]) == BeautifyLine(v, line)
  {
    assert [line][1..] == [];
  }

  /** One more line adds its own contribution at the end. */
  lemma BeautifyStep(v: Variant, lines: seq<string>, i: nat)
    requires i < |lines|
    ensures Beautify(v, lines[..i + 1]) == Beautify(v, lines[..i]) + BeautifyLine(v, lines[i])
  {
    assert lines[..i + 1] == lines[..i] + [lines[i]];
    BeautifyAppend(v, lines[..i], [lines[i]]);
    BeautifyOne(v, lines[i]);
  }

  /** A `+` line loses exactly its first character, in both variants; no header is removed from it. */
  lemma AddedLine(v: Variant, line: string)
    requires StartsWith(line, "+")
    ensures |line| > 0 && BeautifyLine(v, line) == line[1..]
    ensures [line[0]] + BeautifyLine(v, line) == line
  {
  }

  /** A `-` line loses its first character when removed code is kept, and is dropped otherwise. */
  lemma RemovedLine(v: Variant, line: string)
    requires StartsWith(line, "-")
    ensures |line| > 0
    ensures v == KeepRemoved ==> [line[0]] + BeautifyLine(v, line) == line
    ensures v == DropRemoved ==> BeautifyLine(v, line) == ""
  {
  }

  /** Any other line passes through unchanged exactly when it holds no hunk header. */
  lemma ContextLine(v: Variant, line: string)
    requires !StartsWith(line, "+") && !StartsWith(line, "-")
    ensures BeautifyLine(v, line) == line <==> !ContainsHeader(line)
    ensures Count('\n', BeautifyLine(v, line)) == Count('\n', line)
  {
    RemoveHeadersUnchangedIff(line);
    RemoveHeadersKeepsNewlines(line);
  }

  /** The two variants agree on every diff without a line that starts with `-`. */
  lemma {:induction false} VariantsAgree(lines: seq<string>)
    requires forall k :: 0 <= k < |lines| ==> !StartsWith(lines[k], "-")
    ensures Beautify(KeepRemoved, lines) == Beautify(DropRemoved, lines)
  {
    if lines != [] {
      VariantsAgree(lines[1..]);
    }
  }

  /** The contribution of a line keeps its line breaks, except for a `-` line the Jira variant drops. */
  lemma LineNewlines(v: Variant, line: string)
    ensures v == KeepRemoved || !StartsWith(line, "-") ==>
      Count('\n', BeautifyLine(v, line)) == Count('\n', line)
    ensures Count('\n', BeautifyLine(v, line)) <= Count('\n', line)
  {
    if StartsWith(line, "+") || StartsWith(line, "-") {
      assert line == [line[0]] + line[1..];
      CountConcat('\n', [line[0]], line[1..]);
    } else {
      RemoveHeadersKeepsNewlines(line);
    }
  }

  /**
   * Keeping removed code keeps every line break, so the rewritten file has
   * exactly as many lines as the diff; dropping it never adds any.
   */
  lemma {:induction false} BeautifyNewlines(v: Variant, lines: seq<string>)
    ensures v == KeepRemoved ==> Count('\n', Beautify(v, lines)) == Count('\n', Concat(lines))
    ensures Count('\n', Beautify(v, lines)) <= Count('\n', Concat(lines))
  {
    if lines != [] {
      BeautifyNewlines(v, lines[1..]);
      LineNewlines(v, lines[0]);
      CountConcat('\n', BeautifyLine(v, lines[0]), Beautify(v, lines[1..]));
      CountConcat('\n', lines[0], Concat(lines[1..]));
    }
  }

  /** A diff with no `+` or `-` line and no hunk header is written back unchanged. */
  lemma {:induction false} PlainTextUnchanged(v: Variant, lines: seq<string>)
    requires forall k :: 0 <= k < |lines| ==>
      !StartsWith(lines[k], "+") && !StartsWith(lines[k], "-") && !ContainsHeader(lines[k])
    ensures Beautify(v, lines) == Concat(lines)
  {
    if lines != [] {
      RemoveHeadersKeeps(lines[0]);
      PlainTextUnchanged(v, lines[1..]);
    }
  }

  /**
   * `beautify_file` of gitlab-merge-commit-downloader.py (and the identical
   * copy in github-mr-commits-downloader.py), given the file's text: the
   * accumulator loop over the lines the file is read back as.
   */
  method BeautifyFileKeepingRemoved(content: string) returns (processed: string)
    ensures processed == BeautifyText(KeepRemoved, content)
  {
    var lines := Lines(UniversalNewlines(content));
    processed := "";
    for i := 0 to |lines|
      invariant processed == Beautify(KeepRemoved, lines[..i])
    {
      var line := lines[i];
      if StartsWith(line, "+") || StartsWith(line, "-") {
        processed := processed + line[1..];
      } else {
        line := RemoveHeaders(line);
        processed := processed + line;
      }
      BeautifyStep(KeepRemoved, lines, i);
    }
    assert lines[..|lines|] == lines;
  }

  /**
   * `beautify_file` of jira-epic-mr-downloader.py, given the file's text:
   * the same loop, which skips `-` lines with `continue`.
   */
  method BeautifyFileDroppingRemoved(content: string) returns (processed: string)
    ensures processed == BeautifyText(DropRemoved, content)
  {
    var lines := Lines(UniversalNewlines(content));
    processed := "";
    for i := 0 to |lines|
      invariant processed == Beautify(DropRemoved, lines[..i])
    {
      var line := lines[i];
      BeautifyStep(DropRemoved, lines, i);
      if StartsWith(line, "+") {
        processed := processed + line[1..];
      } else if StartsWith(line, "-") {
        continue;
      } else {
        line := RemoveHeaders(line);
        processed := processed + line;
      }
    }
    assert lines[..|lines|] == lines;
  }

  /** A line that starts with neither `+` nor `-` is rewritten by `re.sub` alone. */
  lemma ContextLineRewrite(v: Variant, line: string)
    requires line != [] && line[0] != '+' && line[0] != '-'
    ensures BeautifyLine(v, line) == RemoveHeaders(line)
  {
    assert line[..1] == [line[0]];
    assert !StartsWith(line, "+") && !StartsWith(line, "-");
  }

  /** On a `+` line the header is not looked for. */
  lemma ExampleAddedHeaderKept(v: Variant)
    ensures BeautifyLine(v, "+@@ -1,3 +1,4 @@ x\n") == "@@ -1,3 +1,4 @@ x\n"
  {
    var s := "+@@ -1,3 +1,4 @@ x\n";
    assert s[0] == '+';
  }

  /** A line replaced by another: the old code is kept before the new, or dropped. */
  lemma ReplacedLine(v: Variant, removed: string, added: string)
    ensures Beautify(v, ["-" + removed, "+" + added]) ==
      if v == KeepRemoved then removed + added else added
  {
    var x, y := "-" + removed, "+" + added;
    assert x[0] == '-' && x[1..] == removed && y[0] == '+' && y[1..] == added;
    assert StartsWith(x, "-") && !StartsWith(x, "+") && StartsWith(y, "+");
    assert [x, y][1..] == [y];
    BeautifyOne(v, y);
  }

  /** The text of a single line ending in a line break and free of carriage returns is read as that line. */
  lemma BeautifySingleLine(v: Variant, line: string)
    requires IsLine(line) && line[|line| - 1] == '\n' && '\r' !in line
    ensures BeautifyText(v, line) == BeautifyLine(v, line)
  {
    LinesCons(line, []);
    assert line + [] == line;
    BeautifyOne(v, line);
  }

  /** Rewriting is not idempotent: a line that starts with `++` loses one `+` per pass. */
  lemma NotIdempotentOnDoubleAdd(v: Variant)
    ensures BeautifyText(v, "++x\n") == "+x\n"
    ensures BeautifyText(v, BeautifyText(v, "++x\n")) == "x\n"
  {
    var s, t := "++x\n", "+x\n";
    assert s[0] == '+' && s[1..] == t && t[0] == '+' && t[1..] == "x\n";
    assert '\n' !in s[..|s| - 1] && '\n' !in t[..|t| - 1];
    BeautifySingleLine(v, s);
    BeautifySingleLine(v, t);
  }
}
