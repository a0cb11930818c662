/**
 * The hunk-header regular expression `@@ -\d+,\d+ \+\d+,\d+ @@ ` that every
 * copy of `beautify_file` removes with `re.sub`, and the removal itself.
 *
 * Each `\d+` in the pattern is followed by literal text that starts with a
 * non-digit, so at any position there is at most one way to match: the
 * greedy matcher below finds exactly the match a backtracking engine finds.
 */
module HunkHeader {
  import opened Wrappers
  import opened Strings

  /** `\d`, restricted to the ASCII digits. */
  predicate IsDigit(c: char) {
    '0' <= c <= '9'
  }

  predicate AllDigits(t: string) {
    forall k :: 0 <= k < |t| ==> IsDigit(t[k])
  }

  /** The length of the longest run of digits at the start of `s`. */
  function DigitRun(s: string): (n: nat)
    ensures n <= |s|
    ensures n < |s| ==> !IsDigit(s[n])
  {
    if s != [] && IsDigit(s[0]) then 1 + DigitRun(s[1..]) else 0
  }

  /** Everything the run covers is a digit. */
  lemma {:induction false} DigitRunDigits(s: string)
    ensures AllDigits(s[..DigitRun(s)])
  {
    if s != [] && IsDigit(s[0]) {
      DigitRunDigits(s[1..]);
      assert s[..DigitRun(s)] == [s[0]] + s[1..][..DigitRun(s[1..])];
    }
  }

  /** An element of a regular expression made of literal text and `\d+`. */
  datatype Token = Text(text: string) | Digits

  /** The pattern `@@ -\d+,\d+ \+\d+,\d+ @@ ` (the trailing space is part of it). */
  const Pattern: seq<Token> :=
    [Text("@@ -"), Digits, Text(","), Digits, Text(" +"), Digits, Text(","), Digits, Text(" @@ ")]

  /** The length of the shortest string a token can match. */
  function TokenWidth(tok: Token): nat
  {
    match tok case Text(t) => |t| case Digits => 1
  }

  /** How much of the start of `s` one token takes: its text, or every digit there is. */
  function MatchToken(tok: Token, s: string): (r: Option<nat>)
    ensures r.Some? ==> r.value <= |s|
    ensures r.Some? ==> r.value >= TokenWidth(tok)
  {
    match tok
    case Text(t) => if StartsWith(s, t) then Some(|t|) else None
    case Digits => if DigitRun(s) > 0 then Some(DigitRun(s)) else None
  }

  /**
   * The length of the prefix of `s` that `p` matches, token by token, or
   * None when `p` does not match at the start of `s`.
   */
  function MatchPrefix(p: seq<Token>, s: string): (r: Option<nat>)
    ensures r.Some? ==> r.value <= |s|
  {
    if p == [] then Some(0)
    else
      match MatchToken(p[0], s)
      case None => None
      case Some(k) =>
        match MatchPrefix(p[1..], s[k..])
        case None => None
        case Some(n) => Some(k + n)
  }

  /** The strings one token denotes: its text, or any non-empty run of digits. */
  predicate TokenDenotes(tok: Token, t: string)
  {
    match tok
    case Text(lit) => t == lit
    case Digits => t != [] && AllDigits(t)
  }

  /**
   * The strings a pattern denotes as a regular expression: a `\d+` stands
   * for ANY non-empty run of digits, not only the longest one.
   */
  ghost predicate Denotes(p: seq<Token>, t: string)
  {
    if p == [] then t == []
    else exists k :: 0 <= k <= |t| && TokenDenotes(p[0], t[..k]) && Denotes(p[1..], t[k..])
  }

  /** Every `\d+` is followed by literal text that starts with a non-digit. */
  predicate DigitsDelimited(p: seq<Token>)
  {
    forall i :: 0 <= i < |p| && p[i].Digits? ==>
      i + 1 < |p| && p[i + 1].Text? && |p[i + 1].text| > 0 && !IsDigit(p[i + 1].text[0])
  }

  /** A hunk header as the regular expression defines it. */
  ghost predicate IsHunkHeader(t: string)
  {
    Denotes(Pattern, t)
  }

  /** The length of the hunk header at the start of `s`, if there is one. */
  function HeaderLength(s: string): (r: Option<nat>)
    ensures r.Some? ==> 4 <= r.value <= |s|
  {
    assert Pattern[0] == Text("@@ -");
    MatchPrefix(Pattern, s)
  }

  lemma {:induction false} DigitRunExact(s: string, k: nat)
    requires k <= |s| && AllDigits(s[..k])
    requires k < |s| ==> !IsDigit(s[k])
    ensures DigitRun(s) == k
  {
    if k > 0 {
      assert IsDigit(s[..k][0]);
      assert s[1..][..k - 1] == s[..k][1..];
      DigitRunExact(s[1..], k - 1);
    } else if s != [] {
      assert !IsDigit(s[0]);
    }
  }

  lemma DelimitedTail(p: seq<Token>)
    requires p != [] && DigitsDelimited(p)
    ensures DigitsDelimited(p[1..])
  {
    forall i | 0 <= i < |p[1..]| && p[1..][i].Digits?
      ensures i + 1 < |p[1..]| && p[1..][i + 1].Text?
      ensures |p[1..][i + 1].text| > 0 && !IsDigit(p[1..][i + 1].text[0])
    {
      assert p[i + 1] == p[1..][i];
    }
  }

  /** One step of the matcher: the first token, then the rest of the pattern. */
  lemma {:induction false} MatchStep(p: seq<Token>, s: string, k: nat, n: nat)
    requires p != [] && MatchToken(p[0], s) == Some(k)
    requires MatchPrefix(p[1..], s[k..]) == Some(n)
    ensures MatchPrefix(p, s) == Some(k + n)
  {
  }

  lemma TokenSound(tok: Token, s: string)
    requires MatchToken(tok, s).Some?
    ensures TokenDenotes(tok, s[..MatchToken(tok, s).value])
  {
    if tok.Digits? {
      DigitRunDigits(s);
    }
  }

  /** What the matcher finds is a string the pattern denotes. */
  lemma {:induction false} MatchPrefixSound(p: seq<Token>, s: string)
    requires MatchPrefix(p, s).Some?
    ensures Denotes(p, s[..MatchPrefix(p, s).value])
  {
    var n := MatchPrefix(p, s).value;
    if p != [] {
      var k := MatchToken(p[0], s).value;
      var m := MatchPrefix(p[1..], s[k..]).value;
      MatchPrefixSound(p[1..], s[k..]);
      TokenSound(p[0], s);
      assert s[..n][..k] == s[..k];
      assert s[..n][k..] == s[k..][..m];
    }
  }

  /** A string that a pattern starting with text denotes starts with that text. */
  lemma DenotesStartsWithText(p: seq<Token>, u: string)
    requires p != [] && p[0].Text? && Denotes(p, u)
    ensures StartsWith(u, p[0].text)
  {
    var k :| 0 <= k <= |u| && TokenDenotes(p[0], u[..k]) && Denotes(p[1..], u[k..]);
  }

  /** Where the pattern denotes a prefix, the first token takes exactly its share of it. */
  lemma TokenComplete(p: seq<Token>, s: string, n: nat, k: nat)
    requires DigitsDelimited(p) && p != []
    requires k <= n <= |s|
    requires TokenDenotes(p[0], s[..k]) && Denotes(p[1..], s[k..n])
    ensures MatchToken(p[0], s) == Some(k)
  {
    match p[0]
    case Text(lit) =>
      assert s[..|lit|] == lit;
    case Digits =>
      assert p[1].Text? && |p[1].text| > 0 && !IsDigit(p[1].text[0]);
      assert p[1..][0] == p[1];
      DenotesStartsWithText(p[1..], s[k..n]);
      assert s[k..n][0] == s[k];
      DigitRunExact(s, k);
  }

  /** A denoted prefix splits into the first token's share and a string of the rest of the pattern. */
  lemma DenotedSplit(p: seq<Token>, s: string, n: nat) returns (k: nat)
    requires p != [] && n <= |s| && Denotes(p, s[..n])
    ensures k <= n && TokenDenotes(p[0], s[..k])
    ensures Denotes(p[1..], s[k..n]) && s[k..n] == s[k..][..n - k]
  {
    var t := s[..n];
    k :| 0 <= k <= |t| && TokenDenotes(p[0], t[..k]) && Denotes(p[1..], t[k..]);
    assert t[..k] == s[..k];
    assert t[k..] == s[k..n];
  }

  /** Every prefix the pattern denotes is what the matcher finds, so there is at most one. */
  lemma {:induction false} MatchPrefixComplete(p: seq<Token>, s: string, n: nat)
    requires DigitsDelimited(p)
    requires n <= |s| && Denotes(p, s[..n])
    ensures MatchPrefix(p, s) == Some(n)
  {
    if p == [] {
      assert s[..n] == [];
    } else {
      DelimitedTail(p);
      var k := DenotedSplit(p, s, n);
      TokenComplete(p, s, n, k);
      MatchPrefixComplete(p[1..], s[k..], n - k);
      MatchStep(p, s, k, n - k);
    }
  }

  lemma PatternDelimited()
    ensures DigitsDelimited(Pattern)
  {
    forall i | 0 <= i < |Pattern| && Pattern[i].Digits?
      ensures i + 1 < |Pattern| && Pattern[i + 1].Text?
      ensures |Pattern[i + 1].text| > 0 && !IsDigit(Pattern[i + 1].text[0])
    {
      assert i == 1 || i == 3 || i == 5 || i == 7;
    }
  }

  /** The matcher finds a header of length n exactly when the first n characters form a hunk header. */
  lemma HeaderLengthExact(s: string, n: nat)
    ensures HeaderLength(s) == Some(n) <==> n <= |s| && IsHunkHeader(s[..n])
  {
    if HeaderLength(s) == Some(n) {
      MatchPrefixSound(Pattern, s);
    }
    if n <= |s| && IsHunkHeader(s[..n]) {
      PatternDelimited();
      MatchPrefixComplete(Pattern, s, n);
    }
  }

  /**
   * Python's `re.sub(pattern, '', s)`: scan from the left, drop each match
   * and resume after it, keep every character where no match starts.
   */
  function RemoveHeaders(s: string): (r: string)
    ensures |r| <= |s|
    decreases |s|
  {
    if s == [] then []
    else match HeaderLength(s)
      case Some(n) => RemoveHeaders(s[n..])
      case None => [s[0]] + RemoveHeaders(s[1..])
  }

  /** A hunk header starts somewhere in `s` (the search is not anchored). */
  predicate ContainsHeader(s: string)
  {
    exists i :: 0 <= i < |s| && HeaderLength(s[i..]).Some?
  }

  lemma {:induction false} RemoveHeadersShrinks(s: string)
    requires ContainsHeader(s)
    ensures |RemoveHeaders(s)| < |s|
    decreases |s|
  {
    var i :| 0 <= i < |s| && HeaderLength(s[i..]).Some?;
    if HeaderLength(s).None? {
      assert i > 0;
      assert s[1..][i - 1..] == s[i..];
      RemoveHeadersShrinks(s[1..]);
    }
  }

  lemma {:induction false} RemoveHeadersKeeps(s: string)
    requires !ContainsHeader(s)
    ensures RemoveHeaders(s) == s
    decreases |s|
  {
    if s != [] {
      assert s[0..] == s;
      assert HeaderLength(s).None?;
      forall i | 0 <= i < |s[1..]|
        ensures HeaderLength(s[1..][i..]).None?
      {
        assert s[1..][i..] == s[i + 1..];
      }
      RemoveHeadersKeeps(s[1..]);
    }
  }

  /** `re.sub` returns its input unchanged exactly when no header occurs anywhere in it. */
  lemma RemoveHeadersUnchangedIff(s: string)
    ensures RemoveHeaders(s) == s <==> !ContainsHeader(s)
  {
    if ContainsHeader(s) {
      RemoveHeadersShrinks(s);
    } else {
      RemoveHeadersKeeps(s);
    }
  }

  lemma SliceSplit(s: string, k: nat, m: nat)
    requires k + m <= |s|
    ensures s[..k + m] == s[..k] + s[k..][..m]
  {
  }

  /** The characters a match covers are digits or pattern text, never `c` when `c` is neither. */
  lemma {:induction false} MatchAvoids(p: seq<Token>, s: string, c: char)
    requires MatchPrefix(p, s).Some?
    requires !IsDigit(c)
    requires forall i :: 0 <= i < |p| && p[i].Text? ==> c !in p[i].text
    ensures c !in s[..MatchPrefix(p, s).value]
  {
    var n := MatchPrefix(p, s).value;
    if p != [] {
      var k := MatchToken(p[0], s).value;
      var m := MatchPrefix(p[1..], s[k..]).value;
      assert forall i :: 0 <= i < |p[1..]| ==> p[1..][i] == p[i + 1];
      MatchAvoids(p[1..], s[k..], c);
      TokenSound(p[0], s);
      assert c !in s[..k];
      SliceSplit(s, k, m);
    }
  }

  /** Removing headers never removes a line break. */
  lemma {:induction false} RemoveHeadersKeepsNewlines(s: string)
    ensures Count('\n', RemoveHeaders(s)) == Count('\n', s)
    decreases |s|
  {
    if s != [] {
      match HeaderLength(s)
      case Some(n) =>
        HeaderHasNoNewline(s);
        CountConcat('\n', s[..n], s[n..]);
        assert s[..n] + s[n..] == s;
        RemoveHeadersKeepsNewlines(s[n..]);
      case None =>
        RemoveHeadersKeepsNewlines(s[1..]);
        CountConcat('\n', [s[0]], RemoveHeaders(s[1..]));
        assert s == [s[0]] + s[1..];
        CountConcat('\n', [s[0]], s[1..]);
    }
  }

  lemma HeaderHasNoNewline(s: string)
    requires HeaderLength(s).Some?
    ensures Count('\n', s[..HeaderLength(s).value]) == 0
  {
    assert forall i :: 0 <= i < |Pattern| && Pattern[i].Text? ==> '\n' !in Pattern[i].text;
    MatchAvoids(Pattern, s, '\n');
    CountAbsent('\n', s[..HeaderLength(s).value]);
  }

  /** The header `@@ -a,b +c,d @@ ` for the four digit strings. */
  function Header(a: string, b: string, c: string, d: string): string
  {
    "@@ -" + (a + ("," + (b + (" +" + (c + ("," + (d + " @@ ")))))))
  }

  /** A string of one token of the pattern followed by a string of the tokens after it. */
  lemma DenotesFrom(i: nat, u: string, v: string)
    requires i < |Pattern| && TokenDenotes(Pattern[i], u) && Denotes(Pattern[i + 1..], v)
    ensures Denotes(Pattern[i..], u + v)
  {
    var q := Pattern[i..];
    assert q[0] == Pattern[i] && q[1..] == Pattern[i + 1..];
    assert (u + v)[..|u|] == u && (u + v)[|u|..] == v;
  }

  /** The second half of a header, `c,d @@ `, is a string of the pattern's last four tokens. */
  lemma HeaderTail(c: string, d: string)
    requires c != [] && AllDigits(c) && d != [] && AllDigits(d)
    ensures Denotes(Pattern[5..], c + ("," + (d + " @@ ")))
  {
    var t8 := " @@ ";
    assert Pattern[9..] == [];
    DenotesFrom(8, t8, []);
    assert t8 + [] == t8;
    DenotesFrom(7, d, t8);
    DenotesFrom(6, ",", d + t8);
    DenotesFrom(5, c, "," + (d + t8));
  }

  /** `,b +` in front of a string of the last four tokens is a string of the last seven. */
  lemma HeaderMiddle(b: string, t: string)
    requires b != [] && AllDigits(b) && Denotes(Pattern[5..], t)
    ensures Denotes(Pattern[2..], "," + (b + (" +" + t)))
  {
    DenotesFrom(4, " +", t);
    DenotesFrom(3, b, " +" + t);
    DenotesFrom(2, ",", b + (" +" + t));
  }

  /** The rendered header is a hunk header in the sense of the regular expression. */
  lemma HeaderIsHunkHeader(a: string, b: string, c: string, d: string)
    requires a != [] && AllDigits(a) && b != [] && AllDigits(b)
    requires c != [] && AllDigits(c) && d != [] && AllDigits(d)
    ensures IsHunkHeader(Header(a, b, c, d))
  {
    var t := c + ("," + (d + " @@ "));
    HeaderTail(c, d);
    HeaderMiddle(b, t);
    var t2 := "," + (b + (" +" + t));
    DenotesFrom(1, a, t2);
    DenotesFrom(0, "@@ -", a + t2);
    assert Pattern[0..] == Pattern;
  }

  /** Whatever follows it, a header built from four non-empty digit strings is matched in full. */
  lemma HeaderMatches(a: string, b: string, c: string, d: string, rest: string)
    requires a != [] && AllDigits(a) && b != [] && AllDigits(b)
    requires c != [] && AllDigits(c) && d != [] && AllDigits(d)
    ensures HeaderLength(Header(a, b, c, d) + rest) == Some(|Header(a, b, c, d)|)
  {
    var h := Header(a, b, c, d);
    HeaderIsHunkHeader(a, b, c, d);
    assert (h + rest)[..|h|] == h;
    HeaderLengthExact(h + rest, |h|);
  }

  /** A match of a pattern is a match of its first token, then a match of the rest after it. */
  lemma MatchFirst(p: seq<Token>, s: string) returns (k: nat)
    requires p != [] && MatchPrefix(p, s).Some?
    ensures MatchToken(p[0], s) == Some(k) && k <= |s|
    ensures MatchPrefix(p[1..], s[k..]).Some?
  {
    k := MatchToken(p[0], s).value;
  }

  /** A header starts with `@@ -` and a digit. */
  lemma HeaderShape(s: string)
    ensures HeaderLength(s).Some? ==> StartsWith(s, "@@ -") && |s| > 4 && IsDigit(s[4])
  {
    if HeaderLength(s).Some? {
      assert Pattern[0] == Text("@@ -") && Pattern[1..][0] == Digits;
      var k := MatchFirst(Pattern, s);
      var d := MatchFirst(Pattern[1..], s[k..]);
      assert s[4..][..d][0] == s[4];
    }
  }

  /** A header holds a comma. */
  lemma HeaderHasComma(s: string)
    ensures HeaderLength(s).Some? ==> ',' in s
  {
    if HeaderLength(s).Some? {
      var q := Pattern[1..];
      assert Pattern[0] == Text("@@ -") && q[0] == Digits && q[1..][0] == Text(",");
      var k := MatchFirst(Pattern, s);
      var d := MatchFirst(q, s[k..]);
      var x := s[k..][d..];
      var e := MatchFirst(q[1..], x);
      assert StartsWith(x, ",");
      assert x[..1][0] == x[0] == ',';
      assert x[0] == s[k + d];
    }
  }

  /** A line without a comma holds no header. */
  lemma NoCommaNoHeader(s: string)
    requires ',' !in s
    ensures !ContainsHeader(s)
  {
    forall i | 0 <= i < |s| ensures HeaderLength(s[i..]).None? {
      HeaderHasComma(s[i..]);
    }
  }

  /** Where no header starts, `re.sub` keeps the first character and goes on with the rest. */
  lemma KeepsFirst(s: string)
    requires s != [] && (!StartsWith(s, "@@ -") || |s| <= 4 || !IsDigit(s[4]))
    ensures RemoveHeaders(s) == [s[0]] + RemoveHeaders(s[1..])
  {
    HeaderShape(s);
  }

  /** A header at the start is dropped whole and the scan resumes right after it. */
  lemma RemoveLeadingHeader(a: string, b: string, c: string, d: string, rest: string)
    requires a != [] && AllDigits(a) && b != [] && AllDigits(b)
    requires c != [] && AllDigits(c) && d != [] && AllDigits(d)
    ensures RemoveHeaders(Header(a, b, c, d) + rest) == RemoveHeaders(rest)
  {
    var h := Header(a, b, c, d);
    HeaderMatches(a, b, c, d, rest);
    assert (h + rest)[|h|..] == rest;
  }

  /** Text without an `@` is kept as it is, and the scan goes on after it. */
  lemma {:induction false} KeepsUnmarked(p: string, rest: string)
    requires '@' !in p
    ensures RemoveHeaders(p + rest) == p + RemoveHeaders(rest)
  {
    if p != [] {
      var s := p + rest;
      assert s[0] == p[0] && s[1..] == p[1..] + rest;
      assert !StartsWith(s, "@@ -") by {
        if |s| >= 4 { assert s[..4][0] == s[0]; }
      }
      KeepsFirst(s);
      KeepsUnmarked(p[1..], rest);
      assert [p[0]] + p[1..] == p;
    } else {
      assert p + rest == rest;
    }
  }

  /** A line without a comma is kept as it is. */
  lemma PlainKept(s: string)
    requires ',' !in s
    ensures RemoveHeaders(s) == s
  {
    NoCommaNoHeader(s);
    RemoveHeadersKeeps(s);
  }

  /**
   * The search is not anchored: a header after text without `@` is removed
   * as well, and the text before it is kept.
   */
  lemma HeaderAfterUnmarked(p: string, a: string, b: string, c: string, d: string, rest: string)
    requires '@' !in p
    requires a != [] && AllDigits(a) && b != [] && AllDigits(b)
    requires c != [] && AllDigits(c) && d != [] && AllDigits(d)
    ensures RemoveHeaders(p + (Header(a, b, c, d) + rest)) == p + RemoveHeaders(rest)
  {
    KeepsUnmarked(p, Header(a, b, c, d) + rest);
    RemoveLeadingHeader(a, b, c, d, rest);
  }

  /** Digits, commas, spaces and `+` hold no `@`. */
  lemma CountsUnmarked(a: string, b: string, c: string, d: string)
    requires AllDigits(a) && AllDigits(b) && AllDigits(c) && AllDigits(d)
    ensures '@' !in a + ("," + (b + (" +" + (c + ("," + (d + " "))))))
  {
    assert !IsDigit('@');
  }

  /** `@@ -` followed by something other than a digit starts no header. */
  lemma KeepsOpeningAt(x: string)
    requires x != [] && x[0] == '@'
    ensures RemoveHeaders("@@ -" + x) == "@" + RemoveHeaders("@ -" + x)
  {
    var s0 := "@@ -" + x;
    TailAppend("@@ -", x);
    assert "@@ -"[1..] == "@ -";
    assert s0[4] == x[0];
    KeepsFirst(s0);
  }

  /** Nor does `@ -`. */
  lemma KeepsOpeningAfter(x: string)
    ensures RemoveHeaders("@ -" + x) == "@" + RemoveHeaders(" -" + x)
  {
    var s1 := "@ -" + x;
    TailAppend("@ -", x);
    assert "@ -"[1..] == " -";
    assert !StartsWith(s1, "@@ -") by {
      if |s1| >= 4 { assert s1[..4][1] == s1[1] == ' '; }
    }
    KeepsFirst(s1);
  }

  /** `@@ -` followed by an `@` is kept, and the scan goes on after it. */
  lemma KeepsOpening(x: string)
    requires x != [] && x[0] == '@'
    ensures RemoveHeaders("@@ -" + x) == "@@ -" + RemoveHeaders(x)
  {
    KeepsOpeningAt(x);
    KeepsOpeningAfter(x);
    KeepsUnmarked(" -", x);
    var r := RemoveHeaders(x);
    AppendAssoc("@", "@", " -" + r);
    AppendAssoc("@@", " -", r);
    assert "@" + "@" == "@@" && "@@" + " -" == "@@ -";
  }

  /** What follows the `@@ -` of a header is kept as it is. */
  lemma CountsKept(a: string, b: string, c: string, d: string)
    requires AllDigits(a) && AllDigits(b) && AllDigits(c) && AllDigits(d)
    ensures RemoveHeaders(Header(a, b, c, d)[4..]) == Header(a, b, c, d)[4..]
  {
    var counts := a + ("," + (b + (" +" + (c + ("," + (d + " "))))));
    var tail := Header(a, b, c, d)[4..];
    assert tail == counts + "@@ ";
    CountsUnmarked(a, b, c, d);
    KeepsUnmarked(counts, "@@ ");
    PlainKept("@@ ");
  }

  /**
   * Removal is not idempotent: dropping a header can join the text on its
   * two sides into a new header, which only a second pass removes.
   */
  lemma RemovalFormsHeader(a: string, b: string, c: string, d: string)
    requires a != [] && AllDigits(a) && b != [] && AllDigits(b)
    requires c != [] && AllDigits(c) && d != [] && AllDigits(d)
    ensures var h := Header(a, b, c, d);
      RemoveHeaders("@@ -" + (h + h[4..])) == h && RemoveHeaders(h) == ""
  {
    var h := Header(a, b, c, d);
    var tail := h[4..];
    assert (h + tail)[0] == h[0] == '@';
    KeepsOpening(h + tail);
    RemoveLeadingHeader(a, b, c, d, tail);
    CountsKept(a, b, c, d);
    assert "@@ -" + tail == h;
    RemoveLeadingHeader(a, b, c, d, "");
    assert h + "" == h;
  }

  /** A header without the comma-separated counts is not matched and stays. */
  lemma ExampleShortHeaderKept()
    ensures RemoveHeaders("@@ -1 +1 @@\n") == "@@ -1 +1 @@\n"
  {
    PlainKept("@@ -1 +1 @@\n");
  }
}
