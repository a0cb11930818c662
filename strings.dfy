/** Option and Result, for the places where the scripts raise or give up. */
module Wrappers {
  datatype Option<+T> = None | Some(value: T)

  datatype Result<+T, +E> = Success(value: T) | Failure(error: E)
}

/**
 * The pieces of Python's string semantics the scripts rely on: `str.split`
 * and `str.join` with a one-character separator, `startswith`, `endswith`,
 * the substring test `in`, and the way a file opened in text mode is read
 * back line by line.
 */
module Strings {

  predicate StartsWith(s: string, prefix: string) {
    |prefix| <= |s| && s[..|prefix|] == prefix
  }

  /** Concatenation is associative. */
  lemma AppendAssoc<T>(a: seq<T>, b: seq<T>, c: seq<T>)
    ensures (a + b) + c == a + (b + c)
  {
  }

  /** The head and the tail of a concatenation whose first part is not empty. */
  lemma TailAppend<T>(a: seq<T>, b: seq<T>)
    requires |a| >= 1
    ensures (a + b)[0] == a[0] && (a + b)[1..] == a[1..] + b
  {
  }

  /** The last element and the rest of a concatenation whose second part is not empty. */
  lemma LastAppend<T>(a: seq<T>, b: seq<T>)
    requires |b| >= 1
    ensures (a + b)[|a + b| - 1] == b[|b| - 1]
    ensures (a + b)[..|a + b| - 1] == a + b[..|b| - 1]
  {
  }

  lemma StartsWithConcat(a: string, b: string)
    ensures StartsWith(a + b, a)
  {
    assert (a + b)[..|a|] == a;
  }

  /** A string built by appending five more parts to `x + a` starts with `x + a`. */
  lemma StartsWithChain(x: string, a: string, b: string, c: string, d: string, e: string, f: string)
    ensures StartsWith(x + a + b + c + d + e + f, x + a)
  {
    var t := b + c + d + e + f;
    assert x + a + b + c + d + e + f == (x + a) + t;
    StartsWithConcat(x + a, t);
  }

  predicate EndsWith(s: string, suffix: string) {
    |suffix| <= |s| && s[|s| - |suffix|..] == suffix
  }

  lemma EndsWithConcat(a: string, b: string)
    ensures EndsWith(a + b, b)
  {
    assert (a + b)[|a|..] == b;
  }

  /** Python's `sub in s`. */
  predicate Contains(s: string, sub: string) {
    StartsWith(s, sub) || (s != [] && Contains(s[1..], sub))
  }

  /** An occurrence at any position makes `sub in s` true. */
  lemma {:induction false} ContainsAt(s: string, sub: string, j: int)
    requires 0 <= j <= |s| && StartsWith(s[j..], sub)
    ensures Contains(s, sub)
  {
    if j > 0 {
      assert s[1..][j - 1..] == s[j..];
      ContainsAt(s[1..], sub, j - 1);
    }
  }

  /** Python's `sep.join(parts)` for a one-character separator. */
  function Join(parts: seq<string>, sep: char): (r: string)
    ensures |r| >= |parts| - 1
  {
    if |parts| == 0 then ""
    else if |parts| == 1 then parts[0]
    else parts[0] + [sep] + Join(parts[1..], sep)
  }

  /** Python's `s.split(sep)` for a one-character separator; never empty. */
  function Split(s: string, sep: char): (parts: seq<string>)
    ensures |parts| >= 1
  {
    if s == [] then [""]
    else if s[0] == sep then [""] + Split(s[1..], sep)
    else
      var rest := Split(s[1..], sep);
      [[s[0]] + rest[0]] + rest[1..]
  }

  /** No piece of `s.split(sep)` holds the separator. */
  lemma {:induction false} SplitPieces(s: string, sep: char)
    ensures forall k :: 0 <= k < |Split(s, sep)| ==> sep !in Split(s, sep)[k]
  {
    if s != [] {
      SplitPieces(s[1..], sep);
      var rest, parts := Split(s[1..], sep), Split(s, sep);
      if s[0] == sep {
        assert parts == [""] + rest;
      } else {
        assert parts[0] == [s[0]] + rest[0];
        assert forall k :: 1 <= k < |parts| ==> parts[k] == rest[k];
      }
    }
  }

  /** Joining the pieces of `s.split(sep)` gives `s` back. */
  lemma {:induction false} SplitRejoins(s: string, sep: char)
    ensures Join(Split(s, sep), sep) == s
  {
    if s != [] {
      SplitRejoins(s[1..], sep);
      var rest, parts := Split(s[1..], sep), Split(s, sep);
      assert s == [s[0]] + s[1..];
      if s[0] == sep {
        assert parts == [""] + rest;
        assert Join([""] + rest, sep) == "" + [sep] + Join(rest, sep);
      } else {
        assert parts[0] == [s[0]] + rest[0];
        assert parts[1..] == rest[1..];
        if |rest| > 1 {
          assert Join(rest, sep) == rest[0] + [sep] + Join(rest[1..], sep);
        }
      }
    }
  }

  /** The last piece of `s.split(sep)`, Python's `s.split(sep)[-1]`. */
  function LastPiece(s: string, sep: char): string
  {
    var parts := Split(s, sep);
    parts[|parts| - 1]
  }

  /** Python's `sep.join(s.split(sep)[:-1])`: everything before the last piece. */
  function AllButLastPiece(s: string, sep: char): string
  {
    var parts := Split(s, sep);
    Join(parts[..|parts| - 1], sep)
  }

  lemma {:induction false} SplitPrefix(p: string, sep: char, rest: string)
    requires sep !in p
    ensures Split(p + [sep] + rest, sep) == [p] + Split(rest, sep)
  {
    if p == [] {
      assert p + [sep] + rest == [sep] + rest;
      assert ([sep] + rest)[1..] == rest;
    } else {
      assert (p + [sep] + rest)[1..] == p[1..] + [sep] + rest;
      assert (p + [sep] + rest)[0] == p[0];
      SplitPrefix(p[1..], sep, rest);
      assert [p[0]] + p[1..] == p;
    }
  }

  lemma {:induction false} SplitNoSeparator(p: string, sep: char)
    requires sep !in p
    ensures Split(p, sep) == [p]
  {
    if p != [] {
      SplitNoSeparator(p[1..], sep);
      assert [p[0]] + p[1..] == p;
    }
  }

  /** A separator and a piece at the end add that piece to the split. */
  lemma {:induction false} SplitSnoc(s: string, sep: char, piece: string)
    requires sep !in piece
    ensures Split(s + [sep] + piece, sep) == Split(s, sep) + [piece]
  {
    var t := s + [sep] + piece;
    if s == [] {
      assert t == [sep] + piece && t[1..] == piece;
      SplitNoSeparator(piece, sep);
    } else {
      assert t[0] == s[0] && t[1..] == s[1..] + [sep] + piece;
      SplitSnoc(s[1..], sep, piece);
    }
  }

  /** Splitting undoes joining, when no piece holds the separator. */
  lemma {:induction false} SplitJoin(parts: seq<string>, sep: char)
    requires |parts| >= 1
    requires forall k :: 0 <= k < |parts| ==> sep !in parts[k]
    ensures Split(Join(parts, sep), sep) == parts
  {
    if |parts| == 1 {
      SplitNoSeparator(parts[0], sep);
    } else {
      SplitJoin(parts[1..], sep);
      SplitPrefix(parts[0], sep, Join(parts[1..], sep));
      assert [parts[0]] + parts[1..] == parts;
    }
  }

  /** Joining a sequence with one more piece at the end. */
  lemma {:induction false} JoinSnoc(parts: seq<string>, last: string, sep: char)
    requires |parts| >= 1
    ensures Join(parts + [last], sep) == Join(parts, sep) + [sep] + last
  {
    if |parts| == 1 {
      assert parts + [last] == [parts[0], last];
    } else {
      assert (parts + [last])[1..] == parts[1..] + [last];
      JoinSnoc(parts[1..], last, sep);
    }
  }

  /** Every piece but the last, the separator, and the last piece give back `s`. */
  lemma PiecesRejoin(s: string, sep: char)
    requires sep in s
    ensures AllButLastPiece(s, sep) + [sep] + LastPiece(s, sep) == s
    ensures sep !in LastPiece(s, sep)
  {
    var parts := Split(s, sep);
    SplitPieces(s, sep);
    SplitRejoins(s, sep);
    assert |parts| >= 2;
    JoinSnoc(parts[..|parts| - 1], parts[|parts| - 1], sep);
    assert parts[..|parts| - 1] + [parts[|parts| - 1]] == parts;
  }

  /** Splitting at a separator between two strings splits each of them. */
  lemma {:induction false} SplitAppend(p: string, sep: char, rest: string)
    ensures Split(p + [sep] + rest, sep) == Split(p, sep) + Split(rest, sep)
  {
    var t := p + [sep] + rest;
    var b := Split(rest, sep);
    if p == [] {
      assert t == [sep] + rest && t[1..] == rest;
    } else {
      assert t[0] == p[0] && t[1..] == p[1..] + [sep] + rest;
      SplitAppend(p[1..], sep, rest);
      var a := Split(p[1..], sep);
      if p[0] == sep {
        assert Split(t, sep) == [""] + (a + b);
        AppendAssoc([""], a, b);
      } else {
        var h := [[p[0]] + a[0]];
        TailAppend(a, b);
        assert Split(t, sep) == h + (a[1..] + b);
        assert Split(p, sep) == h + a[1..];
        AppendAssoc(h, a[1..], b);
      }
    }
  }

  /** Joining two non-empty sequences of pieces puts one separator between their joins. */
  lemma {:induction false} JoinAppend(xs: seq<string>, ys: seq<string>, sep: char)
    requires |xs| >= 1 && |ys| >= 1
    ensures Join(xs + ys, sep) == Join(xs, sep) + [sep] + Join(ys, sep)
  {
    if |xs| == 1 {
      assert (xs + ys)[0] == xs[0] && (xs + ys)[1..] == ys;
    } else {
      assert (xs + ys)[0] == xs[0] && (xs + ys)[1..] == xs[1..] + ys;
      JoinAppend(xs[1..], ys, sep);
    }
  }

  /** The last piece of `p`, a separator and `rest` is the last piece of `rest`. */
  lemma LastPieceAfter(p: string, sep: char, rest: string)
    ensures LastPiece(p + [sep] + rest, sep) == LastPiece(rest, sep)
  {
    SplitAppend(p, sep, rest);
    LastAppend(Split(p, sep), Split(rest, sep));
  }

  /**
   * Everything before the last piece of `p`, a separator and `rest` is `p`,
   * followed by everything before the last piece of `rest` when `rest` has
   * a separator.
   */
  lemma AllButLastPieceAfter(p: string, sep: char, rest: string)
    ensures AllButLastPiece(p + [sep] + rest, sep) ==
      if sep in rest then p + [sep] + AllButLastPiece(rest, sep) else p
  {
    var a, b := Split(p, sep), Split(rest, sep);
    SplitAppend(p, sep, rest);
    LastAppend(a, b);
    SplitRejoins(p, sep);
    if sep in rest {
      assert |b| >= 2 by {
        SplitRejoins(rest, sep);
        SplitPieces(rest, sep);
      }
      JoinAppend(a, b[..|b| - 1], sep);
    } else {
      SplitNoSeparator(rest, sep);
      assert b[..|b| - 1] == [];
      assert a + [] == a;
    }
  }

  /** A character other than the separator that no piece holds is not in their join. */
  lemma {:induction false} JoinAvoids(parts: seq<string>, sep: char, c: char)
    requires c != sep
    requires forall k :: 0 <= k < |parts| ==> c !in parts[k]
    ensures c !in Join(parts, sep)
  {
    if |parts| > 1 {
      JoinAvoids(parts[1..], sep, c);
    }
  }

  /** When the separator does not occur, the string is one piece. */
  lemma OnePiece(s: string, sep: char)
    requires sep !in s
    ensures LastPiece(s, sep) == s && AllButLastPiece(s, sep) == ""
  {
    SplitNoSeparator(s, sep);
  }

  /** The number of occurrences of `c` in `s`. */
  function Count(c: char, s: string): nat
  {
    if s == [] then 0 else (if s[0] == c then 1 else 0) + Count(c, s[1..])
  }

  lemma {:induction false} CountConcat(c: char, a: string, b: string)
    ensures Count(c, a + b) == Count(c, a) + Count(c, b)
  {
    if a != [] {
      assert (a + b)[1..] == a[1..] + b;
      CountConcat(c, a[1..], b);
    } else {
      assert a + b == b;
    }
  }

  lemma {:induction false} CountAbsent(c: char, s: string)
    requires c !in s
    ensures Count(c, s) == 0
  {
    if s != [] {
      CountAbsent(c, s[1..]);
    }
  }

  lemma {:induction false} CountPresent(c: char, s: string)
    requires c in s
    ensures Count(c, s) > 0
  {
    if s[0] != c {
      assert c in s[1..];
      CountPresent(c, s[1..]);
    }
  }

  /** The concatenation of a sequence of strings. */
  function Concat(pieces: seq<string>): string
  {
    if pieces == [] then "" else pieces[0] + Concat(pieces[1..])
  }

  lemma {:induction false} ConcatAppend(xs: seq<string>, ys: seq<string>)
    ensures Concat(xs + ys) == Concat(xs) + Concat(ys)
  {
    if xs == [] {
      assert xs + ys == ys;
    } else {
      assert (xs + ys)[1..] == xs[1..] + ys;
      ConcatAppend(xs[1..], ys);
    }
  }

  /**
   * Reading a file in text mode (Python's default `newline=None`): every
   * "\r\n" and every lone "\r" is read as "\n".
   */
  function UniversalNewlines(t: string): (r: string)
    ensures '\r' !in r
    ensures |r| <= |t|
    ensures '\r' !in t ==> r == t
  {
    if t == [] then []
    else if t[0] == '\r' then
      if |t| > 1 && t[1] == '\n' then "\n" + UniversalNewlines(t[2..])
      else "\n" + UniversalNewlines(t[1..])
    else [t[0]] + UniversalNewlines(t[1..])
  }

  /** What iterating over a text file yields: a non-empty line holding "\n" at most as its last character. */
  predicate IsLine(l: string) {
    |l| > 0 && '\n' !in l[..|l| - 1]
  }

  /**
   * The lines of `t` as `for line in file` yields them: each keeps its
   * trailing "\n", only the last may lack one, none is empty, and together
   * they are exactly `t`.
   */
  function Lines(t: string): (lines: seq<string>)
    ensures Concat(lines) == t
    ensures forall k :: 0 <= k < |lines| ==> IsLine(lines[k])
    ensures forall k :: 0 <= k < |lines| - 1 ==> |lines[k]| > 0 && lines[k][|lines[k]| - 1] == '\n'
  {
    if t == [] then []
    else if t[0] == '\n' then
      assert IsLine("\n");
      ["\n"] + Lines(t[1..])
    else
      var rest := Lines(t[1..]);
      if rest == [] then
        assert IsLine([t[0]]);
        [[t[0]]]
      else
        var first := [t[0]] + rest[0];
        assert first[..|first| - 1] == [t[0]] + rest[0][..|rest[0]| - 1];
        [first] + rest[1..]
  }

  /** A line that ends in its only line break is read back as itself, then the rest. */
  lemma {:induction false} LinesCons(l: string, rest: string)
    requires IsLine(l) && l[|l| - 1] == '\n'
    ensures Lines(l + rest) == [l] + Lines(rest)
  {
    var t := l + rest;
    if |l| == 1 {
      assert t[0] == '\n' && t[1..] == rest;
      assert l == "\n";
    } else {
      assert l[0] != '\n' by { assert l[0] == l[..|l| - 1][0]; }
      assert IsLine(l[1..]) by { assert l[1..][..|l[1..]| - 1] == l[..|l| - 1][1..]; }
      assert t[0] == l[0] && t[1..] == l[1..] + rest;
      LinesCons(l[1..], rest);
      var tail := Lines(t[1..]);
      assert tail == [l[1..]] + Lines(rest);
      assert tail[0] == l[1..] && tail[1..] == Lines(rest);
      assert [t[0]] + tail[0] == l;
    }
  }

  /** Text without a line break is read back as one line. */
  lemma {:induction false} LinesOfUnbroken(t: string)
    requires t != [] && '\n' !in t
    ensures Lines(t) == [t]
  {
    if |t| == 1 {
      assert Lines(t[1..]) == [];
      assert [t[0]] == t;
    } else {
      LinesOfUnbroken(t[1..]);
      assert [t[0]] + t[1..] == t;
    }
  }
}
