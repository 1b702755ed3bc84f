/** The Python text primitives the scripts rely on: `str.isspace`, `str.strip`,
    `str.startswith`, `readlines` on a file opened in text mode, and the
    concatenation that successive `write` calls leave in a file. */
module Text {

  /** The characters in the ASCII range that Python's `str.isspace` accepts:
      tab, line feed, vertical tab, form feed, carriage return, the four
      information separators U+001C..U+001F, and space. */
  predicate IsSpace(c: char)
  {
    ('\t' <= c <= '\r') || ('\U{1C}' <= c <= '\U{1F}') || c == ' '
  }

  /** `s` with its leading whitespace removed. */
  function TrimLeft(s: string): string
    decreases |s|
  {
    if s != [] && IsSpace(s[0]) then TrimLeft(s[1..]) else s
  }

  /** `s` with its trailing whitespace removed. */
  function TrimRight(s: string): string
    decreases |s|
  {
    if s != [] && IsSpace(s[|s| - 1]) then TrimRight(s[..|s| - 1]) else s
  }

  /** Python's `s.strip()`. */
  function Strip(s: string): string
  {
    TrimRight(TrimLeft(s))
  }

  /** `TrimLeft` drops a run of leading whitespace, and stops at the first
      character that is not whitespace. */
  lemma {:induction false} TrimLeftSpec(s: string)
    ensures var r := TrimLeft(s);
      && |r| <= |s| && r == s[|s| - |r|..]
      && (forall i :: 0 <= i < |s| - |r| ==> IsSpace(s[i]))
      && (r == [] || !IsSpace(r[0]))
    decreases |s|
  {
    if s != [] && IsSpace(s[0]) {
      TrimLeftSpec(s[1..]);
    }
  }

  /** `TrimRight` drops a run of trailing whitespace, and stops at the last
      character that is not whitespace. */
  lemma {:induction false} TrimRightSpec(s: string)
    ensures var r := TrimRight(s);
      && |r| <= |s| && r == s[..|r|]
      && (forall i :: |r| <= i < |s| ==> IsSpace(s[i]))
      && (r == [] || !IsSpace(r[|r| - 1]))
    decreases |s|
  {
    if s != [] && IsSpace(s[|s| - 1]) {
      TrimRightSpec(s[..|s| - 1]);
    }
  }

  /** Nothing is left of a stripped text exactly when it is all whitespace. */
  lemma StripEmptyIff(s: string)
    ensures Strip(s) == [] <==> forall i :: 0 <= i < |s| ==> IsSpace(s[i])
  {
    var t := TrimLeft(s);
    TrimLeftSpec(s);
    TrimRightSpec(t);
    assert t != [] ==> t[0] == s[|s| - |t|];
  }

  /** Python's `s.startswith(prefix)`. */
  predicate StartsWith(s: string, prefix: string)
  {
    |prefix| <= |s| && s[..|prefix|] == prefix
  }

  /** A line as `readlines` yields it: non-empty, with no line feed before its
      last character. */
  predicate IsLine(l: string)
  {
    l != [] && forall j :: 0 <= j < |l| - 1 ==> l[j] != '\n'
  }

  /** A line that ends in a line feed. */
  predicate Terminated(l: string)
  {
    l != [] && l[|l| - 1] == '\n'
  }

  /** The shape of what `readlines` returns: every entry is a line, and every
      entry but the last ends in a line feed. */
  predicate WellFormed(lines: seq<string>)
  {
    && (forall i :: 0 <= i < |lines| ==> IsLine(lines[i]))
    && (forall i :: 0 <= i < |lines| - 1 ==> Terminated(lines[i]))
  }

  /** What a file holds after the given strings are written to it in order. */
  function Join(lines: seq<string>): string
    decreases |lines|
  {
    if lines == [] then [] else lines[0] + Join(lines[1..])
  }

  /** The length of the first line of `s`: up to and including the first line
      feed, or all of `s` when it has none. */
  function LineLength(s: string): (n: nat)
    requires s != []
    ensures 0 < n <= |s|
    ensures forall j :: 0 <= j < n - 1 ==> s[j] != '\n'
    ensures n < |s| ==> s[n - 1] == '\n'
    decreases |s|
  {
    if s[0] == '\n' || |s| == 1 then 1 else 1 + LineLength(s[1..])
  }

  /** `readlines`: `s` cut after every line feed. Writing the lines back gives
      `s` again. */
  function ReadLines(s: string): (lines: seq<string>)
    ensures Join(lines) == s
    ensures WellFormed(lines)
    decreases |s|
  {
    if s == [] then []
    else
      var n := LineLength(s);
      var line, rest := s[..n], ReadLines(s[n..]);
      assert ([line] + rest)[1..] == rest;
      assert forall j :: 0 <= j < |line| - 1 ==> line[j] == s[j];
      assert rest != [] ==> Terminated(line);
      WellFormedCons(line, rest);
      assert line + s[n..] == s;
      [line] + rest
  }

  /** A line in front of lines of the `readlines` shape keeps that shape, when
      it is terminated or nothing follows it. */
  lemma WellFormedCons(line: string, rest: seq<string>)
    requires IsLine(line) && WellFormed(rest)
    requires rest != [] ==> Terminated(line)
    ensures WellFormed([line] + rest)
  {
    var r := [line] + rest;
    forall i | 0 < i < |r| ensures r[i] == rest[i - 1] {
    }
  }

  lemma {:induction false} JoinAppend(a: seq<string>, b: seq<string>)
    ensures Join(a + b) == Join(a) + Join(b)
    decreases |a|
  {
    if a == [] {
      assert a + b == b;
    } else {
      assert (a + b)[1..] == a[1..] + b;
      JoinAppend(a[1..], b);
    }
  }

  /** A line followed by more text (only when the line is terminated) is
      found again as the first line. */
  lemma LineLengthOf(a: string, b: string)
    requires IsLine(a) && (Terminated(a) || b == [])
    ensures LineLength(a + b) == |a|
  {
    assert forall j :: 0 <= j < |a| ==> (a + b)[j] == a[j];
  }

  /** `readlines` gives back exactly the lines that were written, when they
      have the shape `readlines` produces. */
  lemma {:induction false} ReadLinesJoin(lines: seq<string>)
    requires WellFormed(lines)
    ensures ReadLines(Join(lines)) == lines
    decreases |lines|
  {
    if lines != [] {
      var a, rest := lines[0], lines[1..];
      assert WellFormed(rest) by {
        forall i | 0 <= i < |rest| ensures IsLine(rest[i]) {
          assert rest[i] == lines[i + 1];
        }
        forall i | 0 <= i < |rest| - 1 ensures Terminated(rest[i]) {
          assert rest[i] == lines[i + 1];
        }
      }
      var s := Join(lines);
      assert s == a + Join(rest);
      if rest != [] {
        assert Terminated(lines[0]);
      }
      LineLengthOf(a, Join(rest));
      assert s[..|a|] == a;
      assert s[|a|..] == Join(rest);
      ReadLinesJoin(rest);
    }
  }

  /** The last character of a non-empty text is the last character of its
      last line. */
  lemma LastLineEnd(s: string)
    requires s != []
    ensures var ls := ReadLines(s);
      ls != [] && ls[|ls| - 1][|ls[|ls| - 1]| - 1] == s[|s| - 1]
  {
    var ls := ReadLines(s);
    var k := |ls| - 1;
    assert ls[..k] + [ls[k]] == ls;
    JoinAppend(ls[..k], [ls[k]]);
    assert Join([ls[k]]) == ls[k] + Join([]);
  }

  /** Two line sequences of the `readlines` shape, the first ending in a
      terminated line, concatenate to one of that shape. */
  lemma WellFormedAppend(a: seq<string>, b: seq<string>)
    requires WellFormed(a) && WellFormed(b)
    requires a == [] || Terminated(a[|a| - 1])
    ensures WellFormed(a + b)
  {
    forall i | 0 <= i < |a + b| ensures IsLine((a + b)[i]) {
      if i < |a| { assert (a + b)[i] == a[i]; } else { assert (a + b)[i] == b[i - |a|]; }
    }
    forall i | 0 <= i < |a + b| - 1 ensures Terminated((a + b)[i]) {
      if i < |a| { assert (a + b)[i] == a[i]; } else { assert (a + b)[i] == b[i - |a|]; }
    }
  }

  /** Reading a text that is cut at a line boundary gives the lines of the
      two parts, one after the other. */
  lemma ReadLinesAppend(s: string, t: string)
    requires s == [] || s[|s| - 1] == '\n'
    ensures ReadLines(s + t) == ReadLines(s) + ReadLines(t)
  {
    var a, b := ReadLines(s), ReadLines(t);
    if s != [] {
      LastLineEnd(s);
      assert Terminated(a[|a| - 1]);
    }
    WellFormedAppend(a, b);
    JoinAppend(a, b);
    assert Join(a + b) == s + t;
    ReadLinesJoin(a + b);
  }

  /** What `f.read()` returns for a file opened in text mode with the default
      `newline=None`: every `\r\n` and every lone `\r` comes back as `\n`. */
  function UniversalNewlines(s: string): string
    decreases |s|
  {
    if s == [] then []
    else if s[0] == '\r' && |s| > 1 && s[1] == '\n' then "\n" + UniversalNewlines(s[2..])
    else if s[0] == '\r' then "\n" + UniversalNewlines(s[1..])
    else [s[0]] + UniversalNewlines(s[1..])
  }

  /** The translation never leaves a carriage return behind, never makes the
      text longer, and keeps a non-empty text non-empty. */
  lemma {:induction false} UniversalNewlinesShape(s: string)
    ensures '\r' !in UniversalNewlines(s)
    ensures |UniversalNewlines(s)| <= |s|
    ensures s != [] ==> UniversalNewlines(s) != []
  {
    if s != [] {
      if s[0] == '\r' && |s| > 1 && s[1] == '\n' {
        UniversalNewlinesShape(s[2..]);
      } else {
        UniversalNewlinesShape(s[1..]);
      }
    }
  }

  /** A text reads back unchanged exactly when it holds no carriage return. */
  lemma {:induction false} UniversalNewlinesIdentity(s: string)
    ensures UniversalNewlines(s) == s <==> '\r' !in s
  {
    UniversalNewlinesShape(s);
    if '\r' !in s {
      UniversalNewlinesPlainPrefix(s, []);
      assert s + [] == s;
    }
  }

  /** A leading part without carriage returns reads back unchanged, in front of
      the translation of the rest. */
  lemma {:induction false} UniversalNewlinesPlainPrefix(c: string, x: string)
    requires '\r' !in c
    ensures UniversalNewlines(c + x) == c + UniversalNewlines(x)
    decreases |c|
  {
    if c != [] {
      assert (c + x)[0] == c[0];
      assert (c + x)[1..] == c[1..] + x;
      UniversalNewlinesPlainPrefix(c[1..], x);
      assert [c[0]] + (c[1..] + UniversalNewlines(x)) == c + UniversalNewlines(x);
    } else {
      assert c + x == x;
    }
  }
}
