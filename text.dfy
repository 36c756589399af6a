/**
  The string operations the configuration parser relies on, on Python 2 byte
  strings (each `char` stands for one byte): `isspace`, `strip()`,
  `split(sep, 1)`, and the lines that iterating over a file yields.
*/
module Text {
  import opened Wrappers

  /** `isspace` on a byte: the six ASCII white-space characters of the C locale. */
  function IsSpace(c: char): (space: bool)
    ensures space <==> c in {' ', '\t', '\n', '\U{0B}', '\U{0C}', '\r'}
  {
    c == ' ' || '\t' <= c <= '\r'
  }

  predicate AllSpace(s: string) {
    forall i :: 0 <= i < |s| ==> IsSpace(s[i])
  }

  /** Neither end of `s` is white space. */
  predicate Stripped(s: string) {
    s == [] || (!IsSpace(s[0]) && !IsSpace(s[|s| - 1]))
  }

  /** Drops the leading white space of `s`. */
  function TrimStart(s: string): (r: string)
    ensures |r| <= |s| && r == s[|s| - |r|..]
    ensures AllSpace(s[..|s| - |r|])
    ensures r == [] || !IsSpace(r[0])
  {
    if s != [] && IsSpace(s[0]) then TrimStart(s[1..]) else s
  }

  /** Drops the trailing white space of `s`. */
  function TrimEnd(s: string): (r: string)
    ensures |r| <= |s| && r == s[..|r|]
    ensures AllSpace(s[|r|..])
    ensures r == [] || !IsSpace(r[|r| - 1])
  {
    if s != [] && IsSpace(s[|s| - 1]) then TrimEnd(s[..|s| - 1]) else s
  }

  /** Python's `s.strip()`: `s` without white space at either end. */
  function Strip(s: string): (r: string)
    ensures Stripped(r)
    ensures forall c :: c in r ==> c in s
    ensures s != [] && !IsSpace(s[0]) ==> r != [] && r[0] == s[0]
  {
    var t := TrimStart(s);
    assert s != [] && !IsSpace(s[0]) ==> t == s;
    TrimEnd(t)
  }

  /** The index of the first occurrence of `c` in `s`, if there is one. */
  function IndexOf(s: string, c: char): (r: Option<nat>)
    ensures r.None? <==> c !in s
    ensures r.Some? ==> r.value < |s| && s[r.value] == c && c !in s[..r.value]
  {
    if s == [] then None
    else if s[0] == c then Some(0)
    else match IndexOf(s[1..], c)
      case None => None
      case Some(i) => Some(i + 1)
  }

  /**
    Python's `s.split(sep, 1)`: `[s]` when `sep` does not occur in `s`,
    otherwise the parts before and after its first occurrence.
  */
  function SplitOnce(s: string, sep: char): (parts: seq<string>)
    ensures |parts| == 1 <==> sep !in s
    ensures |parts| == 1 ==> parts[0] == s
    ensures |parts| != 1 ==> |parts| == 2 && s == parts[0] + [sep] + parts[1] && sep !in parts[0]
  {
    match IndexOf(s, sep)
    case None => [s]
    case Some(i) => [s[..i], s[i + 1..]]
  }

  /** Leading white space before a part that does not start with white space is what TrimStart drops. */
  lemma {:induction false} TrimStartAround(pre: string, rest: string)
    requires AllSpace(pre) && (rest == [] || !IsSpace(rest[0]))
    ensures TrimStart(pre + rest) == rest
  {
    if pre != [] {
      assert (pre + rest)[1..] == pre[1..] + rest;
      TrimStartAround(pre[1..], rest);
    }
  }

  /** Trailing white space after a part that does not end in white space is what TrimEnd drops. */
  lemma {:induction false} TrimEndAround(rest: string, post: string)
    requires AllSpace(post) && (rest == [] || !IsSpace(rest[|rest| - 1]))
    ensures TrimEnd(rest + post) == rest
  {
    if post != [] {
      assert (rest + post)[..|rest + post| - 1] == rest + post[..|post| - 1];
      TrimEndAround(rest, post[..|post| - 1]);
    } else {
      assert rest + post == rest;
    }
  }

  /** Stripping removes exactly the white space around a stripped core. */
  lemma StripAround(pre: string, core: string, post: string)
    requires AllSpace(pre) && AllSpace(post) && Stripped(core)
    ensures Strip(pre + core + post) == core
  {
    if core == [] {
      assert pre + core + post == pre + post;
      TrimStartAround(pre + post, []);
      assert pre + post + [] == pre + post;
    } else {
      assert pre + core + post == pre + (core + post);
      TrimStartAround(pre, core + post);
      TrimEndAround(core, post);
    }
  }

  /** A string that is already stripped is left unchanged. */
  lemma StrippedStrip(s: string)
    requires Stripped(s)
    ensures Strip(s) == s
  {
    StripAround([], s, []);
    assert [] + s + [] == s;
  }

  /** The first occurrence of `c` follows a `c`-free prefix. */
  lemma {:induction false} IndexOfAfter(a: string, c: char, b: string)
    requires c !in a
    ensures IndexOf(a + [c] + b, c) == Some(|a|)
  {
    if a != [] {
      assert (a + [c] + b)[1..] == a[1..] + [c] + b;
      IndexOfAfter(a[1..], c, b);
    }
  }

  /** `split(sep, 1)` cuts at the first separator: a separator-free prefix is the first part. */
  lemma SplitOnceAt(a: string, sep: char, b: string)
    requires sep !in a
    ensures SplitOnce(a + [sep] + b, sep) == [a, b]
  {
    IndexOfAfter(a, sep, b);
    var s := a + [sep] + b;
    assert s[..|a|] == a && s[|a| + 1..] == b;
  }

  /** A complete line of a file: it ends in `\n` and holds no other `\n`. */
  predicate IsLine(line: string) {
    |line| > 0 && line[|line| - 1] == '\n' && '\n' !in line[..|line| - 1]
  }

  /** The text of lines written one after the other. */
  function Concat(lines: seq<string>): string {
    if lines == [] then [] else lines[0] + Concat(lines[1..])
  }

  lemma {:induction false} ConcatAppend(lines: seq<string>, line: string)
    ensures Concat(lines + [line]) == Concat(lines) + line
  {
    if lines != [] {
      assert (lines + [line])[1..] == lines[1..] + [line];
      ConcatAppend(lines[1..], line);
    }
  }

  /**
    `for line in f` on a file opened in text mode: the text cut after every
    `\n`, keeping a last line without one when it is not empty.
  */
  function SplitLines(text: string): (lines: seq<string>)
    ensures Concat(lines) == text
    ensures forall i :: 0 <= i < |lines| ==> lines[i] != [] && '\n' !in lines[i][..|lines[i]| - 1]
    ensures forall i :: 0 <= i < |lines| - 1 ==> IsLine(lines[i])
    decreases |text|
  {
    match IndexOf(text, '\n')
    case None => if text == [] then [] else [text]
    case Some(k) =>
      var first := text[..k + 1];
      assert first[..k] == text[..k];
      var rest := SplitLines(text[k + 1..]);
      var lines := [first] + rest;
      SplitLinesCons(first, rest, lines);
      assert text == first + text[k + 1..];
      lines
  }

  /** Putting a complete line in front of split lines keeps their shape. */
  lemma SplitLinesCons(first: string, rest: seq<string>, lines: seq<string>)
    requires IsLine(first) && lines == [first] + rest
    requires forall i :: 0 <= i < |rest| ==> rest[i] != [] && '\n' !in rest[i][..|rest[i]| - 1]
    requires forall i :: 0 <= i < |rest| - 1 ==> IsLine(rest[i])
    ensures Concat(lines) == first + Concat(rest)
    ensures forall i :: 0 <= i < |lines| ==> lines[i] != [] && '\n' !in lines[i][..|lines[i]| - 1]
    ensures forall i :: 0 <= i < |lines| - 1 ==> IsLine(lines[i])
  {
    assert lines[0] == first && lines[1..] == rest;
    assert forall i :: 1 <= i < |lines| ==> lines[i] == rest[i - 1];
  }

  /** Splitting the text of complete lines gives those lines back. */
  lemma {:induction false} SplitLinesConcat(lines: seq<string>)
    requires forall i :: 0 <= i < |lines| ==> IsLine(lines[i])
    ensures SplitLines(Concat(lines)) == lines
  {
    if lines != [] {
      var first := lines[0];
      var a := first[..|first| - 1];
      assert first == a + ['\n'];
      var rest := Concat(lines[1..]);
      var text := Concat(lines);
      assert text == a + ['\n'] + rest;
      IndexOfAfter(a, '\n', rest);
      assert text[..|a| + 1] == first && text[|a| + 1..] == rest;
      SplitLinesConcat(lines[1..]);
    }
  }
}
