/** Trimming and line splitting as the Rust standard library does them. */
module Text {
  // The Unicode White_Space property.
  predicate IsWhitespace(c: char) {
    var n := c as int;
    9 <= n <= 13 || n == 0x20 || n == 0x85 || n == 0xA0 || n == 0x1680 || 0x2000 <= n <= 0x200A
    || n == 0x2028 || n == 0x2029 || n == 0x202F || n == 0x205F || n == 0x3000
  }

  // Nothing but blanks at the positions i..j.
  predicate Blank(s: string, i: nat, j: nat)
    requires j <= |s|
  {
    forall k :: i <= k < j ==> IsWhitespace(s[k])
  }

  function TrimStart(s: string): string {
    if s != "" && IsWhitespace(s[0]) then TrimStart(s[1..]) else s
  }

  function TrimEnd(s: string): string {
    if s != "" && IsWhitespace(s[|s|-1]) then TrimEnd(s[..|s|-1]) else s
  }

  function Trim(s: string): string {
    TrimEnd(TrimStart(s))
  }

  // The White_Space code points, one by one.
  predicate ListedBlank(c: char) {
    c as int in
      [0x9, 0xA, 0xB, 0xC, 0xD, 0x20, 0x85, 0xA0, 0x1680,
       0x2000, 0x2001, 0x2002, 0x2003, 0x2004, 0x2005, 0x2006, 0x2007, 0x2008, 0x2009, 0x200A,
       0x2028, 0x2029, 0x202F, 0x205F, 0x3000]
  }

  predicate AllBlank(s: string) {
    forall i :: 0 <= i < |s| ==> ListedBlank(s[i])
  }

  // Not blank at either end.
  predicate Solid(s: string) {
    s != "" && !ListedBlank(s[0]) && !ListedBlank(s[|s|-1])
  }

  lemma BlanksAreWhitespace(c: char)
    ensures IsWhitespace(c) <==> ListedBlank(c)
  {
  }

  lemma {:induction false} TrimStartBlanks(s: string, rest: string)
    requires AllBlank(s) && (rest != "" ==> !ListedBlank(rest[0]))
    ensures TrimStart(s + rest) == rest
  {
    hide ListedBlank, IsWhitespace;
    if s == "" {
      assert s + rest == rest;
      if rest != "" { BlanksAreWhitespace(rest[0]); }
    } else {
      BlanksAreWhitespace(s[0]);
      assert (s + rest)[1..] == s[1..] + rest;
      TrimStartBlanks(s[1..], rest);
    }
  }

  lemma {:induction false} TrimEndBlanks(core: string, s: string)
    requires AllBlank(s) && (core != "" ==> !ListedBlank(core[|core|-1]))
    ensures TrimEnd(core + s) == core
  {
    hide ListedBlank, IsWhitespace;
    if s == "" {
      assert core + s == core;
      if core != "" { BlanksAreWhitespace(core[|core|-1]); }
    } else {
      var n := |s| - 1;
      BlanksAreWhitespace(s[n]);
      assert (core + s)[..|core| + n] == core + s[..n];
      TrimEndBlanks(core, s[..n]);
    }
  }

  // Trimming takes off exactly the blanks around a text.
  lemma TrimExactly(before: string, core: string, after: string)
    requires AllBlank(before) && AllBlank(after) && (core == "" || Solid(core))
    ensures Trim(before + core + after) == core
  {
    hide ListedBlank, IsWhitespace, TrimStart;
    if core == "" {
      assert before + core + after == (before + after) + "";
      assert AllBlank(before + after);
      TrimStartBlanks(before + after, "");
    } else {
      assert before + core + after == before + (core + after);
      TrimStartBlanks(before, core + after);
      TrimEndBlanks(core, after);
    }
  }

  // The number of leading characters other than `c`.
  function UpTo(s: string, c: char): (n: nat)
    ensures n <= |s| && (n < |s| ==> s[n] == c)
  {
    if s == "" || s[0] == c then 0 else 1 + UpTo(s[1..], c)
  }

  function StripCr(line: string): string {
    if line != "" && line[|line|-1] == '\r' then line[..|line|-1] else line
  }

  // `str::lines`: a final line without a newline keeps its carriage return.
  function Lines(text: string): seq<string>
    decreases |text|
  {
    var n := UpTo(text, '\n');
    if text == "" then []
    else if n == |text| then [text]
    else [StripCr(text[..n])] + Lines(text[n+1..])
  }

  predicate EndsLine(t: string) {
    t != "" && t[|t|-1] == '\n'
  }

  lemma {:induction false} UpToFirst(line: string, c: char, rest: string)
    requires c !in line
    ensures UpTo(line + [c] + rest, c) == |line|
  {
    if line != "" {
      assert (line + [c] + rest)[1..] == line[1..] + [c] + rest;
      UpToFirst(line[1..], c, rest);
    }
  }

  // The first line, with what follows its newline.
  lemma FirstLine(line: string, rest: string)
    requires '\n' !in line
    ensures Lines(line + ['\n'] + rest) == [StripCr(line)] + Lines(rest)
  {
    var s := line + ['\n'] + rest;
    UpToFirst(line, '\n', rest);
    assert s[..|line|] == line && s[|line|+1..] == rest;
    NextLine(s, line, rest);
  }

  lemma NextLine(s: string, line: string, rest: string)
    requires UpTo(s, '\n') < |s| && line == s[..UpTo(s, '\n')] && rest == s[UpTo(s, '\n')+1..]
    ensures Lines(s) == [StripCr(line)] + Lines(rest)
  {
  }

  lemma {:induction false} CutFirstLine(t: string) returns (line: string, rest: string)
    requires EndsLine(t)
    ensures '\n' !in line && t == line + ['\n'] + rest && (rest == "" || EndsLine(rest))
  {
    if t[0] == '\n' {
      line, rest := "", t[1..];
    } else {
      line, rest := CutFirstLine(t[1..]);
      line := [t[0]] + line;
    }
  }

  // A newline separates the lines before it from the lines after it.
  lemma {:induction false} LinesSplit(t: string, b: string)
    requires EndsLine(t)
    ensures Lines(t + b) == Lines(t) + Lines(b)
    decreases |t|
  {
    hide Lines;
    var line, rest := CutFirstLine(t);
    if rest == "" {
      assert rest + b == b;
      NoLines();
    } else {
      LinesSplit(rest, b);
    }
    SplitAfterFirst(line, rest, b);
    assert t + b == line + ['\n'] + (rest + b);
  }

  lemma NoLines()
    ensures Lines("") == []
  {
  }

  lemma SplitAfterFirst(line: string, rest: string, b: string)
    requires '\n' !in line && Lines(rest + b) == Lines(rest) + Lines(b)
    ensures Lines(line + ['\n'] + (rest + b)) == Lines(line + ['\n'] + rest) + Lines(b)
  {
    FirstLine(line, rest);
    FirstLine(line, rest + b);
    ConcatThree([StripCr(line)], Lines(rest), Lines(b));
  }

  lemma ConcatThree<T>(x: seq<T>, y: seq<T>, z: seq<T>)
    ensures x + (y + z) == (x + y) + z
  {
  }

  // Rows, each closed by a line feed or by a carriage return and a line feed.
  function Closed(rows: seq<string>, crlf: bool): string {
    if rows == [] then "" else rows[0] + (if crlf then ['\r'] else []) + ['\n'] + Closed(rows[1..], crlf)
  }

  predicate OneLiner(row: string) {
    '\n' !in row && (row != "" ==> row[|row|-1] != '\r')
  }

  // The lines of such a text are the rows, and of one more row that is not closed.
  lemma {:induction false} LinesOfRows(rows: seq<string>, crlf: bool, last: string)
    requires forall i :: 0 <= i < |rows| ==> OneLiner(rows[i])
    requires '\n' !in last
    ensures Lines(Closed(rows, crlf) + last) == rows + if last == "" then [] else [last]
  {
    hide Lines;
    if rows == [] {
      assert Closed(rows, crlf) + last == last;
      LastLine(last);
    } else {
      var line, rest := rows[0] + (if crlf then ['\r'] else []), Closed(rows[1..], crlf);
      LinesOfRows(rows[1..], crlf, last);
      FirstLine(line, rest + last);
      assert Closed(rows, crlf) + last == line + ['\n'] + (rest + last);
      assert StripCr(line) == rows[0];
      assert rows == [rows[0]] + rows[1..];
    }
  }

  lemma LastLine(last: string)
    requires '\n' !in last
    ensures Lines(last) == if last == "" then [] else [last]
  {
    if last != "" {
      UpToNothing(last, '\n');
    }
  }

  lemma {:induction false} UpToNothing(s: string, c: char)
    requires c !in s
    ensures UpTo(s, c) == |s|
  {
    if s != "" {
      UpToNothing(s[1..], c);
    }
  }

  // Text without a newline before its first newline is one line.
  lemma OneLine(a: string)
    requires '\n' !in a
    ensures |Lines(a)| <= 1 && |Lines(a + ['\n'])| == 1
  {
    FirstLine(a, "");
    assert a + ['\n'] + "" == a + ['\n'];
    assert UpTo(a, '\n') == |a|;
  }
}
