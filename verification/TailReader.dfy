/**
 * The bounded tail reader for JSON-lines logs (backend/rust/src/main.rs).
 *
 * It reads at most the last 2 MiB of a file, so the read may start in the
 * middle of a line and even in the middle of a UTF-8 character.
 */
module TailReader {
  import opened Common
  import opened Utf8
  import opened Text

  const TAIL_MAX_BYTES: nat := 2 * 1024 * 1024

  // What the file system answers: an unreadable file, or the length reported
  // first and the bytes found when reading, which a writer may have changed.
  datatype Source = Unreadable | File(reportedLength: nat, content: seq<Byte>)

  // The entry on one line, if the line is not blank and parses.
  function Entry<V>(parse: string -> Option<V>, line: string): Option<V> {
    var trimmed := Trim(line);
    if trimmed == "" then None else parse(trimmed)
  }

  function Entries<V>(parse: string -> Option<V>, lines: seq<string>): seq<V> {
    if lines == [] then []
    else
      var e := Entry(parse, lines[0]);
      (if e.Some? then [e.value] else []) + Entries(parse, lines[1..])
  }

  // The simple form: decode and parse the whole file.
  function AllEntries<V>(parse: string -> Option<V>, content: seq<Byte>): seq<V> {
    Entries(parse, Lines(Lossy(content)))
  }

  function LastN<V>(s: seq<V>, n: nat): seq<V> {
    if |s| <= n then s else s[|s|-n..]
  }

  ghost predicate IsSuffix<V>(s: seq<V>, whole: seq<V>) {
    |s| <= |whole| && s == whole[|whole|-|s|..]
  }

  function StartOf(reportedLength: nat): nat {
    reportedLength - Min(reportedLength, TAIL_MAX_BYTES)
  }

  function Tail(content: seq<Byte>, start: nat): seq<Byte> {
    if start <= |content| then content[start..] else []
  }

  function WithoutFirst(lines: seq<string>): seq<string> {
    if lines == [] then [] else lines[1..]
  }

  // The bytes after the first newline; none if there is no newline.
  function AfterNewline(bytes: seq<Byte>): seq<Byte> {
    if bytes == [] then []
    else if bytes[0] == NEWLINE then bytes[1..]
    else AfterNewline(bytes[1..])
  }

  // Position k holds the first newline byte from `start` on.
  ghost predicate FirstNewlineFrom(content: seq<Byte>, start: nat, k: nat) {
    start <= k < |content| && content[k] == 0x0A && forall i :: start <= i < k ==> content[i] != 0x0A
  }

  ghost predicate NoNewlineFrom(content: seq<Byte>, start: nat) {
    forall i :: start <= i < |content| ==> content[i] != 0x0A
  }

  // The last entries after the first newline from `start` on; none without a newline.
  ghost predicate AfterFirstLine<V>(r: seq<V>, content: seq<Byte>, start: nat, limit: nat, parse: string -> Option<V>) {
    && (forall k: nat :: FirstNewlineFrom(content, start, k) ==> r == LastN(AllEntries(parse, content[k+1..]), limit))
    && (NoNewlineFrom(content, start) ==> r == [])
  }

  // The last n of a list, by length and position.
  ghost predicate AreLast<V>(r: seq<V>, all: seq<V>, n: nat) {
    |r| == Min(n, |all|) && forall i :: 0 <= i < |r| ==> r[i] == all[|all|-|r|+i]
  }

  lemma LastNExactly<V>(all: seq<V>, n: nat)
    ensures AreLast(LastN(all, n), all, n)
  {
  }

  lemma NoEntries<V>(parse: string -> Option<V>)
    ensures AllEntries(parse, []) == []
  {
  }

  lemma {:induction false} AfterNewlineAt(bytes: seq<Byte>, k: nat)
    requires FirstNewlineFrom(bytes, 0, k)
    ensures AfterNewline(bytes) == bytes[k+1..]
  {
    if k > 0 {
      AfterNewlineAt(bytes[1..], k - 1);
      assert bytes[1..][k..] == bytes[k+1..];
    }
  }

  lemma {:induction false} NothingAfterNewline(bytes: seq<Byte>)
    requires NoNewlineFrom(bytes, 0)
    ensures AfterNewline(bytes) == []
  {
    if bytes != [] {
      NothingAfterNewline(bytes[1..]);
    }
  }

  // What is left of a tail, by the position of its first newline.
  lemma AfterFirstNewline(content: seq<Byte>, start: nat)
    ensures forall k: nat :: FirstNewlineFrom(content, start, k) ==> AfterNewline(Tail(content, start)) == content[k+1..]
    ensures NoNewlineFrom(content, start) ==> AfterNewline(Tail(content, start)) == []
  {
    var bytes := Tail(content, start);
    forall k: nat | FirstNewlineFrom(content, start, k) ensures AfterNewline(bytes) == content[k+1..] {
      AfterNewlineAt(bytes, k - start);
      assert bytes[k-start+1..] == content[k+1..];
    }
    if NoNewlineFrom(content, start) {
      NothingAfterNewline(bytes);
    }
  }

  // ---------- rows that were written come back ----------

  function Somes<V>(values: seq<Option<V>>): seq<V> {
    if values == [] then []
    else (if values[0].Some? then [values[0].value] else []) + Somes(values[1..])
  }

  // Blanks around a row do not matter, and blank rows hold nothing.
  lemma EntryExactly<V>(parse: string -> Option<V>, before: string, core: string, after: string)
    requires AllBlank(before) && AllBlank(after) && (core == "" || Solid(core))
    ensures Entry(parse, before + core + after) == if core == "" then None else parse(core)
  {
    TrimExactly(before, core, after);
  }

  lemma {:induction false} EntriesExactly<V>(parse: string -> Option<V>, rows: seq<string>, values: seq<Option<V>>)
    requires |values| == |rows| && forall i :: 0 <= i < |rows| ==> Entry(parse, rows[i]) == values[i]
    ensures Entries(parse, rows) == Somes(values)
  {
    if rows != [] {
      EntriesExactly(parse, rows[1..], values[1..]);
    }
  }

  // What a row of a file is worth; a blank row is worth nothing.
  ghost predicate Worth<V>(parse: string -> Option<V>, row: string, value: Option<V>) {
    if row == "" then value == None else Solid(row) && value == parse(row)
  }

  lemma RowsWorth<V>(parse: string -> Option<V>, rows: seq<string>, values: seq<Option<V>>)
    requires |values| == |rows| && forall i :: 0 <= i < |rows| ==> Worth(parse, rows[i], values[i])
    ensures Entries(parse, rows) == Somes(values)
  {
    forall i | 0 <= i < |rows| ensures Entry(parse, rows[i]) == values[i] {
      SolidEntry(parse, rows[i]);
    }
    EntriesExactly(parse, rows, values);
  }

  lemma LinesOfFile(rows: seq<string>, crlf: bool, last: string)
    requires (forall i :: 0 <= i < |rows| ==> OneLiner(rows[i])) && '\n' !in last
    ensures Lines(Lossy(Encode(Closed(rows, crlf) + last))) == rows + if last == "" then [] else [last]
  {
    var text := Closed(rows, crlf) + last;
    StrictInvertsEncode(text);
    EncodeInvertsStrict(Encode(text));
    LinesOfRows(rows, crlf, last);
  }

  // A file of rows that were written one by one gives the values of those that parse,
  // in order, whichever line ending was used and whether or not the last row is closed.
  lemma RowsComeBack<V>(parse: string -> Option<V>, rows: seq<string>, crlf: bool, last: string, values: seq<Option<V>>)
    requires (forall i :: 0 <= i < |rows| ==> OneLiner(rows[i])) && '\n' !in last
    requires |values| == |rows + [last]|
    requires forall i :: 0 <= i < |rows + [last]| ==> Worth(parse, (rows + [last])[i], values[i])
    ensures AllEntries(parse, Encode(Closed(rows, crlf) + last)) == Somes(values)
  {
    LinesOfFile(rows, crlf, last);
    RowsWorth(parse, rows + [last], values);
    DropBlankLast(parse, rows, last);
  }

  lemma SolidEntry<V>(parse: string -> Option<V>, row: string)
    requires row == "" || Solid(row)
    ensures Entry(parse, row) == if row == "" then None else parse(row)
  {
    assert "" + row + "" == row;
    EntryExactly(parse, "", row, "");
  }

  lemma DropBlankLast<V>(parse: string -> Option<V>, rows: seq<string>, last: string)
    ensures Entries(parse, rows + if last == "" then [] else [last]) == Entries(parse, rows + [last])
  {
    if last == "" {
      SolidEntry(parse, last);
      EntriesConcat(parse, rows, [last]);
      assert rows + [] == rows;
    }
  }

  // What a reader of at most the last 2 MiB may answer for a file: a suffix of all
  // entries, the last `limit` of them when the reported length fits, and of those
  // after the first newline of the tail otherwise.
  ghost predicate Answers<V>(r: seq<V>, reportedLength: nat, content: seq<Byte>, limit: nat, parse: string -> Option<V>) {
    && |r| <= limit
    && IsSuffix(r, AllEntries(parse, content))
    && (0 < reportedLength <= 2_097_152 ==> r == LastN(AllEntries(parse, content), limit))
    && (reportedLength > 2_097_152 ==> AfterFirstLine(r, content, reportedLength - 2_097_152, limit, parse))
  }

  // The fast form.
  method ReadRecentJsonl<V>(source: Source, limit: nat, parse: string -> Option<V>) returns (r: seq<V>)
    ensures source.Unreadable? ==> r == []
    ensures source.File? ==> Answers(r, source.reportedLength, source.content, limit, parse)
  {
    hide *;
    if limit == 0 || source.Unreadable? || source.reportedLength == 0 {
      NothingAnswers(source, limit, parse);
      return [];
    }
    var start := StartOf(source.reportedLength);
    var bytes := Tail(source.content, start);
    var lines := Lines(Lossy(bytes));
    if start > 0 {
      lines := WithoutFirst(lines);
    }
    var parsed := ParseLines(lines, parse);
    LastAnswers(source.reportedLength, source.content, limit, parse, lines);
    if |parsed| > limit {
      parsed := parsed[|parsed|-limit..];
    }
    return parsed;
  }

  lemma NothingAnswers<V>(source: Source, limit: nat, parse: string -> Option<V>)
    requires limit == 0 || source.Unreadable? || source.reportedLength == 0
    ensures source.File? ==> Answers([], source.reportedLength, source.content, limit, parse)
  {
  }

  lemma LastAnswers<V>(reportedLength: nat, content: seq<Byte>, limit: nat, parse: string -> Option<V>, lines: seq<string>)
    requires reportedLength > 0
    requires var start := StartOf(reportedLength);
      var all := Lines(Lossy(Tail(content, start)));
      lines == if start > 0 then WithoutFirst(all) else all
    ensures var parsed := Entries(parse, lines);
      Answers(if |parsed| > limit then parsed[|parsed|-limit..] else parsed, reportedLength, content, limit, parse)
  {
    hide Lines, Lossy, Entries, WithoutFirst, AfterFirstLine, Tail;
    var start := StartOf(reportedLength);
    if start > 0 {
      TailResult(content, start, limit, parse);
    } else {
      WholeIsSuffix(content, parse);
    }
    LastNIsSuffix(Entries(parse, lines), AllEntries(parse, content), limit);
  }

  lemma TailResult<V>(content: seq<Byte>, start: nat, limit: nat, parse: string -> Option<V>)
    ensures var entries := Entries(parse, WithoutFirst(Lines(Lossy(Tail(content, start)))));
      AfterFirstLine(LastN(entries, limit), content, start, limit, parse) && IsSuffix(entries, AllEntries(parse, content))
  {
    hide Lines, Lossy, Entries, AfterNewline, WithoutFirst, Tail;
    DropFirstLine(content, start, parse);
    AfterFirstNewline(content, start);
    NoEntries(parse);
  }

  lemma WholeIsSuffix<V>(content: seq<Byte>, parse: string -> Option<V>)
    ensures Tail(content, 0) == content && IsSuffix(AllEntries(parse, content), AllEntries(parse, content))
  {
    assert content[0..] == content;
  }

  method ParseLines<V>(lines: seq<string>, parse: string -> Option<V>) returns (parsed: seq<V>)
    ensures parsed == Entries(parse, lines)
  {
    parsed := [];
    for i := 0 to |lines|
      invariant parsed == Entries(parse, lines[..i])
    {
      var entry := Entry(parse, lines[i]);
      EntriesNext(parse, lines, i);
      if entry.Some? {
        parsed := parsed + [entry.value];
      }
    }
    assert lines[..|lines|] == lines;
  }

  lemma EntriesNext<V>(parse: string -> Option<V>, lines: seq<string>, i: nat)
    requires i < |lines|
    ensures var e := Entry(parse, lines[i]);
      Entries(parse, lines[..i+1]) == Entries(parse, lines[..i]) + if e.Some? then [e.value] else []
  {
    assert lines[..i+1] == lines[..i] + [lines[i]];
    EntriesConcat(parse, lines[..i], [lines[i]]);
  }

  lemma LastNIsSuffix<V>(s: seq<V>, whole: seq<V>, n: nat)
    requires IsSuffix(s, whole)
    ensures IsSuffix(LastN(s, n), whole)
  {
  }

  lemma {:induction false} EntriesConcat<V>(parse: string -> Option<V>, a: seq<string>, b: seq<string>)
    ensures Entries(parse, a + b) == Entries(parse, a) + Entries(parse, b)
    decreases |a|
  {
    if a == [] {
      assert a + b == b;
    } else {
      var e := Entry(parse, a[0]);
      var first := if e.Some? then [e.value] else [];
      EntriesConcat(parse, a[1..], b);
      assert (a + b)[1..] == a[1..] + b;
      assert Entries(parse, a + b) == first + Entries(parse, a[1..] + b);
      ConcatThree(first, Entries(parse, a[1..]), Entries(parse, b));
    }
  }

  // The bytes around the first newline.
  lemma {:induction false} CutAtNewline(bytes: seq<Byte>) returns (found: bool, head: seq<Byte>, rest: seq<Byte>)
    ensures NEWLINE !in head && AfterNewline(bytes) == rest
    ensures if found then bytes == head + [NEWLINE] + rest else bytes == head && rest == []
  {
    if bytes == [] {
      found, head, rest := false, [], [];
    } else if bytes[0] == NEWLINE {
      found, head, rest := true, [], bytes[1..];
    } else {
      found, head, rest := CutAtNewline(bytes[1..]);
      head := [bytes[0]] + head;
    }
  }

  // Dropping the first decoded line of a tail leaves exactly the lines after the
  // first newline, and their entries end the list of all entries.
  lemma DropFirstLine<V>(content: seq<Byte>, start: nat, parse: string -> Option<V>)
    ensures var after := AfterNewline(Tail(content, start));
      && WithoutFirst(Lines(Lossy(Tail(content, start)))) == Lines(Lossy(after))
      && IsSuffix(AllEntries(parse, after), AllEntries(parse, content))
  {
    var found, head, rest := CutAtNewline(Tail(content, start));
    if found {
      FirstLineDropped(head, rest);
      assert content == content[..start] + Tail(content, start);
      LaterIsSuffix(parse, content[..start], head, rest);
    } else {
      OnlyLineDropped(head);
    }
  }

  // The lines of a file, split at one of its newlines.
  lemma LinesAround(before: seq<Byte>, after: seq<Byte>)
    ensures Lines(Lossy(before + [NEWLINE] + after)) == Lines(Lossy(before) + ['\n']) + Lines(Lossy(after))
  {
    LossySplitsAtNewline(before, after);
    LinesSplit(Lossy(before) + ['\n'], Lossy(after));
  }

  lemma OnlyLineDropped(head: seq<Byte>)
    requires NEWLINE !in head
    ensures WithoutFirst(Lines(Lossy(head))) == []
  {
    LossyWithoutNewline(head);
    OneLine(Lossy(head));
  }

  lemma FirstLineDropped(head: seq<Byte>, rest: seq<Byte>)
    requires NEWLINE !in head
    ensures WithoutFirst(Lines(Lossy(head + [NEWLINE] + rest))) == Lines(Lossy(rest))
  {
    LossyWithoutNewline(head);
    OneLine(Lossy(head));
    LinesAround(head, rest);
  }

  lemma LaterIsSuffix<V>(parse: string -> Option<V>, skipped: seq<Byte>, head: seq<Byte>, rest: seq<Byte>)
    ensures IsSuffix(AllEntries(parse, rest), AllEntries(parse, skipped + (head + [NEWLINE] + rest)))
  {
    assert skipped + (head + [NEWLINE] + rest) == (skipped + head) + [NEWLINE] + rest;
    RestIsSuffix(parse, skipped + head, rest);
  }

  lemma RestIsSuffix<V>(parse: string -> Option<V>, before: seq<Byte>, rest: seq<Byte>)
    ensures IsSuffix(AllEntries(parse, rest), AllEntries(parse, before + [NEWLINE] + rest))
  {
    LinesAround(before, rest);
    EntriesConcat(parse, Lines(Lossy(before) + ['\n']), Lines(Lossy(rest)));
  }
}
