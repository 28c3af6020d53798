/** The pure parts of FileUtil: joining a path, serialising rows for
    `write`, and the header skip and per-line split of `read`.

    The file system is not modelled. `read` works on the lines the file
    would yield (`Lines` gives them for a text, as BufferedReader.readLine
    does for '\n'-terminated lines), and the serialised text of `write` is
    the result instead of being written to disk. File.separator is a
    parameter.
 */
module FileUtil {
  import opened Wrappers
  import opened StringUtil

  /** FileUtil.END_OF_LINE. */
  const EndOfLine: char := '\n'

  predicate IsEndOfLine(c: char) {
    c == EndOfLine
  }

  predicate HasPrefix(s: string, p: string) {
    |p| <= |s| && s[..|p|] == p
  }

  predicate HasSuffix(s: string, p: string) {
    |p| <= |s| && s[|s| - |p|..] == p
  }

  /** Guava Strings.isNullOrEmpty. */
  predicate IsNullOrEmpty(o: Option<string>) {
    o.None? || |o.value| == 0
  }

  /* ---------------------------------------------------------------------- */
  /* path                                                                    */
  /* ---------------------------------------------------------------------- */

  /** FileUtil.path: the parent directory and the file name, with exactly one
      separator added unless the parent already ends with it. */
  function Path(parent: Option<string>, filename: Option<string>, separator: string): (r: Result<string, Exception>)
    ensures r.Failure? <==> IsNullOrEmpty(parent) || IsNullOrEmpty(filename)
    ensures r.Failure? ==> r.error == IllegalArgument
    ensures r.Success? ==> HasPrefix(r.value, parent.value) && HasSuffix(r.value, filename.value)
    ensures r.Success? ==> |r.value| >= |parent.value| + |filename.value|
    ensures r.Success? ==>
      var middle := r.value[|parent.value|..|r.value| - |filename.value|];
      (middle == "" && HasSuffix(parent.value, separator)) || (middle == separator && !HasSuffix(parent.value, separator))
  {
    if IsNullOrEmpty(parent) || IsNullOrEmpty(filename) then Failure(IllegalArgument)
    else
      var p, f := parent.value, filename.value;
      var dir := if HasSuffix(p, separator) then p else p + separator;
      assert (dir + f)[..|p|] == p;
      assert (dir + f)[|dir + f| - |f|..] == f;
      assert (dir + f)[|p|..|dir + f| - |f|] == dir[|p|..];
      Success(dir + f)
  }

  /** The directory part of a joined path always ends with the separator, so
      joining a further name under it adds no second separator. */
  lemma PathNested(parent: string, dir: string, filename: string, separator: string)
    requires parent != "" && dir != "" && filename != ""
    ensures Path(Some(parent), Some(dir), separator).Success?
    ensures HasSuffix(Path(Some(parent), Some(dir), separator).value + separator, separator)
    ensures var d := Path(Some(parent), Some(dir), separator).value + separator;
      Path(Some(d), Some(filename), separator) == Success(d + filename)
  {
    var d := Path(Some(parent), Some(dir), separator).value + separator;
    assert d[|d| - |separator|..] == separator;
  }

  /* ---------------------------------------------------------------------- */
  /* write: row serialisation                                                */
  /* ---------------------------------------------------------------------- */

  /** The text of each value, as StringBuilder.append writes it. */
  function Shows(row: seq<Option<string>>): (r: seq<string>)
    ensures |r| == |row|
    ensures forall i :: 0 <= i < |row| ==> r[i] == Show(row[i])
  {
    seq(|row|, i requires 0 <= i < |row| => Show(row[i]))
  }

  /** The text the inner loop of write appends for the first `i` values of a
      row: each value followed by the separator, or by the end of line after
      the last one. */
  function RowPrefix(row: seq<Option<string>>, i: nat, sep: string): string
    requires i <= |row|
  {
    if i == 0 then ""
    else RowPrefix(row, i - 1, sep) + Show(row[i - 1]) + (if i == |row| then [EndOfLine] else sep)
  }

  /** The text write produces for one row. */
  function RowText(row: seq<Option<string>>, sep: string): string {
    RowPrefix(row, |row|, sep)
  }

  /** The text write produces for a list of rows. */
  function Rendered(rows: seq<seq<Option<string>>>, sep: string): string {
    if |rows| == 0 then "" else Rendered(rows[..|rows| - 1], sep) + RowText(rows[|rows| - 1], sep)
  }

  /** The serialisation loop of FileUtil.write(data, path, separator). */
  method Render(data: Option<seq<seq<Option<string>>>>, sep: string) returns (r: Result<string, Exception>)
    ensures r.Failure? <==> data.None? || |data.value| == 0
    ensures r.Failure? ==> r.error == IllegalArgument
    ensures r.Success? ==> r.value == Rendered(data.value, sep)
  {
    if data.None? || |data.value| == 0 {
      return Failure(IllegalArgument);
    }
    var rows := data.value;
    var sb := "";
    var n := 0;
    while n < |rows|
      invariant 0 <= n <= |rows|
      invariant sb == Rendered(rows[..n], sep)
    {
      var row := rows[n];
      sb := AppendRow(sb, row, sep);
      assert rows[..n + 1][..n] == rows[..n];
      assert Rendered(rows[..n + 1], sep) == Rendered(rows[..n], sep) + RowText(row, sep);
      n := n + 1;
    }
    assert rows[..n] == rows;
    return Success(sb);
  }

  /** The inner loop of write: append one row's values, each followed by the
      separator or, after the last, by the end of line. */
  method AppendRow(sb: string, row: seq<Option<string>>, sep: string) returns (out: string)
    ensures out == sb + RowText(row, sep)
  {
    out := sb;
    var size := |row|;
    var i := 0;
    while i < size
      invariant 0 <= i <= size
      invariant out == sb + RowPrefix(row, i, sep)
    {
      out := out + Show(row[i]);
      if i == size - 1 {
        out := out + [EndOfLine];
      } else {
        out := out + sep;
      }
      i := i + 1;
    }
  }

  /** A row's values joined by the separator, for the rows that are not empty. */
  function RowLines(rows: seq<seq<Option<string>>>, sep: string): seq<string> {
    if |rows| == 0 then []
    else
      var row := rows[|rows| - 1];
      RowLines(rows[..|rows| - 1], sep) + (if |row| == 0 then [] else [JoinAll(Shows(row), sep)])
  }

  function NonEmptyRows(rows: seq<seq<Option<string>>>): seq<seq<Option<string>>> {
    if |rows| == 0 then []
    else
      var row := rows[|rows| - 1];
      NonEmptyRows(rows[..|rows| - 1]) + (if |row| == 0 then [] else [row])
  }

  /** Each line, followed by the end of line. */
  function Terminated(lines: seq<string>): string {
    if |lines| == 0 then "" else Terminated(lines[..|lines| - 1]) + lines[|lines| - 1] + [EndOfLine]
  }

  /** For 0 < i < |row| the inner loop has written the first i values, each
      followed by the separator. */
  lemma {:induction false} RowPrefixIsJoin(row: seq<Option<string>>, i: nat, sep: string)
    requires 0 < i < |row|
    ensures RowPrefix(row, i, sep) == JoinAll(Shows(row)[..i], sep) + sep
  {
    if i > 1 {
      RowPrefixIsJoin(row, i - 1, sep);
      assert Shows(row)[..i] == Shows(row)[..i - 1] + [Show(row[i - 1])];
      JoinAllSnoc(Shows(row)[..i - 1], Show(row[i - 1]), sep);
    } else {
      assert Shows(row)[..1] == [Show(row[0])];
    }
  }

  /** A non-empty row is written as its values joined by the separator and
      exactly one end of line; an empty row is not written at all. */
  lemma RowTextIsLine(row: seq<Option<string>>, sep: string)
    ensures |row| == 0 ==> RowText(row, sep) == ""
    ensures |row| > 0 ==> RowText(row, sep) == JoinAll(Shows(row), sep) + [EndOfLine]
  {
    var n := |row|;
    if n == 1 {
      assert Shows(row) == [Show(row[0])];
      assert RowPrefix(row, 1, sep) == RowPrefix(row, 0, sep) + Show(row[0]) + [EndOfLine];
    } else if n > 1 {
      RowPrefixIsJoin(row, n - 1, sep);
      assert Shows(row) == Shows(row)[..n - 1] + [Show(row[n - 1])];
      JoinAllSnoc(Shows(row)[..n - 1], Show(row[n - 1]), sep);
    }
  }

  lemma {:induction false} RenderedIsTerminated(rows: seq<seq<Option<string>>>, sep: string)
    ensures Rendered(rows, sep) == Terminated(RowLines(rows, sep))
  {
    if |rows| > 0 {
      var init, row := rows[..|rows| - 1], rows[|rows| - 1];
      RenderedIsTerminated(init, sep);
      RowTextIsLine(row, sep);
      assert Rendered(rows, sep) == Rendered(init, sep) + RowText(row, sep);
      if |row| > 0 {
        var lines := RowLines(init, sep) + [JoinAll(Shows(row), sep)];
        assert RowLines(rows, sep) == lines;
        assert lines[..|lines| - 1] == RowLines(init, sep);
        assert Terminated(lines) == Terminated(RowLines(init, sep)) + JoinAll(Shows(row), sep) + [EndOfLine];
      } else {
        assert RowLines(rows, sep) == RowLines(init, sep);
      }
    }
  }

  lemma {:induction false} TerminatedAsJoin(lines: seq<string>)
    ensures Terminated(lines) == JoinAll(lines + [""], [EndOfLine])
  {
    if |lines| > 0 {
      var init, x := lines[..|lines| - 1], lines[|lines| - 1];
      TerminatedAsJoin(init);
      assert lines == init + [x];
      assert lines + [""] == (init + [x]) + [""];
      JoinAllSnoc(init + [x], "", [EndOfLine]);
      if |init| > 0 {
        JoinAllSnoc(init, x, [EndOfLine]);
        JoinAllSnoc(init, "", [EndOfLine]);
      } else {
        assert init + [x] == [x];
        assert init + [""] == [""];
      }
    }
  }

  lemma {:induction false} RowLinesShape(rows: seq<seq<Option<string>>>, sep: string)
    ensures |RowLines(rows, sep)| == |NonEmptyRows(rows)|
    ensures forall k :: 0 <= k < |NonEmptyRows(rows)| ==>
      |NonEmptyRows(rows)[k]| > 0 && RowLines(rows, sep)[k] == JoinAll(Shows(NonEmptyRows(rows)[k]), sep)
    ensures forall row :: row in NonEmptyRows(rows) ==> row in rows
  {
    if |rows| > 0 {
      RowLinesShape(rows[..|rows| - 1], sep);
    }
  }

  /** A value or separator that writes no end of line. */
  predicate SingleLine(s: string) {
    NoneMatch(s, IsEndOfLine)
  }

  /** BufferedReader.readLine over a text: the pieces between '\n'
      characters, where a final '\n' ends the last line rather than starting
      an empty one. */
  function Lines(content: string): (r: seq<string>)
    ensures forall k :: 0 <= k < |r| ==> SingleLine(r[k])
  {
    if |content| == 0 then []
    else
      var ps := Pieces(content, IsEndOfLine);
      if ps[|ps| - 1] == "" then ps[..|ps| - 1] else ps
  }

  /** With no end of line inside the values or the separator, write produces
      one line per non-empty row and reading the text back yields those lines. */
  lemma RenderedLines(rows: seq<seq<Option<string>>>, sep: string)
    requires SingleLine(sep)
    requires forall row, v :: row in rows && v in row ==> SingleLine(Show(v))
    ensures Lines(Rendered(rows, sep)) == RowLines(rows, sep)
    ensures CountMatching(Rendered(rows, sep), IsEndOfLine) == |NonEmptyRows(rows)|
  {
    var lines := RowLines(rows, sep);
    RenderedIsTerminated(rows, sep);
    TerminatedAsJoin(lines);
    RowLinesShape(rows, sep);
    forall k | 0 <= k < |lines| ensures SingleLine(lines[k]) {
      var row := NonEmptyRows(rows)[k];
      forall i | 0 <= i < |Shows(row)| ensures SingleLine(Shows(row)[i]) {
        assert row[i] in row;
      }
      JoinAllNoneMatch(Shows(row), sep, IsEndOfLine);
    }
    var all := lines + [""];
    assert forall k :: 0 <= k < |all| ==> SingleLine(all[k]);
    PiecesOfJoin(all, IsEndOfLine, EndOfLine);
    if |lines| == 0 {
      assert all == [""];
      assert Rendered(rows, sep) == "";
    } else {
      assert |Rendered(rows, sep)| > 0 by {
        JoinAllSnoc(lines, "", [EndOfLine]);
      }
      assert all[..|all| - 1] == lines;
    }
  }

  /** The values of each row, as text. */
  function ShowRows(rows: seq<seq<Option<string>>>): (r: seq<seq<string>>)
    ensures |r| == |rows|
    ensures forall k :: 0 <= k < |rows| ==> r[k] == Shows(rows[k])
  {
    seq(|rows|, k requires 0 <= k < |rows| => Shows(rows[k]))
  }

  /** Splitting each written line at the single separator character gives the
      row's values back. */
  lemma SplitRowLines(rows: seq<seq<Option<string>>>, c: char, separator: char -> bool)
    requires separator(c)
    requires forall row, v :: row in rows && v in row ==> IsTrimmed(Show(v)) && NoneMatch(Show(v), separator)
    ensures SplitLines(RowLines(rows, [c]), separator, false) == ShowRows(NonEmptyRows(rows))
  {
    RowLinesShape(rows, [c]);
    var lines := RowLines(rows, [c]);
    var nonEmpty := NonEmptyRows(rows);
    forall k | 0 <= k < |lines|
      ensures Split(lines[k], separator, false) == Shows(nonEmpty[k])
    {
      var row := nonEmpty[k];
      forall i | 0 <= i < |Shows(row)| ensures IsTrimmed(Shows(row)[i]) && NoneMatch(Shows(row)[i], separator) {
        assert row[i] in row;
      }
      SplitJoinRoundTrip(Shows(row), separator, c);
    }
  }

  /** With write's separator a single character, every value already trimmed
      and free of separator and end-of-line characters, reading back what write
      produced gives the non-empty rows' values. */
  lemma ReadRendered(path: Option<string>, rows: seq<seq<Option<string>>>, c: char, separator: char -> bool)
    requires Trim(path) != ""
    requires separator(c) && c != EndOfLine
    requires forall row, v :: row in rows && v in row ==>
      SingleLine(Show(v)) && IsTrimmed(Show(v)) && NoneMatch(Show(v), separator)
    ensures Read(path, Lines(Rendered(rows, [c])), Some(separator), 0, false) == Success(ShowRows(NonEmptyRows(rows)))
  {
    assert SingleLine([c]);
    RenderedLines(rows, [c]);
    SplitRowLines(rows, c, separator);
    var lines := RowLines(rows, [c]);
    assert lines[HeaderLines(0, |lines|)..] == lines;
  }

  /* ---------------------------------------------------------------------- */
  /* read: header skip and split                                             */
  /* ---------------------------------------------------------------------- */

  /** How many lines the header loop consumes: readLine past the end of the
      file returns null and consumes nothing. */
  function HeaderLines(nHeaderRows: int, available: nat): (r: nat)
    ensures r <= available
    ensures nHeaderRows <= 0 ==> r == 0
    ensures 0 <= nHeaderRows <= available ==> r == nHeaderRows
    ensures nHeaderRows >= available ==> r == available
  {
    if nHeaderRows <= 0 then 0 else if nHeaderRows < available then nHeaderRows else available
  }

  /** A null separator means whitespace. */
  function Matcher(separator: Option<char -> bool>): char -> bool {
    if separator.Some? then separator.value else IsWhitespace
  }

  /** One split row per line. */
  function SplitLines(lines: seq<string>, matcher: char -> bool, omitEmptyStrings: bool): (r: seq<seq<string>>)
    ensures |r| == |lines|
    ensures forall k :: 0 <= k < |lines| ==> r[k] == Split(lines[k], matcher, omitEmptyStrings)
  {
    seq(|lines|, k requires 0 <= k < |lines| => Split(lines[k], matcher, omitEmptyStrings))
  }

  /** The lines after the first h, split: line k of the file is row k - h. */
  function SplitAfter(lines: seq<string>, h: nat, matcher: char -> bool, omitEmptyStrings: bool): (r: seq<seq<string>>)
    requires h <= |lines|
    ensures |r| == |lines| - h
    ensures forall k :: h <= k < |lines| ==> r[k - h] == Split(lines[k], matcher, omitEmptyStrings)
  {
    var body := lines[h..];
    assert forall k :: h <= k < |lines| ==> body[k - h] == lines[k];
    SplitLines(body, matcher, omitEmptyStrings)
  }

  /** FileUtil.read(path, separator, nHeaderRows, omitEmptyStrings) over the
      lines of the file. */
  function Read(path: Option<string>, lines: seq<string>, separator: Option<char -> bool>,
                nHeaderRows: int, omitEmptyStrings: bool): (r: Result<seq<seq<string>>, Exception>)
    ensures r.Failure? <==> Trim(path) == ""
    ensures r.Failure? ==> r.error == IllegalArgument
    ensures r.Success? ==> |r.value| == |lines| - HeaderLines(nHeaderRows, |lines|)
    ensures r.Success? ==> forall k :: HeaderLines(nHeaderRows, |lines|) <= k < |lines| ==>
      r.value[k - HeaderLines(nHeaderRows, |lines|)] == Split(lines[k], Matcher(separator), omitEmptyStrings)
  {
    if Trim(path) == "" then Failure(IllegalArgument)
    else
      Success(SplitAfter(lines, HeaderLines(nHeaderRows, |lines|), Matcher(separator), omitEmptyStrings))
  }

  /** Reading with header rows is reading the lines after the header. */
  lemma ReadSkipsHeader(path: Option<string>, lines: seq<string>, separator: Option<char -> bool>,
                        nHeaderRows: nat, omitEmptyStrings: bool)
    requires nHeaderRows <= |lines|
    ensures Read(path, lines, separator, nHeaderRows, omitEmptyStrings)
      == Read(path, lines[nHeaderRows..], separator, 0, omitEmptyStrings)
  {
  }
}
