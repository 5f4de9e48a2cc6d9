/**
 * The report helpers of the `benchdb` tool: `fmt_range`, which prints an
 * optional inclusive range, and `AlignedTable`, a table of text cells that
 * keeps, for every column, the length of its longest cell so that `Display`
 * can pad every cell of that column to the same width.
 */
module BenchDb {
  import opened Wrappers

  function Max(a: nat, b: nat): nat {
    if a < b then b else a
  }

  /* ----- fmt_range ----- */

  /**
   * `fmt_range`: `"--"` for no range, the single value when both ends are
   * equal, otherwise `"start .. end"`; `show` is the `Display` of the values.
   */
  function FmtRange<T(==)>(range: Option<(T, T)>, show: T -> string): string {
    match range
    case None => "--"
    case Some((start, end)) => if start == end then show(start) else show(start) + " .. " + show(end)
  }

  /** A `Display` whose outputs tell values apart, contain no space and are never `"--"`. */
  ghost predicate PlainDisplay<T(!new)>(show: T -> string) {
    && (forall x, y :: show(x) == show(y) ==> x == y)
    && (forall x, i :: 0 <= i < |show(x)| ==> show(x)[i] != ' ')
    && (forall x :: show(x) != "--")
  }

  /** In `a + " .. " + x`, the character just after `a` is a space. */
  lemma SpaceAfter(a: string, x: string, b: string, y: string)
    requires |a| < |b| && a + " .. " + x == b + " .. " + y
    ensures b[|a|] == ' '
  {
    assert (a + " .. " + x)[|a|] == ' ';
    assert (b + " .. " + y)[|a|] == b[|a|];
  }

  /** Two space-free words around `" .. "` are recovered from the text. */
  lemma SplitAtDots(a: string, x: string, b: string, y: string)
    requires forall i :: 0 <= i < |a| ==> a[i] != ' '
    requires forall i :: 0 <= i < |b| ==> b[i] != ' '
    requires a + " .. " + x == b + " .. " + y
    ensures a == b && x == y
  {
    if |a| < |b| {
      SpaceAfter(a, x, b, y);
      assert false;
    } else if |b| < |a| {
      SpaceAfter(b, y, a, x);
      assert false;
    }
    var s := a + " .. " + x;
    assert a == s[..|a|] == b;
    assert x == s[|a| + 4..] == y;
  }

  /**
   * With a plain `Display`, `fmt_range` loses nothing: different ranges
   * print differently (a range with equal ends counts as its single value).
   */
  lemma FmtRangeInjective<T(!new)>(r1: Option<(T, T)>, r2: Option<(T, T)>, show: T -> string)
    requires PlainDisplay(show)
    requires FmtRange(r1, show) == FmtRange(r2, show)
    ensures r1 == r2
  {
    if r1.Some? && r1.value.0 != r1.value.1 {
      assert FmtRange(r1, show)[|show(r1.value.0)|] == ' ';
    }
    if r2.Some? && r2.value.0 != r2.value.1 {
      assert FmtRange(r2, show)[|show(r2.value.0)|] == ' ';
    }
    if r1.Some? && r2.Some? && r1.value.0 != r1.value.1 && r2.value.0 != r2.value.1 {
      SplitAtDots(show(r1.value.0), show(r1.value.1), show(r2.value.0), show(r2.value.1));
    }
  }

  /* ----- padding and rows ----- */

  /** The number of bytes UTF-8 spends on one character. */
  function Utf8Width(c: char): (n: nat)
    ensures 1 <= n <= 4
  {
    if c < 0x80 as char then 1
    else if c < 0x800 as char then 2
    else if c < 0x1_0000 as char then 3
    else 4
  }

  /** `String::len`: the length of a string in UTF-8 bytes. */
  function ByteLen(s: string): nat {
    if |s| == 0 then 0 else ByteLen(s[..|s| - 1]) + Utf8Width(s[|s| - 1])
  }

  /** A string never has more characters than bytes; ASCII strings have as many. */
  lemma {:induction false} CharsAtMostBytes(s: string)
    ensures |s| <= ByteLen(s)
    ensures (forall i :: 0 <= i < |s| ==> s[i] < 0x80 as char) ==> ByteLen(s) == |s|
  {
    if |s| > 0 {
      CharsAtMostBytes(s[..|s| - 1]);
    }
  }

  function Spaces(n: nat): (r: string)
    ensures |r| == n && forall i :: 0 <= i < n ==> r[i] == ' '
  {
    seq(n, _ => ' ')
  }

  /** `{:width$}` on a string: left-aligned, filled with spaces up to `width`, never cut. */
  function Pad(s: string, width: nat): string {
    if |s| < width then s + Spaces(width - |s|) else s
  }

  /** A cell no longer than its width is padded to exactly that width, keeping its text in front. */
  lemma PadFits(s: string, width: nat)
    requires |s| <= width
    ensures |Pad(s, width)| == width
    ensures Pad(s, width)[..|s|] == s
    ensures forall i :: |s| <= i < width ==> Pad(s, width)[i] == ' '
  {
  }

  /** The first `k` cells of `row`, padded to their widths and joined by `sep`. */
  function RowPrefix(row: seq<string>, widths: seq<nat>, sep: string, k: nat): string
    requires k <= |row| && k <= |widths|
  {
    if k == 0 then ""
    else if k == 1 then Pad(row[0], widths[0])
    else RowPrefix(row, widths, sep, k - 1) + sep + Pad(row[k - 1], widths[k - 1])
  }

  /** How many (cell, width) pairs `zip` forms. */
  function ZipLen(row: seq<string>, widths: seq<nat>): (n: nat)
    ensures n <= |row| && n <= |widths| && (n == |row| || n == |widths|)
  {
    if |row| < |widths| then |row| else |widths|
  }

  /**
   * One line of the table: each cell padded to its column's width, joined
   * by `sep`, over the pairs of cells and widths that `zip` forms.
   */
  function FmtRow(row: seq<string>, widths: seq<nat>, sep: string): string {
    RowPrefix(row, widths, sep, ZipLen(row, widths))
  }

  /** The width of the first `k` columns with the separators between them. */
  function LineWidth(widths: seq<nat>, sep: string, k: nat): nat
    requires 1 <= k <= |widths|
  {
    if k == 1 then widths[0] else LineWidth(widths, sep, k - 1) + |sep| + widths[k - 1]
  }

  /** Where cell `j` of every line starts. */
  function CellStart(widths: seq<nat>, sep: string, j: nat): nat
    requires j < |widths|
  {
    if j == 0 then 0 else LineWidth(widths, sep, j) + |sep|
  }

  ghost predicate Fits(row: seq<string>, widths: seq<nat>) {
    |row| <= |widths| && forall i :: 0 <= i < |row| ==> |row[i]| <= widths[i]
  }

  /** When the cells fit, the first `k` cells take exactly the width of the first `k` columns. */
  lemma {:induction false} RowPrefixLength(row: seq<string>, widths: seq<nat>, sep: string, k: nat)
    requires 1 <= k <= |row| && Fits(row, widths)
    ensures |RowPrefix(row, widths, sep, k)| == LineWidth(widths, sep, k)
  {
    PadFits(row[k - 1], widths[k - 1]);
    if k > 1 {
      RowPrefixLength(row, widths, sep, k - 1);
    }
  }

  /** A line begins with its own shorter prefixes. */
  lemma {:induction false} RowPrefixExtends(row: seq<string>, widths: seq<nat>, sep: string, j: nat, k: nat)
    requires 1 <= j <= k <= |row| <= |widths|
    ensures RowPrefix(row, widths, sep, j) <= RowPrefix(row, widths, sep, k)
  {
    if j < k {
      RowPrefixExtends(row, widths, sep, j, k - 1);
    }
  }

  /** The first `j + 1` cells end with cell `j`, which starts at `CellStart(j)`. */
  lemma {:induction false} LastCell(row: seq<string>, widths: seq<nat>, sep: string, j: nat)
    requires Fits(row, widths) && j < |row|
    ensures |RowPrefix(row, widths, sep, j + 1)| == CellStart(widths, sep, j) + widths[j]
    ensures RowPrefix(row, widths, sep, j + 1)[CellStart(widths, sep, j)..] == Pad(row[j], widths[j])
  {
    PadFits(row[j], widths[j]);
    RowPrefixLength(row, widths, sep, j + 1);
    if j > 0 {
      RowPrefixLength(row, widths, sep, j);
      var before := RowPrefix(row, widths, sep, j) + sep;
      assert RowPrefix(row, widths, sep, j + 1) == before + Pad(row[j], widths[j]);
    }
  }

  /** When the cells fit, a line is exactly as wide as all the columns and separators. */
  lemma {:induction false} RowWidth(row: seq<string>, widths: seq<nat>, sep: string)
    requires 1 <= |row| && Fits(row, widths)
    ensures |FmtRow(row, widths, sep)| == LineWidth(widths, sep, |row|)
  {
    var n := ZipLen(row, widths);
    assert n == |row|;
    RowPrefixLength(row, widths, sep, n);
  }

  /** Cell `j` of a line lies at `CellStart(j)`, padded to its column's width. */
  lemma {:induction false} CellAt(row: seq<string>, widths: seq<nat>, sep: string, j: nat)
    requires Fits(row, widths) && j < |row|
    ensures CellStart(widths, sep, j) + widths[j] <= |FmtRow(row, widths, sep)|
    ensures FmtRow(row, widths, sep)[CellStart(widths, sep, j)..CellStart(widths, sep, j) + widths[j]]
      == Pad(row[j], widths[j])
  {
    PrefixOfLine(row, widths, sep, j);
    LastCell(row, widths, sep, j);
    SliceOfPrefix(RowPrefix(row, widths, sep, j + 1), FmtRow(row, widths, sep),
                  CellStart(widths, sep, j), widths[j], Pad(row[j], widths[j]));
  }

  /** The first `j + 1` cells begin the line. */
  lemma PrefixOfLine(row: seq<string>, widths: seq<nat>, sep: string, j: nat)
    requires |row| <= |widths| && j < |row|
    ensures RowPrefix(row, widths, sep, j + 1) <= FmtRow(row, widths, sep)
  {
    var n := ZipLen(row, widths);
    assert n == |row|;
    RowPrefixExtends(row, widths, sep, j + 1, n);
  }

  /**
   * Alignment: when every cell fits its column, each line is exactly
   * `LineWidth` long and cell `j` sits at `CellStart(j)`, padded to the
   * column's width, whatever the row.
   */
  lemma {:induction false} CellAligned(row: seq<string>, widths: seq<nat>, sep: string, j: nat)
    requires 1 <= |row| && Fits(row, widths) && j < |row|
    ensures |FmtRow(row, widths, sep)| == LineWidth(widths, sep, |row|)
    ensures CellStart(widths, sep, j) + widths[j] <= |FmtRow(row, widths, sep)|
    ensures FmtRow(row, widths, sep)[CellStart(widths, sep, j)..CellStart(widths, sep, j) + widths[j]]
      == Pad(row[j], widths[j])
  {
    RowWidth(row, widths, sep);
    CellAt(row, widths, sep, j);
  }

  /** A slice that runs to the end of a prefix reads the same in the longer sequence. */
  lemma SliceOfPrefix<T>(a: seq<T>, b: seq<T>, i: nat, w: nat, p: seq<T>)
    requires a <= b && |a| == i + w && a[i..] == p
    ensures i + w <= |b| && b[i..i + w] == p
  {
    assert b[i..i + w] == a[i..];
  }

  /** The whole text: the lines of `rows`, separated by newlines, with no newline at the end. */
  function Lines(rows: seq<seq<string>>, widths: seq<nat>, sep: string): string {
    if |rows| <= 1 then (if rows == [] then "" else FmtRow(rows[0], widths, sep))
    else Lines(rows[..|rows| - 1], widths, sep) + "\n" + FmtRow(rows[|rows| - 1], widths, sep)
  }

  lemma MulSucc(n: nat, w: nat)
    ensures (n + 1) * w == n * w + w
  {
  }

  /**
   * When every line has the same width, the text is that width per row plus
   * one newline between rows and none at the end.
   */
  lemma {:induction false} LinesLength(rows: seq<seq<string>>, widths: seq<nat>, sep: string, width: nat)
    requires |rows| >= 1
    requires forall r :: 0 <= r < |rows| ==> |FmtRow(rows[r], widths, sep)| == width
    ensures |Lines(rows, widths, sep)| == |rows| * (width + 1) - 1
  {
    var n := |rows| - 1;
    if n > 0 {
      var front := rows[..n];
      assert forall r :: 0 <= r < |front| ==> front[r] == rows[r];
      LinesLength(front, widths, sep, width);
      MulSucc(n, width + 1);
    }
  }

  /** The text of the first `r + 1` rows is that of the first `r`, a newline and row `r`. */
  lemma {:induction false} LinesStep(rows: seq<seq<string>>, widths: seq<nat>, sep: string, r: nat)
    requires 1 <= r < |rows|
    ensures Lines(rows[..r + 1], widths, sep) == Lines(rows[..r], widths, sep) + "\n" + FmtRow(rows[r], widths, sep)
  {
    assert rows[..r + 1][..r] == rows[..r];
  }

  /* ----- the table ----- */

  /** The byte length of the longest cell of column `i`. */
  function ColumnWidth(rows: seq<seq<string>>, i: nat): nat
    requires |rows| >= 1 && forall r :: 0 <= r < |rows| ==> i < |rows[r]|
  {
    var n := |rows| - 1;
    if n == 0 then ByteLen(rows[0][i]) else Max(ColumnWidth(rows[..n], i), ByteLen(rows[n][i]))
  }

  /** `ColumnWidth` is the maximum: every cell fits it and some cell attains it. */
  lemma {:induction false} ColumnWidthIsMax(rows: seq<seq<string>>, i: nat)
    requires |rows| >= 1 && forall r :: 0 <= r < |rows| ==> i < |rows[r]|
    ensures forall r :: 0 <= r < |rows| ==> ByteLen(rows[r][i]) <= ColumnWidth(rows, i)
    ensures exists r :: 0 <= r < |rows| && ByteLen(rows[r][i]) == ColumnWidth(rows, i)
  {
    var n := |rows| - 1;
    if n == 0 {
      assert ByteLen(rows[0][i]) == ColumnWidth(rows, i);
    } else {
      var front := rows[..n];
      assert forall r :: 0 <= r < n ==> front[r] == rows[r];
      var w := ColumnWidth(rows, i);
      assert w == Max(ColumnWidth(front, i), ByteLen(rows[n][i]));
      ColumnWidthIsMax(front, i);
      forall r | 0 <= r < |rows| ensures ByteLen(rows[r][i]) <= w {
        if r < n {
          assert ByteLen(front[r][i]) <= ColumnWidth(front, i);
        }
      }
      var r :| 0 <= r < n && ByteLen(front[r][i]) == ColumnWidth(front, i);
      if w == ByteLen(rows[n][i]) {
        assert ByteLen(rows[n][i]) == w;
      } else {
        assert ByteLen(rows[r][i]) == w;
      }
    }
  }

  class AlignedTable {
    var rows: seq<seq<string>>
    var separator: string
    var widths: array<nat>

    /**
     * Row 0 is the header; every row has one cell per column; `widths[i]` is
     * the length of the longest cell of column `i`, header included.
     */
    ghost predicate Valid()
      reads this, widths
    {
      && |rows| >= 1
      && widths.Length == |rows[0]| >= 1
      && (forall r :: 0 <= r < |rows| ==> |rows[r]| == widths.Length)
      && (forall i :: 0 <= i < widths.Length ==> widths[i] == ColumnWidth(rows, i))
    }

    /** `AlignedTable::new`: a table holding only the (non-empty) header. */
    constructor (header: seq<string>, separator: string)
      requires |header| >= 1
      ensures Valid() && fresh(widths)
      ensures rows == [header] && this.separator == separator
      ensures widths[..] == seq(|header|, i requires 0 <= i < |header| => ByteLen(header[i]))
      ensures IsEmpty()
    {
      rows := [header];
      this.separator := separator;
      widths := new nat[|header|](i requires 0 <= i < |header| => ByteLen(header[i]));
    }

    /** `get_num_cols`: the length of the header, which is the number of widths kept. */
    function GetNumCols(): (n: nat)
      reads this, widths
      requires Valid()
      ensures n == widths.Length && forall r :: 0 <= r < |rows| ==> |rows[r]| == n
    {
      |rows[0]|
    }

    /** `is_empty`: the table holds no row besides the header. */
    function IsEmpty(): (r: bool)
      reads this
      requires |rows| >= 1
      ensures r <==> rows == [rows[0]]
    {
      |rows| <= 1
    }

    /**
     * `add_row`: append a row with one cell per column, widening every column
     * whose new cell is longer than its width.
     */
    method AddRow(row: seq<string>)
      requires Valid() && |row| == GetNumCols()
      modifies this, widths
      ensures Valid()
      ensures rows == old(rows) + [row] && separator == old(separator)
      ensures widths == old(widths)
      ensures forall i :: 0 <= i < widths.Length ==> widths[i] == Max(old(widths[i]), ByteLen(row[i]))
      ensures !IsEmpty()
    {
      for i := 0 to |row|
        invariant widths == old(widths) && rows == old(rows) && separator == old(separator)
        invariant forall k :: 0 <= k < i ==> widths[k] == Max(old(widths[k]), ByteLen(row[k]))
        invariant forall k :: i <= k < widths.Length ==> widths[k] == old(widths[k])
      {
        var len := ByteLen(row[i]);
        if len > widths[i] {
          widths[i] := len;
        }
      }
      ghost var before := rows;
      rows := rows + [row];
      forall i | 0 <= i < widths.Length ensures widths[i] == ColumnWidth(rows, i) {
        assert rows[..|before|] == before;
      }
    }

    /**
     * Every cell of a valid table fits its column's width: the width counts
     * bytes, padding counts characters, and no cell has more characters
     * than bytes.
     */
    lemma CellsFit()
      requires Valid()
      ensures forall r :: 0 <= r < |rows| ==> Fits(rows[r], widths[..])
    {
      forall r, i | 0 <= r < |rows| && 0 <= i < widths.Length
        ensures |rows[r][i]| <= widths[i]
      {
        ColumnWidthIsMax(rows, i);
        CharsAtMostBytes(rows[r][i]);
      }
    }

    /** The `fmt_row` closure: one line of the table. */
    method FormatRow(row: seq<string>) returns (line: string)
      requires Valid() && |row| == widths.Length
      ensures line == FmtRow(row, widths[..], separator)
    {
      line := Pad(row[0], widths[0]);
      for k := 1 to |row|
        invariant line == RowPrefix(row, widths[..], separator, k)
      {
        line := line + separator + Pad(row[k], widths[k]);
      }
    }

    /** `Display::fmt`: the header line, then a newline and the line of each further row. */
    method Fmt() returns (text: string)
      requires Valid()
      ensures text == Lines(rows, widths[..], separator)
    {
      text := FormatRow(rows[0]);
      for r := 1 to |rows|
        invariant text == Lines(rows[..r], widths[..], separator)
      {
        var line := FormatRow(rows[r]);
        LinesStep(rows, widths[..], separator, r);
        text := text + "\n" + line;
      }
      assert rows[..|rows|] == rows;
    }

    /**
     * The printed table is aligned: every line is equally wide, and cell `j`
     * of every row starts at the same offset and is padded to `widths[j]`.
     */
    lemma FmtAligned(r: nat, j: nat)
      requires Valid() && r < |rows| && j < widths.Length
      ensures |FmtRow(rows[r], widths[..], separator)| == LineWidth(widths[..], separator, widths.Length)
      ensures var start := CellStart(widths[..], separator, j);
        start + widths[j] <= |FmtRow(rows[r], widths[..], separator)|
        && FmtRow(rows[r], widths[..], separator)[start..start + widths[j]] == Pad(rows[r][j], widths[j])
    {
      CellsFit();
      CellAligned(rows[r], widths[..], separator, j);
    }

    /** The printed table has one line per row, all of the same width, and no newline at the end. */
    lemma FmtLength()
      requires Valid()
      ensures |Lines(rows, widths[..], separator)|
        == |rows| * (LineWidth(widths[..], separator, widths.Length) + 1) - 1
    {
      forall r | 0 <= r < |rows|
        ensures |FmtRow(rows[r], widths[..], separator)| == LineWidth(widths[..], separator, widths.Length)
      {
        FmtAligned(r, 0);
      }
      LinesLength(rows, widths[..], separator, LineWidth(widths[..], separator, widths.Length));
    }
  }
}
