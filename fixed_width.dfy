/**
 * The fixed-width table printers `print_fixed_width` and
 * `print_fixed_width_status` (src/utils.rs). Printing is replaced by the
 * sequence of lines the printers would write, each carrying its style as a tag.
 */
module FixedWidth {
  import opened Wrappers
  import opened Data
  import opened StatusColour
  import opened Ordering

  /** Spaces between two cells when the caller gives none (`nspaces.unwrap_or(6)`). */
  const DefaultSpacing: nat := 6
  /** Indentation of every row when the caller gives none (`indent.unwrap_or(0)`). */
  const DefaultIndent: nat := 0

  /** One printed line, with its styling as a tag instead of ANSI escapes. */
  datatype Line =
    | Header(key: string, bold: bool)                      // `[key]`, the key in bold when asked
    | Row(indent: nat, body: string, colour: Option<Colour>) // indentation, then the (coloured) cells
    | Blank                                                 // the empty line after each group

  /** The characters a line puts on the terminal, without its styling. */
  function Text(line: Line): string
  {
    match line
    case Header(key, _) => "[" + key + "]"
    case Row(indent, body, _) => Spaces(indent) + body
    case Blank => ""
  }

  /** `" ".repeat(n)` */
  function Spaces(n: nat): (s: string)
    ensures |s| == n
    ensures forall k | 0 <= k < n :: s[k] == ' '
  {
    seq(n, _ => ' ')
  }

  // ---------------------------------------------------------------------------
  // Column widths (src/utils.rs:129-149, and its copy at :74-94)
  // ---------------------------------------------------------------------------

  /** `max_cols`: the most columns any row has; 0 when no row has columns. */
  function MaxCols(entries: seq<StatusEntry>): (m: nat)
    ensures forall j | 0 <= j < |entries| && entries[j].cols.Some? :: |entries[j].cols.value| <= m
    ensures m == 0 || exists j | 0 <= j < |entries| && entries[j].cols.Some? :: |entries[j].cols.value| == m
  {
    if entries == [] then 0
    else
      var init := entries[..|entries| - 1];
      var m := MaxCols(init);
      assert forall j | 0 <= j < |init| :: init[j] == entries[j];
      match entries[|entries| - 1].cols
      case None => m
      case Some(cols) => if m < |cols| then |cols| else m
  }

  /**
   * `maxLengths` is what the width pass leaves in `max_lengths`: one width per
   * column, at least as wide as every cell of that column, and equal to the
   * width of one of them.
   */
  ghost predicate IsColumnWidths(entries: seq<StatusEntry>, width: string -> nat, maxLengths: seq<nat>)
  {
    && |maxLengths| == MaxCols(entries)
    && (forall j, i | 0 <= j < |entries| && entries[j].cols.Some? && 0 <= i < |entries[j].cols.value| ::
          i < |maxLengths| && width(entries[j].cols.value[i]) <= maxLengths[i])
    && (forall i | 0 <= i < |maxLengths| ::
          exists j | 0 <= j < |entries| && entries[j].cols.Some? && i < |entries[j].cols.value| ::
            maxLengths[i] == width(entries[j].cols.value[i]))
  }

  /** The width of row `entry`'s cell in column `c`, 0 when it has no such cell. */
  function CellWidth(entry: StatusEntry, width: string -> nat, c: nat): nat
  {
    match entry.cols
    case Some(cols) => if c < |cols| then width(cols[c]) else 0
    case None => 0
  }

  /** The widest cell of column `c` over the rows, row by row as the width pass visits them. */
  function Widest(entries: seq<StatusEntry>, width: string -> nat, c: nat): nat
  {
    if entries == [] then 0
    else
      var w := Widest(entries[..|entries| - 1], width, c);
      var cell := CellWidth(entries[|entries| - 1], width, c);
      if w < cell then cell else w
  }

  /** No cell of column `c` is wider than `Widest`. */
  lemma {:induction false} WidestBounds(entries: seq<StatusEntry>, width: string -> nat, c: nat, j: nat)
    requires j < |entries|
    ensures CellWidth(entries[j], width, c) <= Widest(entries, width, c)
  {
    if j < |entries| - 1 {
      WidestBounds(entries[..|entries| - 1], width, c, j);
    }
  }

  /** `Widest` is the width of some cell of column `c`, or 0 when no cell of it is wider. */
  lemma {:induction false} WidestAttained(entries: seq<StatusEntry>, width: string -> nat, c: nat)
    ensures Widest(entries, width, c) == 0 ||
            exists j | 0 <= j < |entries| :: entries[j].cols.Some? && c < |entries[j].cols.value| &&
              Widest(entries, width, c) == width(entries[j].cols.value[c])
  {
    if entries != [] {
      var init := entries[..|entries| - 1];
      WidestAttained(init, width, c);
      if Widest(entries, width, c) != 0 && Widest(entries, width, c) == Widest(init, width, c) {
        var j :| 0 <= j < |init| && init[j].cols.Some? && c < |init[j].cols.value| &&
          Widest(init, width, c) == width(init[j].cols.value[c]);
        assert entries[j] == init[j];
      }
    }
  }

  /** Column maxima as computed by `Widest` are exactly what `IsColumnWidths` asks for. */
  lemma WidestIsColumnWidths(entries: seq<StatusEntry>, width: string -> nat, maxLengths: seq<nat>)
    requires |maxLengths| == MaxCols(entries)
    requires forall c | 0 <= c < |maxLengths| :: maxLengths[c] == Widest(entries, width, c)
    ensures IsColumnWidths(entries, width, maxLengths)
  {
    forall j, i | 0 <= j < |entries| && entries[j].cols.Some? && 0 <= i < |entries[j].cols.value|
      ensures i < |maxLengths| && width(entries[j].cols.value[i]) <= maxLengths[i]
    {
      WidestBounds(entries, width, i, j);
    }
    forall i | 0 <= i < |maxLengths|
      ensures exists j | 0 <= j < |entries| && entries[j].cols.Some? && i < |entries[j].cols.value| ::
        maxLengths[i] == width(entries[j].cols.value[i])
    {
      WidestAttained(entries, width, i);
      if maxLengths[i] == 0 {
        var j :| 0 <= j < |entries| && entries[j].cols.Some? && |entries[j].cols.value| == MaxCols(entries);
        WidestBounds(entries, width, i, j);
      }
    }
  }

  /**
   * The width pass: `max_lengths` starts as `max_cols` zeros and every cell
   * raises its column's entry to its display width. `width` is the display
   * width of Unicode Standard Annex #11, left abstract.
   */
  method ColumnWidths(entries: seq<StatusEntry>, width: string -> nat) returns (maxLengths: seq<nat>)
    ensures |maxLengths| == MaxCols(entries)
    ensures forall c | 0 <= c < |maxLengths| :: maxLengths[c] == Widest(entries, width, c)
    ensures IsColumnWidths(entries, width, maxLengths)
  {
    var maxCols := MaxCols(entries);
    maxLengths := seq(maxCols, _ => 0);
    for j := 0 to |entries|
      invariant |maxLengths| == maxCols
      invariant forall c | 0 <= c < maxCols :: maxLengths[c] == Widest(entries[..j], width, c)
    {
      assert entries[..j + 1][..j] == entries[..j];
      if entries[j].cols.Some? {
        var cols := entries[j].cols.value;
        for i := 0 to |cols|
          invariant |maxLengths| == maxCols
          invariant forall c | 0 <= c < maxCols ::
            maxLengths[c] == if c < i then Widest(entries[..j + 1], width, c) else Widest(entries[..j], width, c)
        {
          var w := width(cols[i]);
          if maxLengths[i] < w {
            maxLengths := maxLengths[i := w];
          }
        }
      }
    }
    assert entries[..|entries|] == entries;
    WidestIsColumnWidths(entries, width, maxLengths);
  }

  // ---------------------------------------------------------------------------
  // Cells and rows (src/utils.rs:159-175, and its copy at :103-117)
  // ---------------------------------------------------------------------------

  /**
   * `format!("{:width$}", col)`: the text left-aligned and filled with spaces
   * up to `w` characters, never cut short. Rust counts characters here, not
   * display width.
   */
  function Pad(col: string, w: nat): (cell: string)
    ensures |cell| == if |col| < w then w else |col|
    ensures cell[..|col|] == col
    ensures forall k | |col| <= k < |cell| :: cell[k] == ' '
  {
    if |col| < w then col + Spaces(w - |col|) else col
  }

  /** The characters the status table puts before cell `i`: one space before the first cell, none elsewhere. */
  function Lead(status: bool, i: nat): (lead: string)
    ensures lead == " " || lead == ""
    ensures lead == " " <==> status && i == 0
  {
    if status && i == 0 then " " else ""
  }

  /** The cells of a row, each padded to its column's width (`fixed_row`). */
  function Cells(cols: seq<string>, maxLengths: seq<nat>, status: bool): (cells: seq<string>)
    requires |cols| <= |maxLengths|
  {
    seq(|cols|, i requires 0 <= i < |cols| => Lead(status, i) + Pad(cols[i], maxLengths[i]))
  }

  /** The loop that pushes one fixed-width cell per column onto `fixed_row`. */
  method FixedRow(cols: seq<string>, maxLengths: seq<nat>, status: bool) returns (fixedRow: seq<string>)
    requires |cols| <= |maxLengths|
    ensures fixedRow == Cells(cols, maxLengths, status)
  {
    fixedRow := [];
    for i := 0 to |cols|
      invariant fixedRow == Cells(cols[..i], maxLengths, status)
    {
      var spacer := if status && i == 0 then " " else "";
      fixedRow := fixedRow + [spacer + Pad(cols[i], maxLengths[i])];
    }
    assert cols[..|cols|] == cols;
  }

  /** `[String]::join(sep)`: the cells in order with `sep` between neighbours. */
  function Join(cells: seq<string>, sep: string): (line: string)
    ensures |cells| > 0 ==> cells[0] <= line
  {
    if |cells| == 0 then ""
    else if |cells| == 1 then cells[0]
    else Join(cells[..|cells| - 1], sep) + sep + cells[|cells| - 1]
  }

  /** The offset at which cell `i` begins in `Join(cells, sep)`. */
  function Start(cells: seq<string>, sep: string, i: nat): nat
    requires i <= |cells|
  {
    if i == 0 then 0 else Start(cells, sep, i - 1) + |cells[i - 1]| + |sep|
  }

  lemma {:induction false} StartOfPrefix(cells: seq<string>, sep: string, n: nat, i: nat)
    requires i <= n <= |cells|
    ensures Start(cells[..n], sep, i) == Start(cells, sep, i)
  {
    if i > 0 {
      StartOfPrefix(cells, sep, n, i - 1);
    }
  }

  /** A join of k > 0 cells is their lengths plus k - 1 separators long. */
  lemma {:induction false} JoinLength(cells: seq<string>, sep: string)
    requires |cells| > 0
    ensures |Join(cells, sep)| == Start(cells, sep, |cells| - 1) + |cells[|cells| - 1]|
  {
    var n := |cells|;
    if n > 1 {
      JoinLength(cells[..n - 1], sep);
      StartOfPrefix(cells, sep, n - 1, n - 2);
    }
  }

  /** Cell `i` stands, unchanged, at offset `Start(cells, sep, i)` of the join. */
  lemma {:induction false} JoinCellAt(cells: seq<string>, sep: string, i: nat)
    requires i < |cells|
    ensures Start(cells, sep, i) + |cells[i]| <= |Join(cells, sep)|
    ensures Join(cells, sep)[Start(cells, sep, i) .. Start(cells, sep, i) + |cells[i]|] == cells[i]
  {
    var n := |cells|;
    if n > 1 {
      var init := cells[..n - 1];
      JoinLength(init, sep);
      StartOfPrefix(cells, sep, n - 1, n - 2);
      if i < n - 1 {
        JoinCellAt(init, sep, i);
        StartOfPrefix(cells, sep, n - 1, i);
      }
    }
  }

  /** Between cell `i` and cell `i + 1` of the join stands exactly one separator. */
  lemma {:induction false} JoinSeparatorAt(cells: seq<string>, sep: string, i: nat)
    requires i + 1 < |cells|
    ensures TextAt(Join(cells, sep), Start(cells, sep, i) + |cells[i]|, sep)
  {
    var n := |cells|;
    var init := cells[..n - 1];
    var last := cells[n - 1];
    var head := Join(init, sep);
    var at := Start(cells, sep, i) + |cells[i]|;
    JoinSnoc(cells, sep);
    StartOfPrefix(cells, sep, n - 1, i);
    assert init[i] == cells[i];
    if i + 1 < n - 1 {
      JoinSeparatorAt(init, sep, i);
      TextAtExtended(head, sep + last, at, sep);
    } else {
      JoinLength(init, sep);
      assert at == |head|;
      SliceAfterPrefix(head, sep + last, 0, |sep|);
      assert TextAt(head + (sep + last), at, sep);
    }
  }

  /** A join of more than one cell is the join of all but the last, the separator, then the last cell. */
  lemma JoinSnoc(cells: seq<string>, sep: string)
    requires |cells| > 1
    ensures Join(cells, sep) == Join(cells[..|cells| - 1], sep) + (sep + cells[|cells| - 1])
  {
  }

  /** Text found in a line is still there once more is appended to the line. */
  lemma TextAtExtended(line: string, more: string, at: nat, text: string)
    requires TextAt(line, at, text)
    ensures TextAt(line + more, at, text)
  {
    assert (line + more)[at .. at + |text|] == line[at .. at + |text|];
  }

  /**
   * The column at which the text of cell `i` begins, counted after the
   * indentation, in every row whose earlier cells fit their columns.
   */
  function ColumnStart(maxLengths: seq<nat>, nspaces: nat, status: bool, i: nat): nat
    requires i <= |maxLengths|
  {
    if i == 0 then |Lead(status, 0)| else ColumnStart(maxLengths, nspaces, status, i - 1) + maxLengths[i - 1] + nspaces
  }

  lemma {:induction false} StartIsColumnStart(cols: seq<string>, maxLengths: seq<nat>, nspaces: nat, status: bool, i: nat)
    requires |cols| <= |maxLengths| && 0 < i <= |cols|
    requires forall j | 0 <= j < i :: |cols[j]| <= maxLengths[j]
    ensures Start(Cells(cols, maxLengths, status), Spaces(nspaces), i) == ColumnStart(maxLengths, nspaces, status, i)
  {
    if i > 1 {
      StartIsColumnStart(cols, maxLengths, nspaces, status, i - 1);
    }
  }

  /** The text of a row line for the given columns (`fixed_row.join(&spacer)`). */
  function RowBody(cols: seq<string>, maxLengths: seq<nat>, nspaces: nat, status: bool): string
    requires |cols| <= |maxLengths|
  {
    Join(Cells(cols, maxLengths, status), Spaces(nspaces))
  }

  /**
   * Alignment: in a row line, the text of cell `i` starts at the same column
   * `indent + ColumnStart(...)` in every row whose earlier cells are no longer
   * (in characters) than their columns, as when every cell's display width is
   * its character count.
   */
  lemma CellAligned(cols: seq<string>, maxLengths: seq<nat>, nspaces: nat, indent: nat, status: bool, i: nat)
    requires |cols| <= |maxLengths| && i < |cols|
    requires forall j | 0 <= j < i :: |cols[j]| <= maxLengths[j]
    ensures TextAt(Spaces(indent) + RowBody(cols, maxLengths, nspaces, status),
                   indent + ColumnStart(maxLengths, nspaces, status, i), cols[i])
  {
    var cells, sep, pre := Cells(cols, maxLengths, status), Spaces(nspaces), Spaces(indent);
    ColumnStartInCells(cols, maxLengths, nspaces, status, i);
    CellText(cols, maxLengths, status, i);
    AlignedInJoin(cells, sep, pre, i, |Lead(status, i)|, cols[i],
                  pre + RowBody(cols, maxLengths, nspaces, status), indent + ColumnStart(maxLengths, nspaces, status, i));
  }

  /** Text inside cell `i`, after `lead` characters, stands in a prefixed joined line at the matching offset. */
  lemma AlignedInJoin(cells: seq<string>, sep: string, pre: string, i: nat, lead: nat, text: string, line: string, at: nat)
    requires i < |cells| && lead + |text| <= |cells[i]|
    requires cells[i][lead .. lead + |text|] == text
    requires line == pre + Join(cells, sep) && at == |pre| + Start(cells, sep, i) + lead
    ensures TextAt(line, at, text)
  {
    JoinTextAt(cells, sep, i, lead, |text|);
    TextAtShift(pre, Join(cells, sep), Start(cells, sep, i) + lead, text);
  }

  /** `text` stands in `line` from offset `at` on. */
  predicate TextAt(line: string, at: nat, text: string)
  {
    at + |text| <= |line| && line[at .. at + |text|] == text
  }

  lemma ColumnStartInCells(cols: seq<string>, maxLengths: seq<nat>, nspaces: nat, status: bool, i: nat)
    requires |cols| <= |maxLengths| && i < |cols|
    requires forall j | 0 <= j < i :: |cols[j]| <= maxLengths[j]
    ensures ColumnStart(maxLengths, nspaces, status, i) == Start(Cells(cols, maxLengths, status), Spaces(nspaces), i) + |Lead(status, i)|
  {
    if i > 0 {
      StartIsColumnStart(cols, maxLengths, nspaces, status, i);
    }
  }

  /** Cell `i` holds the text of column `i` right after its lead. */
  lemma CellText(cols: seq<string>, maxLengths: seq<nat>, status: bool, i: nat)
    requires |cols| <= |maxLengths| && i < |cols|
    ensures |Lead(status, i)| + |cols[i]| <= |Cells(cols, maxLengths, status)[i]|
    ensures Cells(cols, maxLengths, status)[i][|Lead(status, i)| .. |Lead(status, i)| + |cols[i]|] == cols[i]
  {
    SliceAfterPrefix(Lead(status, i), Pad(cols[i], maxLengths[i]), 0, |cols[i]|);
  }

  /** A piece of cell `i` stands in the joined line at the cell's offset plus the piece's offset in the cell. */
  lemma JoinTextAt(cells: seq<string>, sep: string, i: nat, lo: nat, len: nat)
    requires i < |cells| && lo + len <= |cells[i]|
    ensures TextAt(Join(cells, sep), Start(cells, sep, i) + lo, cells[i][lo .. lo + len])
  {
    var s := Start(cells, sep, i);
    JoinCellAt(cells, sep, i);
    SliceOfSlice(Join(cells, sep), s, s + |cells[i]|, lo, lo + len);
  }

  /** Text found in a line is found after any prefix, shifted by the prefix's length. */
  lemma TextAtShift(pre: string, line: string, at: nat, text: string)
    requires TextAt(line, at, text)
    ensures TextAt(pre + line, |pre| + at, text)
  {
    SliceAfterPrefix(pre, line, at, at + |text|);
  }

  lemma SliceOfSlice<T>(s: seq<T>, lo: nat, hi: nat, lo2: nat, hi2: nat)
    requires lo <= hi <= |s| && lo2 <= hi2 <= hi - lo
    ensures s[lo .. hi][lo2 .. hi2] == s[lo + lo2 .. lo + hi2]
  {
    var a, b := s[lo .. hi][lo2 .. hi2], s[lo + lo2 .. lo + hi2];
    forall k | 0 <= k < |a|
      ensures a[k] == b[k]
    {
      assert a[k] == s[lo .. hi][lo2 + k];
    }
  }

  lemma SliceAfterPrefix<T>(a: seq<T>, b: seq<T>, lo: nat, hi: nat)
    requires lo <= hi <= |b|
    ensures (a + b)[|a| + lo .. |a| + hi] == b[lo .. hi]
  {
  }

  /** Between neighbouring cells of a row line stand exactly `nspaces` spaces. */
  lemma CellsSeparated(cols: seq<string>, maxLengths: seq<nat>, nspaces: nat, status: bool, i: nat)
    requires |cols| <= |maxLengths| && i + 1 < |cols|
    ensures TextAt(RowBody(cols, maxLengths, nspaces, status),
                   Start(Cells(cols, maxLengths, status), Spaces(nspaces), i) + |Cells(cols, maxLengths, status)[i]|,
                   Spaces(nspaces))
  {
    var cells, sep := Cells(cols, maxLengths, status), Spaces(nspaces);
    JoinSeparatorAt(cells, sep, i);
    assert RowBody(cols, maxLengths, nspaces, status) == Join(cells, sep);
  }

  /** A row line has k cells and k - 1 separators, and nothing else. */
  lemma RowBodyLength(cols: seq<string>, maxLengths: seq<nat>, nspaces: nat, status: bool)
    requires 0 < |cols| <= |maxLengths|
    ensures var cells := Cells(cols, maxLengths, status);
            |RowBody(cols, maxLengths, nspaces, status)| == Start(cells, Spaces(nspaces), |cols| - 1) + |cells[|cols| - 1]|
  {
    JoinLength(Cells(cols, maxLengths, status), Spaces(nspaces));
  }

  // ---------------------------------------------------------------------------
  // The printed table (src/utils.rs:151-196, and its copy at :95-120)
  // ---------------------------------------------------------------------------

  /** Every row of `entries` has no more columns than there are widths. */
  predicate Fits(entries: seq<StatusEntry>, maxLengths: seq<nat>)
  {
    forall j | 0 <= j < |entries| && entries[j].cols.Some? :: |entries[j].cols.value| <= |maxLengths|
  }

  /** The columns a row prints: none when it has no `cols`. */
  function ColsOf(entry: StatusEntry): seq<string>
  {
    match entry.cols
    case Some(cols) => cols
    case None => []
  }

  /**
   * The line printed for one row. The status table colours every row by the
   * colour table, whatever `color` says; the plain table colours none.
   */
  function RowLine(entry: StatusEntry, maxLengths: seq<nat>, nspaces: nat, indent: nat, status: bool): Line
    requires |ColsOf(entry)| <= |maxLengths|
  {
    Row(indent, RowBody(ColsOf(entry), maxLengths, nspaces, status),
        if status then Some(RowColour(entry.tracked, entry.localStatus, entry.remoteStatus)) else None)
  }

  /**
   * Alignment of the printed row: in the characters a row line puts on the
   * terminal, column `i`'s text starts at the same column in every row whose
   * earlier cells fit their widths.
   */
  lemma RowLineAligned(entry: StatusEntry, maxLengths: seq<nat>, nspaces: nat, indent: nat, status: bool, i: nat)
    requires |ColsOf(entry)| <= |maxLengths| && i < |ColsOf(entry)|
    requires forall j | 0 <= j < i :: |ColsOf(entry)[j]| <= maxLengths[j]
    ensures TextAt(Text(RowLine(entry, maxLengths, nspaces, indent, status)),
                   indent + ColumnStart(maxLengths, nspaces, status, i), ColsOf(entry)[i])
  {
    CellAligned(ColsOf(entry), maxLengths, nspaces, indent, status, i);
  }

  /** The row lines of one group, in the group's order. */
  function RowLines(entries: seq<StatusEntry>, maxLengths: seq<nat>, nspaces: nat, indent: nat, status: bool): seq<Line>
    requires Fits(entries, maxLengths)
  {
    seq(|entries|, j requires 0 <= j < |entries| => RowLine(entries[j], maxLengths, nspaces, indent, status))
  }

  /** One group: its key in brackets, its rows, then an empty line. */
  function GroupLines(key: string, entries: seq<StatusEntry>, maxLengths: seq<nat>, nspaces: nat, indent: nat, color: bool, status: bool): seq<Line>
    requires Fits(entries, maxLengths)
  {
    [Header(key, color)] + RowLines(entries, maxLengths, nspaces, indent, status) + [Blank]
  }

  /** The groups named by `keys`, in that order. */
  function Table(rows: map<string, seq<StatusEntry>>, keys: seq<string>, maxLengths: seq<nat>, nspaces: nat, indent: nat, color: bool, status: bool): seq<Line>
    requires forall k | k in keys :: k in rows && Fits(rows[k], maxLengths)
  {
    if keys == [] then []
    else
      var key := keys[|keys| - 1];
      Table(rows, keys[..|keys| - 1], maxLengths, nspaces, indent, color, status)
        + GroupLines(key, rows[key], maxLengths, nspaces, indent, color, status)
  }

  /** The rows of the groups named by `keys`, group after group (`rows.values().flat_map(...)`). */
  function Flatten(rows: map<string, seq<StatusEntry>>, keys: seq<string>): seq<StatusEntry>
    requires forall k | k in keys :: k in rows
  {
    if keys == [] then [] else Flatten(rows, keys[..|keys| - 1]) + rows[keys[|keys| - 1]]
  }

  /** Every row of every listed group is among the flattened rows. */
  lemma {:induction false} FlattenHas(rows: map<string, seq<StatusEntry>>, keys: seq<string>, k: string, j: nat)
    requires forall k | k in keys :: k in rows
    requires k in keys && j < |rows[k]|
    ensures rows[k][j] in Flatten(rows, keys)
  {
    var n := |keys|;
    if keys[n - 1] == k {
      assert rows[k][j] == Flatten(rows, keys)[|Flatten(rows, keys[..n - 1])| + j];
    } else {
      assert k in keys[..n - 1];
      FlattenHas(rows, keys[..n - 1], k, j);
    }
  }

  /** Widths computed over all the rows leave room for every column of every group. */
  lemma FlattenFits(rows: map<string, seq<StatusEntry>>, keys: seq<string>, maxLengths: seq<nat>)
    requires forall k | k in keys :: k in rows
    requires |maxLengths| == MaxCols(Flatten(rows, keys))
    ensures forall k | k in keys :: Fits(rows[k], maxLengths)
  {
    forall k, j | k in keys && 0 <= j < |rows[k]| && rows[k][j].cols.Some?
      ensures |rows[k][j].cols.value| <= |maxLengths|
    {
      FlattenHas(rows, keys, k, j);
    }
  }

  /** A table has one line per row plus a header and a blank line per group. */
  lemma {:induction false} TableLength(rows: map<string, seq<StatusEntry>>, keys: seq<string>, maxLengths: seq<nat>, nspaces: nat, indent: nat, color: bool, status: bool)
    requires forall k | k in keys :: k in rows && Fits(rows[k], maxLengths)
    ensures |Table(rows, keys, maxLengths, nspaces, indent, color, status)| == |Flatten(rows, keys)| + 2 * |keys|
  {
    if keys != [] {
      TableLength(rows, keys[..|keys| - 1], maxLengths, nspaces, indent, color, status);
    }
  }

  /** The inner loop: one line per row of a group, its cells padded, joined and coloured. */
  method EmitRows(group: seq<StatusEntry>, maxLengths: seq<nat>, nspaces: nat, indent: nat, status: bool)
    returns (lines: seq<Line>)
    requires Fits(group, maxLengths)
    ensures lines == RowLines(group, maxLengths, nspaces, indent, status)
  {
    lines := [];
    for j := 0 to |group|
      invariant lines == RowLines(group[..j], maxLengths, nspaces, indent, status)
    {
      var row := group[j];
      var fixedRow := FixedRow(ColsOf(row), maxLengths, status);
      var statusLine := Join(fixedRow, Spaces(nspaces));
      var colour := if status then Some(RowColour(row.tracked, row.localStatus, row.remoteStatus)) else None;
      lines := lines + [Row(indent, statusLine, colour)];
    }
    assert group[..|group|] == group;
  }

  /** The outer loop: each group's header, its rows and an empty line, in the order of `keys`. */
  method EmitTable(rows: map<string, seq<StatusEntry>>, keys: seq<string>, maxLengths: seq<nat>, nspaces: nat, indent: nat, color: bool, status: bool)
    returns (lines: seq<Line>)
    requires forall k | k in keys :: k in rows && Fits(rows[k], maxLengths)
    ensures lines == Table(rows, keys, maxLengths, nspaces, indent, color, status)
  {
    lines := [];
    for g := 0 to |keys|
      invariant lines == Table(rows, keys[..g], maxLengths, nspaces, indent, color, status)
    {
      var key := keys[g];
      var rowLines := EmitRows(rows[key], maxLengths, nspaces, indent, status);
      lines := lines + [Header(key, color)] + rowLines + [Blank];
      assert keys[..g + 1][..g] == keys[..g];
    }
    assert keys[..|keys|] == keys;
  }

  /**
   * What `print_fixed_width_status` prints for `rows`: the groups in
   * ascending key order, every row coloured, with the column widths taken
   * over all rows of all groups.
   */
  ghost predicate IsStatusTable(rows: map<string, seq<StatusEntry>>, nspaces: nat, indent: nat, color: bool,
                                width: string -> nat, lines: seq<Line>)
  {
    exists keys: seq<string>, maxLengths: seq<nat> ::
      && Ascending(keys)
      && (forall k :: k in keys <==> k in rows)
      && IsColumnWidths(Flatten(rows, keys), width, maxLengths)
      && (forall k | k in keys :: Fits(rows[k], maxLengths))
      && lines == Table(rows, keys, maxLengths, nspaces, indent, color, true)
  }

  /** `print_fixed_width_status`: the status table of a `BTreeMap` of groups. */
  method PrintFixedWidthStatus(rows: map<string, seq<StatusEntry>>, nspaces: Option<nat>, indent: Option<nat>, color: bool,
                               width: string -> nat)
    returns (lines: seq<Line>)
    ensures IsStatusTable(rows, nspaces.UnwrapOr(DefaultSpacing), indent.UnwrapOr(DefaultIndent), color, width, lines)
  {
    var ind := indent.UnwrapOr(DefaultIndent);
    var ns := nspaces.UnwrapOr(DefaultSpacing);
    var keys := AscendingKeys(rows);
    var maxLengths := ColumnWidths(Flatten(rows, keys), width);
    FlattenFits(rows, keys, maxLengths);
    lines := EmitTable(rows, keys, maxLengths, ns, ind, color, true);
  }

  /**
   * `print_fixed_width`: the plain table of a `HashMap` of groups, which
   * visits its keys in an order of its own, given here as `order`; no row is
   * coloured and no cell gets a leading space.
   */
  method PrintFixedWidth(rows: map<string, seq<StatusEntry>>, order: seq<string>, nspaces: Option<nat>, indent: Option<nat>,
                         color: bool, width: string -> nat)
    returns (lines: seq<Line>)
    requires forall k :: k in order <==> k in rows
    requires forall i, j | 0 <= i < j < |order| :: order[i] != order[j]
    ensures exists maxLengths: seq<nat> ::
      && IsColumnWidths(Flatten(rows, order), width, maxLengths)
      && (forall k | k in order :: Fits(rows[k], maxLengths))
      && lines == Table(rows, order, maxLengths, nspaces.UnwrapOr(DefaultSpacing), indent.UnwrapOr(DefaultIndent), color, false)
  {
    var ind := indent.UnwrapOr(DefaultIndent);
    var ns := nspaces.UnwrapOr(DefaultSpacing);
    var maxLengths := ColumnWidths(Flatten(rows, order), width);
    FlattenFits(rows, order, maxLengths);
    lines := EmitTable(rows, order, maxLengths, ns, ind, color, false);
  }
}
