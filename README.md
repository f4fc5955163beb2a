# scidataflow status report, in Dafny

This project models the reporting core of scidataflow's `src/utils.rs`: the
part that turns reconciled data-file status rows into the status table the
`sdf status` command prints, plus the streaming MD5 helper used to fingerprint
files.

- **Row colours** (`StatusColour`): the first-match table over
  (tracked, local status, remote status). For each colour, its contract states
  exactly which triples get it.
- **Column widths and row layout** (`FixedWidth`):
  - the width pass, proved against a reference maximum (`Widest`);
  - fixed-width padding, with the status table's extra leading space before
    the first cell;
  - the joined row line and its alignment: every cell starts at the same
    column in every row whose earlier cells fit;
  - the whole table as the sequence of lines it prints (header, rows, blank
    line per group) for the status printer (`BTreeMap`, ascending keys) and
    the plain printer (`HashMap`, any key order).
- **BTreeMap iteration order** (`Ordering`): Rust's string order as a strict
  total order, and a loop that lists a map's keys in ascending order.
- **Grouping and remote names** (`StatusReport`):
  - `organize_by_dir`, specified as a partition of the rows by the parent
    directory of their first column, with order kept inside each group;
  - the remote-name key rewrite of `print_status`, which inserts groups into a
    new map in ascending key order, so a later group wins when two keys
    collide;
  - `print_status` as the composition of the three steps.
- **`compute_md5`** (`Md5Stream`):
  - the read loop over a 1024-byte buffer feeding an incremental context;
  - an opened file carries its bytes and, optionally, a read error that occurs once reading reaches a given offset;
  - how many bytes one read delivers is nondeterministic;
  - the digest is symbolic (`Md5Of(bytes)`).

Printing is replaced by the list of lines a printer would write. Each line
carries its styling (bold key, row colour) as a tag. Display width
(`UnicodeWidthStr::width`) is a parameter `width: string -> nat`.

The model follows the code where other descriptions of the program differ:

- `compute_md5` gives the digest of the empty input for an empty file. Its doc
  comment says it returns no digest there, but only a file that cannot be
  opened gives no digest.
- An untracked, locally current file whose remote copy differs reaches the
  catch-all arm `(Some(false), Current, _)` and is shown green, not as needing
  attention.
- `print_fixed_width_status` colours every row whatever its `color` argument
  says. The flag only makes group keys bold.
- A file given by a bare name (no `/`) is grouped under the empty directory
  `""`.

## Model

| member | source | states |
|---|---|---|
| StatusColour.RowColour | src/utils.rs:176-192 | red exactly for modified files whose trackedness is known; green exactly for tracked-and-current rows with no remote or a current remote copy, for current rows with neither trackedness nor remote, and for untracked current rows whose remote copy differs; yellow exactly for untracked current rows with no remote copy and tracked current rows missing or differing on the remote; cyan for everything else |
| StatusColour.ModifiedRows | src/utils.rs:186-191 | a modified file is red whatever the remote says when trackedness is known, cyan otherwise |
| StatusColour.UntrackedCurrentRows | src/utils.rs:180-190 | untracked current files: cyan when on the remote, yellow when absent from it, green when the remote copy differs |
| StatusColour.UnknownTrackednessRows | src/utils.rs:184-191 | without trackedness a row is green exactly when it is current and no remote applies, cyan otherwise |
| FixedWidth.Spaces | src/utils.rs:172 | `" ".repeat(n)` is n characters, all spaces |
| FixedWidth.MaxCols | src/utils.rs:129-138 | the column count is at least every row's number of columns and equals one of them (0 when no row has columns) |
| FixedWidth.WidestBounds | src/utils.rs:143-149 | every cell of column c is no wider than the column's width |
| FixedWidth.WidestAttained | src/utils.rs:143-149 | a column's width is the width of one of its cells |
| FixedWidth.WidestIsColumnWidths | src/utils.rs:140-149 | the per-column maxima have one entry per column, fit every cell and are attained |
| FixedWidth.ColumnWidths | src/utils.rs:140-149 | the width pass over zeros leaves, for every column, the widest cell of that column across all rows: every cell fits and every entry is attained |
| FixedWidth.Pad | src/utils.rs:168 | a padded cell starts with the text, continues with spaces only, and has length max(text length, width), so it is never truncated |
| FixedWidth.Lead | src/utils.rs:167-168 | the status table puts one space before a row's first cell and nothing before the others |
| FixedWidth.FixedRow | src/utils.rs:164-171 | the push loop builds, for each column, the padded cell preceded by one space for the first column of the status table |
| FixedWidth.Join | src/utils.rs:175 | a joined row line starts with its first cell |
| FixedWidth.StartOfPrefix | src/utils.rs:175 | a cell's offset in a joined line depends only on the cells before it |
| FixedWidth.JoinLength | src/utils.rs:175 | a join of k cells ends right after its last cell |
| FixedWidth.JoinCellAt | src/utils.rs:175 | each cell appears unchanged at its offset in the join |
| FixedWidth.JoinSeparatorAt | src/utils.rs:175 | exactly one separator follows every cell but the last |
| FixedWidth.StartIsColumnStart | src/utils.rs:164-175 | when the earlier cells fit, cell i's offset in the row is a sum of the column widths, the separators and the leading space, the same for every row |
| FixedWidth.ColumnStartInCells | src/utils.rs:164-175 | the column offset of cell i equals its offset in the joined cells plus its leading space |
| FixedWidth.CellText | src/utils.rs:167-168 | a cell holds its column text right after its leading space |
| FixedWidth.JoinTextAt | src/utils.rs:175 | a piece of cell i stands in the joined line at the cell's offset plus the piece's offset |
| FixedWidth.CellAligned | src/utils.rs:164-175 | in the printed line, indentation included, column i's text starts at the same column in every row whose earlier cells fit their widths |
| FixedWidth.RowLineAligned | src/utils.rs:164-176 | in the characters a printed row line shows, column i's text starts at the same column in every row whose earlier cells fit their widths |
| FixedWidth.CellsSeparated | src/utils.rs:172-175 | between neighbouring cells of a row stand exactly nspaces spaces |
| FixedWidth.RowBodyLength | src/utils.rs:164-175 | a row of k cells is the cells' lengths plus k-1 separators long |
| FixedWidth.FlattenHas | src/utils.rs:143 | the widths are taken over every row of every group |
| FixedWidth.FlattenFits | src/utils.rs:129-149 | widths computed over all rows leave room for every row of every group, so no column index is out of range |
| FixedWidth.TableLength | src/utils.rs:154-196 | the table has one line per row plus a header and a blank line per group |
| FixedWidth.EmitRows | src/utils.rs:159-194 | the row loop prints one line per row of the group, in order: indentation, padded cells joined by the spacer, and the row's colour from the colour table |
| FixedWidth.EmitTable | src/utils.rs:154-196 | the group loop prints, per key in the given order, `[key]` (bold when asked), the group's rows and an empty line |
| FixedWidth.PrintFixedWidthStatus | src/utils.rs:125-196 | the status table: nspaces defaults to 6 and indent to 0, groups come in ascending key order, widths are the column maxima over all rows, and every row is coloured |
| FixedWidth.PrintFixedWidth | src/utils.rs:70-121 | the plain table: the same defaults and widths, groups in the map's own iteration order, no colour and no leading space |
| Ordering.BelowIrreflexive | src/utils.rs:152-154 | no string comes before itself |
| Ordering.BelowTransitive | src/utils.rs:152-154 | the string order is transitive |
| Ordering.BelowTotal | src/utils.rs:152-154 | any two distinct strings are ordered one way or the other |
| Ordering.LeastOfInsert | src/utils.rs:154 | adding a string to a set keeps the smaller of it and the old least element as the least |
| Ordering.LeastExists | src/utils.rs:154 | every non-empty finite set of keys has a least key |
| Ordering.AscendingKeys | src/utils.rs:154 | a `BTreeMap` is visited in strictly ascending key order, every key exactly once |
| Md5Stream.Context.constructor | src/utils.rs:54 | a fresh context has consumed nothing |
| Md5Stream.Context.Consume | src/utils.rs:63 | consuming appends the bytes to what was consumed |
| Md5Stream.Context.Compute | src/utils.rs:66 | the digest is the digest of exactly the bytes consumed so far |
| Md5Stream.File.Open | src/utils.rs:48-51 | an opened file is read from its start, with the bytes and read error it was opened with |
| Md5Stream.File.Read | src/utils.rs:57-62 | a read fails, with the file's error and without moving, exactly when reading has reached the file's read error; otherwise it copies the next bytes of the file to the front of the buffer, at most the buffer's length, and returns 0 only at end of file |
| Md5Stream.ComputeMd5 | src/utils.rs:45-68 | a file that cannot be opened gives `Ok(None)`; a file whose read error lies within its content gives `Err("I/O reading file: " + the error's text)`; every other file gives `Ok(Some(md5 of the whole content))`, including an empty file; the chunks read are non-empty, at most 1024 bytes, and concatenate to the content on success |
| StatusReport.LastSlash | src/utils.rs:204-205 | the position of the last `/`, with no `/` after it |
| StatusReport.Parent | src/utils.rs:204-205 | no parent exactly for `""` and `/`; the parent is a prefix of the path; a bare name's parent is `""` |
| StatusReport.ParentOfChild | src/utils.rs:204-205 | the parent of `dir/name` is `dir` |
| StatusReport.DirKey | src/utils.rs:202-206 | a row has a group exactly when it has columns and its first column is neither empty nor the root, and the group is a prefix of that column |
| StatusReport.GroupCount | src/utils.rs:199-214 | a group holds each row of its directory as many times as the input does, and no row of another directory |
| StatusReport.GroupAppend | src/utils.rs:201-211 | grouping keeps input order: the group of a + b is the group of a followed by the group of b |
| StatusReport.DirsMembership | src/utils.rs:201-211 | a directory is a group key exactly when some row's first column has it as parent |
| StatusReport.GroupEmpty | src/utils.rs:208 | a directory no row belongs to has no rows |
| StatusReport.GroupSnoc | src/utils.rs:201-211 | a further row adds its directory to the keys and is pushed to its group's end only |
| StatusReport.OrganizeByDir | src/utils.rs:199-214 | the map has one key per parent directory of a first column, and each key maps to exactly that directory's rows in input order; rows without columns, with empty columns or with a parentless path are dropped |
| StatusReport.GroupedPartition | src/utils.rs:199-214 | each row with a directory is in its own directory's group exactly as often as in the input and in no other group; rows without a directory are in none |
| StatusReport.RemoteKey | src/utils.rs:226-231 | a key without a registered remote is kept; a key with one grows by `" > "` and the remote's name |
| StatusReport.RemoteKeyRewrite | src/utils.rs:225-231 | the new key extends the old key with `" > " + name` when a remote is registered for the key, and is the key itself exactly when none is |
| StatusReport.InsertedSnoc | src/utils.rs:224-233 | each further insert updates the map at its own key only |
| StatusReport.InsertedKeys | src/utils.rs:224-233 | after a sequence of inserts, a key is in the map exactly when some insert used it |
| StatusReport.InsertedLastWins | src/utils.rs:224-233 | after a sequence of inserts, a key holds the value of the last insert under it |
| StatusReport.InsertedMerged | src/utils.rs:222-236 | inserting the groups in ascending key order under their rewritten keys yields exactly the rewritten keys, each holding the rows of the greatest group rewritten to it |
| StatusReport.MergeRemoteNames | src/utils.rs:222-236 | without remotes the groups are unchanged; with remotes the keys are the rewritten keys, and each group keeps its rows under its new key unless a greater key was rewritten to the same key, in which case the later insert wins |
| StatusReport.MergedWithoutCollisions | src/utils.rs:222-236 | when no two keys are rewritten alike, every group keeps its rows under its rewritten key |
| StatusReport.PrintStatus | src/utils.rs:220-238 | the report is the status table (default spacing and indent, bold keys) of the rows grouped by directory with remote-annotated keys |

## Left out

- `format_bytes`, `format_mod_time`, `load_file`, `ensure_directory` and `ensure_exists`: they are not part of the report.
- The two header lines of `print_status` (the title and the "N data files registered" count) are not modelled. They are plain console output.
- The MD5 algorithm and the hexadecimal rendering of the digest: the digest is the symbolic `Md5Of(content)`.
- Injectivity of the symbolic digest: the datatype constructor `Md5Of` is injective, so in the model equal digests mean equal contents, which MD5 does not guarantee; no property of the model depends on this.
- Operating-system behaviour of `File::open` and `Read::read`. The open outcome is a parameter. A read error is fixed per file, at an offset; an error that a retry could clear is not modelled. A read's chunk size is a nondeterministic choice.
- The `{:?}` rendering of an I/O error is its abstract `detail` text.
- Unicode display width tables: `width` is a parameter. Padding counts characters, as `{:width$}` does, so alignment is proved for rows whose cells' character counts fit their column widths, as when display width equals character count.
- ANSI escape sequences and `println!`: styling is a tag on each line, and output is the returned list of lines.
- The iteration order of a `HashMap` in `print_fixed_width` is a parameter (any enumeration of the keys without repeats). The sorted `keys` vector of both printers is never used and is not modelled.
- StatusReport.Parent: `Path::parent` is modelled lexically on `/`. Trailing or repeated separators, `.` and `..` components, and prefixes of other platforms are not normalised.
- Integer widths: `usize` counts and widths are unbounded naturals, since the source never comes near overflow.
- `dev/test_data.py`: a test-data generator, not part of the report.
