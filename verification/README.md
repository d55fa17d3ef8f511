# Installed-package identity and table cells, modelled in Dafny

This project models two pure pieces of fetter, a tool that audits the Python
packages installed in every interpreter on a machine.

* **Package identity** (`src/package.rs`). A `Package` is a name, a version
  and optional provenance (`direct_url.json`). It is read from the name of a
  wheel `.dist-info` metadata directory, `<name>-<version>.dist-info`. Every
  trailing `.dist-info` is stripped, the rest is split on `-`, the last part
  is the version and the other parts, joined with `-` again, are the name.
  Packages are ordered by lower-cased name, then by version, and display as
  `name-version`.
* **Table cells** (`src/table.rs`). These are the text-producing parts of the
  report renderer: fitting a cell to its column (`prepare_field`), the column
  widths, the widths used when the table needs no shrinking
  (`optimize_widths`), delimited rows, and the lines `to_table_writer`
  writes.

Modules, one per concept:

| file | module | contents |
|---|---|---|
| `wrappers.dfy` | `Wrappers` | `Option` |
| `orders.dfy` | `Orders` | `Ordering` with `then_with`/`reverse`, lexicographic comparison and its order laws |
| `strings.dfy` | `Strings` | `split`, `join`, `ends_with`, `trim_end_matches`, ASCII `to_lowercase`, padding |
| `version_spec.dfy` | `Versions` | a stand-in for `VersionSpec` (see below) |
| `package.dfy` | `Packages` | `Package`, its constructors, order and display forms |
| `table.dfy` | `Tables` | cell fitting, widths, delimited rows, `to_table_writer` |

Strings are `seq<char>` read as one character per byte. The source measures
cells with `len()` and cuts them with `&value[..n]`, both in bytes. On ASCII
text these agree with character counts, and only on such text does the cut
never fall inside a character.

`VersionSpec` lives in `src/version_spec.rs`, which is not part of this
model. The `Versions` module is a stand-in and an assumption, not taken from
that source. Text made only of dot-separated decimal numbers (`2024.6.0`) is a
`Release` of those numbers. Any other text is kept as an `Opaque` value. The
order compares releases lexicographically, with a shorter prefix first. Every
release is ordered before every opaque value, and opaque values are ordered by
code point. Display gives the canonical decimal form, or the opaque text
unchanged. This is enough for the package tests that compare `0.21.1` with
`2024.6.0` and display `3.9.0`. A full version order would also pad release
segments with zeros, so that `1.0` and `1.0.0` tie, and would handle pre-,
post-, dev- and local-version parts. The stand-in does neither.

Equality and order of packages differ, as in the code. `Package` derives
`PartialEq` over all three fields, `direct_url` included. `Ord::cmp` looks
only at the lower-cased name and the version. So `Packages.Cmp` can return
`Equal` for two packages that are not `==`, and `Packages.TieIsNotEquality`
shows such a pair: equality is stricter than a tie under `cmp`.

## Model

| member | source | states |
|---|---|---|
| Packages.FromNameAndVersion | src/package.rs:17-23 | always succeeds, keeps the name, records no provenance and parses the version text; when the version text is in canonical form the package displays as `name-version` |
| Packages.FromNameVersionDirectUrl | src/package.rs:24-34 | always succeeds and keeps the given provenance; apart from provenance it is the package `from_name_and_version` builds |
| Packages.SplitNameVersion | src/package.rs:38-41 | gives a result exactly when the text contains `-`; then name, `-` and version text rebuild the text, and the version text holds no `-` (the split is at the last `-`) |
| Packages.SplitNameVersionUnique | src/package.rs:38-41 | any split of the text into a name, `-` and a dash-free version is the one chosen, so names containing `-` survive whole |
| Packages.StripDistInfo | src/package.rs:37 | the stripped text is a prefix of the input and no longer ends with `.dist-info` |
| Strings.EndsWithSplit | src/package.rs:36 | a text that ends with the suffix is what comes before the suffix followed by it |
| Strings.EndsWithAppend | src/package.rs:36 | any text followed by the suffix ends with it |
| Strings.TrimEndMatches | src/package.rs:37 | the result is a prefix of the text and does not end with the suffix |
| Strings.Split | src/package.rs:38 | there is always at least one part, and no part contains the separator |
| Strings.SplitAtLeastTwo | src/package.rs:38-39 | there are two or more parts exactly when the text contains the separator |
| Strings.JoinSplit | src/package.rs:38-40 | joining the parts of a split with the separator gives the text back |
| Strings.SplitJoin | src/package.rs:38-40 | splitting a join of separator-free parts gives the parts back |
| Strings.JoinLast | src/package.rs:40-41 | a join of two or more parts is the join of all but the last, the separator, then the last part |
| Strings.ToLower | src/package.rs:72-73 | same length; no ASCII capital is left; a capital becomes the letter 32 code points later and every other character is kept |
| Strings.PadRight | src/table.rs:117-128 | as long as the larger of the text and the width; the text comes first and only spaces follow |
| Strings.TrimEndMatchesRemovesCopies | src/package.rs:37 | what the strip removes is a whole number of copies of `.dist-info` |
| Strings.TrimEndMatchesRepeat | src/package.rs:37 | appending any number of copies of the suffix does not change the stripped text |
| Packages.FromDistInfoRepeatedSuffix | src/package.rs:36-37 | a name ending in one or more repetitions of `.dist-info` parses the same as one ending in a single `.dist-info` |
| Packages.FromDistInfo | src/package.rs:35-46 | a package exactly when the input ends with `.dist-info` and the stripped text contains `-`; it has no provenance, its name is the stripped text up to the last `-`, and its version is parsed from the dash-free rest |
| Packages.FromDistInfoWrongSuffix | src/package.rs:105-108 | `matplotlib-3.9.0.dist-in` gives no package |
| Packages.FromDistInfoNoDash | src/package.rs:38-45 | any dash-free text followed by one or more copies of `.dist-info` gives no package |
| Packages.FromFilePath | src/package.rs:47-65 | no package unless the path has a readable last component naming a directory; otherwise the same package as `from_dist_info` gives, with provenance taken from `direct_url.json` only when that is a file |
| Packages.DisplayRoundTrip | src/package.rs:82-86 | a package with a release version and no provenance is parsed back exactly from its display form with `.dist-info` appended, whatever its name |
| Packages.Display | src/package.rs:82-86 | the display form is the name, then `-`, then the version's display form |
| Packages.DebugText | src/package.rs:87-91 | the debug form is the display form inside `<Package: ` and `>` |
| Packages.Cmp | src/package.rs:69-76 | a tie exactly when lower-cased names and versions are equal; whenever lower-cased names differ, their order decides; when they are equal, the version order decides |
| Packages.Lt | src/package.rs:116-117 | `p < q` exactly when the lower-cased name of `p` comes first in code-point order, or the lower-cased names are equal and the version of `p` comes first |
| Packages.Gt | src/package.rs:116-117 | `p > q` exactly when `q < p` |
| Packages.PartialCmp | src/package.rs:77-80 | always defined and equal to `cmp`, so the order is total |
| Packages.CmpFlip | src/package.rs:69-76 | comparing the other way round gives the reversed result |
| Packages.Trichotomy | src/package.rs:69-80 | exactly one of `p < q`, a tie and `p > q` holds, and `p < q` exactly when `q > p` |
| Packages.LtTransitive | src/package.rs:69-80 | `<` is transitive |
| Packages.TieIsNotEquality | src/package.rs:10-15 | two packages differing in name case and provenance tie under `cmp` yet are not `==` |
| Packages.ExampleMatplotlib | src/package.rs:98-103 | `matplotlib-3.9.0.dist-info` gives name `matplotlib`, the release `3.9.0` and no provenance |
| Packages.ExampleMatplotlibDisplay | src/package.rs:121-125 | that package displays as `matplotlib-3.9.0` |
| Packages.ExampleHyphenatedName | src/package.rs:38-42 | `scikit-learn-1.3.0.dist-info` gives name `scikit-learn` and version `1.3.0` |
| Packages.ExampleXarrayOrder | src/package.rs:110-120 | `xarray-0.21.1` comes before `xarray-2024.6.0`; two parses of one name are `==`, parses of different names are not |
| Packages.ExampleNumpyDisplay | src/package.rs:131-136 | `numpy` `2.1.2` displays as `numpy-2.1.2` |
| Packages.ExampleNumpyDebug | src/package.rs:131-136 | `numpy` `2.1.2` debugs as `<Package: numpy-2.1.2>` |
| Versions.Parse | src/package.rs:20 | stand-in: the result is well formed; it is a release exactly when every dot-separated part is a decimal numeral, with one number per part; otherwise the text is kept unchanged |
| Versions.ToString | src/package.rs:84 | stand-in: a non-empty release displays with no `-` and ends in a digit; opaque text displays unchanged |
| Versions.Cmp | src/package.rs:74 | stand-in version order: a tie exactly when the versions are equal |
| Versions.ParseToString | src/package.rs:20 | stand-in: every value the parser can produce is parsed back from its display form |
| Versions.ParseIdempotent | src/package.rs:20 | stand-in: re-parsing the display form of a parse changes nothing |
| Versions.CmpFlip | src/package.rs:74 | stand-in: the version order reverses when its arguments are swapped |
| Versions.CmpLessTransitive | src/package.rs:74 | stand-in: the version order is transitive |
| Orders.Ordering.Then | src/package.rs:74 | `then_with`: a decided first comparison stands; the result is a tie only when both are ties, and `Less` exactly when the first is `Less` or a tie followed by `Less` |
| Orders.LexCompare | src/package.rs:71-73 | the string comparison of names ties exactly on equal sequences |
| Orders.LexCompareLessIff | src/package.rs:71-73 | `Less` exactly when the first is a proper prefix of the second or is smaller at the first difference |
| Orders.LexCompareFlip | src/package.rs:71-73 | the string comparison reverses when its arguments are swapped |
| Orders.LexCompareLessTransitive | src/package.rs:71-73 | the string comparison is transitive |
| Tables.DelimitedRow | src/table.rs:39-47 | a delimited row ends in a newline, and before it are the elements joined by the delimiter |
| Tables.DelimitedRowReadBack | src/table.rs:44 | with a one-character delimiter no element contains, splitting the row on it gives the elements back |
| Tables.PrepareField | src/table.rs:116-130 | the cell is as long as the larger of the shown content and `width_pad`, and spaces follow the content; a value that fits is shown whole; a longer one is cut to `width_chars` characters, ending in `...` when both the width and the excess are more than three |
| Tables.PrepareFieldExactWidth | src/table.rs:116-130 | when `width_pad >= width_chars` the cell is exactly `width_pad` long |
| Tables.PrepareFieldKeepsFittingValue | src/table.rs:117-118 | a value no longer than `width_chars` is the value followed by spaces up to `width_pad` |
| Tables.ColumnWidth | src/table.rs:157-169 | a column's width is at least its header's length and every element's length in that column, and equals one of them |
| Tables.ComputeWidthsMax | src/table.rs:157-169 | the nested width loop computes exactly those column widths, given that no row has more elements than there are headers |
| Tables.OptimizeWidths | src/table.rs:55-76 | full widths are kept exactly when no column is ellipsisable, the table fits the terminal, or the terminal width is 0; then each column shows its full width and pads it with the gutter |
| Tables.FullWidthsFill | src/table.rs:61 | full-width columns add up to the total width: widths plus one gutter per column |
| Tables.FullWidthsFitTerminal | src/table.rs:61-75 | when full widths are kept although a column could shrink, the padded columns fit the terminal |
| Tables.FormatCells | src/table.rs:173-183 | an empty row writes nothing, and a full row of cells is as long as its columns' padded widths together |
| Tables.FormatCellsConcat | src/table.rs:173-181 | a row's text is the `prepare_field` output of each element, in column order, written one after another |
| Tables.FormatCellsAt | src/table.rs:179-181 | when every column pads at least as wide as it shows, element `i`'s fitted cell is the `widthPad`-long stretch of the row that starts after the padded widths of the columns before it |
| Tables.FormatCellsLength | src/table.rs:179-182 | when every column pads at least as wide as it shows, a row is as long as the padded widths of the columns it fills |
| Tables.FormatCellsLayout | src/table.rs:173-181 | when every column pads at least as wide as it shows, element `i`'s fitted cell sits right after the padded widths of the columns before it, and the row ends after the last element's cell |
| Tables.WidthsMax | src/table.rs:157-169 | one width per header, at least that header's length and at least the length of every element in its column |
| Tables.ToTableWriter | src/table.rs:133-187 | nothing is written when there are no records or no headers; otherwise one header line and one line per row, each ending in a newline; delimited lines are the delimited header and rows; terminal lines are the header's fitted cells and each row's fitted cells, each followed by a newline |
| Tables.TerminalTableKeepsCells | src/table.rs:155-184 | with full widths kept, fitting any header or element to its column leaves it whole and pads it with spaces, and the header line and every full row are the total width plus the newline long |
| Tables.FullWidthCellAt | src/table.rs:173-183 | under full widths, the line of a row shows an element that fits its column whole, padded to the column width plus the gutter, right after the full widths and gutters of the columns before it |
| Tables.TerminalHeaderCell | src/table.rs:155-176 | with full widths kept, the header line `to_table_writer` writes shows every header whole at its column's place, padded to the column width plus the gutter |
| Tables.TerminalRowCell | src/table.rs:155-183 | with full widths kept, every row line `to_table_writer` writes shows each of its elements whole at its column's place, padded to the column width plus the gutter |

## Left out

- `VersionSpec` (src/version_spec.rs) is not part of this model. The `Versions` module is an assumed stand-in with release numbers and opaque text. It has no zero padding and no pre-, post-, dev- or local-version parts.
- `DirectURL` (src/package_durl.rs) is not part of this model. It is an opaque value that is carried and compared but never inspected.
- `Package::from_file_path` queries the file system. The model takes its outcomes as parameters: the last path component when it is valid text, whether the path is a directory, whether `direct_url.json` is a file, and what reading that file gave.
- Packages.Cmp: `to_lowercase` is modelled for ASCII letters only; other letters keep their case.
- The proportional shrinking branch of `optimize_widths` (src/table.rs:77-113) is left out. It uses floating-point arithmetic and needs the terminal size, a terminal query. The model passes the terminal width in, with 0 for an unreadable size, and returns `None` where that branch would run. Tables.ToTableWriter returns `None` there too.
- Tables.OptimizeWidths: the sum of widths is an unbounded integer, so `usize` overflow is not modelled; the terminal width is a `nat` rather than a `u16`.
- `write_color`, `Tableable::to_writer`, `to_file` and `to_stdout` are left out (src/table.rs:12-25, 204-239). So are the `write!`/`writeln!` calls and their I/O errors. These are terminal and file I/O. `to_table_writer` is modelled as the list of lines it writes.
- `Rowable::to_rows` is implemented elsewhere. Each record's rows are an input, and `RowableContext` is not modelled.
- `HeaderFormat::new` is the `HeaderFormat` datatype constructor.
- src/main.rs only wires up the entry point. The modules it names besides `package` are not part of this model.
- Strings.PadRight and Tables.PrepareField: lengths count bytes, one character per byte. On non-ASCII text the source's `&value[..n]` (src/table.rs:123, 127) panics when `n` falls inside a character, and `{:<w$}` pads by characters, not bytes. The model never fails and counts every character as one byte.
- Tables.ComputeWidthsMax and Tables.ToTableWriter require that no row has more elements than there are headers. A longer row makes `widths_max[i]` (src/table.rs:165) index out of bounds and panic. That panic is not modelled.
- Strings.Join carries no contract of its own. Its properties are the lemmas Strings.JoinSplit, Strings.SplitJoin and Strings.JoinLast.
- Strings.EndsWith carries no contract of its own. It is characterised by the lemmas Strings.EndsWithSplit and Strings.EndsWithAppend.
