# csvtool core, modelled in Dafny

csvtool is a command-line multi-tool for CSV files. Its sub-commands print,
pivot, sort and convert tables. This project models the parts that carry its
logic:

- **NULL-aware reading and writing** (`Reader.next`, `Writer._fixrow`). The
  reader turns a field equal to the configured input null token into NULL.
  The writer turns NULL into the output null token (`codec.dfy`).
- **Column addressing** (`Main.parse_colspec`, `Main.parse_collist`). A column
  is named by a 1-based number, a negative number counting from the right,
  or a header name. An exact match is preferred over a case-insensitive one
  (`columns.dfy`). A column list is a comma-separated list of such terms.
- **Numeric coercion** (`Main.to_numeric`). It models Python 2 `int()` on
  strings: surrounding white space, an optional sign, decimal digits
  (`values.dfy`, `strings.dfy`).
- **The pivot engine** (`pivot_cmd`). Each body row contributes its value
  under a (row key, column key) pair. The sums are accumulated in a
  dictionary of dictionaries. The output has one row per row key and one
  column per column key, both in ascending order, and NULL for pairs never
  seen (`pivot.dfy`).
- **The sort engine** (`sort_cmd.parse_sortspec` and its sort loop). A sort
  term is a column, optionally prefixed by `-`/`+` (direction) and `#`
  (numeric). Numeric columns are coerced in place. The table is then sorted
  once per term, last term first. Because each pass is stable, the result is
  a lexicographic stable sort on all terms (`sort.dfy`, `ordering.dfy`).
- **Column widths** of the fixed-width renderers (`cmd.parse_widths`,
  `update_widths`, `finalize_widths`): a mutable list kept on the command
  object (`widths.dfy`).
- **The COPY encoder** (`tocopy_cmd.toStr`). It escapes values into the
  PostgreSQL `COPY ... FROM` text format. Beside it sits a decoder for that
  format, following the PostgreSQL documentation of `COPY` (text format,
  backslash escapes), so that round trips can be stated (`copy.dfy`). The
  encoder, the fields, the lines and the output all take the padding of the
  octal codes as a parameter. A space is the program as written and a zero
  is the corrected encoder (see Findings). The shape of the output is proved
  for both, and the round trips for the corrected one.

Values are `Null | Int(n) | Text(s)`. `Int` exists because the sort command
coerces numeric columns in place and the pivot emits sums. Where the Python
program would raise (an `IndexError`, a `ValueError` from `int()`, a
`TypeError` from `int(None)`, an `AttributeError` from `.lower()` on a NULL
header cell), the model returns an `Err` result. The lists the source loops
over are collected by one generic loop, `Wrappers.Collect`: it keeps going
while each step succeeds and stops at the first failure. `Wrappers.CollectSpec`
states that loop's meaning once for all its uses.

Two facts about the code shape the model:

- A negative column number is kept as is, and resolved like a Python list
  index when a row is addressed, so `-1` is the last cell of each row,
  whatever the header's length.
- `to_numeric` falls back to `float()`. Floating point is left out (see
  below), so a non-integral string is an error here.

## Model

| member | source | states |
|---|---|---|
| Codec.ReadRow | csvtool.py:52-59 | One value per raw field. A field becomes NULL exactly when an input null token is configured and the field equals it; every other field keeps its text. |
| Codec.FixRow | csvtool.py:72-78 | Same length as the row and no NULL left. Each NULL becomes the output null token; every other value is unchanged. |
| Codec.RoundTrip | csvtool.py:44-78 | Writing a row with null token `t` and reading it back with input null `t` restores the row if and only if no text cell equals `t`. |
| Codec.DefaultsLoseNull | csvtool.py:44-65 | With the default settings (no input null, output null `''`), a written and re-read row has every NULL turned into empty text and everything else kept. |
| Values.ResolveIndex | csvtool.py:218-221 | Python list indexing: an index is valid exactly when `-n <= i < n`; a non-negative index is itself, a negative one counts from the end. |
| Values.CellAt | csvtool.py:218-221 | `row[c]` succeeds exactly when the index is valid for the row and yields that cell; otherwise IndexOutOfRange. |
| Values.ToNumeric | csvtool.py:830-834 | An integer stays itself. NULL fails as `int(None)` does. Text converts exactly when `int()` accepts it, to `int()`'s value; otherwise NotNumeric carrying the text. |
| Values.ToNumericOfString | csvtool.py:830-832 | The decimal rendering of any integer, padded with any white space, converts back to that integer. |
| Values.TupleLtIrreflexive | csvtool.py:226-230 | No key is below itself in the tuple order used to sort pivot keys. |
| Values.TupleLtTransitive | csvtool.py:226-230 | The tuple order is transitive. |
| Values.TupleLtTotal | csvtool.py:226-230 | Any two distinct keys are ordered one way or the other, so sorting the keys determines one listing. |
| Strings.ParseIntOfString | csvtool.py:796-798 | `int()` reads back the decimal rendering of any integer, with white space around it. |
| Strings.SplitJoin | csvtool.py:820-826 | Splitting the comma-join of comma-free terms gives the terms back. |
| Strings.JoinSplit | csvtool.py:820-826 | Joining the pieces of a split gives the string back. |
| Columns.ParseColspec | csvtool.py:790-818 | A number 0 fails (ColumnNumberZero); a positive number n is column n-1; a negative number is kept. Any other spec resolves to the first header cell equal to it, and always succeeds when there is one. Without an exact match it resolves to the first cell equal to it ignoring case. It fails with ColumnNotFound only when no cell matches either way, and with NonTextHeader only when there is no exact match and a NULL cell comes before any case-insensitive match. |
| Columns.NullHeaderCell | csvtool.py:800-810 | A NULL header cell does not stop the exact scan (`a` still finds column 1 past it); only the case-insensitive scan fails on it (`A` fails with NonTextHeader). |
| Columns.ParseCollist | csvtool.py:820-828 | The loop returns Collist: an absent or empty spec is the empty list; otherwise each comma-separated term is resolved in order, and the first failure is the result. |
| Columns.ResolveAllSpec | csvtool.py:824-826 | The list resolves exactly when every term does: one index per term, in order. On failure the error is that of the first failing term, and every term before it resolved. |
| Columns.ColumnNumber | csvtool.py:796-816 | The decimal spec of n > 0 is column n-1, that of n < 0 is n itself, and `0` fails with ColumnNumberZero, whatever the header. |
| Columns.FirstAndLast | csvtool.py:812-816 | `1` is the first column, and `-1` addresses the last cell of any non-empty row. |
| Columns.NameLookup | csvtool.py:796-802 | A spec holding any character other than white space, digits and signs is never a number, so it is looked up by name. |
| Columns.ExactBeatsFolded | csvtool.py:802-810 | With header `A,a,B`: `A` finds column 0, `a` finds column 1 (the exact match, though `A` matches it ignoring case first), and `b` finds column 2 by the case-insensitive fallback. |
| Columns.CollistOfJoin | csvtool.py:820-828 | When the join is non-empty, parsing the comma-join of comma-free terms resolves exactly those terms, in order. (The join of `[""]` is empty and gives `[]`.) |
| SortCommand.ReadTerm | csvtool.py:292-304 | Reading one term gives TermOf. The last `-`/`+` decides the direction, any `#` marks the column numeric, and the rest is resolved as a column spec. A term made only of modifiers fails (EmptySortTerm, where Python raises IndexError). |
| SortCommand.SortCmd.ParseSortspec | csvtool.py:286-308 | On success the sort list is the terms' (column, descending) pairs reversed, and the numeric list is the numeric terms' columns in order. On failure the error is the first bad term's, and both lists hold the terms before it unreversed, as Python leaves them. |
| SortCommand.SortCmd.Run | csvtool.py:268-277 | Succeeds exactly when every row coerces and every sort column exists in every row. The result is then a stable lexicographic sort of the coerced rows on the terms in the order written. Otherwise the error is the coercion's, or IndexOutOfRange. |
| SortCommand.ReadRows | csvtool.py:268-272 | The reading loop returns CoerceAll: each row in order with its numeric cells converted, stopping at the first failure. |
| SortCommand.ConvertRow | csvtool.py:272-273 | Converting one row's numeric cells gives CoerceRow. |
| SortCommand.SortPasses | csvtool.py:276-277 | The passes succeed exactly when every sort column exists in every row; the result is then a stable sort on the reversed pass list. |
| SortCommand.SortTable | csvtool.py:257-284 | The whole command: a bad sortspec gives its error. Once the spec resolves, the command succeeds exactly when every row coerces and every row has every sort column. The errors are then the first coercion failure, or IndexOutOfRange for a row too short. A result is the header followed by a stable sort of the coerced body, one row per body row, on the terms as written. |
| SortCommand.AllHaveReversed | csvtool.py:276-308 | Running the passes over the reversed term list needs the same columns as the terms in declared order. |
| SortCommand.CoerceAllLength | csvtool.py:268-274 | Coercion keeps one row per input row, each the row's own coercion. |
| SortCommand.DirectionOfLast | csvtool.py:294-300 | A trailing `-` makes the term descending, `+` ascending, and `#` leaves the direction alone; the term is numeric exactly when some modifier is `#`. |
| SortCommand.TermOfModifiers | csvtool.py:293-304 | A term is its modifiers followed by a column spec: its direction and numeric flag come from the modifiers and its column from the spec, and a bad spec gives the spec's error. |
| SortCommand.EmptyTermFails | csvtool.py:293 | A term of modifiers only, the empty term included, fails. |
| SortCommand.PositiveColumn | csvtool.py:293-301 | A positive column number is never taken for a modifier and names column n-1. |
| SortCommand.MinusIsDescending | csvtool.py:294-296 | `-c` sorts column c descending, not numeric. |
| SortCommand.NumericDescending | csvtool.py:294-300 | `#-c` sorts column c descending and numeric. |
| SortCommand.LastModifierWins | csvtool.py:294-298 | `-+c` sorts ascending: the last direction modifier wins. |
| SortCommand.CoercedShape | csvtool.py:272-273 | A coerced row has the same length, an integer at every numeric column, and every other cell unchanged. |
| SortCommand.CoerceAllFixed | csvtool.py:268-274 | Rows whose numeric cells are already integers come through coercion unchanged. |
| SortCommand.SortAgain | csvtool.py:268-277 | Sorting the output again with the same spec changes nothing: its numeric cells are already integers and the stable sort is idempotent. |
| Ordering.SortPassIsStable | csvtool.py:276-277 | One `t.sort(key=..., reverse=...)` pass is a stable sort on that key. It is a permutation, sorted in that direction, and rows with equal keys keep their order, including under `reverse=True`. |
| Ordering.SortPassOn | csvtool.py:276-277 | One pass is a permutation, sorted on its key, and keeps each equal-key group in order. |
| Ordering.PassCompose | csvtool.py:276-277 | A stable pass on t after a stable sort on ts is a stable sort on t followed by ts: why the passes run over the reversed term list. |
| Ordering.StableSortUnique | csvtool.py:276-277 | Two permutations of the same rows, both sorted on the terms and both keeping each equal-key group's order, are equal: the stable sort's output is determined. |
| Ordering.SortedIsFixpoint | csvtool.py:276-277 | Sorting an already sorted table gives it back unchanged. |
| Ordering.SortIdempotent | csvtool.py:276-277 | Sorting twice on the same terms gives the same result as sorting once. |
| Ordering.DirLtTransitive | csvtool.py:276-277 | The per-key order, ascending or descending, is transitive. |
| Ordering.DirLtTotal | csvtool.py:276-277 | The per-key order relates any two distinct keys. |
| Pivot.Project | csvtool.py:218-219 | A key tuple exists exactly when every listed column is a valid index for the row, and holds those cells in order; otherwise IndexOutOfRange. |
| Pivot.Entries | csvtool.py:217-224 | On success, one contribution per body row, in order: that row's (row key, column key, numeric value). |
| Pivot.Accumulate | csvtool.py:214-224 | The loop fails exactly when some row's keys or value cannot be read, with the first failing row's error. On success the nested dictionary holds, for each (row key, column key) pair seen, the sum of its values. The seen-columns set is exactly the column keys seen. |
| Pivot.SortKeys | csvtool.py:226-230 | Returns the key set as a strictly ascending sequence holding exactly the keys. |
| Pivot.ListingUnique | csvtool.py:226-230 | A key set has only one strictly ascending listing, so the output order is determined. |
| Pivot.HeaderRow | csvtool.py:234-239 | The header holds the row-key column names, then the value column's name without `-x`, or each column key joined with `-` in ascending order. It fails exactly when a name cell is missing (IndexOutOfRange) or a column key holds a non-text cell (NotAString). |
| Pivot.OutputRows | csvtool.py:243-249 | One output row per row key, in order: the key, then per column key the accumulated sum, or NULL where that pair never occurred. |
| Pivot.Emit | csvtool.py:226-249 | After the loop, the table succeeds exactly when its header can be built, and is then the pivot of the contributions. |
| Pivot.PivotTable | csvtool.py:214-249 | The pivot of the body: a row's failure is the result. Otherwise the result is the table whose header and rows are as above, for the contributions of all body rows. |
| Pivot.PivotCommand | csvtool.py:207-249 | Resolves `-x`, then `-y`, then `-z`; the first failure is the result. Once all three resolve, it succeeds exactly when every body row gives its keys and value and the header can be built, and the result is then the pivot table over the resolved columns. Otherwise the error is the first failing body row's, or the header's. |
| Pivot.TotalIsSum | csvtool.py:223-224 | The accumulated cell for (y, x) is the sum of the values of exactly the rows with row key y and column key x, in order. |
| Pivot.EntryShapes | csvtool.py:218-219 | Every row key has one cell per `-y` column and every column key one cell per `-x` column. |
| Pivot.NoColumnsOneValueColumn | csvtool.py:218-236 | Without `-x`, every row has the empty column key, so the table has exactly one value column. |
| Widths.ParseTerms | csvtool.py:120-127 | The loop returns WidthsOf: each term read in order, stopping at the first one `int()` refuses. |
| Widths.WidthsOfTerms | csvtool.py:120-127 | The list parses exactly when every term does: one entry per term, a blank term 0 and a number n as -n. On failure the error is that of the first term `int()` refuses, which is non-blank. |
| Widths.WidthOfNumeral | csvtool.py:123-124 | The term `str(n)` gives the width -n. |
| Widths.WidthTracker.ParseWidths | csvtool.py:119-129 | Succeeds exactly when every term parses, and then the widths are the parsed list. On failure the widths are unchanged (the exception leaves `self.widths` alone), and the error is the first bad term's. |
| Widths.WidthTracker.UpdateWidths | csvtool.py:131-139 | The new widths are Updated(old widths, row, cap). |
| Widths.WidthTracker.FinalizeWidths | csvtool.py:141-142 | Same number of entries, none negative, each the magnitude of the old entry. |
| Widths.UpdatedShape | csvtool.py:131-139 | After an update there is one entry per column of the longer of the list and the row; fixed (negative) entries and entries past the row are unchanged. |
| Widths.UpdatedAutomatic | csvtool.py:136-139 | An automatic entry within the cap never shrinks, stays within the cap, and reaches the cell's length unless the cap is smaller. |
| Widths.UpdatedBounded | csvtool.py:136-139 | With a non-negative cap, automatic entries stay automatic, and every automatic entry the row reaches is within the cap. |
| Widths.UpdatedAllFits | csvtool.py:131-139 | After all rows, an automatic column is within the cap and at least as wide as each of its cells, or as the cap when the cell is longer. |
| Copy.ToStr | csvtool.py:339-355 | For either padding of the octal codes (space as written, zero as corrected), the output is `\N` exactly for NULL, and is made of printable ASCII only. |
| Copy.EncodeCharCases | csvtool.py:344-353 | A printable character other than backslash is itself. A character in the escape table becomes backslash and its letter. Any other character becomes backslash and its octal code padded to three places. |
| Copy.CopyFields | csvtool.py:336 | One field per value, each that value's encoding with the given padding. |
| Copy.FieldRoundTrip | csvtool.py:339-355 | With the corrected zero padding, COPY text decoding of an encoded value gives the value back (an integer comes back as its text), for characters below 256. |
| Copy.UnescapeEncode | csvtool.py:344-355 | With zero padding, decoding the escaped form of a byte string gives the string back. |
| Copy.FieldsRoundTrip | csvtool.py:336 | With zero padding, decoding the encoded fields of a row gives the row back, as read. |
| Copy.LineRoundTrip | csvtool.py:336-337 | With zero padding, decoding the tab-joined line of a non-empty row gives the row back, as read. |
| Copy.OutputLines | csvtool.py:335-337 | For either padding, the output splits on newlines into one tab-joined line per body row, then an empty remainder. |
| Copy.LineHasNoNewline | csvtool.py:336 | A tab-joined line of encoded fields holds no newline, for either padding. |
| Copy.JoinPrintable | csvtool.py:336 | A line holds no character other than printable ones and the tab separator, so tabs and newlines in values never leak into it. |
| Copy.EmptyRowAmbiguous | csvtool.py:336-337 | For either padding, an empty row and a row holding one empty string give the same line. |
| Copy.SpacePaddedOctalMisread | csvtool.py:351 | As written, byte 1 is encoded as `\  1`, which COPY reads back as the text `  1`. |
| Copy.ZeroPaddedOctalRead | csvtool.py:351 | Zero-padded, byte 1 is encoded as `\001`, which COPY reads back as byte 1. |
| Wrappers.CollectSpec | csvtool.py:824-826 | The collecting loop succeeds exactly when every step does, with one result per element in order; on failure the error is the first failing element's. |

## Left out

- Input and output: files, stdin/stdout, the CSV dialects and the `csv`
  module's quoting. A raw row is given as a sequence of strings, and rendering
  stops at the strings handed to `csv.writer`.
- Command-line parsing (`optparse`), usage errors and the checks on argument
  counts and required options. The pivot and sort entry points take the
  already-parsed option values.
- The other renderers (`cat`, `tofancy`, `tohoriz`, `tohtml`, `toinsert`,
  `toldif`, `toupdate`, `tovert`) and `cmd.toStr`/`rowToStrs`, beyond the
  width bookkeeping they share. The header `tocopy` reads and discards is
  not modelled either.
- Values.ToNumeric: the `float()` fallback of `to_numeric` is not modelled,
  because floating point is out of scope; a string `int()` refuses is
  NotNumeric here, even where Python would return a float.
- Python 2's ordering across types is modelled as NULL < integers < text, and
  text compares by character code. That is CPython 2's default order for
  `None`, `int` and `str`.
- Ordering.SortPassIsStable: an insertion sort stands in for `list.sort`. Only
  its specification (stable, a permutation, sorted on the key) is used, and
  StableSortUnique shows that specification determines the output.
- Pivot.SortKeys: an insertion into a strictly ascending sequence stands in
  for `keys()` followed by `sort()`.
- Python raises where the model returns an `Err`: an index outside a row,
  `int(None)`, `.lower()` on a NULL header cell, `'-'.join` over a NULL, and
  `c[0]` on an empty sort term. The model names the error, and states no
  precondition the source does not have.
- Copy.FieldRoundTrip: the round trips are proved for the zero-padded
  encoder only (`ToStr(v, '0')`), because the space padding of the program
  as written loses control characters (see Findings).
- Copy.FieldRoundTrip: the round trips are stated for characters below 256,
  because Python 2 `str` holds bytes; `'%3o'` of a larger code point would
  take more than three octal digits.
- Copy.LineRoundTrip: stated for non-empty rows, because an empty row and a
  row of one empty string give the same line (EmptyRowAmbiguous).
- Widths.WidthTracker.UpdateWidths: the cell lengths are those of the strings
  given, and the `--max-width` option is a constant of the tracker.

## Findings

| source | as written | input that shows it | evidently intended | confidence | as-written member | corrected member |
|---|---|---|---|---|---|---|
| csvtool.py:351 | `'\\%3o' % o` pads the octal code with spaces | the byte 1 is written as `\  1`; COPY reads `\ ` as a space, so the field comes back as `  1` | `'\\%03o'`, zero padding, so `\001` is read back as byte 1 | not executed | Copy.SpacePaddedOctalMisread | Copy.FieldRoundTrip |
