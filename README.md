# PyTable core in Dafny

A Dafny model of the in-memory data model of PyTable, a small Python library
that stores a table as an ordered collection of named, typed columns:

- `ttypes.dfy` (module `TTypes`): the four kind tags `i f d s`, kind inference
  from a value (`getType`) and from a string (`getTypeStr`), the conversion
  dispatch table `getTypeConverter`, and the HDF5 storage types of the tags.
  Python's parsers and formatters (`int()`, `float()`, `strptime`, `strftime`,
  `%`-formatting) are the uninterpreted functions of a `Codecs` record.
- `column.dfy` (module `Columns`): class `Column` with its `name`, `data`, kind
  (`type` in Python, `ctype` here), `fmt` and `desc` fields. It covers adding
  data (the kind is fixed by the first insertion and checked on the first
  element of later batches), `append`, `convert`, the filters `index`,
  `collect` and `remove`, `column` (called `Sample` here), `apply`, `map`,
  `reduce`, `__len__` and `__getitem__`.
- `table.dfy` (module `Tables`): class `Table`, a sequence of references to
  `Column` objects plus the cached `max_rows`. It covers `addColumn`, the
  lookups, `pop`/`remove`, `append`, shallow `clone`, `select`, `isSquare`,
  `row`/`rows`, the stable row `sort`, `_intersect`/`table`, the type-list
  rule of `convert` and `setFormatStr`. Columns are heap objects because a
  shallow clone shares them.
- `helpers.dfy` (module `Helpers`): `split_line` and `is_iterable`, with the
  Python string methods they use (`strip`, `rstrip(chars)`, `split`, `join`).
- `pylists.dfy` (module `PyLists`) and `sorting.dfy` (module `Sorting`): Python
  list indexing and `pop`, and `sorted` (stable, with `reverse`), which the
  table operations build on.
- `values.dfy` (module `Values`) holds Python runtime values and Python
  truthiness. `wrappers.dfy` (module `Wrappers`) holds `Option`, `Result` and
  the Python exception kinds an operation can raise.

A Python exception becomes an `Err` result naming its class. Callbacks
(filters, maps, folds, sort keys) are function-valued parameters. The source
text of a callback, which the library reads with `inspect.getsource`, is a
string parameter.

## Model

| member | source | states |
|---|---|---|
| TTypes.KindOf | tbl/ttypes.py:11-19 | a string names a kind exactly when `isTypeStr` accepts it, and that kind's tag is the string |
| TTypes.TagsAreAllowedTypes | tbl/ttypes.py:11-19 | `ALLOWED_TYPES` are exactly the tags of the four kinds, and distinct kinds have distinct tags |
| TTypes.IsTypeStrExamples | tbl/ttypes.py:16-19 | `i f d s` are tags; `"is"`, `"g"`, `"m"` and `""` are not |
| TTypes.GetTypeConverter | tbl/ttypes.py:21-66 | succeeds exactly for s→i/f/s, i→s, f→i, f→s, and for s→d and d→s when a format is given (every other pair, e.g. i→i, i→f, i→d, f→f, d→d, fails by assertion); a format is returned exactly when the target is `s` or `d`; a given format always wins, else `%s`/`%d`/`%g`; the returned converter matches the pair (int/float parsing for `i`/`f`, date parsing for s→d, date formatting for d→s, `%`-formatting otherwise into `s`) and embeds exactly the format it reports |
| TTypes.ConvertedValueHasNewKind | tbl/ttypes.py:21-66 | every value a returned converter produces has, under `getType`, the target kind |
| TTypes.GetType | tbl/ttypes.py:135-152 | fails exactly on values that are not int, bool, float, date or str; int and bool map to `i`, float to `f`, date to `d` and str to `s` |
| TTypes.GetTypeStrPriority | tbl/ttypes.py:86-133 | int is tried before float, float before date, date before string; `d` only with a date format given |
| TTypes.InferredKindConverts | tbl/ttypes.py:86-133 | a non-string kind inferred from a string can be reached by converting that string, and the converted value has that kind |
| TTypes.GetH5TypeStr | tbl/ttypes.py:154-164 | succeeds exactly on allowed tags; `i→i8`, `f→f8`, `s→S100`, `d→S20` |
| TTypes.NumpyWidthsMatchCaps | tbl/ttypes.py:11-14 | `NUMPY_TYPE` has one entry per allowed tag, and the string and date widths equal `MAX_STRING_LEN_NUMPY` and `MAX_STRING_DATE_LEN_NUMPY` |
| Helpers.LStripSpec | tbl/helpers.py:16 | left stripping removes exactly the leading whitespace |
| Helpers.RStripSpec | tbl/helpers.py:16 | right stripping removes exactly the trailing whitespace |
| Helpers.RStripCharsSpec | tbl/helpers.py:16 | `rstrip(sep)` removes exactly the trailing characters that occur in `sep`, treating `sep` as a set of characters |
| Helpers.StripIsSlice | tbl/helpers.py:16 | `strip` yields a slice of its input, with only whitespace cut on either side |
| Helpers.StripTrims | tbl/helpers.py:16 | a stripped string has no leading or trailing whitespace |
| Helpers.JoinSplit | tbl/helpers.py:17 | joining the pieces of `split(sep)` with `sep` gives back the string |
| Helpers.EmptyLastPieceMeansTrailingSep | tbl/helpers.py:17 | the last piece of a split is empty only if the string ends with the separator |
| Helpers.SplitLine | tbl/helpers.py:7-20 | fails exactly for an empty separator (Python's `ValueError`), and otherwise returns at least one piece |
| Helpers.StripAll | tbl/helpers.py:18 | the list comprehension keeps the number of pieces and strips each one |
| Helpers.SplitLineRoundTrip | tbl/helpers.py:16-17 | without `strip`, joining the pieces with `sep` gives the whitespace-trimmed line with its trailing separator characters removed; if that is non-empty, the last piece is non-empty |
| Helpers.SplitLineStripped | tbl/helpers.py:18 | with `strip`, the same number of pieces, each the stripped plain piece and free of surrounding whitespace |
| Helpers.SplitWithoutSep | tbl/helpers.py:17 | a string without the one-character separator splits into itself |
| Helpers.SplitAtFirstSep | tbl/helpers.py:17 | splitting cuts at the first occurrence of a one-character separator |
| Helpers.SplitLineExample | test/04_helpers.py:3-8 | `"  hello, world!"` splits into `["hello", " world!"]` |
| Helpers.SplitLineStripExample | test/04_helpers.py:10-13 | with `strip`, the same line gives `["hello", "world!"]` |
| Helpers.IsIterableCases | tbl/helpers.py:22-25 | lists, tuples and dicts (empty or not) are iterable; strings, numbers, `None` and sets are not |
| PyLists.At | tbl/column.py:275-277 | list indexing succeeds exactly for `-len <= i < len`, and a negative position counts from the end |
| PyLists.Pop | tbl/table.py:435 | `list.pop(i)` succeeds exactly for `-len <= i < len`; it returns element `i` (counted from the end when `i` is negative) together with the list without it |
| PyLists.PopAll | tbl/table.py:466-469 | a run of pops removes one element per index unless a pop fails; removed and remaining elements together are as many as the original list |
| PyLists.PopDescending | tbl/table.py:462-469 | popping distinct in-range positions in descending order never fails, removes `s[d[k]]` at step `k`, and leaves exactly the other elements in their original order |
| Sorting.SortSpec | tbl/table.py:648 | insertion sort under a total preorder returns a sorted permutation of its input |
| Sorting.SortDescendingSpec | tbl/table.py:463 | `sorted(idxs, reverse=True)` is a permutation in non-increasing order |
| Sorting.StableOrderSpec | tbl/table.py:648 | the row order of `sorted(rows, key, reverse)` is a permutation of the row positions, ordered by key (non-increasing with `reverse`), with ties kept in their original order in both directions |
| Columns.AddedData | tbl/column.py:66-80 | when `addData` succeeds, and what it produces: a non-empty batch passes if its first element's kind is known and matches the column's kind, and extends the data; an empty batch passes only on an untyped column with a truthy, typeable `ctype`, and leaves the data empty; everything else is an assertion failure |
| Columns.AddDataKeepsHomogeneous | tbl/column.py:48-80 | a homogeneous column stays homogeneous after adding a homogeneous batch |
| Columns.AddDataChecksFirstElementOnly | tbl/column.py:70-72 | only the first element is checked, so a batch with a string after a float is accepted into a float column |
| Columns.AppendedKind | tbl/column.py:88-92 | `append` accepts a typeable element whose kind matches the column's kind, or any typeable element on an untyped column |
| Columns.AppendAgreesWithAddData | tbl/column.py:83-95 | appending `e` behaves like adding the one-element batch `[e]` |
| Columns.ConvertAllSpec | tbl/column.py:121 | the list comprehension succeeds exactly when the converter succeeds on every element, and element `i` of the result is the converter's image of element `i` |
| Columns.PrefixFailureSticks | tbl/column.py:121 | one element the converter rejects makes the whole conversion fail |
| Columns.ConvertMakesHomogeneous | tbl/column.py:120-123 | after a successful conversion every element has the new kind |
| Columns.MatchingSpec | tbl/column.py:127-135 | the indices `index` reports are ascending and are exactly those where the filter holds |
| Columns.KeptAtMatching | tbl/column.py:137-150 | `collect` returns exactly the values at the matching indices, in order |
| Columns.CollectRemovePartition | tbl/column.py:137-187 | collected and remaining values together are as many as the column holds |
| Columns.ReduceAfterAppend | tbl/column.py:233-249 | `reduce` is a left fold in index order: one more element means one more application of `func` at the end |
| Columns.ReduceExamples | test/00_column.py:133-142 | with `[1, 4, 2, 3]` the maximum fold gives 4, the minimum 1 and the sum 10 |
| Columns.Column.constructor | tbl/column.py:19-32 | a new column has the given name, no data, no kind and no format, and a description only if a non-empty one is given |
| Columns.Column.SetName | tbl/column.py:34-39 | changes the name and nothing else |
| Columns.Column.SetDescription | tbl/column.py:41-46 | changes the description and nothing else |
| Columns.Column.AddData | tbl/column.py:48-81 | the new data and kind are those of `AddedData`; on failure nothing changes |
| Columns.Column.Append | tbl/column.py:83-95 | on success the data gains `e` at the end and the kind is set or kept; on failure nothing changes |
| Columns.Column.Convert | tbl/column.py:97-125 | fails on unknown tags or a missing target tag; a given format replaces `fmt`; succeeds exactly when the pair is supported and every element converts, and then the data is the element-wise image, the length is kept and the kind is the new one; on failure data and kind are unchanged |
| Columns.Column.Index | tbl/column.py:127-135 | returns the matching indices of `MatchingSpec` |
| Columns.Column.Collect | tbl/column.py:137-150 | returns the values at the matching indices |
| Columns.Column.Sample | tbl/column.py:152-171 | a new column holding the collected values, named `sample(<name>)` unless a name is given, with the stripped description, the kind of the first collected value and no format; fails when nothing is collected or the first value is untypeable |
| Columns.Column.Remove | tbl/column.py:173-187 | keeps exactly the values where the filter fails, in order, and nothing else changes |
| Columns.Column.Clone | tbl/column.py:189-194 | always raises `AttributeError`, because the column has no `pos` attribute |
| Columns.Column.Apply | tbl/column.py:196-210 | a new list of the same length with `func(i, data[i])` at `i`; the column is unchanged |
| Columns.Column.Map | tbl/column.py:212-231 | rewrites every element in place to `func(i, old data[i])` and keeps the length and the kind |
| Columns.Column.Reduce | tbl/column.py:233-249 | returns the left fold over ascending indices |
| Columns.Column.Len | tbl/column.py:279-280 | the number of elements |
| Columns.Column.Get | tbl/column.py:275-277 | Python indexing of the data, with negative positions from the end and an error outside range |
| Tables.ColumnName | tbl/table.py:39 | a given non-empty name is used; otherwise `col` followed by the column count in at least two digits |
| Tables.FirstIndex | tbl/table.py:243 | `list.index` finds the first position holding the name |
| Tables.IndexOfSpec | tbl/table.py:227-249 | every reported position is the first column with one of the requested names; when all keys are present names, one position per key in key order |
| Tables.IndexOfAppend | tbl/table.py:242-249 | the keys are handled one at a time: the positions for `a + b` are those for `a` followed by those for `b` |
| Tables.IndexOfSingle | tbl/table.py:243-249 | a single key that is a present name yields the first position of that name; a position key or an absent name yields nothing |
| Tables.MaxLenSpec | tbl/table.py:824-829 | the computed maximum is at least every column's length and equals one of them, and is -1 with no columns |
| Tables.GrownMaxSpec | tbl/table.py:55-56 | a table built column by column by `addColumn` keeps `max_rows` at -1 while every column is empty, and otherwise reaches the true longest column length |
| Tables.SquareMaxLen | tbl/table.py:251-258 | in a square table with columns the maximum length is the first column's length |
| Tables.RowPrefixSpec | tbl/table.py:533-549 | a row has one entry per column: the element at `idx` (Python indexing) where the column is long enough, `None` otherwise; fails when a negative index reaches past a column's start |
| Tables.RowAtMaxRowsIsEmpty | tbl/table.py:552-569 | the row at `max_rows` exists and is all `None`, so the `<=` guard of `rows` lets through a row past the end |
| Tables.RowsOf | tbl/table.py:643-646 | the rows of a square table: one per row position, entry `j` of row `i` is element `i` of column `j` |
| Tables.SortedGridSpec | tbl/table.py:629-655 | sorted columns stay square; their rows are a permutation of the original rows, ordered by key (reversed with `reverse`), with ties in their original order |
| Tables.SortedRowsOfGrid | tbl/table.py:643-654 | writing the sorted rows back column by column gives the sorted grid, and columns that are one object get one content |
| Tables.PaddedTypes | tbl/table.py:321-331 | an unknown tag fails; a shorter type list is padded with its last tag, an equal one is kept, and a longer one (or an empty one for non-empty columns) fails |
| Tables.RemovalPositions | tbl/table.py:454-463 | an empty key list raises `IndexError`; a name first means the positions of the names present; positions first are used as given, and a mix with names raises `TypeError` in `sorted` |
| Tables.RemoveDistinctPositions | tbl/table.py:445-471 | removing k distinct in-range positions never fails, leaves the other columns in their original order, and removes k columns, largest position first |
| Tables.DescendingDistinct | tbl/table.py:463 | distinct positions sorted descending are strictly decreasing, with the same set of positions |
| Tables.Table.constructor | tbl/table.py:20-24 | a new table has the given title, no columns, `max_rows` -1 and no description |
| Tables.Table.All | tbl/table.py:61-65 | one position per column, `0` to `ncols - 1` in order |
| Tables.Table.HasColumn | tbl/table.py:182-202 | an int key is present exactly when `0 <= key < ncols`, a string key exactly when some column has that name |
| Tables.Table.PositionOf | tbl/table.py:872-877 | an int key is its own position; a string key resolves to the first column with that name |
| Tables.Table.GetItem | tbl/table.py:862-879 | a column exactly when the key is present, and then the column at the key's position; `None` otherwise |
| Tables.Table.NCols | tbl/table.py:268-271 | the number of columns |
| Tables.Table.NRows | tbl/table.py:274-277 | the cached `max_rows`, not recomputed |
| Tables.Table.AddColumn | tbl/table.py:27-58 | a duplicate name fails unless repetition is allowed; otherwise it fails only when a non-empty list has an untypeable first value; a new column goes last under the given or generated name; a non-empty Column is added by reference and renamed; a non-empty list becomes a fresh column with that data; empty or missing data gives a fresh empty column; `max_rows` grows to the data length only when data is non-empty; on failure nothing changes |
| Tables.Table.AddList | tbl/table.py:47-50 | adding a list appends one fresh column with that name and data, keeps the earlier columns, and succeeds when the name is new and the first value typeable |
| Tables.Table.AddShared | tbl/table.py:44-53 | adding an existing column shares it when it has data and replaces it by a fresh empty column when it has none; a named column keeps its name |
| Tables.Table.ShareAll | tbl/table.py:127-129 | on success every column is added, with the data of the original, sharing the non-empty ones and replacing the empty ones by fresh empty columns with no kind, format or description, and `max_rows` is `GrownMax` of the data; with named, distinct columns it succeeds and the names are kept |
| Tables.Table.Names | tbl/table.py:261-265 | one name per column, in column order: entry `i` is the name of column `i` |
| Tables.Table.Index | tbl/table.py:227-249 | returns the positions of `IndexOfSpec` |
| Tables.Table.FoundSpec | tbl/table.py:102-110 | `at` returns only columns of the table that have data, and every present key whose column has data contributes that column |
| Tables.Table.At | tbl/table.py:92-110 | returns the columns described by `FoundSpec`, in key order |
| Tables.Table.Pop | tbl/table.py:422-442 | removes and returns the column at the key's position when the key is present, keeping the others in order; otherwise returns `None` and nothing changes |
| Tables.Table.Remove | tbl/table.py:445-471 | computes the positions as `RemovalPositions` does, sorts them descending and pops them one by one; the new column list and the removed columns are those of `PopAll` |
| Tables.Table.PopEach | tbl/table.py:465-471 | the pop loop removes the columns at the given positions in turn, failing with `IndexError` on the first out-of-range pop |
| Tables.Table.SetMaxRows | tbl/table.py:824-829 | `max_rows` becomes the longest column length, or -1 with no columns |
| Tables.Table.IsSquare | tbl/table.py:251-258 | true exactly when every column has the first column's length (vacuously with no columns) |
| Tables.Table.Append | tbl/table.py:68-89 | unequal column counts fail and change neither the data nor `max_rows`; no column's name, format or description changes; on success `max_rows` is the longest column length, on any failure it is unchanged; with no column shared, it succeeds exactly when every column accepts the other's data, and then column `i` is its old data followed by the other's column `i` |
| Tables.Table.AppendEach | tbl/table.py:81-84 | the loop of `append`: names, formats and descriptions are kept; with no column shared, it succeeds exactly when every column accepts the other's data, and then column `i` is its old data followed by the other's column `i` |
| Tables.Table.Clone | tbl/table.py:113-130 | a deep clone of a table with columns raises `AttributeError`; a successful clone has the given or `(Copy)` title and the source's data, shares every non-empty column, replaces each empty one by a fresh empty column with no kind, format or description, and has the `max_rows` its `addColumn` calls leave (`GrownMax`); a shallow clone with named, distinct columns succeeds and keeps the names; the source's data never changes |
| Tables.Table.Select | tbl/table.py:593-613 | a fresh table with the same title whose columns are fresh objects holding copies of the data of the columns the filter accepts, in order, under the same names; each new column has the kind of its first value (none when empty) and no format or description, and `max_rows` is what the `addColumn` calls leave (`GrownMax`); it succeeds whenever the names are non-empty and distinct and every non-empty column's first value is typeable |
| Tables.SelectedSpec | tbl/table.py:609-612 | the selected positions are strictly ascending, and a position is selected exactly when it is below the column count and the filter accepts it together with its column's name |
| Tables.Table.Row | tbl/table.py:533-549 | returns the row of `RowPrefixSpec` |
| Tables.Table.Rows | tbl/table.py:552-569 | recomputes `max_rows`; succeeds exactly when every index is at most `max_rows` and its row exists, and then returns those rows in order |
| Tables.Table.Sort | tbl/table.py:629-655 | recomputes `max_rows`; fails unless the table is square, changing no data; otherwise the column contents become the sorted grid of `SortedGridSpec`; no column's name, kind, format or description changes |
| Tables.Table.WriteRow | tbl/table.py:651-654 | writing row `i` sets entry `i` of every column to the row's entry; the other entries and every column's name, kind, format and description are kept |
| Tables.Table.Intersect | tbl/table.py:743-750 | fails on no arguments; otherwise returns, without repeats, exactly the elements common to every list |
| Tables.Table.TableSub | tbl/table.py:753-778 | no argument raises `IndexError`; a single list is used as is, several lists are intersected; every index is checked as `rows` does; `max_rows` of this table is refreshed to the longest column length; the new table, titled `Subtable[<title>]`, has the same names, column `i` holds entry `i` of each selected row, each new column has the kind of its first value and no format or description, and its `max_rows` is what the `addColumn` calls leave (`GrownMax`); it succeeds whenever the names are non-empty and distinct and every row the arguments can select passes the `rows` check and has only typeable entries |
| Tables.Table.SetFormatStr | tbl/table.py:280-304 | each column's format is replaced by the format given for its kind, and its data, kind, name and description are kept |
| Tables.ListOf | tbl/table.py:750 | `list(set)` lists each element of the set exactly once |

## Left out

- File and stream I/O is not modelled: `read`, `save`, `print`/`head`/`tail`/`what` and their short forms, `wait`, `Column.write`, and the warnings `at` and `index` print.
- HDF5 persistence (`toH5`/`fromH5`), plotting and `tbl/math.py` are not modelled. These are calls into h5py, matplotlib and floating-point arithmetic. Only the tag-to-storage-type table is modelled.
- Python's parsers and formatters are uninterpreted functions (`Codecs`). Floats are opaque bit patterns, and dates are opaque stamps.
- `inspect.getsource` becomes a string parameter (`filterSource`, `funcSource`).
- `Table.setName`, `__contains__`, `__iter__`, `__len__` and `__str__` are not separate members. `__contains__` is `HasColumn` and `__len__` is `NCols`.
- Keys are ints or strings. The `is_iterable` assertions on keys, and the "unknown key type" assertion, are not modelled.
- `Table.convert` is modelled only by its tag validation and padding (`PaddedTypes`). Its per-column calls pass `(new, fmt)` to `Column.convert(old, new, fmt)`, so the calls themselves are not modelled.
- Tables.Table.TableSub: the call to `Column.like` is omitted. `Column.like` is not defined in `tbl/column.py`, so the source raises `AttributeError` at that line for any table that has a column.
- Tables.Table.SetFormatStr: modelled as assigning each column's `fmt`, because `Column.setFormatStr` is not defined in `tbl/column.py`.
- Columns.Column.Clone: always fails, because it reads the missing attribute `pos`. For the same reason, a deep `Table.clone` of a table with columns fails.
- Columns.Column.Convert: the branch that infers the target tag with `getTypeStr` cannot be reached, because the assertion on `new` comes first. It is not modelled beyond that assertion.
- Columns.Column.AddData: batches are lists. Adding a tuple to a column, which raises `TypeError` in `list + tuple`, is not modelled.
- Tables.Table.Sort: sort keys are modelled as int-valued functions of a row. Python compares keys of any ordered type.
- Tables.Table.Append: the column contents are stated only when no column object appears twice across the two tables. When a later column's check fails, the columns before it have already been extended, and that partial state is not stated.
- Tables.Table.Clone: success and the kept names are stated only when the column names are non-empty and distinct.
- Tables.Table.Select: success is stated only when the names are non-empty and distinct and every non-empty column's first value is typeable. Otherwise only the successful result is described.
- Tables.Table.TableSub: success is stated only when the names are non-empty and distinct and every row the arguments can select is in range and fully typeable. With several lists the order of the selected rows is unspecified, so which row supplies a column's first value is unknown.
- Tables.Table.Intersect: `list(set(...))` has an unspecified order. The model lists elements in the order they first appear in the first list, and the contract claims only membership and no repeats.
- Columns.Column.Get: `__getitem__` also accepts a slice and then returns a list. Slice indexing is not modelled; only integer positions are.
- Columns.Column.Convert: a converter that rejects a value fails with `ValueError` in the model. Python raises `ValueError` or `TypeError` there, depending on the converter and the value (`"%d" % "x"` raises `TypeError`), and the uninterpreted converters do not tell them apart.
- Helpers.IsIterableCases: `isinstance` also accepts subclasses of list, tuple and dict. The model recognises the three built-in type names only.
- The docstring of `select` (tbl/table.py:601-602) says both tables share columns. The code passes `c.data` to `addColumn`, which builds a new column, so the model follows the code: the selected columns are new objects.
