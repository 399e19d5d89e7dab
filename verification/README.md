# Nobel column normalisers in Dafny

This project models the two column-label helpers of `nobel_funcs.py`. These
helpers tidy up a table of Nobel Prize laureate data after it has been
flattened from the nobelprize.org REST API:

- `find_and_drop_cols` drops Norwegian (`.no`) and Swedish (`.se`)
  translation columns and Wikidata link columns (`sameAs`).
- `strip_en` removes the English-translation suffix `.en` from column labels.

A table is an ordered sequence of labelled columns,
`Frame<Cell> = seq<Column<Cell>>`, where `Column(name, cells)` is a datatype.
Labels keep their order and may repeat, as DataFrame column labels do. The
cell type is a type parameter, because neither helper looks at cells. Both
helpers change the DataFrame in place and also return it. Here each is a pure
function that returns the new table.

Modules:

- `Strings` models Python's `s[-k:]` (`TailSlice`), `s[:-k]` (`DropLast`) and
  `str.endswith` (`EndsWith`). A negative slice bound clamps at the start of
  the string instead of failing. `-0` is read as `0`, so `s[-0:]` is all of `s`
  and `s[:-0]` is "".
- `Frames` holds the table, its labels, and `Select`, the order-preserving
  filter on labels.
- `Prune` models `find_and_drop_cols`. It includes pandas' `drop` with its
  `KeyError` path, and a proof that the helper never takes that path.
- `Rename` models `strip_en`. It includes pandas' `rename` by mapping: each
  label is looked up once.
- `Pipeline` states what both helpers give on a five-column laureate table,
  one at a time and one after the other.

Points where the code differs from its comments or from a quick reading. The
model follows the code in each case:

- The docstring (nobel_funcs.py:48) says `.sameAs`. The code compares the last
  six characters with `sameAs`, so a column named exactly `sameAs`, or
  `xsameAs`, is dropped.
- The comparison is case-sensitive. A label ending in `SameAs`, such as
  `someSameAs`, survives.
- `strip_en` builds its mapping once, from the original labels, so each label
  loses at most one `.en` per call. `a.en.en` becomes `a.en`, which means the
  helper is idempotent only on frames with no label ending in `.en.en`.
- When two labels become equal after stripping (`x.en` and `x`), nothing is
  merged or overwritten. pandas keeps both columns, each under the label `x`,
  in their original order.

## Model

The predicates `Strings.EndsWith`, `Prune.IsDropped` and `Prune.Kept` are
definitions without contracts of their own. `EndsWith` is `str.endswith`, and
`IsDropped` is the condition of nobel_funcs.py:51 written with the same
slices. `Strings.TailSliceIsEndsWith` and `Prune.IsDroppedIsSuffixTest` state
what they mean. The contracts of `Frames.Names` and `Rename.RenameColumns` are
their definitions, column by column. `Rename.RenameColumnsFixedPoint` is the
lemma about `RenameColumns`.

| member | source | states |
|---|---|---|
| Strings.TailSlice | nobel_funcs.py:51 | `col[-k:]` is a suffix of the label of length k, or the whole label when it is shorter than k or when k is 0 |
| Strings.DropLast | nobel_funcs.py:64 | `col[:-k]` is a prefix of the label, k characters shorter, or empty when the label is shorter than k or when k is 0 |
| Strings.TailSliceIsEndsWith | nobel_funcs.py:51 | for a non-empty suffix, comparing `col[-k:]` with a k-character suffix is exactly `endswith`, also for labels shorter than the suffix; with the empty suffix the comparison holds only for the empty label |
| Strings.DropLastOfEndsWith | nobel_funcs.py:63-64 | for a label that ends in the suffix, `col[:-3]` followed by the suffix gives back the label, and it is three characters shorter |
| Prune.IsDroppedIsSuffixTest | nobel_funcs.py:51 | the drop test holds exactly when the label ends in `.no`, `.se` or `sameAs` |
| Prune.SameAsTestHasNoDot | nobel_funcs.py:48-51 | `sameAs`, `xsameAs` and `org.sameAs` are dropped, although `xsameAs` does not end in `.sameAs` |
| Prune.SameAsTestIsCaseSensitive | nobel_funcs.py:51 | the comparison is case-sensitive: `someSameAs` is kept |
| Prune.ShortLabelsSurvive | nobel_funcs.py:51 | a label shorter than six characters never matches `sameAs`, and one shorter than three is never dropped |
| Prune.ColsToDrop | nobel_funcs.py:51 | every collected label is a label of the frame that passes the test, every passing label of the frame is collected, and there are no more entries than columns |
| Prune.ColsToDropInOrder | nobel_funcs.py:51 | the collected list is exactly the labels of the matching columns in column order, one entry per matching column |
| Prune.MissingLabels | nobel_funcs.py:52 | the labels reported are exactly the listed labels that name no column, which is the `KeyError` condition of `drop` |
| Prune.DropLabels | nobel_funcs.py:52 | `drop` succeeds exactly when every label names a column; it then keeps columns of the input only, none with a listed label, and every column whose label is not listed; otherwise it reports only missing labels |
| Prune.FindAndDropCols | nobel_funcs.py:46-54 | no surviving label matches the test; the survivors are columns of the input, cells included, and no column appears more often than in the input; every column whose label does not match survives |
| Prune.CollectedDropIsSelect | nobel_funcs.py:51-52 | dropping by the collected labels never raises `KeyError` and gives the in-order filter of the columns by the test |
| Prune.FindAndDropColsIsSelect | nobel_funcs.py:46-54 | the helper's result is exactly the in-order filter of the columns by the test |
| Prune.FindAndDropColsAppend | nobel_funcs.py:51-52 | the result on two frames side by side is the two results side by side, so survivors keep their relative order |
| Prune.FindAndDropColsOne | nobel_funcs.py:51-52 | a single column is removed exactly when its label matches, and is otherwise returned unchanged |
| Prune.FindAndDropColsCons | nobel_funcs.py:51-52 | the result on a frame is the verdict on its first column followed by the result on the rest |
| Prune.FindAndDropColsCount | nobel_funcs.py:51-52 | the number of survivors plus the number of collected labels is the number of columns |
| Prune.FindAndDropColsFixedPoint | nobel_funcs.py:46-54 | a frame is returned unchanged exactly when none of its labels matches, so a frame with no matching column is a no-op |
| Prune.FindAndDropColsAllMatched | nobel_funcs.py:51-52 | a frame whose labels all match loses every column |
| Prune.FindAndDropColsSplice | nobel_funcs.py:51-52 | matched columns between unmatched ones disappear, and the unmatched ones close up in order |
| Prune.FindAndDropColsIdempotent | nobel_funcs.py:46-54 | applying the helper twice gives the same result as applying it once |
| Prune.FindAndDropColsRectangular | nobel_funcs.py:52 | if every column has the same number of cells before the drop, the same holds after it |
| Frames.Names | nobel_funcs.py:51 | `df.columns`: one label per column, in column order; the contract is the definition |
| Frames.Select | nobel_funcs.py:52 | the filter keeps every column whose label is accepted, only such columns, and adds or repeats none |
| Frames.SelectAppend | nobel_funcs.py:52 | filtering works column by column, so relative order is preserved |
| Frames.SelectCongruent | nobel_funcs.py:51-52 | only the verdicts on the labels present decide the filter's result |
| Frames.SelectKeepsAll | nobel_funcs.py:52 | a frame whose labels are all accepted is returned unchanged |
| Frames.SelectKeepsNone | nobel_funcs.py:52 | a frame whose labels are all rejected becomes empty |
| Frames.SelectRectangular | nobel_funcs.py:52 | if every column has the same number of cells, filtering keeps that true |
| Rename.RenameMap | nobel_funcs.py:61-64 | the mapping's keys are exactly the frame's labels that end in `.en`, and each maps to the label without that suffix |
| Rename.RenameColumns | nobel_funcs.py:66 | `rename` keeps the column count, order and cells, and replaces a label found in the mapping by its value, once; the contract is this definition |
| Rename.RenameColumnsFixedPoint | nobel_funcs.py:66 | a rename leaves the frame unchanged exactly when every label the mapping mentions is mapped to itself |
| Rename.StripEn | nobel_funcs.py:56-68 | same number of columns, same order, same cells; a label ending in `.en` loses exactly that suffix once; every other label is unchanged |
| Rename.StripEnShortens | nobel_funcs.py:64 | a renamed label is a proper prefix of the original and exactly three characters shorter |
| Rename.StripEnFixedPoint | nobel_funcs.py:62-66 | a frame is returned unchanged exactly when none of its labels ends in `.en` |
| Rename.StrippedEndsWithEn | nobel_funcs.py:63-64 | after one strip, a label ends in `.en` exactly when the original ended in `.en.en` |
| Rename.StripEnIdempotentIff | nobel_funcs.py:61-66 | stripping twice equals stripping once exactly when no label ends in `.en.en` |
| Rename.StripEnNotIdempotent | nobel_funcs.py:61-66 | `a.en.en` becomes `a.en` after one call and `a` after two |
| Rename.StripEnKeepsCollisions | nobel_funcs.py:61-66 | labels `x.en` and `x` become two columns both labelled `x`, in order, each with its own cells |
| Rename.StripEnRectangular | nobel_funcs.py:66 | if every column has the same number of cells, renaming keeps that true |
| Pipeline.PruneExample | nobel_funcs.py:46-54 | pruning `name.en`, `name.no`, `name.se`, `org.sameAs`, `id` leaves the `name.en` and `id` columns |
| Pipeline.StripExample | nobel_funcs.py:56-68 | stripping `name.en`, `id` gives `name` with the cells of `name.en`, followed by `id` unchanged |
| Pipeline.PruneThenStripExample | nobel_funcs.py:46-68 | pruning and then stripping the five-column frame gives `name` with the cells of `name.en`, followed by `id` unchanged |

## Left out

- `get_nobel_data` (nobel_funcs.py:13-44) is left out. It builds four query parameters, performs an HTTP GET through `requests`, prints a status line and parses the JSON body. That is network I/O and a foreign library.
- `get_current_year` (nobel_funcs.py:7-10) is left out because it reads the system clock. So is the `yearTo` default, which is computed once when the module loads.
- The `__main__` call (nobel_funcs.py:70-71) is left out. It only fetches data and discards it.
- Labels are strings only. pandas also allows labels that are not strings, such as integers. `col[-3:]` would fail on those, and the model does not cover that failure.
- MultiIndex columns, dtypes, the row index and the aliasing of `inplace=True` are left out. Each helper is modelled as a pure function that returns the new frame.
- The equal-length invariant (`Frames.Rectangular`) is guaranteed by pandas and never checked by the helpers. The model only proves that both helpers preserve it.
