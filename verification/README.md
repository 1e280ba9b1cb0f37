# FAO table split by geography

A Dafny model of `split_fao_data`, the helper that splits a flat table of FAO
production records into three sub-tables:

- **countries**: the rows whose `Area Code` is below 500;
- **regions** (the source calls this output `area`): the rows whose `Area Code` is above 500;
- **continents**: the rows whose `Area` is exactly one of Africa, Northern America,
  South America, Asia, Oceania, Europe, whatever their code.

Two revisions of the function exist and both are modelled:

- `scripts/helpers.py` resets each output's index and drops the old one, so every
  output is renumbered from zero (`FaoSplit.SplitFao`, returning `Table`s).
- `scripts/.ipynb_checkpoints/helpers-checkpoint.py` returns the mask selections as
  they are, so every row keeps its input position as index label
  (`FaoSplitCheckpoint.SplitFaoKeepIndex`, returning `Frame`s of `(position, row)`).

Layout:

- `fao_table.dfy` (`FaoTable`): the row datatype, with the two inspected columns and
  every other column kept as an untouched map; the bucket predicates and constants.
- `selection.dfy` (`Selection`): boolean-mask selection with and without index labels;
  `IsSelection`, an independent specification of a selection (each entry is the
  unaltered input row at its label and passes the mask, labels strictly increase,
  every passing position is present), proved to be met by `SelectIndexed` and by
  nothing else. `SelectsInOrder` lifts it to renumbered tables.
- `fao_split.dfy` (`FaoSplit`): the renumbering revision and its properties.
- `fao_split_checkpoint.dfy` (`FaoSplitCheckpoint`): the index-keeping revision, its
  properties, and the lemma tying it to the renumbering revision.

The input table is taken to carry the default index `0..n-1`, so an index label in
the index-keeping revision is the row's position in the input.

The three buckets are not a partition: the continent test never looks at the
code, so a continent-named row is also in countries or regions according to its
code (`FaoSplit.ContinentAlsoByCode`), and a code-500 row is in neither numeric
bucket (`FaoSplit.BoundaryRowDropped`, `FaoSplit.SplitCounts`).

## Model

| member | source | states |
|---|---|---|
| FaoSplit.SplitFao | scripts/helpers.py:21-32 | a row is in countries / regions / continents iff it is an input row with code < 500 / code > 500 / a continent name, and each output is exactly the in-order, unaltered selection of those rows, renumbered from zero |
| FaoSplit.SplitIsDetermined | scripts/helpers.py:21-32 | any three tables that select the bucket rows in order are the split's outputs, so the specification fixes the result completely |
| FaoSplit.SplitKeepsRowsAndOrder | scripts/helpers.py:21-30 | in each of the three outputs, row k is the unaltered input row at the k-th position the mask selects, and those positions strictly increase, so input order survives the renumbering |
| FaoSplit.CountriesRegionsDisjoint | scripts/helpers.py:21-22 | no row is in both countries and regions |
| FaoSplit.BoundaryRowDropped | scripts/helpers.py:21-25 | an input row with code exactly 500 and no continent name is in none of the three outputs |
| FaoSplit.ContinentAlsoByCode | scripts/helpers.py:21-25 | a continent-named input row is in continents and also in countries (code < 500) or regions (code > 500), in neither numeric bucket at code 500 |
| FaoSplit.SplitCounts | scripts/helpers.py:21-25 | countries plus regions plus the code-500 rows count exactly the input rows; hence countries plus regions is at most the input length, and so is continents |
| FaoSplit.PartitionExample | scripts/helpers.py:21-32 | codes 100, 501 and 999 with the last named Asia split into [100], [501, 999], [999] |
| FaoSplitCheckpoint.SplitFaoKeepIndex | scripts/.ipynb_checkpoints/helpers-checkpoint.py:22-28 | each output is an exact selection of its bucket: every label is an input position holding that very row, labels strictly increase, and every matching position appears |
| FaoSplitCheckpoint.LabelsArePositions | scripts/.ipynb_checkpoints/helpers-checkpoint.py:22-26 | in each of the three outputs, returned positions are strictly increasing, below the input length, and the row at a position equals the input row there |
| FaoSplitCheckpoint.PositionsDisjoint | scripts/.ipynb_checkpoints/helpers-checkpoint.py:22-23 | countries and regions share no position, and no code-500 position is in either |
| FaoSplitCheckpoint.GapExample | scripts/.ipynb_checkpoints/helpers-checkpoint.py:22 | positions need not be contiguous: a region between two countries leaves labels 0 and 2 |
| FaoSplitCheckpoint.ResetIndexGivesSplit | scripts/.ipynb_checkpoints/helpers-checkpoint.py:22-28 | dropping the labels of the index-keeping outputs gives exactly the renumbered outputs of scripts/helpers.py |
| Selection.Filter | scripts/helpers.py:27-30 | a mask selection renumbered from zero is no longer than its input and holds only input rows that pass the mask |
| Selection.SelectIndexed | scripts/.ipynb_checkpoints/helpers-checkpoint.py:22 | a mask selection with labels is no longer than its input, and every label points at the very input row it carries, which passes the mask |
| Selection.SelectIndexedIsSelection | scripts/.ipynb_checkpoints/helpers-checkpoint.py:22-26 | the labelled mask selection meets the full selection specification, including completeness and strict order |
| Selection.SelectionIsUnique | scripts/.ipynb_checkpoints/helpers-checkpoint.py:22-26 | any frame meeting the selection specification equals the labelled mask selection |
| Selection.ResetIndexOfSelection | scripts/helpers.py:27-30 | resetting the index of the labelled selection and dropping the old index gives the renumbered selection |
| Selection.FilterSelectsInOrder | scripts/helpers.py:21-30 | the renumbered selection is the in-order selection of the passing rows |
| Selection.SelectsInOrderIsFilter | scripts/helpers.py:21-30 | any table that is an in-order selection of the passing rows is the renumbered selection |
| Selection.FilterRenumbersSelection | scripts/helpers.py:27-30 | row k of the renumbered selection is the unaltered input row at the k-th label of the labelled selection, and those labels strictly increase |
| Selection.FilterMembers | scripts/helpers.py:21-25 | a row is in the renumbered selection iff it is an input row that passes the mask |
| Selection.FilterPartitionLength | scripts/helpers.py:21-25 | for two exclusive masks and the rows neither accepts, the three selections' lengths add up to the input length |

## Left out

- `explain_df` (scripts/helpers.py:35-47) only prints a summary to standard output and returns nothing.
- scripts/visualization.py is plotting and file output over charting libraries, and its import sets global plot style.
- Missing (NaN) area codes are not modelled: `Area Code` is a plain integer here, so every row takes exactly one of `< 500`, `== 500`, `> 500`.
- pandas column dtypes and the index as a label type: the input index is the default `0..n-1`, so labels are positions.
- `reset_index` failing or misnaming when the frame already has a column called `index` or a named index is not modelled.
- Missing `Area Code` or `Area` columns (a crash in the source) cannot occur: every row has both fields.
- Population normalisation, merging, centering, growth ratios and crops totals are not part of this model; their code is not among the files modelled.
