# Column-mapping transformer: a Dafny model

The system turns a source CSV file into an output CSV file using a mapping
CSV file. The mapping file is read column by column. Data row 0 of a mapping
column names a source column. Data row 1 names the destination column. Data
row 2 holds custom logic, which is read and never applied. The backend
service copies every usable source column under its destination name. The
web front end has an editor in which a user builds the list of mapping rules.

This project models two pieces of logic:

- `backend.dfy` (module `Backend`) models `parse_mapping` and `transform` from
  `backend/main.py`. Both work on CSV files that are already parsed
  (`tables.dfy`, module `Tables`).
  - A table is a header plus rows of `Option<string>` cells. `None` stands for
    NaN, which is what an empty cell becomes. The parser also turns strings
    such as `NA` into NaN; the model does not (see "## Left out").
  - The header line is not a data row, so "row 0" is the first line after it.
  - Parsed tables are rectangular and have distinct header names. The parser
    pads short lines and renames repeated headers.
  - The output is a frame: a sequence of named columns, left to right.
  - Assigning a column (`result_df[name] = ...`) overwrites a column of that
    name where it stands, or else appends it (`Tables.Assign`).
  - `transform` is a method with the service's loop. It is proved equal to
    `TransformResult`, a function built on the recursive `Select`. The
    properties are lemmas about `Select`.
- `mapping_editor.dfy` (module `MappingEditor`) models the editor component in
  `src/components/MappingEditor.tsx` as the class `Editor`.
  - Its two state fields are the rule list and the optional index of the rule
    whose logic builder is open.
  - `Merge` is the object spread `{ ...rule, ...updates }` that `updateField`
    performs. `Patch` is the partial rule, where `None` means the key is absent.
  - The invariant `Valid()` says that an open logic builder always points at a
    rule in the list. Every editor operation keeps it.

`wrappers.dfy` holds `Option` and `Result`.

Reading a missing data row in `transform` (the unguarded `iloc[0]` and
`iloc[1]`) raises an error in the source. Here it is the value
`Err(RowOutOfBounds(n))` rather than a precondition.

## Model

| member | source | states |
|---|---|---|
| `Backend.ParseMapping` | backend/main.py:31-35 | row k of the mapping is reported in full exactly when the table has more than k data rows, else `[]`; the emptiness test, which also fires on a table without columns, agrees with "no data rows" on rectangular tables |
| `Backend.ParseMappingWidths` | backend/main.py:32-34 | each reported row is as wide as the mapping header, or empty when its row is missing |
| `Tables.Column` | backend/main.py:61 | `source_df[name]` has one cell per source row, each the cell of that row under the column headed `name` |
| `Tables.Assign` | backend/main.py:61 | `result_df[name] = cells` keeps the names distinct, keeps the name list when `name` is already present and appends `name` otherwise, leaves every other column untouched and stores `cells` under `name` |
| `Tables.IndexOf` | backend/main.py:60 | the position found holds the name and no earlier position does |
| `Backend.Emits` | backend/main.py:59-60 | a mapping column with a missing destination, a missing source, or a source name that is not a source header emits nothing |
| `Backend.FirstEmit` | backend/main.py:58-60 | the first mapping column, if any, whose destination and source are present, whose source names a source column and whose destination is the given name |
| `Backend.LastEmit` | backend/main.py:58-60 | the last such mapping column, if any |
| `Backend.Select` | backend/main.py:56-61 | the frame built by the loop over the first k mapping columns has distinct column names |
| `Backend.TransformResult` | backend/main.py:50-61 | the request fails exactly when the mapping has fewer than two data rows, naming the first missing row (0 or 1); otherwise it yields a frame with distinct column names; an unusable mapping column never raises an error |
| `Backend.Transform` | backend/main.py:50-62 | the loop's result equals `TransformResult`: the error for a mapping with fewer than two data rows, else the selection over every mapping column |
| `Backend.SelectNames` | backend/main.py:58-61 | an output column called `name` exists exactly when some mapping column emits `name`: nothing else is emitted and nothing emitted is lost |
| `Backend.SelectStep` | backend/main.py:58-61 | one more mapping column adds at most one column, at the right and only for a new name; the columns already present keep their names, and all but the one of that name are unchanged |
| `Backend.SelectOrder` | backend/main.py:58-61 | output columns stand in the order in which the mapping first emits their names |
| `Backend.SelectCell` | backend/main.py:61 | each output column is exactly the source column named by the last mapping column emitting its name, with the source's row count and row order |
| `Backend.SelectPrefix` | backend/main.py:58 | the frame over the first k mapping columns depends only on those columns |
| `Backend.DropSilent` | backend/main.py:59-60 | a mapping column with a missing destination, a missing source or an unknown source name can be deleted from the mapping without changing the frame |
| `Backend.DropSilentTransform` | backend/main.py:58-61 | the same for the whole transform: such a column is dropped, not reported |
| `Backend.CustomLogicIgnored` | backend/main.py:53-61 | replacing the custom-logic row by any other row of the same width leaves the result unchanged |
| `Backend.TransformOutput` | backend/main.py:56-61 | the output has distinct headers, exactly the emitted destination names, in first-emission order, each column a copy of the source column named by the last mapping column emitting it |
| `Backend.ParseAndTransformAgree` | backend/main.py:32-52 | transform uses exactly the source and destination rows that parse_mapping reports; with a single data row parse_mapping reports no destinations while transform fails |
| `MappingEditor.Merge` | src/components/MappingEditor.tsx:35 | keys present in the update take its values; every other key keeps the rule's value |
| `MappingEditor.Combine` | src/components/MappingEditor.tsx:33-37 | the helper in which `MergeCombine` is stated: the single update equivalent to two successive `updateField` calls, each key taking the later value when present, else the earlier one |
| `MappingEditor.SameKeys` | src/components/MappingEditor.tsx:14-18 | rules that agree on every key are equal |
| `MappingEditor.MergeDetermined` | src/components/MappingEditor.tsx:35 | the per-key contract of `Merge` fixes its result: any rule taking the update's present keys and keeping all other keys equals the merge |
| `MappingEditor.Blank` | src/components/MappingEditor.tsx:30 | the rule `addField` appends has only the destination key, holding the empty string |
| `MappingEditor.OffersLogic` | src/components/MappingEditor.tsx:73 | the custom-logic button is shown exactly when the rule's source is not truthy in JavaScript (absent or empty) |
| `MappingEditor.MergeCombine` | src/components/MappingEditor.tsx:33-37 | two successive updates equal one update with their keys combined, the later winning |
| `MappingEditor.Editor.constructor` | src/components/MappingEditor.tsx:26-27 | the editor starts with no rules and no logic builder open |
| `MappingEditor.Editor.AddField` | src/components/MappingEditor.tsx:29-31 | the list grows by one, every earlier rule is unchanged, and the new last rule has an empty destination and no source or logic |
| `MappingEditor.Editor.UpdateField` | src/components/MappingEditor.tsx:33-37 | for an in-range index the list keeps its length, the rule there becomes the merge of the old rule and the update, and every other rule is unchanged |
| `MappingEditor.Editor.SelectSource` | src/components/MappingEditor.tsx:49-52 | choosing a source sets only that rule's source |
| `MappingEditor.Editor.RenameDestination` | src/components/MappingEditor.tsx:65-71 | typing a destination sets only that rule's destination |
| `MappingEditor.Editor.OpenLogic` | src/components/MappingEditor.tsx:73-77 | the logic builder opens on a rule without a source; the list is unchanged |
| `MappingEditor.Editor.CloseLogic` | src/components/MappingEditor.tsx:102 | closing the logic builder changes no rule |
| `MappingEditor.Editor.HandleLogicSave` | src/components/MappingEditor.tsx:39-42 | rule i's custom logic becomes the code, nothing else in the list changes, and no logic builder stays open |
| `MappingEditor.Editor.SaveFromLogicBuilder` | src/components/MappingEditor.tsx:98-104 | saving from the open logic builder always hits a rule of the list (by the invariant) and sets its logic |
| `MappingEditor.Editor.Save` | src/components/MappingEditor.tsx:107-110 | "Save Mapping" hands over the current list, in order and unmodified |

## Left out

- CSV reading and writing (`pd.read_csv`, `to_csv`, UTF-8 decoding) are not modelled. Tables arrive already parsed and the result is a frame, not text.
- Type inference while reading is not modelled. Cells are strings or NaN. When every cell of a mapping column is numeric (source `2024`, destination `2025`), the parser yields numbers. Then `2024 in source_df.columns` is false against the string header `"2024"`, and backend/main.py:60 drops a column that the model copies.
- The parser's default NA strings are not modelled. Besides empty cells, strings such as `NA`, `null`, `None`, `nan` and `N/A` also become NaN. So a destination typed `NA` is dropped at backend/main.py:59, while the model treats it as the name `"NA"`.
- The HTTP routes, CORS setup, server start-up and the front end's network calls and download handling are not modelled. They are transport.
- `parse_source_fields` (backend/main.py:19-23) only returns the header of the parsed source. It is not modelled beyond `Table.header`.
- The response validation of `parse_mapping` against `List[str]` is not modelled. It matters when a reported row holds NaN cells.
- `MappingEditor.Editor.UpdateField` requires an in-range index. Every caller passes one. An out-of-range index in JavaScript would create a sparse array or a non-index property, and that is not modelled.
- `MappingEditor.Patch` models an absent key as `None`. A key passed explicitly with the value `undefined` is not modelled, and no caller does so.
- Rendering is not modelled: the selects, inputs, code preview, and the logic builder's `fieldName` and `initialCode` props.
- React's asynchronous state batching is not modelled. Each setter takes effect at once.
- The logic builder component, the transformation form, the page and the file-upload widget are not modelled. They hold only rendering and placeholder behaviour.
