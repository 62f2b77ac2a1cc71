# Schedule dashboard: filters and user table, modelled in Dafny

This project models the data logic of a small schedule dashboard. The dashboard
keeps its data in a hosted spreadsheet. It has two parts.

- The dashboard page (`app.py`):
  - the dynamic filters that narrow the schedule table column by column, where
    "Todos" means "no constraint";
  - the option list of each filter's dropdown;
  - the choice between the login form, the register form and the main app;
  - what the edit and delete modals do with `row.name + 2`: as written, the modal's row has
    lost its index label, so both show a caught `TypeError` and never reach the sheet.
- The spreadsheet layer (`utils/google_sheets.py`):
  - reading a tab into a table, with `None` when the tab cannot be obtained;
  - looking a user up by login, ignoring case;
  - registering a user by appending one row.

Modules, one per concern:

- `Wrappers`: `Option`, for Python's `None`-or-value results.
- `Text`: ASCII lowercasing, Python's code-point order on strings, and `sorted(set(...))`.
  It also proves that a set of strings has exactly one ascending, repeat-free order.
- `Frames`: the part of a pandas DataFrame the code uses.
  - A table is a set of column names and a sequence of rows.
  - Each row keeps its index label.
  - It defines the boolean mask `df[df[c] == v]`, `df[c].dropna()`, and
    `pd.DataFrame(records).fillna('')`.
  - A missing column gives `Outcome.KeyError`, as `df[c]` raises `KeyError`.
- `Sheets`: the worksheet, `get_all_records`, `read_sheet_to_dataframe`,
  `get_user_by_login` and `register_user`.
  - A worksheet is a class holding the tab's grid of cell texts. Row 0 is the header row.
  - A `null` worksheet stands for every failure of `get_worksheet`: missing or bad
    credentials, an unreachable spreadsheet, an unknown tab.
  - `register_user` appends in place through `Worksheet.AppendRow`.
- `App`: `apply_dynamic_filters` (a loop proved against the specification function
  `Filtered`), `get_filter_options`, the routing in `main`, and the row number the edit and delete
  modals compute (`row.name + 2`).

Inputs and outputs:

- Every cell is a string.
- The spreadsheet's contents are a parameter.
- The Streamlit session is passed as a value holding the two flags `main` reads.

Behaviour worth knowing:

- The options of each filter come from the whole table (`app.py:83`), not from the
  rows left by earlier filters, so the options do not narrow as filters are chosen.
- Option lists can hold a repeated value. A cell holding the text "Todos" appears again
  after the leading "Todos" (`App.OptionsRepeatOnlyForTodos`). Choosing it then places
  no constraint.
- A new user's row is appended in the fixed order Login, Email, Senha, Tipo de Usuário.
  It is not laid out by the tab's header. `Sheets.RegisteredUserFound` proves the round
  trip for a tab whose header is in that order.
- The uniqueness test in `register_user` is the truthiness `if existing_user`. A matching
  record that is an empty dict so does not block registration. `Sheets.TakenIffSomeMatch`
  shows this cannot happen on a tab with a header row.

## Model

| member | source | states |
|---|---|---|
| `App.Filtered` | app.py:30-33 | a row is in the result exactly when it is an input row that passes every filter whose value is not "Todos" |
| `App.ApplyDynamicFilters` | app.py:28-33 | raises `KeyError`, naming the first such filter's column, exactly when an active filter names a column the table lacks; otherwise returns the same columns and exactly `Filtered` of the rows |
| `App.FilteredStep` | app.py:31-32 | one more loop step narrows the result by that filter's boolean mask, or leaves it alone when the value is "Todos" |
| `App.AllTodosIdentity` | app.py:30-33 | an empty or all-"Todos" selection returns the rows unchanged |
| `App.FilteredSubsequence` | app.py:32 | the filtered rows are an order-preserving subsequence of the input: rows are only dropped, never altered or reordered |
| `App.FilteredOrderIndependent` | app.py:30-33 | two selections holding the same filters give the same rows, whatever order they are applied in |
| `App.FilteredWellFormed` | app.py:32 | filtering a well-formed table leaves every row with exactly the table's columns |
| `App.GetFilterOptions` | app.py:35-38 | `KeyError` exactly for a missing column; otherwise "Todos" first, then strictly ascending values, which are exactly the column's non-empty values |
| `App.OptionsRepeatOnlyForTodos` | app.py:37-38 | the options hold no repeated entry exactly when no cell of the column is "Todos" |
| `App.OptionSelectsSomeRow` | app.py:37-38 | every option after "Todos" matches at least one row of the table it came from |
| `App.Main` | app.py:214-226 | missing flags default to False and present ones are kept; main app exactly when logged in; register form exactly when logged out with `show_register`; a fresh session gets the login form |
| `App.SheetRow` | app.py:162 | the sheet row of a data row is at least 2, so the header row 1 is never targeted |
| `App.StoredModalRow` | app.py:112-127 | a card's modal row keeps the card's cells and has no index label, because `to_dict()` drops it and `pd.Series` of a dict has `name` `None` |
| `App.SaveEdit` | app.py:158-171 | the edit modal calls `update_row_in_sheet` exactly when the row has a label, on sheet row label + 2; without one it shows "Erro ao atualizar: " followed by Python's `TypeError` message |
| `App.ConfirmDelete` | app.py:184-196 | the delete modal calls `delete_row_in_sheet` exactly when the row has a label, on sheet row label + 2; without one it shows "Erro ao excluir: " followed by Python's `TypeError` message |
| `App.StoredCardNeverReachesSheet` | app.py:112-196 | as written, no card's edit or delete reaches the sheet, not even the first card's, for which row 2 was meant |
| `App.LabelledModalRow` | app.py:162 | the corrected modal row keeps the card's cells and its index label |
| `App.EditTargetsSourceRow` | app.py:162 | with the label kept, a card of the filtered view of a tab edits and deletes sheet row `name + 2`, which exists and holds exactly that card's record |
| `Frames.Where` | app.py:32 | the mask keeps exactly the rows whose cell in the column equals the value; a missing cell never matches |
| `Frames.ColumnValues` | app.py:37 | `dropna()` gives exactly the values present in the column |
| `Frames.FromRecordsShape` | utils/google_sheets.py:41 | the DataFrame has every record's keys as columns and labels rows 0, 1, 2, ...; it keeps every present cell and has '' wherever a record lacks a column |
| `Frames.UniformRecordsKept` | utils/google_sheets.py:40-41 | when all records share their keys, every row is exactly its record and the columns are those keys |
| `Sheets.LastIndex` | utils/google_sheets.py:40 | the last header column bearing a name: no later column has it |
| `Sheets.RecordOf` | utils/google_sheets.py:40 | a record's keys are exactly the header's names, and each holds the cell of the last column with that name ('' past the row's end) |
| `Sheets.RecordOfDistinct` | utils/google_sheets.py:40 | under a header with no repeated name, each name maps to the cell directly below it |
| `Sheets.RecordsUniform` | utils/google_sheets.py:40 | every record of a tab has exactly the header's names as keys |
| `Sheets.AllRecordsAppend` | utils/google_sheets.py:70 | appending a row adds exactly its record after the existing ones; on a tab without a header row the row becomes the header |
| `Sheets.TableOfTab` | utils/google_sheets.py:40-41 | the table read from a tab holds each record unchanged under labels 0, 1, 2, ..., and has the header's names as columns |
| `Sheets.TableRowAt` | utils/google_sheets.py:40-41 | row `i` of the table read from a tab exists only below a header row, is labelled `i`, and holds the record of grid row `i + 1` |
| `Sheets.ReadSheetToDataframe` | utils/google_sheets.py:36-42 | `None` exactly when the worksheet is unavailable; otherwise a well-formed table, possibly with zero rows, holding the tab's records unchanged |
| `Sheets.FirstMatch` | utils/google_sheets.py:49-51 | a found position holds a record whose login, lowercased, equals the query lowercased, and no earlier record matches; nothing is found exactly when no record matches |
| `Sheets.FirstMatchAt` | utils/google_sheets.py:49-51 | a matching record with no earlier match is the one found |
| `Sheets.GetUserByLogin` | utils/google_sheets.py:44-52 | returns a record exactly when the worksheet is available and some record matches; that record is the first match in sheet order |
| `Sheets.Worksheet.AppendRow` | utils/google_sheets.py:70 | the grid afterwards is the old grid plus the row at the end |
| `Sheets.RegisterUser` | utils/google_sheets.py:54-72 | unavailable worksheet: "Erro ao acessar a planilha"; login taken ignoring case: "Usuário já existe" with the grid unchanged; otherwise "Usuário cadastrado com sucesso" with exactly the row Login, Email, Senha, Tipo de Usuário appended |
| `Sheets.TakenIffSomeMatch` | utils/google_sheets.py:59-61 | on a tab with a header row, the truthiness test refuses a login exactly when some record matches it |
| `Sheets.UserRowReadsBack` | utils/google_sheets.py:64-70 | on the users header the appended row reads back as the record with the user's four fields |
| `Sheets.RegisteredUserFound` | utils/google_sheets.py:59-71 | after a successful registration, a lookup of the login in any capitalisation finds the new record, and finds it last |
| `Sheets.RegisterKeepsLoginsUnique` | utils/google_sheets.py:58-71 | registration keeps logins unique ignoring case |
| `Sheets.SecondRegistrationRefused` | utils/google_sheets.py:50-61 | after "ana" is registered, "ANA" is taken |
| `Text.Insert` | app.py:37 | inserting into an ascending, repeat-free list keeps it so and adds exactly the new value |
| `Text.SortUnique` | app.py:37 | `sorted(unique(...))` is strictly ascending and holds exactly the input's values |
| `Text.StrictlySortedUnique` | app.py:37 | two strictly ascending lists with the same values are equal, so the sorted options are determined by the column's values alone |
| `Text.DropEmpty` | app.py:38 | the `if x` comprehension keeps exactly the non-empty entries and keeps an ascending list ascending |

## Left out

- `Text.Lower`: lowercases ASCII letters only. Python's `str.lower()` also folds non-ASCII letters, such as "Á" to "á".
- Sheet cells are strings throughout. gspread's numeric coercion of cells and Python's mixed-type comparisons are not modelled.
- `Sheets.RecordOf`: gspread pads the grid to a rectangle. A row wider than the header would give an extra key named ''; that is not modelled.
- `Sheets.RecordOf`: a repeated header name resolves to its last column, as the `dict(zip(...))` of older gspread releases does. gspread 5 and later instead raise `GSpreadException` from `get_all_records()` on a header with repeated names (two blank header cells, say), and these files pin no gspread version. Only a header without repeats (`Sheets.RecordOfDistinct`) is outside that difference.
- `Sheets.ReadSheetToDataframe`: only the failure to obtain the worksheet is modelled. An exception raised afterwards by `get_all_records()` (an `APIError`, or the repeated-header `GSpreadException`) is not caught in `read_sheet_to_dataframe` or `get_user_by_login` and escapes to the caller; the model returns a table or record instead.
- `Sheets.RegisterUser`: an exception from `get_all_records()` or `append_row` after the worksheet is obtained escapes uncaught; the model always returns one of its three messages.
- `Sheets.RegisterUser`: uses one snapshot of the worksheet. The code fetches the worksheet a second time inside `get_user_by_login`. If that second fetch fails, the code appends without a uniqueness check; this model does not show that.
- `Sheets.RegisterUser`: `user_data` is a record with the four fields. A `KeyError` from a `user_data` dict without them is not modelled.
- Authentication, network access and `st.secrets` are not modelled: `get_google_sheet_by_url` and `get_worksheet` are foreign I/O. Every failure becomes the `null` worksheet, and the `st.error` messages are dropped.
- Streamlit rendering is not modelled: widgets, the cards of `show_main_app`, `st.rerun`, `st.cache_data.clear`, the details modal, and the edit and delete modals beyond the row they pass to the sheet helpers. The `Status` selectbox index in the edit modal is UI as well.
- `load_data`, `show_login_form`, `show_register_form`, `update_row_in_sheet` and `delete_row_in_sheet` are called but not defined in these files. They are not part of this model. `App.EditTargetsSourceRow` therefore assumes the table shown is the one read from the tab, and `App.SaveEdit` and `App.ConfirmDelete` stop at the call they would make.
- Password hashing and the special substring matching and truncation of the "Descrição Meta" column do not occur in these files.

## Findings

| source | as written | input that shows it | evidently intended | confidence | as-written member | corrected member |
|---|---|---|---|---|---|---|
| app.py:112-196 | the cards store `row.to_dict()` and the modals rebuild `pd.Series(...)` from it, whose `name` is `None`; `row.name + 2` then raises `TypeError`, caught and shown as "Erro ao atualizar: ..." or "Erro ao excluir: ..." | any card, e.g. the first one (label 0) of an unfiltered table | edit and delete sheet row label + 2 (row 2 for label 0), the row holding the card's record, as the comment at app.py:162 says | high, not executed | `App.StoredCardNeverReachesSheet` | `App.EditTargetsSourceRow` |
