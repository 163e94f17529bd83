# Tag filtering of the hunters' tables

The application shows three spreadsheet tables: Races, Roles and FMoves.
Each table has comma-separated tag cells. This project models how the
application filters those tables by tags, and proves what the filters do.

- **`filter_df`** (module `MoveFilter`): the Moves tab filter over the
  FMoves table.
  - Role and race selections are stripped, and blank ones are dropped.
  - A row matches a tag when the tag equals one of the stripped
    comma-separated tokens of the row's cell. A missing cell reads as `""`.
  - The race entry `All` keeps every row whose `races` cell is not `""`.
  - Role and race masks combine with OR. With no masks, every row is kept.
  - Each tag of the comma-separated special string then narrows the rows
    (AND).
  - `FilterSpec` states this as one sequence filter. `FilterDf` is the
    method with the source's loops: it builds the masks, ORs them, and
    narrows tag by tag. It is proved to return the table `FilterSpec`, or
    the `KeyError` the source raises (`FilterOutcome`).
- **The Roles tab filter** (module `RoleFilter`).
  - At load, the `races` column is converted to text: a missing cell becomes
    `nan`. Every ` | ` is replaced by `,`.
  - With race ids selected, a row is shown when its race tokens hold a
    stripped selected id or `any`.
- **The selection buttons** (module `Buttons`).
  - Clicking a button toggles its id in the selection list. This is the
    class `SelectionList`.
  - The buttons are laid out in rows of at most `buttons_per_row`. This is
    `ButtonRows`.
- **Python and pandas building blocks** (modules `PyText`, `Tags` and
  `Frames`).
  - `str.strip`, `str.split(',')` and `str.replace(..., regex=False)`.
  - The token matcher, `fillna('')` and the cleanup comprehension.
  - Boolean-mask indexing, `concat(...).any(axis=1)` and `reset_index`.
  - A table is the sequence of its rows. A row's position is its index
    after `reset_index(drop=True)`.

`df['races'].fillna('') != ''` (app.py:64) compares the raw cell, so a cell
of only whitespace counts as non-empty (`MoveFilter.AllSentinelOnly`).

When the frame is already empty before a special tag other than the last
(for example, no row passes the OR stage and two or more special tags are
given), `filter_df` raises `KeyError` instead of returning an empty table;
see "## Findings".

## Model

| member | source | states |
|---|---|---|
| PyText.Strip | app.py:53 | `str.strip()` on Python whitespace; never longer than its input (its exact meaning is `StripSlice` and `StripPadded`) |
| PyText.Split | app.py:56 | `str.split(',')` always yields at least one piece, so `''.split(',')` is `['']` |
| PyText.Replace | app.py:10 | `str.replace(pat, rep)` scanning left to right; a replacement no longer than the pattern never lengthens the string |
| Tags.FillNa | app.py:56 | `fillna('')`: the cell reads as `""` exactly when it is missing or empty |
| Tags.Tokens | app.py:56 | `[s.strip() for s in x]` over the split cell; a cell always has at least one token |
| Tags.HasTag | app.py:56 | the `item in [...]` test of a mask (characterised by `HasTagIff`) |
| Tags.StripEachAt | app.py:56 | every stripped piece is the token at the same place |
| Tags.HasTagIff | app.py:56 | a cell carries a tag exactly when some comma-separated piece of it strips to the tag |
| Tags.SplitTags | app.py:80 | every special tag is non-empty and trimmed |
| Frames.Where | app.py:75 | a row filter keeps no more rows than the table (membership: `WhereMember`, order: `WherePositions`) |
| Frames.Keep | app.py:83 | `df[mask]` keeps no more rows than `df`, and every kept row is a row of `df` |
| Frames.WhereNone | app.py:83 | a filter no row satisfies keeps nothing |
| MoveFilter.TagMask | app.py:56 | one mask entry per row (each entry is `HasTag` on the row's cell) |
| MoveFilter.NonEmptyMask | app.py:64 | one mask entry per row (each entry compares the raw cell with `""`) |
| MoveFilter.LiteralRaces | app.py:65 | no `All` is left among the literal race entries, and none is added |
| MoveFilter.OrStage | app.py:72-77 | the role-or-race test of one row |
| MoveFilter.Matches | app.py:72-83 | the OR stage and every special tag |
| MoveFilter.FilterSpec | app.py:49-85 | the intended result keeps no more rows than the table (meaning: `FilterMember`, `FilterOrder`) |
| MoveFilter.FilterOutcome | app.py:49-85 | the outcome as written: `KeyError` under `EmptiesBeforeLast`, otherwise the table `FilterSpec` |
| MoveFilter.EmptiesBeforeLast | app.py:81-83 | the frame has no rows before some special tag other than the last |
| MoveFilter.KeyErrorOnlyWhenEmpty | app.py:81-85 | the source raises only where the intended result is empty, so whenever some row matches it returns exactly `FilterSpec` |
| MoveFilter.UnmatchedSelectionRaises | app.py:72-83 | with two or more special tags and no row passing the OR stage, the source raises where the empty table is meant |
| MoveFilter.EmptySheetRaises | app.py:81-83 | an empty FMoves sheet with role `Tank` and special `a,b` raises `KeyError` |
| RoleFilter.AsStr | app.py:10 | `astype(str)`: a missing cell becomes `nan` |
| RoleFilter.Offered | app.py:133-135 | the `any(...)` test of one row over the selected ids and `any` |
| RoleFilter.RolesForRaces | app.py:130-136 | the shown table is no longer than the Roles table (meaning: `RolesForRacesMember`, `RolesForRacesOrder`) |
| Buttons.Toggled | app.py:36-39 | a click shortens the list by one when the id is selected, and otherwise appends the id at the end |
| Buttons.SelectionList.IsSelected | app.py:32 | `item_id in st.session_state[session_key]` |
| PyText.StripIsTrimmed | app.py:53 | a stripped string has no whitespace at either end |
| PyText.StripSlice | app.py:53 | `strip()` returns a contiguous slice of the input, and only whitespace lies outside it |
| PyText.StripPadded | app.py:53 | removing whitespace of any length from both ends of a trimmed string gives back that string |
| PyText.StripTrimmed | app.py:53 | `strip()` leaves a string unchanged exactly when it has no whitespace at either end |
| PyText.StripIdempotent | app.py:53 | stripping twice is stripping once |
| PyText.StripBlank | app.py:53 | a string strips to `""` exactly when every character is whitespace, so exactly those entries are dropped by the `if i.strip()` guard |
| PyText.SplitPieces | app.py:56 | no piece of `split(',')` contains a comma |
| PyText.JoinSplit | app.py:56 | joining the pieces of `split(',')` with commas rebuilds the cell (a cell is never lost by splitting) |
| PyText.SplitJoin | app.py:56 | splitting the comma-join of comma-free pieces gives the pieces back (the inverse of `JoinSplit`) |
| PyText.SplitConcat | app.py:56 | splitting `a,b` gives the pieces of `a` followed by the pieces of `b` |
| PyText.SplitNoSeparator | app.py:56 | a cell without a comma splits into itself alone |
| PyText.ReplaceLength | app.py:10 | the replaced string's length changes by the pattern-length difference once per non-overlapping occurrence |
| PyText.CountZero | app.py:10 | the left-to-right scan finds no occurrence exactly when the pattern occurs nowhere |
| PyText.ReplaceAbsent | app.py:10 | a string without the pattern is left unchanged |
| PyText.ReplaceUnchangedIff | app.py:10 | with a replacement of another length, the string is unchanged exactly when the pattern does not occur |
| Tags.StripEachSource | app.py:56 | every token of a cell is the stripped form of one of its pieces |
| Tags.HasTagEmpty | app.py:56 | an empty (or missing, after `fillna('')`) cell carries the tag `""` and no other |
| Tags.TokensOfTag | app.py:56 | a cell holding one trimmed comma-free tag has exactly that tag as its token list |
| Tags.HasTagStripped | app.py:56 | a carried tag is trimmed and comma-free, so an untrimmed or comma-holding tag never matches |
| Tags.TokensConcat | app.py:56 | the tokens of `a,b` are the tokens of `a` followed by those of `b` |
| Tags.HasTagConcat | app.py:56 | a cell `a,b` carries a tag exactly when `a` or `b` carries it |
| Tags.HasTagPadded | app.py:56 | whitespace around a token does not stop it from matching |
| Tags.Clean | app.py:53 | the cleaned selection is no longer than the input, and each entry is non-empty and trimmed |
| Tags.CleanKeeps | app.py:53 | every entry that is not blank after stripping survives cleanup in its stripped form |
| Tags.CleanSource | app.py:53 | every surviving entry is the stripped form of some input entry |
| Tags.CleanOne | app.py:53 | a single trimmed non-empty entry is its own cleaned list |
| Tags.CleanAppend | app.py:53 | cleanup of concatenated entry lists is the concatenation of their cleanups |
| Tags.SplitTagsAppend | app.py:80 | appending `,t` to the special string appends the special tags of `t` |
| Tags.SplitTagsBlank | app.py:80 | a special string of only commas and whitespace yields no tags |
| Frames.WhereMember | app.py:75 | a row is kept by a row filter exactly when it is a row of the table that satisfies the filter |
| Frames.KeepAt | app.py:75 | `df[mask]` is row `Positions(mask)[k]` of `df` at its `k`-th place: a dense renumbering of the rows whose mask is true |
| Frames.Positions | app.py:83 | the kept positions increase, each has a true mask entry, and every true entry is among them |
| Frames.KeepWhere | app.py:75 | indexing with a mask computed row by row from a predicate is filtering by that predicate |
| Frames.WhereWhere | app.py:83 | filtering twice is filtering once by the conjunction |
| Frames.WhereNarrows | app.py:83 | a stronger filter's result is the weaker filter's result filtered again, and is no longer |
| Frames.WhereConcat | app.py:36-39 | filtering a concatenation filters each part; used to show that the toggle keeps the other ids in order |
| Frames.WherePositions | app.py:85 | after `reset_index`, row `k` of the result is row `pos[k]` of the input, the positions increase, and they are exactly the rows that satisfy the filter |
| Frames.AnyOf | app.py:74 | the combined mask has one entry per row |
| MoveFilter.FilterDf | app.py:49-85 | the method's result is `FilterOutcome`: `KeyError` when the frame is already empty before a special tag other than the last, otherwise the table `FilterSpec`, the rows passing the OR stage and carrying every special tag, in table order |
| MoveFilter.RoleMasks | app.py:53-57 | one mask per cleaned role entry, in order, and each mask is true exactly at the rows whose `roles` cell carries that entry |
| MoveFilter.RaceMasks | app.py:60-69 | with `All` among the race entries, the first mask is "`races` cell is not `""`". Then there is one token mask per literal race entry, with every `All` removed |
| MoveFilter.OrMasks | app.py:72-77 | the OR stage keeps exactly the rows passing the role-or-race test, and every row when there is no mask |
| MoveFilter.NarrowBySpecial | app.py:80-83 | after the special tags seen so far, the frame holds the OR-stage rows that carry all of them (the loop invariant); a tag looked up after a mask was applied to an empty frame raises `KeyError`, exactly as `EmptiesBeforeLast` states |
| MoveFilter.NarrowStep | app.py:82-83 | one special tag's mask applied to the current frame adds that tag to the AND condition |
| MoveFilter.OrCombine | app.py:72-77 | the `any` over the concatenated masks is true at a row exactly when the row passes the OR stage, and no mask means the whole table |
| MoveFilter.AnyRowSound | app.py:74 | a row where some role or race mask is true passes the OR stage |
| MoveFilter.AnyRowComplete | app.py:74 | a row passing the OR stage with some selection has a true mask |
| MoveFilter.NarrowedFully | app.py:80-85 | after every special tag, the frame is the table filtered by the whole match predicate |
| MoveFilter.FilterMember | app.py:49-85 | a row is in the result exactly when it is a row of the table that matches the query |
| MoveFilter.FilterOrder | app.py:74-85 | the result is the matching rows in table order, renumbered `0..n-1`; the positions increase and are exactly the matching rows |
| MoveFilter.LiteralRacesMember | app.py:65 | a tag is matched literally exactly when it is a race entry other than `All` |
| MoveFilter.NoSelectionKeepsAll | app.py:76-77 | with no role, race or special tag after cleanup, the whole table is returned |
| MoveFilter.BlankSpecialIgnored | app.py:80 | a special string of only commas and whitespace leaves the OR-stage result unchanged |
| MoveFilter.CarriesAllConcat | app.py:81-83 | carrying every tag of `a + b` is carrying every tag of `a` and every tag of `b` |
| MoveFilter.AddSpecialNarrows | app.py:80-83 | adding special tags refilters the old result by the new tags, so it never grows |
| MoveFilter.SelectionsAsSets | app.py:72-83 | for the intended result (`FilterSpec`), only the sets of cleaned entries matter: duplicates and order of the selections do not change it |
| MoveFilter.SameEntriesSameMatch | app.py:72-83 | queries with the same entries, in any order and multiplicity, match the same rows |
| MoveFilter.SameEntriesSameOrStage | app.py:72-77 | role and race selections with the same entries pass the same rows through the OR stage |
| MoveFilter.RoleRaceSetsSameOutcome | app.py:53-83 | as written, duplicate or reordered role and race entries leave the outcome unchanged, `KeyError` included |
| MoveFilter.EmptySheetOutcome | app.py:80-85 | on an empty sheet the source returns the empty table for at most one special tag and raises `KeyError` for two or more |
| MoveFilter.DuplicateSpecialRaises | app.py:80-83 | as written, a repeated special tag changes the outcome: on an empty frame `a,a` raises `KeyError` where `a` returns the empty table |
| MoveFilter.AddRoleWidens | app.py:53-75 | once some role or race is selected, selecting another role only adds rows: the old result is the new one filtered again |
| MoveFilter.AddRaceWidens | app.py:60-75 | once some role or race is selected, selecting another race only adds rows |
| MoveFilter.AllSentinelOnly | app.py:63-65 | with `All` the only race entry, no role and no special tag, the result is the rows whose raw `races` cell is not `""` |
| MoveFilter.MissingCellsMatchNothing | app.py:56-68 | a row with missing `roles` and `races` cells passes the OR stage only when there is no selection at all |
| MoveFilter.ExampleAll | app.py:63-65 | on a two-row table, `All` keeps the row with a race and drops the row with an empty race cell |
| RoleFilter.NormaliseRaces | app.py:10 | the normalised cell is text (`nan` for a missing one) and contains no bar separator (space, vertical bar, space) |
| RoleFilter.LoadRoles | app.py:9-10 | the loaded table has one row per sheet row (each `races` cell normalised as `NormaliseRaces` states) |
| RoleFilter.BarsReplaced | app.py:10 | the replacement leaves no bar separator (space, vertical bar, space) anywhere, even across a replaced comma |
| RoleFilter.NormaliseUnchanged | app.py:10 | a cell is left unchanged exactly when it contains no bar separator (space, vertical bar, space) |
| RoleFilter.ReplaceAtFirstBar | app.py:10 | the first bar separator becomes `,`, and the rest of the cell is normalised independently |
| RoleFilter.SeparatedRaces | app.py:10 | a normalised cell made of `a`, a bar separator and `b`, carries a race exactly when `a` or the normalised `b` carries it |
| RoleFilter.RolesForRacesMember | app.py:131-136 | with races selected, a row is shown exactly when it is offered to a stripped selected id or to `any` |
| RoleFilter.RolesForRacesOrder | app.py:130-136 | the shown rows keep table order, and they are the whole table when nothing is selected |
| RoleFilter.AnyRowsAlwaysShown | app.py:134 | a row carrying `any` is shown whatever is selected |
| RoleFilter.BlankIdShowsEmptyTokens | app.py:134 | a whitespace-only selected id shows every row with an empty race token, although `filter_df` would drop such an entry |
| Buttons.RemoveFirst | app.py:37 | removing an id shortens the list by one |
| Buttons.RemoveFirstAt | app.py:37 | `remove` deletes the first occurrence of the id and nothing else |
| Buttons.ToggleMembership | app.py:32-39 | in a duplicate-free list, toggling flips the clicked id's membership, keeps every other id's, and keeps the list duplicate-free |
| Buttons.ToggleKeepsOthers | app.py:36-39 | the other ids keep their order |
| Buttons.ToggleTwiceAbsent | app.py:36-39 | clicking an unselected id twice restores the list |
| Buttons.ToggleTwicePresent | app.py:36-39 | clicking a selected id twice moves it to the end |
| Buttons.SelectionList.constructor | app.py:18-19 | a new selection list is empty and duplicate-free |
| Buttons.SelectionList.Toggle | app.py:32-39 | a click changes the list to the toggled list and keeps it duplicate-free |
| Buttons.CeilDiv | app.py:22 | the result is the ceiling of `a / b` for either sign of `b` |
| Buttons.ButtonRows | app.py:22-29 | zero buttons per row is a division error, and a negative count gives no rows. Otherwise there are `ceil(n/p)` rows covering `0..n` in order, and each row is full except possibly the last |
| Buttons.RowsTile | app.py:24-29 | the spans `[r*p, min((r+1)*p, n))` for `r < ceil(n/p)` tile `0..n` |
| Buttons.TilingCovers | app.py:24-29 | in a tiling, every button index lies in exactly one row |
| Buttons.StartsIncrease | app.py:24-29 | the rows of a tiling are disjoint and in increasing order |

## Left out

- The Streamlit interface is not modelled. This covers the page set-up, tabs, columns, buttons, the toggle, the text input, the writes, the table display and its height, and `st.rerun`. It is presentation only.
- Reading the Excel files and renaming `group` to `races` are left out. They are file I/O, so tables are parameters.
- `st.session_state` persistence across reruns is left out. The selection list is an object whose `Toggle` the caller invokes.
- The lookup of selected names and the `✅` button labels (app.py:33, 44-45) are left out. They are display only.
- The wiring of the Moves tab (app.py:93-115) is left out. The model takes `filter_df`'s three arguments directly.
- Non-string cells are left out. Cells are text or missing, so the `TypeError` pandas would raise on a number in a tag column is not modelled.
- Columns are not modelled: a table is its rows.
- MoveFilter.FilterDf: the model assumes the `special` column holds at least one text cell. When no FMoves row has a special tag, pandas reads that column as numbers, `fillna('')` leaves it numeric on a frame with no rows, and `.str` at app.py:82 raises `AttributeError`; that error is not modelled, and the model returns the table or `KeyError` instead.
- MoveFilter.FilterOutcome: assumes, as `FilterDf` does, a `special` column with at least one text cell; the `AttributeError` of `.str` on a numeric `special` column over an empty frame is not modelled.
- MoveFilter.NarrowBySpecial: models the `KeyError` of a frame without columns, not the `AttributeError` of `.str` on a numeric `special` column over an empty frame, which arises when no FMoves row has a special tag.
- MoveFilter.FilterDf: when the last special tag is applied to a frame with no rows, the source returns a frame with no rows and no columns; the model returns the empty table `Table([])`, because it does not model columns.
- The source table stays unmodified because tables are values. No separate lemma is needed: `filter_df` reads `df` and never writes it.
- Buttons.ButtonRows: `math.ceil(len(df) / buttons_per_row)` is computed on exact rationals. The float rounding of the division is not modelled; it only matters beyond 2^53 rows.
- RoleFilter.LoadRoles: states only the row count and, through `NormaliseRaces`, that each `races` cell is text without ` | `. The other cells are carried through unchanged and are not stated separately.
- Frames.AnyOf: its contract gives only the mask length. Its meaning at a row is stated by `MoveFilter.AnyRowSound` and `MoveFilter.AnyRowComplete`.

## Findings

| source | as written | input that shows it | evidently intended | confidence | as-written member | corrected member |
|---|---|---|---|---|---|---|
| app.py:81-83 | the mask of a frame with no rows is an empty object Series, which `filtered_df[mask]` takes as column labels, so the frame loses every column and the next tag's `filtered_df['special']` raises `KeyError`. Because of this, duplicates and order of the special tags change the outcome (`a,a` raises where `a` does not), although a repeated tag evidently should not matter | an empty FMoves sheet, or a role that no move carries, with special `a,b` (or `a,a`) | the empty table | not executed; follows from pandas' boolean-indexer test rejecting an empty object array | MoveFilter.UnmatchedSelectionRaises | MoveFilter.FilterMember |
