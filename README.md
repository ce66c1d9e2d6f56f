# State-name converter, modelled in Dafny

`database/changename.py` loads a CSV file into a record set, replaces each
full United States state name in the column named `state` by its two-letter
postal code, and writes the record set to a new CSV file. The names come from
a fixed table of 51 entries: the fifty states and the District of Columbia.
A value that is not a name in the table is kept as it was. This covers codes
that are already there, unknown names and empty cells. If the record set has
no column named exactly `state`, nothing is converted and nothing is written.

The model has three modules:

- `Wrappers` (`wrappers.dfy`): the `Option` type used for cells that may be
  missing.
- `StateTable` (`state_table.dfy`): the table literal. It is kept as its list
  of entries, and `TableOf` turns that list into a dictionary the way a
  literal does: entries are added left to right, and a later one replaces an
  earlier one with the same key. The module proves the table's shape: 51
  entries, every code two upper-case letters, every name at least four
  characters, and no two names sharing a code. Distinctness of the 51 names
  and of the 51 codes is shown by a sorting certificate. A listed order puts
  the entries in strictly ascending order, and transitivity of the
  character-by-character order does the rest.
- `ChangeName` (`change_name.dfy`): the per-value lookup-or-default
  (`Convert`), the column check (`ColumnIndex`), and the conversion of the
  whole record set. The conversion has two forms:
  - a function, `ConvertStateNames`, returning an `Outcome`: `Written` with
    the record set handed to the writer, or `ColumnMissing`;
  - a method, `ConvertStateNamesInPlace`, that overwrites the `state` cells
    of a row array in place, as the column assignment does, and is proved
    equal to the function.

A record set is a header (`seq<string>`) plus rows. Each row is a
`seq<Option<string>>` in column order, and `None` is a missing cell.

## Model

| member | source | states |
|---|---|---|
| `StateTable.TableOfKeys` | database/changename.py:4-16 | for any list of entries, a string is a key of the dictionary `TableOf` builds exactly when it is one of the listed names |
| `StateTable.TableOfAt` | database/changename.py:4-16 | for any list of entries with distinct names, each entry is found in the dictionary `TableOf` builds under its name with its own code |
| `StateTable.TableOfSize` | database/changename.py:4-16 | for any list of entries with distinct names, the dictionary `TableOf` builds has as many keys as there are entries |
| `StateTable.TableSize` | database/changename.py:4-16 | the table has exactly 51 entries, so the names in the literal are pairwise distinct |
| `StateTable.TableLookup` | database/changename.py:4-16 | every entry of the literal is found under its own name with its own code (e.g. Alabama gives AL) |
| `StateTable.TableKeys` | database/changename.py:4-16 | a string is a key of the table exactly when it is one of the names written in the literal |
| `StateTable.EntryOf` | database/changename.py:4-16 | every key of the table comes from an entry of the literal, and its value is that entry's code |
| `StateTable.CodesArePostalCodes` | database/changename.py:4-16 | every value of the table is a two-character upper-case string |
| `StateTable.NamesAreLong` | database/changename.py:4-16 | every key of the table is at least four characters long |
| `StateTable.NoCodeIsName` | database/changename.py:4-16 | no value of the table is itself a key of the table |
| `StateTable.TableInjective` | database/changename.py:4-16 | two different names never share a code, so the table is injective |
| `ChangeName.Convert` | database/changename.py:26 | the converted value is either the original or the table's code for it; a missing cell stays missing and a present one stays present |
| `ChangeName.ConvertName` | database/changename.py:26 | a value that is a key becomes exactly its code, and that code is a two-letter upper-case string |
| `ChangeName.ConvertOther` | database/changename.py:26 | a value that is not a key, or a missing cell, is left unchanged (the `fillna` with the original) |
| `ChangeName.ConvertIdempotent` | database/changename.py:26 | converting an already converted value changes nothing |
| `ChangeName.ConvertInjective` | database/changename.py:4-16 | two different names in the table convert to different codes |
| `ChangeName.KnownNames` | database/changename.py:5-14 | Alabama becomes AL, California becomes CA and Texas becomes TX |
| `ChangeName.CodeIsKept` | database/changename.py:26 | a value that is already a code (TX) is kept |
| `ChangeName.LowerCaseIsKept` | database/changename.py:26 | the lookup does not fold case: `california` is kept |
| `ChangeName.PaddedIsKept` | database/changename.py:26 | the lookup does not trim: ` Texas` is kept |
| `ChangeName.UnknownIsKept` | database/changename.py:26 | a name outside the table is kept |
| `ChangeName.ColumnIndex` | database/changename.py:24 | the column is found exactly when a column has that exact name, and the position returned holds that name |
| `ChangeName.ConvertColumn` | database/changename.py:26 | every row keeps its length, its cell in the chosen column is converted, and every other cell is unchanged |
| `ChangeName.ConvertStateNames` | database/changename.py:19-33 | output is withheld exactly when no column is named `state`; otherwise the header, row count and row order are kept, each `state` cell is converted, and every other cell is unchanged |
| `ChangeName.ConvertColumnInPlace` | database/changename.py:26 | overwriting the column in place leaves the row array equal to `ConvertColumn` of its old contents |
| `ChangeName.ConvertStateNamesInPlace` | database/changename.py:19-33 | the in-place run returns the same outcome as `ConvertStateNames`; the rows are left untouched when the column is missing |
| `ChangeName.ConvertColumnIdempotent` | database/changename.py:26 | converting a converted column again gives the same rows |
| `ChangeName.ConvertStateNamesIdempotent` | database/changename.py:19-33 | running the converter on its own output writes that output again |
| `ChangeName.AlreadyConverted` | database/changename.py:24-29 | a record set whose `state` column holds no name from the table is written unchanged |
| `ChangeName.CapitalisedColumnIsMissing` | database/changename.py:24-33 | any well-formed header that has `State` but no `state` gives the column-missing outcome, whatever the rows hold |
| `ChangeName.MixedRows` | database/changename.py:19-33 | the rows (Alabama, 5), (TX, 10), (Unknown, 3) are written as (AL, 5), (TX, 10), (Unknown, 3) |

## Left out

- Reading and writing the CSV files (`pd.read_csv`, `DataFrame.to_csv`,
  lines 21 and 29) are library calls. The model starts from the parsed record
  set, and `Written` carries the record set that would be written. No row
  index column is written (`index=False`), and `Written` holds only the
  header and the rows.
- The reader's guarantees are taken as given, in `WellFormed`: column names
  are unique, because the reader renames repeated names, and every row is as
  wide as the header.
- Missing values: the reader turns empty fields, and markers such as `NA`
  or `null`, into missing cells. The writer writes missing cells back as
  empty fields. Both steps are I/O. The model starts after the first and
  stops before the second, so a missing cell is `None`. The library's dtype
  inference and float NaN semantics are not modelled. A non-text value in
  the `state` column is never a key, so it is kept, like any other value
  outside the table.
- The two console messages (lines 31 and 33) appear only as the two
  `Outcome` variants. The error message and the comment at line 23 say
  `State`, but the code checks for `state`. The model follows the code.
- The example call with hard-coded paths at line 39 is a file-system side
  effect, not logic.
- A missing input file and an unwritable output path are fatal errors raised
  by the library. They are not modelled.
