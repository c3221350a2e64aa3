# psf-vote: CivicCRM export to Helios voter file

This project models, in Dafny, the row conversion of the psf-vote helper
script `convert-exported-csv-for-helios.py`. The script reads a CSV exported
from CivicCRM, whose rows hold name fields followed by an email, and writes
the three columns Helios Voting imports: a unique voter id, the email, and a
display name. For every row it strips all fields and pops the last one as the
email. It cuts the new last field before its first comma, and blanks that
field if it still holds an `@`. It then draws an id, joins the name fields
with spaces and strips the result, uses `PSF Voter <id>` when that name is
empty, and writes `[id, email, name]`.

Two modules:

- `PyStrings` (`py_strings.dfy`) models the Python string operations the
  script uses: `str.strip()`, `str.split(sep)` and `sep.join(pieces)`. Each
  comes with the lemmas that pin it down: what strip removes, that split and
  join are inverse, and when a join is all whitespace.
- `HeliosConvert` (`helios_convert.dfy`) holds the specification of one row
  (`ConvertedRow`), its properties as lemmas, and the imperative model of the
  loop. `Convert` walks the rows in order, and `ConvertRow` is its body: it
  strips the fields with a loop, pops the email, cleans the last name field in
  place, then joins and falls back. Both methods are proved equal to the
  specification.

Rows come in already split into fields. The written rows come back as a
sequence, in the order the CSV writer receives them. The random id generator
is replaced by a sequence of ids supplied by the caller: row `i` gets
`ids[i]`. The generator is called once for each row that gets past the
checks, and a failing row stops the run, so the `i`-th call always belongs to
row `i`.

A row with fewer than two fields never gets the fallback name. An empty row
raises `IndexError` at `row.pop()` (line 42). A one-field row raises `IndexError` at `row[-1]` (line 43), because
popping the email left the list empty. The model returns these as
`Failed(PopFromEmptyList)` and `Failed(IndexOutOfRange)`. `Convert` then stops
with `Aborted`, keeping the rows already written. An empty row is a real case:
`csv.reader` yields `[]` for a blank line.

## Model

| member | source | states |
|---|---|---|
| `PyStrings.IsWhitespace` | convert-exported-csv-for-helios.py:41 | the characters for which Python's `str.isspace()` holds, which `str.strip()` removes: space, tab to carriage return, the separators U+001C to U+001F, U+0085, U+00A0, U+1680, U+2000 to U+200A, U+2028, U+2029, U+202F, U+205F and U+3000 (a definition, no contract) |
| `PyStrings.Join` | convert-exported-csv-for-helios.py:53 | `sep.join(pieces)`: the pieces in order with the separator between neighbours, `''` for no pieces (a definition; its properties are `JoinSplit`, `SplitJoin` and `JoinAllWhitespace`) |
| `PyStrings.Strip` | convert-exported-csv-for-helios.py:41 | `str.strip()` leaves a result with no whitespace at either end, no longer than its input |
| `PyStrings.StripEmptyIffAllWhitespace` | convert-exported-csv-for-helios.py:53-54 | stripping gives `''` exactly when the string is all whitespace, so the `name == ''` test means "only whitespace was joined" |
| `PyStrings.StripKeepsMiddle` | convert-exported-csv-for-helios.py:41 | strip removes only whitespace, and only at the two ends: the result is the part of the input after its leading whitespace, followed only by whitespace |
| `PyStrings.StripTrimmed` | convert-exported-csv-for-helios.py:41 | a string with no whitespace at either end is left unchanged (so strip is idempotent) |
| `PyStrings.StripPadded` | convert-exported-csv-for-helios.py:41 | a non-empty trimmed field padded with one space on each side strips back to itself |
| `PyStrings.Split` | convert-exported-csv-for-helios.py:44 | `split(',')` gives at least one piece and none holds a comma; its first piece is a prefix of the field, followed by a comma when shorter than it |
| `PyStrings.JoinSplit` | convert-exported-csv-for-helios.py:44 | joining the pieces of a split with the separator gives back the original field |
| `PyStrings.SplitJoin` | convert-exported-csv-for-helios.py:44 | splitting a join of separator-free pieces gives back the pieces |
| `PyStrings.SplitNoSeparator` | convert-exported-csv-for-helios.py:43-44 | a field without a comma splits into itself alone, so the comma test and the split agree |
| `PyStrings.SplitAfterPiece` | convert-exported-csv-for-helios.py:44 | a comma-free piece followed by a comma splits off as the first piece, whatever follows |
| `PyStrings.JoinAllWhitespace` | convert-exported-csv-for-helios.py:53 | a join with a whitespace separator is all whitespace exactly when every piece is |
| `PyStrings.AllWhitespaceConcat` | convert-exported-csv-for-helios.py:53 | a concatenation is all whitespace exactly when both parts are |
| `HeliosConvert.NameFields` | convert-exported-csv-for-helios.py:41-46 | the list left after the pop and the cleanup: one entry per field but the last, each stripped, the last entry also cleaned by `CleanLastNameField` (a definition; its properties are `OtherNameFieldsOnlyStripped` and `LastNameFieldCleaned`) |
| `HeliosConvert.UsesFallback` | convert-exported-csv-for-helios.py:53-54 | the `name == ''` test: the stripped space-join of the name fields is empty (a definition; `FallbackIffNamesBlank` characterises it) |
| `HeliosConvert.ConvertedRow` | convert-exported-csv-for-helios.py:41-56 | the specification of one pass of the loop body: `Failed(PopFromEmptyList)` for a row with no fields, `Failed(IndexOutOfRange)` for a row with one, otherwise the row `(id, stripped last field, DisplayName(NameFields(row), id))` (a definition; `ConvertRow` and `Convert` are proved against it, and the row lemmas state its properties) |
| `HeliosConvert.CleanLastNameField` | convert-exported-csv-for-helios.py:43-46 | the cleaned last name field holds no `,` and no `@` and is a prefix of the field; it is either empty or the part before the first comma, and it is empty exactly when that part is empty or holds `@`; a field with neither character is unchanged |
| `HeliosConvert.DisplayName` | convert-exported-csv-for-helios.py:53-55 | the display name is never empty |
| `HeliosConvert.ShortRowsFail` | convert-exported-csv-for-helios.py:42-43 | a row fails exactly when it has fewer than two fields: with no fields at the pop, with one field at the index that follows; it never gets the fallback name |
| `HeliosConvert.IdAndEmail` | convert-exported-csv-for-helios.py:41-56 | a row of two or more fields is written with the id drawn for it, and its email is the last field stripped, untouched by the name cleanup |
| `HeliosConvert.OtherNameFieldsOnlyStripped` | convert-exported-csv-for-helios.py:41-46 | every field but the email becomes a name field, and all name fields before the last are only stripped |
| `HeliosConvert.LastNameFieldCleaned` | convert-exported-csv-for-helios.py:43-46 | the last name field after cleanup holds no `,` and no `@`, is a prefix of the stripped field, and is either empty or the part before the first comma; it is empty exactly when that part is empty or holds `@` |
| `HeliosConvert.FallbackIffNamesBlank` | convert-exported-csv-for-helios.py:41-54 | the fallback is taken exactly when every cleaned name field is the empty string |
| `HeliosConvert.NameNeverEmpty` | convert-exported-csv-for-helios.py:53-55 | the written name is never empty, and the fallback name is `PSF Voter ` followed by the same id that is written as the first column |
| `HeliosConvert.NonFallbackNameTrimmed` | convert-exported-csv-for-helios.py:53 | outside the fallback the name is the stripped space-join of the name fields, with no whitespace at either end |
| `HeliosConvert.NameAlwaysTrimmed` | convert-exported-csv-for-helios.py:15-55 | with an id that is non-empty and free of whitespace, as a hex UUID is, every written name has no whitespace at either end |
| `HeliosConvert.OnlyIdDependsOnId` | convert-exported-csv-for-helios.py:47-56 | converting a row with another id changes nothing but the id column and, in the fallback case only, the name |
| `HeliosConvert.StripFields` | convert-exported-csv-for-helios.py:41 | the field list is replaced by the stripped fields, in the same order |
| `HeliosConvert.NameFieldsOfStripped` | convert-exported-csv-for-helios.py:41-46 | the name fields are the stripped fields without the popped email, with the last one cleaned |
| `HeliosConvert.CleanNameFields` | convert-exported-csv-for-helios.py:43-46 | the two in-place updates of `row[-1]` change only the last field, and leave it cleaned |
| `HeliosConvert.NameOf` | convert-exported-csv-for-helios.py:53-55 | the name is computed as the specified display name: the stripped space-join of the name fields, or `PSF Voter <id>` when that is empty |
| `HeliosConvert.ConvertRow` | convert-exported-csv-for-helios.py:41-56 | the loop body, run stepwise on the field list, yields exactly the specified row result, including both `IndexError` cases; it fails exactly for rows of fewer than two fields, and otherwise writes the id it was given |
| `HeliosConvert.Convert` | convert-exported-csv-for-helios.py:40-56 | rows are converted in input order, row `i` with `ids[i]`; every row is written when all rows have at least two fields; otherwise the run stops at the first short row with its error, after writing exactly the rows before it |
| `HeliosConvert.JoinPlainPair` | convert-exported-csv-for-helios.py:53 | two non-blank trimmed name fields join to `first + " " + last`, which strip leaves unchanged |
| `HeliosConvert.SuffixAfterCommaDropped` | convert-exported-csv-for-helios.py:43-53 | for a non-blank trimmed first name, a non-blank trimmed last name without `,` or `@`, a suffix that is empty or does not end in whitespace (a hypothesis that only simplifies the proof: trailing whitespace would be stripped before the cut), and a trimmed email, the row `[first, last + "," + suffix, email]` is written with the name `first + " " + last` and that email |
| `HeliosConvert.EmailInNameColumnBlanked` | convert-exported-csv-for-helios.py:45-53 | for a non-blank trimmed first name, a trimmed last field that holds `@` and no `,`, and a trimmed email, the row `[first, address, email]` is written with the name `first` and that email |
| `HeliosConvert.PaddingRemoved` | convert-exported-csv-for-helios.py:41-53 | for non-blank trimmed first name, last name and email, the last name without `,` or `@`, the row whose three fields carry exactly one space on each side is written with the email unpadded and the name `first + " " + last` |
| `HeliosConvert.BlankNameGetsFallback` | convert-exported-csv-for-helios.py:53-55 | a row whose only name field is whitespace gets `PSF Voter <id>` and its email stripped |
| `HeliosConvert.CommaTruncationExample` | convert-exported-csv-for-helios.py:43-44 | `["Jane", "Doe, Jr.", "jane@example.com"]` is written as `(id, "jane@example.com", "Jane Doe")` |
| `HeliosConvert.MisplacedEmailExample` | convert-exported-csv-for-helios.py:45-46 | `["Jane", "jane@example.com", "jane@example.com"]` is written as `(id, "jane@example.com", "Jane")` |
| `HeliosConvert.WhitespaceExample` | convert-exported-csv-for-helios.py:41 | `[" Jane ", " Doe ", " jane@example.com "]` is written as `(id, "jane@example.com", "Jane Doe")` |
| `HeliosConvert.FallbackExample` | convert-exported-csv-for-helios.py:54-55 | `["  ", ""]` is written as `(id, "", "PSF Voter " + id)` |

## Left out

- Argument parsing and file opening (`create_parser`, `main`, lines 20-33 and 59-67): command-line and file I/O, outside the conversion.
- CSV tokenising, quoting and writing by `csv.reader` and `csv.writer` (lines 38-39, and the output side of line 56): library code that is not part of this model. Rows enter as lists of fields, and the written rows are returned as a sequence.
- `generate_unique_id` (lines 15-17): `uuid.uuid4().hex` is random. Ids are supplied by the caller, and their uniqueness is not proved, since for random UUIDs it holds only with high probability. `NameAlwaysTrimmed` states the one fact about ids that the model uses (non-empty, no whitespace) as a precondition.
- HeliosConvert.Convert: `ids` must hold an id for every row. The generator in the script never runs out.
- HeliosConvert.CleanNameFields: requires a last field to exist. Its caller `ConvertRow` performs the line-43 check that raises `IndexError` before calling it.
- HeliosConvert.SuffixAfterCommaDropped: requires a suffix that is empty or does not end in whitespace, so the field is already its own strip. The script gives the same name when the suffix has trailing whitespace, but the lemma does not cover that case.
- Python's `str.strip()` removes the characters for which `str.isspace()` holds. `PyStrings.IsWhitespace` lists them as a fixed set of code points and is not derived from the Unicode database.
- Exceptions other than the two `IndexError`s of short rows (I/O errors, encoding errors while reading) belong to the file handling and are not modelled.
