# Clan records: the batch loader and the record service

This project models two parts of a small clan-records backend. The first is
`clean_and_seed_data`, the batch loader. It reads a delimited file of clans. It
normalises the header names and drops the records without a name. It dates each
record with `parse_smart_date`, which accepts epoch seconds, date strings or
nothing. It then inserts every record whose name is not yet stored, all in one
transaction that is committed or rolled back. The second part is the four clan
handlers of the record service: create, list, search by name piece, and delete
by id.

The `clans` table is the class `Clans.ClanStore`. Its one field, `clans: seq<Clan>`,
is reassigned by the operations that write to it. Its invariant `Valid()`
states the primary key: no two stored clans share an id. Things the code gets
from outside are parameters:
- the clock (`now`);
- the UUID generator (`id`, or `freshId(k)` for the k-th id of a run);
- `datetime.fromtimestamp(float(t))` (`epoch`), which gives an instant or raises
  ValueError or another error;
- `pd.to_datetime` with its UTC normalisation (`parse`), which gives an instant
  or fails;
- the file reader (`csv`, which is None when reading raised);
- whether the database fails a statement or the commit (`dbFails`).

Instants are integers counting UTC microseconds.

Modules:
- `Wrappers`: Option and Result.
- `Text`: Python's `strip`, `lower` and `isdigit`, the epoch-shape test, and the
  substring test behind `ILIKE '%q%'`.
- `Clans`: the record and the store.
- `Service`: backend/src/main.py.
- `Seed`: backend/seed.py.

The model follows the code as written, including these behaviours:
- The service's create handler does not trim names or reject blank or
  duplicate names.
- The loader looks up duplicates by the *untrimmed* file name, and only among
  the clans stored before the run (the session does not autoflush). A padded copy
  of a stored name is therefore inserted again (`Seed.PaddedNameIsNotADuplicate`),
  and two new records with one name are both inserted
  (`Seed.NewNamesAllStaged`, `Seed.SameNameTwiceInOneFile`).
- A missing region value is stored as the text `nan`, because `str()` of a
  missing value is `nan`.
- A file without a `region` column raises KeyError inside the transaction, but
  only once a record with a new name is reached. The run then rolls back.
  Missing `name` or `created_at` columns raise before the transaction opens,
  and the error propagates.
- The code evidently means a failed epoch conversion to fall through to
  the date-string parser, whose own handler (backend/seed.py:64-65) catches
  every Exception and returns `now`. The epoch handler (backend/seed.py:53-54)
  catches only ValueError. An OverflowError
  from a huge epoch value leaves `parse_smart_date`, and then the whole loader,
  before the session opens (`Seed.Prepare`, `Seed.OverflowAbortsTheLoad`). See
  "## Findings".

## Model

| member | source | states |
|---|---|---|
| Text.Trim | backend/seed.py:45 | `str.strip()`: `TrimStart` then `TrimEnd`. Characterised by Text.TrimSlice. |
| Text.IsSpaceAscii | backend/seed.py:45 | `Text.IsSpace` is the whitespace that `str.strip()` removes. On ASCII it is exactly space, tab, line feed, vertical tab, form feed, carriage return and the separators U+001C to U+001F. |
| Text.TrimSlice | backend/seed.py:45 | `strip` leaves a contiguous slice of its argument. Everything cut off either end is whitespace, and the slice neither starts nor ends with whitespace. |
| Text.TrimEmptyIff | backend/seed.py:42 | A text strips to the empty string exactly when every character is whitespace. |
| Text.TrimIdempotent | backend/seed.py:84-85 | Stripping twice gives the same text as stripping once. |
| Text.TrimUnpadded | backend/seed.py:45 | A text that neither starts nor ends with whitespace is its own strip. |
| Text.TrimPadding | backend/seed.py:33 | Any whitespace added around a text leaves its strip unchanged. |
| Text.Lower | backend/seed.py:33 | `str.lower()` for ASCII letters, character by character, keeping the length. Its properties are Text.LowerKeepsSpace and Text.LowerKeepsOccurrence. |
| Text.RemoveFirstDot | backend/seed.py:49 | `t.replace('.', '', 1)`. Characterised by Text.RemoveFirstDotShape. |
| Text.LooksLikeEpoch | backend/seed.py:49 | The code's test `t.isdigit() or t.replace('.', '', 1).isdigit()`. Characterised by Text.EpochTestIff. |
| Text.RemoveFirstDotShape | backend/seed.py:49 | Removing the first '.' shortens the text by one and lowers its dot count by one when there is a dot, and otherwise changes nothing. It keeps a digits-and-dots text digits-and-dots. |
| Text.IsDigitsIff | backend/seed.py:49 | `Text.IsDigits`, `str.isdigit()`: the text is non-empty and every character is a digit. So a digit text has no point and no sign. |
| Text.AllDigitsNoDots | backend/seed.py:49 | A text is all digits exactly when it is digits and dots with no dot. |
| Text.EpochTestIff | backend/seed.py:49 | `t.isdigit() or t.replace('.', '', 1).isdigit()` holds exactly when `t` is digits and dots, has at most one dot, and has at least one digit. |
| Text.Contains | backend/src/main.py:38 | The substring test. Characterised by Text.ContainsIff. |
| Text.ContainsIff | backend/src/main.py:38 | The substring test is true exactly when the query occurs in the text at some index. |
| Text.LowerKeepsOccurrence | backend/src/main.py:38 | An occurrence of the query in a name is still an occurrence, at the same index, once both are lower-cased. |
| Clans.ClanStore.Valid | backend/src/models.py:10 | The primary key holds: the table has exactly as many ids as rows. |
| Clans.UniqueIdsCount | backend/src/models.py:10 | A table never has more ids than rows. It has as many exactly when no two rows share an id. |
| Clans.AppendKeepsUniqueIds | backend/src/models.py:10 | Adding clans whose ids are distinct and not yet stored keeps the primary key unique. |
| Service.CreateClan | backend/src/main.py:19-25 | Appends exactly one clan with the given name and region and the fresh id and time. Nothing else in the table changes, and the primary key stays unique. |
| Service.ListClans | backend/src/main.py:28-30 | Returns every stored clan, in stored order. |
| Service.Matching | backend/src/main.py:38 | A clan is in a search result exactly when it is stored and its name contains the query, ignoring case. The result holds no more copies of a clan than the table. |
| Service.FindClan | backend/src/main.py:33-38 | A query shorter than 3 characters is refused with 400 and "Search must be at least 3 characters", and only such a query is refused. Any other query returns the matching clans, in stored order. |
| Service.FindById | backend/src/main.py:42 | Gives no index exactly when no stored clan has the id. Otherwise it gives the first index holding that id. |
| Service.RemoveAtIds | backend/src/main.py:46-47 | Removing one row keeps the ids unique. The remaining ids are the old ones less the removed row's id. |
| Service.DeleteClan | backend/src/main.py:40-48 | An unknown id gives 404 and "Clan not found", and the table is unchanged. A known id removes exactly that clan, leaves every other row in order, and confirms with "Clan deleted". Either way the id is not stored afterwards. |
| Service.MatchingAppend | backend/src/main.py:38 | Searching keeps stored order: the search of a concatenation is the concatenation of the searches. |
| Service.NameMatches | backend/src/main.py:38 | `name ILIKE '%q%'` with a literal query: the lower-cased query is a substring of the lower-cased name. Characterised by Text.ContainsIff. |
| Service.FindsByNamePiece | backend/src/main.py:38 | A stored clan is in the result exactly when the lower-cased query occurs at some index of its lower-cased name. So any piece of the name, in any letter case, finds it. |
| Service.CreatedThenFound | backend/src/main.py:19-38 | After a create, a search on any piece of the new name, in any letter case, returns the earlier matches followed by the new clan. |
| Service.MatchingIgnoresQueryCase | backend/src/main.py:38 | The letter case of the query does not change the result. |
| Seed.CellAt | backend/seed.py:36 | A record's field in one column. A record shorter than the header reads as missing (NaN) there. |
| Seed.ColumnIndex | backend/seed.py:36 | Gives no index exactly when no header is the key. Otherwise it gives the first column with that header. |
| Seed.NormalizeHeader | backend/seed.py:33 | `c.lower().strip()`. Characterised by the three lemmas below. |
| Seed.NormalizeHeaders | backend/seed.py:33 | The list comprehension: one normalised header per column, keeping the count and order. |
| Seed.NormalizeHeaderCanonical | backend/seed.py:33 | A normalised header is lower case and stripped, and normalising it again changes nothing. |
| Seed.NormalizeHeaderIgnoresCase | backend/seed.py:33 | Headers that differ only in letter case normalise alike. |
| Seed.NormalizeHeaderIgnoresPadding | backend/seed.py:33 | Headers that differ only in surrounding whitespace normalise alike. |
| Seed.HeaderExample | backend/seed.py:32-33 | The headers " Name", "REGION " and "Created_At" normalise to "name", "region" and "created_at". |
| Seed.HasName | backend/seed.py:36-37 | The name field is present and not blank once stripped. |
| Seed.KeepNamed | backend/seed.py:36-37 | Every kept record has a name that is present and not blank once stripped. No records are added. |
| Seed.KeepNamedMembers | backend/seed.py:36-37 | A record is kept exactly when it has such a name. |
| Seed.KeepNamedAppend | backend/seed.py:36-37 | Filtering keeps file order: it distributes over concatenation. |
| Seed.NothingDroppedIff | backend/seed.py:36-38 | The dropped count is zero exactly when every record has a name. |
| Seed.Classify | backend/seed.py:42-49 | A field is missing exactly when it is absent or blank once stripped. It is read as an epoch exactly when its stripped text has the epoch shape. Otherwise the stripped text goes to the date parser. |
| Seed.ParseSmartDate | backend/seed.py:41-65 | A missing or blank field gives `now`. An epoch-shaped text that converts gives the converted instant. Every other text gives the date parser's instant, or `now` when the parser fails. |
| Seed.ConversionEscapes | backend/seed.py:49-54 | The stripped field is epoch-shaped and its conversion raises an error other than ValueError. |
| Seed.ParseSmartDateAsWritten | backend/seed.py:49-54 | Fails exactly when the conversion escapes, with the stripped text as the error. |
| Seed.AsWrittenAgreesOtherwise | backend/seed.py:49-54 | Wherever the conversion raises nothing but ValueError, the as-written and the corrected readings agree. |
| Seed.DigitTextIsEpoch | backend/seed.py:47-49 | A digit string is its own strip and is read as an epoch. |
| Seed.OverflowingEpochEscapes | backend/seed.py:49-54 | For a digit string whose conversion raises another error, the as-written reading fails with that text. The corrected reading hands the text to the date parser. |
| Seed.TwentyNinesEscape | backend/seed.py:52-54 | "99999999999999999999" escapes the handler as written when its conversion overflows. |
| Seed.ParseDateText | backend/seed.py:57-65 | The date-string branch: the parser's instant, or `now` when it fails. |
| Seed.RejectedDateIsNow | backend/seed.py:57-65 | Any non-blank text that is not converted as an epoch and that the date parser rejects is dated `now`. Nothing is raised. |
| Seed.NotADateIsNow | backend/seed.py:57-65 | Example: "not-a-date", which the parser rejects, is dated `now`. |
| Seed.EpochExamples | backend/seed.py:47-49 | "1719227554", "17.5" and ".5" are read as epochs. |
| Seed.NotEpochExamples | backend/seed.py:47-49 | ".", "1.2.3", "-5" and "" are not read as epochs. |
| Seed.FirstEscape | backend/seed.py:68 | Gives no index exactly when no record's conversion escapes. Otherwise it gives the first record whose conversion escapes, which is where `apply` stops. |
| Seed.Prepare | backend/seed.py:30-68 | No header normalising to "name" raises for "name". Otherwise, no "created_at" header raises for "created_at". Otherwise the run fails before the session exactly when some kept record's conversion escapes, and the error names the first such record's text. On success the headers are normalised, and the name index is the first "name" column. The rows are exactly the records that have a name, in file order. Each is dated by parse_smart_date of its created_at field, and the dropped count is the number of records removed. |
| Seed.PreparedRowsNamed | backend/seed.py:30-38 | On success the name index points at a "name" column, every row has a name, and kept plus dropped records are all the records. |
| Seed.PreparedDatesAsWritten | backend/seed.py:41-68 | Every date the cleaned table holds is what parse_smart_date, as written, returns for that record. |
| Seed.OverflowAbortsTheLoad | backend/seed.py:49-68 | A file whose one named record has created_at "99999999999999999999" stops before the session opens when that conversion overflows. |
| Seed.PlainHeaders | backend/seed.py:33 | Headers already lower case and stripped are left as they are. |
| Seed.RawName | backend/seed.py:78 | The duplicate check uses the record's name field unstripped. A missing field reads as the empty text. |
| Seed.NameTaken | backend/seed.py:78 | Some stored clan has exactly this raw name. |
| Seed.NewRows | backend/seed.py:76-80 | The records the loop does not skip, in file order. Characterised by Seed.NewRowsMembers. |
| Seed.RegionText | backend/seed.py:85 | `str()` of the region field: a missing value gives `nan`. |
| Seed.NewClan | backend/seed.py:82-87 | The clan built for a record: the fresh id, the stripped name, the stripped region text and the record's date. |
| Seed.Stage | backend/seed.py:76-89 | The loop's reference definition: the clans staged, or failure when a record with a new name meets a missing region column. |
| Seed.NewRowsMembers | backend/seed.py:76-80 | A record is a candidate exactly when it is in the file and no stored clan has its raw name. |
| Seed.StageMatchesNewRows | backend/seed.py:76-89 | Staging fails exactly when there is no region column and some record has a new name. Otherwise it gives one clan per new-name record, in file order, the j-th with the j-th fresh id. |
| Seed.StageWithoutRegion | backend/seed.py:76-85 | With no region column, staging gives nothing when every raw name is already stored, and fails otherwise. |
| Seed.StageWithRegion | backend/seed.py:76-89 | With a region column, staging gives one clan per new-name record, in file order, with consecutive fresh ids. |
| Seed.StageStep | backend/seed.py:76-89 | One loop step: a stored name is skipped, a missing region column fails the run, and otherwise the record's clan becomes the next staged clan. |
| Seed.StagedIds | backend/seed.py:83 | Staged clans carry distinct ids, the j-th being the j-th id generated. |
| Seed.StagedKeepsKey | backend/seed.py:83-91 | When the generated ids are distinct and none is stored, committing the staged clans keeps the primary key unique. |
| Seed.NewClanTrimmed | backend/seed.py:82-87 | A clan built from a named record has a non-blank name, and neither field has surrounding whitespace. |
| Seed.StagedFieldsTrimmed | backend/seed.py:82-87 | Every staged clan has a non-blank, stripped name and a stripped region. |
| Seed.StoredNamesAreSkipped | backend/seed.py:78-80 | When every record's raw name is already stored, the run stages nothing. This holds with or without a region column. |
| Seed.ReingestingIsSkipped | backend/seed.py:78-80 | Example: a record named like the stored "Alpha" clan adds nothing. |
| Seed.NewRowsAllNew | backend/seed.py:76-80 | When no record's raw name is stored, no record is skipped. Names repeated within the file are not caught. |
| Seed.NewNamesAllStaged | backend/seed.py:76-89 | With a region column, records whose names are not stored are all staged, even when they share a name. Each stages one clan, in file order: the j-th record's clan has the j-th fresh id. |
| Seed.SameNameTwiceInOneFile | backend/seed.py:78-80 | Example: two new records both named "Alpha" are both staged as "Alpha". |
| Seed.PaddedNameIsNotADuplicate | backend/seed.py:78-84 | " Alpha" is not a duplicate of a stored "Alpha", and it is staged as "Alpha". |
| Seed.InsertCleaned | backend/seed.py:71-98 | Commits exactly the staged clans, appended after the stored ones, and reports their number and the dropped count. When staging fails or the database fails it rolls back and leaves the table unchanged. The primary key stays unique. |
| Seed.CleanAndSeed | backend/seed.py:16-98 | A read failure returns with nothing changed. Any error `Prepare` raises (a missing name or created_at column, or an escaping epoch conversion) propagates with nothing changed. Otherwise the outcome is the transaction's outcome on the cleaned records. The table changes only when the run commits, and the primary key stays unique. |

## Left out

- Reading and sniffing the file (comma or tab, quoting, type inference): the table arrives already split into headers and text fields. Numeric fields are given as their text.
- `pd.to_datetime` and its time-zone handling are a parameter (`parse`). `float` and `datetime.fromtimestamp` are a parameter too (`epoch`). Their results are not modelled beyond ok versus which error.
- The clock and `uuid.uuid4()` are parameters. The loader reads the clock once per run, where the code reads it once per record that needs it.
- `str.lower()` and `str.isdigit()` are modelled for ASCII only. Non-ASCII letters are left as they are, and non-ASCII digits are not digits.
- `ILIKE` treats `%` and `_` in the query as wildcards and `\` as its escape character. The model takes the query literally, and it lower-cases ASCII only.
- Result order: the list and search queries have no ORDER BY, so the database promises no order. The model returns clans in stored order, and Service.ListClans, Service.FindClan and Service.MatchingAppend state that order.
- Duplicate headers after normalisation: the model takes the first such column.
- `Seed.InsertCleaned`: the database failure is one flag for the whole transaction. Which statement fails, and the logging, are not modelled.
- Table creation (`create_all`), the session and connection plumbing, the HTTP framework, and the request and response schemas are not modelled. The `__main__` file-existence check and all logging are left out too.
- Service.DeleteClan: ids are compared as text. The id column is a Postgres UUID, so the database also finds a stored clan by another spelling of its UUID (upper case, or without hyphens), where the model answers 404. A malformed UUID string, which the database rejects with an error instead of a 404, is also treated as an id that is not stored.
- Service.CreateClan and Service.DeleteClan assume the commit succeeds. A failed commit (backend/src/main.py:23 or 47) leaves the table unchanged, and the framework answers 500. The model does not represent that failure.
- Concurrency between the service and the loader: every handler and the whole run are one unit of work on the table.

## Findings

| source | as written | input that shows it | evidently intended | confidence | as-written member | corrected member |
|---|---|---|---|---|---|---|
| backend/seed.py:49-54 | Only ValueError is caught around `datetime.fromtimestamp(float(t))`. OverflowError (a value beyond the platform's time_t) escapes `parse_smart_date`. It also escapes the `apply` at line 68, which is outside any handler, so the whole load aborts. | a created_at field "99999999999999999999" | A value that cannot be converted falls through to the date-string parser, and then to `now` | not executed | Seed.ParseSmartDateAsWritten, Seed.TwentyNinesEscape, Seed.OverflowAbortsTheLoad | Seed.ParseSmartDate, Seed.OverflowingEpochEscapes |
