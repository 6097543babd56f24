# School records: a verified model

This project models in Dafny the record-handling core of a school-records tool. Each record
holds a province (`Provincia`), a school name (`Colegio`), a student count
(`Cantidad de Estudiantes`) and a founding year (`Año de Creación`). The tool keeps the records in one
central CSV file. After every save it refreshes a projection of that file: one CSV file per
province, per student-count range and per founding decade, under `subgrupos/`. It searches,
filters, sorts and summarises the records, and edits them either locally, with rollback when
the save fails, or through an HTTP API.

The model is organised by module:

- `Text`, `Numerals`: Python's `str.strip()`, `in` on strings, string ordering and `int()`/`str()`.
- `Schools`, `Rows`, `Files`: the record, a CSV row as four optional cells, and the disk as a map
  from path to rows.
- `Store`: `leer_csv`, `escribir_csv` and `pedir_rango`.
- `Hierarchy`: the projection and the subgroup reader.
- `Search`, `Ordering`, `Statistics`: the query engine.
- `Entry`, `LocalCrud`: console input rules and the local edits. The edits act on the `Catalog`
  class, whose `schools` field is the list the source mutates in place.
- `Remote`: the API operations, with the server as an oracle.

`normalizar` after its empty-input guard is a parameter `fold: string -> string`, about which
nothing is assumed. Whether a file can be opened, where a reader raises, and what the server
answers are also parameters.

Two behaviours of the code worth knowing:

- `escribir_csv` returns False when writing a projection file raises, although the central
  file has already been rewritten (src/funciones/utilidades.py:126-138,
  `Store.SaveFailsAfterWriting`).
- The API operations in src/funciones/modo_api.py only send requests to the server;
  nothing is written to the local files.

## Model

| member | source | states |
|---|---|---|
| Text.TrimIsCore | src/funciones/utilidades.py:27 | `strip()` yields a contiguous slice of its input with no whitespace at either end, and everything cut away before and after it is whitespace |
| Text.Trim | src/funciones/utilidades.py:60-63 | Python's `strip()`; `Text.TrimIsCore` states that it is a slice of its input with no whitespace at either end and that everything cut away is whitespace |
| Text.TrimIdempotent | src/funciones/utilidades.py:27 | stripping twice is stripping once |
| Text.ContainsAt | src/funciones/busqueda.py:34 | `needle in hay` holds exactly when `needle` occurs at some offset of `hay` |
| Text.Contains | src/funciones/busqueda.py:34 | Python's `needle in hay`; `Text.ContainsAt` proves it holds exactly when the needle occurs at some offset |
| Text.Normalize | src/funciones/utilidades.py:16-30 | empty input gives the empty string; anything else is the fold of the input |
| Text.LexLessTransitive | src/funciones/vista.py:71-77 | string order is transitive, so sorting by a text key is well defined |
| Text.LexLessTotal | src/funciones/vista.py:71-77 | two different strings are always ordered one way or the other |
| Numerals.ParseInt | src/funciones/utilidades.py:70-72 | Python's `int()` on text; `Numerals.ParseFormat` proves it inverts `str()` and `Numerals.ParseIgnoresSpace` that surrounding whitespace is ignored |
| Numerals.FormatInt | src/funciones/utilidades.py:121-124 | `str()` of an integer as `DictWriter` writes it: never empty, no whitespace at either end, and read back by `Numerals.ParseInt` as the same integer (`Numerals.ParseFormat`) |
| Numerals.ParseFormat | src/funciones/utilidades.py:70-72 | `int(str(n)) == n` for every integer, negatives included |
| Numerals.ParseIgnoresSpace | src/funciones/utilidades.py:60-72 | surrounding whitespace never changes what `int()` reads |
| Numerals.IntOrZero | src/funciones/utilidades.py:71-72 | a blank cell reads as 0; any other cell as `int()` reads it |
| Schools.FieldOf | src/funciones/vista.py:64-67 | a header names a field exactly when it is one of the four column names |
| Rows.ParseRow | src/funciones/utilidades.py:59-88 | a row is broken exactly when a cell is missing; a kept record carries the stripped province and name |
| Rows.ParseRowMeaning | src/funciones/utilidades.py:60-84 | a row with all cells is kept exactly when the stripped province and name are non-empty and each stripped number is blank or an integer; the record holds the stripped text and the numbers, blank as 0; any other such row is invalid |
| Rows.DropsBadNumber | src/funciones/utilidades.py:70-75 | a non-blank numeric cell that is not an integer drops the row |
| Rows.KeptIsStorable | src/funciones/utilidades.py:60-84 | every kept record has non-empty, already stripped text fields |
| Rows.DropsBlankText | src/funciones/utilidades.py:65-67 | a row whose province or name strips to empty is dropped |
| Rows.BlankNumbersAreZero | src/funciones/utilidades.py:71-72 | blank numeric cells read as 0 |
| Rows.ParseFormatRow | src/funciones/utilidades.py:70-72 | a written record reads back as itself; no range check, so 0 and negative numbers survive |
| Rows.Kept | src/funciones/utilidades.py:58-88 | the records of the kept rows in file order, never more than the rows; characterised by `Rows.KeptConcat`, `Rows.KeptPlusSkipped` and `Rows.KeptFormatRows` |
| Rows.KeptPlusSkipped | src/funciones/utilidades.py:65-88 | every row read is either kept or counted as skipped |
| Rows.KeptConcat | src/funciones/utilidades.py:58-84 | rows are judged one at a time, so kept records keep file order |
| Rows.KeptFormatRows | src/funciones/utilidades.py:113-124 | loading what was written gives back the records, none skipped |
| Files.Run | src/funciones/jerarquia.py:96-110 | writing the files in order until an `open` raises; `Files.RunIsApply` proves it performs exactly the writes before the first failing one |
| Files.RunIsApply | src/funciones/jerarquia.py:96-110 | writing files in order until an `open` raises performs exactly the writes before the first failing one |
| Files.RunConcat | src/funciones/jerarquia.py:213-231 | two batches of writes in turn: the second runs only when the first completed |
| Files.RunUntouched | src/funciones/jerarquia.py:96-110 | a file that no write names is left as it was, present or absent |
| Files.ApplyLastWins | src/funciones/jerarquia.py:96-101 | a file holds what the last write naming it wrote |
| Store.Load | src/funciones/utilidades.py:33-97 | a missing file, or a reader that raises, gives no records |
| Store.ReadCsv | src/funciones/utilidades.py:48-97 | the loop keeps the accepted rows and counts the others; a reader exception discards everything |
| Store.LoadAccountsForRows | src/funciones/utilidades.py:65-88 | kept plus skipped equals the number of rows in the file |
| Store.Save | src/funciones/utilidades.py:100-138 | a central file that cannot be opened leaves the disk unchanged and returns False; otherwise the central file is rewritten and the projection refreshed |
| Store.WriteCsv | src/funciones/utilidades.py:100-138 | the save writes the central file, then synchronises the projection, as `Store.Save` describes |
| Store.SyncAvoidsCentral | src/funciones/jerarquia.py:21-31 | no projection file is the central file |
| Store.SaveWritesCentral | src/funciones/utilidades.py:121-134 | once its `open` succeeds, the central file holds the records, whatever the save then returns |
| Store.LoadAfterSave | src/funciones/utilidades.py:113-124 | load(save(rs)) == rs for records with stripped, non-empty text |
| Store.SaveFailsAfterWriting | src/funciones/utilidades.py:126-138 | the save can return False after the central file was rewritten with the new records |
| Store.AskRange | src/funciones/utilidades.py:206-226 | two integers in order come back as given; otherwise (None, None) |
| Store.AskRangeOfNumbers | src/funciones/utilidades.py:219-223 | typed integers come back exactly when min <= max |
| Hierarchy.SubgroupRoot | src/funciones/jerarquia.py:21-31 | the projection directory is `subgrupos` beside the central file |
| Hierarchy.DashForbidden | src/funciones/jerarquia.py:67-71 | every forbidden character becomes '-', every other character is kept |
| Hierarchy.NineReplaces | src/funciones/jerarquia.py:67-71 | the single pass equals the nine successive `replace` calls |
| Hierarchy.CleanFileName | src/funciones/jerarquia.py:55-72 | the cleaned name is never empty and contains no forbidden character |
| Hierarchy.CleanIdempotent | src/funciones/jerarquia.py:55-72 | cleaning a cleaned name changes nothing |
| Hierarchy.CleanKeepsCleanName | src/funciones/jerarquia.py:55-72 | a stripped, non-empty name without forbidden characters is kept as it is |
| Hierarchy.CleanCollides | src/funciones/jerarquia.py:96-101 | "A/B" and "A-B" are cleaned to the same file name |
| Hierarchy.StudentRange | src/funciones/jerarquia.py:130-138 | the student-count range label; `Hierarchy.StudentRangeBoundaries` and `Hierarchy.StudentRangeOrdered` state its cut points and monotonicity |
| Hierarchy.DecadeOf | src/funciones/jerarquia.py:179-189 | the decade label of a founding year; `Hierarchy.DecadeBoundaries` and `Hierarchy.DecadeOrdered` state its cut points and monotonicity |
| Hierarchy.StudentRangeBoundaries | src/funciones/jerarquia.py:131-138 | counts below 300, 300-499, 500-699 and 700 or more fall in the four ranges |
| Hierarchy.DecadeBoundaries | src/funciones/jerarquia.py:180-189 | years before 1970, including 0, and the four later decades get their labels |
| Hierarchy.StudentRangeOrdered | src/funciones/jerarquia.py:131-138 | a larger count never falls in an earlier range |
| Hierarchy.DecadeOrdered | src/funciones/jerarquia.py:180-189 | a later year never falls in an earlier decade |
| Hierarchy.StudentRangeName | src/funciones/jerarquia.py:145-159 | every range label is its own file name |
| Hierarchy.DecadeName | src/funciones/jerarquia.py:196-210 | every decade label is its own file name |
| Hierarchy.GroupWrites | src/funciones/jerarquia.py:96-110 | one write per key that occurs, in order of first appearance |
| Hierarchy.GroupStep | src/funciones/jerarquia.py:88-93 | appending a record to the list of its key keeps every list equal to its bucket |
| Hierarchy.GroupBy | src/funciones/jerarquia.py:86-93 | the dict of lists has the keys in order of first appearance, and each list holds that key's records in input order |
| Hierarchy.WriteAll | src/funciones/jerarquia.py:96-110 | the files are written in order, and the first `open` that raises stops the loop |
| Hierarchy.Organize | src/funciones/jerarquia.py:75-110 | one grouping writes one file per non-empty bucket, as `Hierarchy.GroupWrites` lists them |
| Hierarchy.Synchronize | src/funciones/jerarquia.py:213-231 | the province, range and decade groupings run in this order |
| Hierarchy.ProvinceFileHolds | src/funciones/jerarquia.py:96-110 | after a complete refresh, the file of a province holds its bucket unless a later key cleans to the same name |
| Hierarchy.StudentFileHolds | src/funciones/jerarquia.py:145-159 | after a complete refresh, the file of every range that occurs holds exactly its bucket |
| Hierarchy.DecadeFileHolds | src/funciones/jerarquia.py:196-210 | after a complete refresh, the file of every decade that occurs holds exactly its bucket |
| Hierarchy.StaleFilesSurvive | src/funciones/jerarquia.py:96-110 | files of keys that no current record has are neither rewritten nor deleted |
| Hierarchy.SyncFailsFirst | src/funciones/jerarquia.py:96-101 | when the file of the first province cannot be opened, nothing is written and the refresh fails |
| Hierarchy.ReadSubgroup | src/funciones/jerarquia.py:234-274 | a missing file gives no records; an exception keeps the records read so far, not [] |
| Hierarchy.SubgroupIsLoaderPrefix | src/funciones/jerarquia.py:243-274 | the subgroup reader returns a prefix of what the loader keeps from the same rows |
| Hierarchy.SubgroupReadBack | src/funciones/jerarquia.py:234-274 | a bucket file written by the refresh reads back as the bucket |
| Sequences.BucketsPartition | src/funciones/jerarquia.py:86-93 | the buckets of the keys that occur make up the input exactly, multiplicities included |
| Sequences.BucketSizesSum | src/funciones/estadisticas.py:20-33 | the bucket sizes add up to the length of the input |
| Sequences.FilterSubsequence | src/funciones/busqueda.py:89-92 | a filter result is the input at increasing positions |
| Sequences.FilterIdempotent | src/funciones/busqueda.py:89-92 | filtering twice with the same test is filtering once |
| Search.SearchFrom | src/funciones/busqueda.py:8-38 | the recursion appends, to the accumulator, the matching records from index `i` on, in order |
| Search.SearchByName | src/funciones/busqueda.py:41-57 | `buscar_colegio` returns `Search.NameSearch` |
| Search.NameSearch | src/funciones/busqueda.py:53-54 | an empty list or an empty query gives []; every result matches |
| Search.NameSearchMembership | src/funciones/busqueda.py:31-34 | a record is found exactly when it is in the list and its normalised name contains the normalised query |
| Search.NameSearchIsSubsequence | src/funciones/busqueda.py:22-38 | the results are the list at the matching positions, in order |
| Search.BlankQueryFindsAll | src/funciones/busqueda.py:31-34 | a non-empty query that normalises to "" matches every record |
| Search.NameSearchIdempotent | src/funciones/busqueda.py:41-57 | searching the results again gives the same results |
| Search.FilterByProvince | src/funciones/busqueda.py:85-92 | an empty list or province gives []; every result matches |
| Search.ProvinceMembership | src/funciones/busqueda.py:88-92 | a record is kept exactly when its normalised province contains the normalised query |
| Search.ProvinceIsSubsequence | src/funciones/busqueda.py:89-92 | the results are the list at the matching positions, in order |
| Search.BlankProvinceFindsAll | src/funciones/busqueda.py:88-92 | a province that normalises to "" keeps every record |
| Search.ProvinceIdempotent | src/funciones/busqueda.py:89-92 | filtering the results again gives the same results |
| Search.FilterByStudents | src/funciones/busqueda.py:103-128 | an empty list gives []; every result has min <= count <= max, and there are never more results than records |
| Search.FilterByYear | src/funciones/busqueda.py:131-156 | an empty list gives []; every result has min <= year <= max, and there are never more results than records |
| Search.StudentsMembership | src/funciones/busqueda.py:117-120 | a record is kept exactly when min <= count <= max |
| Search.YearMembership | src/funciones/busqueda.py:145-148 | a record is kept exactly when min <= year <= max |
| Search.StudentsIsSubsequence | src/funciones/busqueda.py:117-120 | the results keep input order |
| Search.YearIsSubsequence | src/funciones/busqueda.py:145-148 | the results keep input order |
| Search.EmptyStudentRange | src/funciones/busqueda.py:117-120 | min > max keeps nothing |
| Search.EmptyYearRange | src/funciones/busqueda.py:145-148 | min > max keeps nothing |
| Search.StudentsIdempotent | src/funciones/busqueda.py:117-120 | filtering again gives the same results |
| Search.YearIdempotent | src/funciones/busqueda.py:145-148 | filtering again gives the same results |
| Ordering.PrecedesTransitive | src/funciones/vista.py:71-78 | the order in either direction is transitive |
| Ordering.PrecedesTotal | src/funciones/vista.py:71-78 | two different keys are ordered one way or the other |
| Ordering.OrderSchools | src/funciones/vista.py:60-67 | an empty list gives []; a header that names no field returns the input unchanged |
| Ordering.SortBy | src/funciones/vista.py:71-78 | `sorted(..., key, reverse=desc)`, of the same length as its input; `Ordering.SortPermutes`, `Ordering.SortSorted` and `Ordering.SortStable` state that it is a stable sort in the requested direction |
| Ordering.SortPermutes | src/funciones/vista.py:71-78 | the sorted list is a permutation of the input |
| Ordering.SortSorted | src/funciones/vista.py:71-78 | keys are non-decreasing, or non-increasing with `reverse` |
| Ordering.SortStable | src/funciones/vista.py:71-78 | records with equal keys keep their relative order, in both directions |
| Ordering.OrderSchoolsSorts | src/funciones/vista.py:69-79 | for a valid field: permutation, ordered by the field's key, stable |
| Statistics.BumpAbsent | src/funciones/estadisticas.py:30 | a new province is added at the end with count 1 |
| Statistics.BumpPresent | src/funciones/estadisticas.py:30 | a province already present has its count raised by one, in place |
| Statistics.CountFrom | src/funciones/estadisticas.py:7-33 | the recursion adds the records from index `i` on to the counts |
| Statistics.CountByProvince | src/funciones/estadisticas.py:7-33 | the counts are the provinces in order of first appearance, each with its number of records |
| Statistics.TallyCounts | src/funciones/estadisticas.py:20-33 | counting record by record gives the bucket sizes |
| Statistics.ProvinceCountsMeaning | src/funciones/estadisticas.py:29-30 | every province occurs, once, with its number of records, which is positive |
| Statistics.CountsSum | src/funciones/estadisticas.py:20-33 | the counts add up to the number of records |
| Statistics.Report | src/funciones/estadisticas.py:105 | `sorted(conteo.items())`; `Statistics.ReportMeaning` proves it a permutation of the counts in ascending province order with the same total |
| Statistics.ReportMeaning | src/funciones/estadisticas.py:105 | the report is a permutation of the counts, in ascending province order, adding up to the number of records |
| Statistics.StudentsFrom | src/funciones/estadisticas.py:48-50 | from an index at or past the end the total is 0 |
| Statistics.StudentsFromIsTotal | src/funciones/estadisticas.py:36-56 | the recursion from `i` is the sum of the counts of the records from `i` on |
| Statistics.FirstMin | src/funciones/estadisticas.py:74 | the index of the first record with the smallest key |
| Statistics.FirstMax | src/funciones/estadisticas.py:75 | the index of the first record with the largest key |
| Statistics.AverageYear | src/funciones/estadisticas.py:78-79 | 0 when no year is positive; otherwise the truncated mean of the positive years, which is at least 1 |
| Statistics.TruncDiv | src/funciones/estadisticas.py:83 | division truncated toward zero, for negative totals too |
| Statistics.Summarize | src/funciones/estadisticas.py:59-107 | no statistics for an empty list; otherwise each figure is the one the functions above define |
| Entry.ValidateNew | src/funciones/carga_datos.py:26-49 | a new record is accepted exactly when province and name are non-empty, both numbers are integers (blank is 0), the count is not negative and the year lies in 1800-2100 |
| Entry.AcceptedIsStorable | src/funciones/carga_datos.py:51-56 | an accepted record can be saved and read back unchanged |
| Entry.BlankYearRefused | src/funciones/carga_datos.py:37-44 | a blank year becomes 0 and is always refused |
| Entry.AcceptsTypedNumbers | src/funciones/carga_datos.py:36-44 | any non-negative count and any year in range are accepted as typed |
| Entry.Pick | src/funciones/carga_datos.py:110-127 | a single candidate is taken without asking; otherwise the answer must be a position in 1..n |
| Entry.PickPosition | src/funciones/carga_datos.py:116-119 | typing position k selects the k-th candidate |
| Entry.Confirmed | src/funciones/carga_datos.py:238-242 | `input().strip().lower() == 's'`: only `s` or `S`, possibly surrounded by whitespace, confirms; `Entry.ConfirmedIgnoresSpace` proves whitespace never matters |
| Entry.ConfirmedIgnoresSpace | src/funciones/carga_datos.py:238-242 | surrounding whitespace never changes the confirmation |
| LocalCrud.Target | src/funciones/carga_datos.py:87-127 | an empty list or an empty query gives no target; a target is a record whose name matches |
| LocalCrud.TargetChoice | src/funciones/carga_datos.py:100-127 | the candidates are the matching indices in list order; one candidate is taken unasked; among several, answer k in 1..n picks candidate k-1 and any other answer gives no target |
| LocalCrud.SingleMatchIsTarget | src/funciones/carga_datos.py:100-127 | with exactly one matching record, that record is the target |
| LocalCrud.NoMatchNoTarget | src/funciones/carga_datos.py:106-108 | no matching record gives no target |
| LocalCrud.Edited | src/funciones/carga_datos.py:139-163 | only non-blank answers change fields; a bad count or year stops the edit, and fields changed before it stay changed |
| LocalCrud.StoppedEditKeepsText | src/funciones/carga_datos.py:139-152 | an edit stopped by a negative count keeps the new province and leaves the numbers as they were |
| LocalCrud.Catalog.Add | src/funciones/carga_datos.py:12-75 | a refused record changes nothing; an accepted one is appended, and popped again when the save fails |
| LocalCrud.Catalog.Edit | src/funciones/carga_datos.py:78-182 | no target changes nothing; a stopped edit leaves its changes in memory unsaved; a failed save puts the original record back |
| LocalCrud.Catalog.Delete | src/funciones/carga_datos.py:185-259 | nothing is removed without a target and an `s` answer; otherwise exactly the target is removed, and inserted again where it was when the save fails |
| Remote.Fetched | src/funciones/modo_api.py:31-56 | a result that is not a list, an empty list or an exception gives []; otherwise the items unchanged |
| Remote.AddRemote | src/funciones/modo_api.py:136-182 | a refused record sends nothing; an accepted one sends one create request, and succeeds unless that request raises |
| Remote.NegativeCountNeverSent | src/funciones/modo_api.py:157-161 | a negative count is refused on creation before any request |
| Remote.Entries | src/funciones/modo_api.py:239-258 | the update exists exactly when a non-blank count is an integer and a non-blank year is an integer in range |
| Remote.EntriesMeaning | src/funciones/modo_api.py:239-258 | the update holds exactly the non-blank answers: text as typed, numbers as integers |
| Remote.Changes | src/funciones/modo_api.py:233-258 | the `cambios` dict built from the stripped answers; `Remote.Entries` and `Remote.EntriesMeaning` state when it exists and what it holds |
| Remote.BuildChanges | src/funciones/modo_api.py:233-258 | the dict built step by step is the update `Remote.Changes` describes, or is refused |
| Remote.NegativeCountPatched | src/funciones/modo_api.py:243-248 | the edit sends a negative count as it is |
| Remote.YearOutOfRangeRefused | src/funciones/modo_api.py:249-255 | a year out of range refuses the whole edit |
| Remote.EmptyChangesAllBlank | src/funciones/modo_api.py:260-262 | the update is empty exactly when all four answers are blank |
| Remote.Chosen | src/funciones/modo_api.py:201-228 | a chosen record is one of the listed items and has an id |
| Remote.ChosenChoice | src/funciones/modo_api.py:206-228 | one listed item is taken unasked; among several, answer k in 1..n picks item k-1 and any other answer chooses nothing; an item without an id is never chosen |
| Remote.EditRemote | src/funciones/modo_api.py:185-270 | the outcome and requests of `editar_colegio_api`; `Remote.EditSendsOnlyUsefulPatches` and `Remote.EditListsFirst` state which requests are sent and when it succeeds |
| Remote.EditRemoteOp | src/funciones/modo_api.py:185-270 | the edit operation sends the requests and returns the outcome that `Remote.EditRemote` defines |
| Remote.EditSendsOnlyUsefulPatches | src/funciones/modo_api.py:196-266 | an update is sent exactly when the query is not blank, a record with an id was chosen and the update is usable and non-empty; success means it was sent and did not raise |
| Remote.EditListsFirst | src/funciones/modo_api.py:196-201 | a blank query sends nothing; otherwise the listing is requested first |
| Remote.DeleteRemote | src/funciones/modo_api.py:273-330 | a blank query sends nothing; the delete is sent exactly for a chosen record with an id and an `s` answer; it succeeds exactly when the delete was sent and did not raise |

## Left out

- The internals of `normalizar` (lower-casing, stripping, NFD decomposition, dropping combining
  marks) are a parameter. Only its empty-input guard is modelled.
- CSV encoding is abstracted to rows of four optional cells. This covers quoting, the UTF-8
  byte order mark, and `DictReader`/`DictWriter` beyond the four named columns.
- Console input and output are left out. Answers are parameters, and the display helpers
  (`mostrar_colegios`, the messages) are not modelled.
- `cliente_api.py`, `inicializar.py`, `ejecutar.py`, directory creation and
  `obtener_info_estructura_jerarquica` are not part of this model.
- The API wrappers for search, filters, sort and statistics in `modo_api.py` (lines 59-133)
  are not modelled. They pass `Remote.Fetched` to the local functions and print the result.
- Statistics.AverageYear: the source divides floats and truncates with `int()`. The model uses
  exact integer division, so rounding error on very large totals is not captured.
- Statistics.TruncDiv: the same float caveat applies to the average number of students.
- The defaults for missing dict keys ("Desconocida", 0, 9999, 999999) are not modelled. Every
  record carries its four fields, so they never apply.
- `KeyboardInterrupt` and unexpected exceptions are left out. So is the `try`/`except` around
  `sorted`; every key of one sort has the same type, so it cannot raise.
- `int()` is modelled for ASCII digits, an optional sign and single underscores. Other Unicode
  digits are left out.
- A file left half-written by an exception during a write is not modelled. A write either
  replaces the file or does not happen.
- Aliasing of the shared accumulators of the recursive functions is not modelled. The
  result values are.
- LocalCrud.Catalog.Add: the save is an oracle `save(rs)` on the new list. On a failed save,
  the central file may already hold the change, as `Store.SaveWritesCentral` shows; the
  model restores only the list in memory, as the source does.
- LocalCrud.Catalog.Edit: same oracle save as `LocalCrud.Catalog.Add`.
- LocalCrud.Catalog.Delete: same oracle save as `LocalCrud.Catalog.Add`.
- Ordering.KeyLess: keys of different types are never compared, so ordering text before
  numbers is an arbitrary choice made only to keep the order total.
- Hierarchy.ProvinceFileHolds: file names are compared exactly. On a file system that
  ignores letter case, provinces such as "Salta" and "salta" write the same file, and this
  lemma then does not hold. Collisions caused by the file system folding case are not
  modelled; only those that `limpiar_nombre_archivo` causes are (`Hierarchy.CleanCollides`).
