# Country catalogue — a verified Dafny model

`GestionDatosPaises.py` keeps a catalogue of countries in the CSV file
`gestion.paises.csv`. Each record has a name, a population, an area and a
continent. A console menu lets the user insert countries in batches, update
the population and area of one country, look a country up by name, filter
by continent or by a population or area range, sort by a column, and show
statistics.

This project models the logic behind those screens:

- `outcomes.dfy`: `Option` and `Result`.
- `text.dfy`: ASCII models of `str.lower`, `str.capitalize`, `str.strip`
  and the `in` substring test.
- `numbers.dfy`: the two validators (`str.isdigit()` followed by `int()`),
  `int()` on text and `str()` on integers.
- `countries.dfy`: the record, the CSV row, the row-to-record conversion of
  `leer_paises_desde_archivo`, and the file as a class (`CatalogFile`) whose
  `rows` field the load, append and save operations read or replace.
- `queries.dfy`: `buscar_pais`, `buscar_paises` and the filter loops.
- `sorting.dfy`: `ordenamiento_burbuja` as a bubble sort over an array copy.
- `statistics.dfy`: max and min by population, the totals, and the
  per-continent tally.
- `workflows.dfy`: the insert batch of `ingresar_paises` and the update of
  `actualizar_poblacion_y_superficie`, as state transitions of the file.

Facts about the code that are easy to miss:

- Names sort by Python's `<` on `str`, which compares code points, so the
  order is case-sensitive. "Peru" sorts before "argentina"
  (`Sorting.NameOrderIsCaseSensitive`).
- The accepted continents are `america`, `europa`, `asia`, `africa` and
  `oceania` (Spanish spelling), compared lower-cased.
- The duplicate check of an insert looks at the loaded records and also at
  the records inserted earlier in the same batch. The in-memory list grows
  as records are added.
- Records are written to the file with `capitalize()`d name and continent.
  The in-memory list keeps the stripped text as typed.
- The count typed for a batch is not stripped before validation. Neither is
  the name typed for an update.

## Model

| member | source | states |
|---|---|---|
| Numbers.ValidatorsCharacterised | GestionDatosPaises.py:40-46 | the positive validator holds iff the text is a non-empty ASCII digit string with a non-zero digit; the non-negative one holds iff it is a non-empty digit string; the first implies the second |
| Numbers.ValidatorExamples | GestionDatosPaises.py:40-46 | "0" passes only the non-negative validator; "007" is positive with value 7; "", "-3", "3.5" and "abc" fail both |
| Numbers.ZeroValueIffAllZeros | GestionDatosPaises.py:42 | a digit run has value zero iff every digit is '0' |
| Numbers.ValidatedTextParses | GestionDatosPaises.py:149-150 | a text that passes a validator is converted by `int()` to exactly its digit value |
| Numbers.NatToStringRoundTrip | GestionDatosPaises.py:260-265 | `str(n)` of a natural is a digit string without a leading zero whose value is n |
| Numbers.ParseIntRoundTrip | GestionDatosPaises.py:240-241 | `int(str(n)) == n` for every integer n |
| Numbers.PositiveValidatorAsWritten | GestionDatosPaises.py:42 | the validator as written fails (an uncaught `int()` error) exactly on non-empty text of digits and superscript digits holding at least one superscript; on text without superscripts it answers as the positive validator |
| Numbers.SuperscriptBreaksValidator | GestionDatosPaises.py:42 | on "²" the validator as written fails, while the corrected validator rejects the text |
| Text.CapitalizeKeepsLower | GestionDatosPaises.py:324 | `lower(capitalize(s)) == lower(s)`: capitalizing never changes a case-insensitive comparison |
| Text.StripCharacterised | GestionDatosPaises.py:294 | `strip()` returns the slice of the text between leading and trailing whitespace; the slice neither starts nor ends with whitespace, and it is empty iff the text is blank |
| Text.StripKeepsTrimmed | GestionDatosPaises.py:294 | a text that neither starts nor ends with whitespace is left unchanged by `strip()` |
| Text.ContainsItself | GestionDatosPaises.py:119-120 | every text contains itself as a substring |
| Countries.RenderAllConcat | GestionDatosPaises.py:255-273 | the rows written for two lists one after the other are the rows written for their concatenation, so appending records to a saved catalogue leaves the file a save of the longer catalogue would |
| Countries.ParseRows | GestionDatosPaises.py:237-243 | row parsing succeeds iff every row's population and area parse; it then holds one record per row, in file order |
| Countries.LoadAfterSave | GestionDatosPaises.py:237-243 | reading back a saved catalogue gives the same catalogue |
| Countries.SaveAfterLoadIdempotent | GestionDatosPaises.py:267-273 | load followed by save is idempotent on the file |
| Countries.CatalogFile.constructor | GestionDatosPaises.py:217-227 | a newly created file holds no data rows |
| Countries.CatalogFile.Load | GestionDatosPaises.py:229-253 | the loop returns every record in order, or the empty list as soon as one row fails to parse |
| Countries.CatalogFile.Append | GestionDatosPaises.py:255-265 | appending adds exactly the record's row after the existing rows |
| Countries.CatalogFile.SaveAll | GestionDatosPaises.py:267-273 | the file content is replaced by the rows of the given records |
| Queries.FirstNameMatch | GestionDatosPaises.py:105-112 | the result is the least position whose name equals the query ignoring case; it is None iff no name matches |
| Queries.FindCountry | GestionDatosPaises.py:105-112 | the scan with early return finds exactly the first case-insensitive name match, or None |
| Queries.SelectIsOrderedSubsequence | GestionDatosPaises.py:114-123 | a selection is the subsequence at strictly increasing positions; a position is included iff its record satisfies the criterion |
| Queries.SelectMembership | GestionDatosPaises.py:132-134 | a record is selected iff it is in the catalogue and satisfies the criterion |
| Queries.ExactMatchIsSubstringMatch | GestionDatosPaises.py:119-120 | the equality test of the search is subsumed by its substring test |
| Queries.Collect | GestionDatosPaises.py:117-123 | the append loop builds exactly the selection of the criterion |
| Queries.SearchByName | GestionDatosPaises.py:114-123 | the result is the ordered selection; a record is in it iff its lower-cased name contains the lower-cased text |
| Queries.FilterByContinent | GestionDatosPaises.py:128-134 | the answer is stripped; exactly the records whose continent equals it ignoring case are kept, in order |
| Queries.FilterByRange | GestionDatosPaises.py:145-161 | an invalid bound (population or area alike, lines 172-188) and a lower bound above the upper are refused; otherwise exactly the records with low <= amount <= high are kept, in order |
| Sorting.TextLessIrreflexive | GestionDatosPaises.py:205 | no text is below itself under Python's `<` |
| Sorting.TextLessTransitive | GestionDatosPaises.py:205 | Python's `<` on text is transitive |
| Sorting.TextLessTotal | GestionDatosPaises.py:205 | any two distinct texts are ordered one way or the other |
| Sorting.NameOrderIsCaseSensitive | GestionDatosPaises.py:205 | "Peru" is below "argentina", not the reverse |
| Sorting.OutOfOrderAsymmetric | GestionDatosPaises.py:205-208 | a pair that is swapped would not be swapped back, and its keys differ |
| Sorting.InOrderTransitive | GestionDatosPaises.py:205 | being in order (not swapped) is transitive |
| Sorting.SwapKeepsGroups | GestionDatosPaises.py:208 | swapping neighbours with different keys permutes the list and keeps each equal-key group in order |
| Sorting.BubblePass | GestionDatosPaises.py:198-208 | one inner pass over positions 0..m-1 leaves at m-1 a record no earlier record is out of order with; positions m.. are unchanged; the array stays a permutation with equal-key groups in their original order |
| Sorting.BubbleSort | GestionDatosPaises.py:192-210 | the result has the input's length, is a permutation of it, is ordered ascending or descending by the column, and keeps records with equal keys in their original order |
| Statistics.MaxPopulationIndex | GestionDatosPaises.py:445 | the record found has the largest population, and no earlier record has it |
| Statistics.MinPopulationIndex | GestionDatosPaises.py:446 | the record found has the smallest population, and no earlier record has it |
| Statistics.TotalWithin | GestionDatosPaises.py:449-450 | if every amount lies in lo..hi, the total lies in n*lo..n*hi |
| Statistics.AveragePopulationBetweenExtremes | GestionDatosPaises.py:449-452 | n * min population <= total population <= n * max population |
| Statistics.TotalOfPositiveAmounts | GestionDatosPaises.py:449-450 | with positive amounts the total is at least the number of records |
| Statistics.Summarise | GestionDatosPaises.py:440-450 | nothing is reported iff the catalogue is empty; otherwise the report holds the first record of largest and the first of smallest population, which bound every population, and the population and area totals; the total population lies between n times each extreme |
| Statistics.CountOnPositive | GestionDatosPaises.py:455-461 | a continent's count is positive iff some record has exactly that continent text |
| Statistics.TallyByContinent | GestionDatosPaises.py:455-461 | the keys are distinct and are exactly the stored continent texts; each count is the number of records with that text and is at least 1; the counts sum to the number of records |
| Workflows.EntryAccepted | GestionDatosPaises.py:292-320 | an entry is accepted iff its stripped name is non-empty and new ignoring case, population and area are positive integers, and the lower-cased continent is one of the five; the record made is then valid, has the stripped name and continent, and has as population and area the values `int()` gives for the stripped answers |
| Workflows.RunBatch | GestionDatosPaises.py:292-330 | a batch inserts at most one record per entry, and one per entry when nothing is refused |
| Workflows.BatchAcceptsInOrder | GestionDatosPaises.py:292-330 | the i-th inserted record is the check's result on the i-th entry, against the loaded records plus the i records inserted before it |
| Workflows.BatchStopsAtRefusal | GestionDatosPaises.py:292-330 | a refused batch stops right after the inserted records; the next entry fails the check with the reported refusal |
| Workflows.CheckEntryKeepsValid | GestionDatosPaises.py:294-320 | an accepted entry keeps every record valid and all names distinct ignoring case |
| Workflows.BatchKeepsValid | GestionDatosPaises.py:292-330 | a batch run with a check that keeps the invariants keeps them for the whole batch |
| Workflows.BatchKeepsCatalogueValid | GestionDatosPaises.py:292-330 | after an insert batch, every record is valid and no name occurs twice ignoring case |
| Workflows.AppendedRowsRendered | GestionDatosPaises.py:324 | appending the records one at a time writes the rows of their capitalized forms, in order |
| Workflows.FileFormsAgree | GestionDatosPaises.py:324-330 | the capitalized records in the file answer every name lookup as the in-memory records do, and are valid iff those are |
| Workflows.InsertCountries | GestionDatosPaises.py:280-330 | an invalid count changes nothing; otherwise the refusal is the batch's, and the file gains exactly the rows of the inserted records, capitalized |
| Workflows.InsertBatch | GestionDatosPaises.py:292-330 | the loop's refusal and the rows it appends are those of the batch semantics |
| Workflows.UpdateOutcome | GestionDatosPaises.py:343-356 | an update succeeds iff the name is found and both values pass the positive validator; it reports not-found iff the name is missing |
| Workflows.UpdateFrame | GestionDatosPaises.py:358-359 | a successful update changes only the population and area of the first match; the length, every other record, and the match's name and continent are unchanged; the lookup finds the same record again; validity and distinct names are kept |
| Workflows.UpdatePopulationAndArea | GestionDatosPaises.py:338-362 | on success the file is rewritten with the updated catalogue; on any refusal the file is unchanged |

## Findings

| source | as written | input that shows it | evidently intended | confidence | as-written member | corrected member |
|---|---|---|---|---|---|---|
| GestionDatosPaises.py:42 | `valor.isdigit() and int(valor) > 0` | "²": `isdigit()` is true for superscript digits, so `int("²")` raises ValueError and nothing catches it | the validator answers false for text that `int()` cannot convert | high, not executed | Numbers.PositiveValidatorAsWritten | Numbers.ValidatedTextParses |

The same pattern is on line 46, which the range filters use. The rest of the
model uses the corrected validators: ASCII digits only.
`Numbers.ValidatedTextParses` proves that `int()` converts every text these
validators accept.

## Left out

- Menu loop, prompts, `print`/`input` and listing layout (lines 24-104,
  367-433): presentation only. Inputs become parameters. Displayed names
  are capitalized only on screen.
- The screens that only route choices (`filtrar_paises`, `ordenar_paises`,
  `buscar_pais_por_nombre`) are not modelled. They map a typed option to a
  filter, a sort column or a search, and print the result.
- CSV details are not modelled: the header row, quoting and escaping.
  The file is its sequence of data rows of four text fields. Short rows are
  not modelled: `csv.DictReader` fills a missing field with `None`, so a row
  without population or area makes `int(None)` fail and the load return
  the empty list, while a row missing only the continent loads with
  continent `None`. A header lacking a column is not modelled either.
- Failures of the operating system while writing are not modelled (lines
  225-227, 333-334, 364-365). Appends and saves always succeed.
- Failures while reading are not modelled: an OSError, a UnicodeDecodeError
  or the error raised at line 227 all end in the empty list (lines
  246-253). `CatalogFile.Load` always reads the rows it holds.
- Averages (lines 451-452) are floating point. Only the integer totals and
  their bounds are modelled.
- Unicode is not modelled: `lower()`, `capitalize()` and `strip()` act on
  ASCII. `isdigit()` is ASCII except for the superscript digits in
  Findings. The model of `int()` accepts only an optional sign and ASCII
  digits, although Python also accepts underscores between digits and
  Unicode decimal digits. A stored field such as "1_000" loads in Python
  but makes `LoadResult` return the empty list.
- The `None` branch of the sort (lines 202-206) is not modelled. Records
  read from the file always have a name and two integers.
- Workflows.InsertCountries: requires at least as many answer records as
  the validated count. Running out of input (EOFError) is not modelled.
- Queries.FindCountry: returns the position of the found record, not the
  dictionary itself. The update then changes that position of the list.
- Statistics.TallyByContinent: does not state that keys come in order of
  first appearance, as in the Python dictionary. Only distinctness and
  membership are stated.
