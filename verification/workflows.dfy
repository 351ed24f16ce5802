/**
 * The two workflows that change the catalogue, reduced to their state
 * transitions: ingresar_paises (a batch of insertions that stops at the
 * first rejected answer) and actualizar_poblacion_y_superficie (new
 * population and area for one record, then the whole file rewritten).
 */
module Workflows {
  import opened Outcomes
  import opened Text
  import opened Numbers
  import opened Countries
  import opened Queries

  /** The continents the insert workflow accepts, compared lower-cased. */
  const ContinentNames: seq<string> := ["america", "europa", "asia", "africa", "oceania"]

  /** The four answers typed for one country, as read (before strip()). */
  datatype Entry = Entry(name: string, population: string, area: string, continent: string)

  /** Why a workflow stopped; each is one message of the Python code. */
  datatype Refusal =
    | InvalidCount
    | EmptyName
    | Duplicate
    | InvalidPopulation
    | InvalidArea
    | EmptyContinent
    | UnknownContinent
    | NotFound

  /** What an inserted record satisfies. */
  predicate ValidCountry(c: Country) {
    c.name != [] && c.population > 0 && c.area > 0 && Lower(c.continent) in ContinentNames
  }

  /** No two records have the same name ignoring case. */
  predicate NamesDistinct(ps: seq<Country>) {
    forall i, j :: 0 <= i < j < |ps| ==> Lower(ps[i].name) != Lower(ps[j].name)
  }

  /** The checks of one iteration of the insert loop, in source order, against
      the records known so far (those loaded plus those already inserted). */
  function CheckEntry(known: seq<Country>, e: Entry): Result<Country, Refusal> {
    var name := Strip(e.name);
    var population := Strip(e.population);
    var area := Strip(e.area);
    var continent := Strip(e.continent);
    if name == "" then Err(EmptyName)
    else if FirstNameMatch(known, name).Some? then Err(Duplicate)
    else if !IsPositiveInteger(population) then Err(InvalidPopulation)
    else if !IsPositiveInteger(area) then Err(InvalidArea)
    else if continent == "" then Err(EmptyContinent)
    else if Lower(continent) !in ContinentNames then Err(UnknownContinent)
    else Ok(Country(name, DigitsValue(population), DigitsValue(area), continent))
  }

  /** An entry is accepted exactly when its stripped name is non-empty and new
      ignoring case, both numbers are positive integers and the continent is
      one of the five; the record made from it is then valid and clashes with
      no known name. */
  lemma EntryAccepted(known: seq<Country>, e: Entry)
    ensures CheckEntry(known, e).Ok? <==>
              && Strip(e.name) != ""
              && (forall j :: 0 <= j < |known| ==> Lower(known[j].name) != Lower(Strip(e.name)))
              && IsPositiveInteger(Strip(e.population))
              && IsPositiveInteger(Strip(e.area))
              && Lower(Strip(e.continent)) in ContinentNames
    ensures CheckEntry(known, e).Ok? ==>
              var c := CheckEntry(known, e).value;
              && ValidCountry(c)
              && c.name == Strip(e.name) && c.continent == Strip(e.continent)
              && c.population == DigitsValue(Strip(e.population))
              && c.area == DigitsValue(Strip(e.area))
              && (forall j :: 0 <= j < |known| ==> Lower(known[j].name) != Lower(c.name))
  {
  }

  /** The outcome of a batch: the records inserted, and the refusal that
      ended it early, if any. */
  datatype BatchResult = BatchResult(added: seq<Country>, refusal: Option<Refusal>)

  /** The insert loop over the entries, for a given per-entry check: each
      accepted entry is added to what is known, and the first refused entry
      abandons the rest of the batch. ingresar_paises runs it with CheckEntry. */
  function RunBatch(check: (seq<Country>, Entry) -> Result<Country, Refusal>, known: seq<Country>, entries: seq<Entry>)
    : (r: BatchResult)
    ensures |r.added| <= |entries|
    ensures r.refusal.None? ==> |r.added| == |entries|
    decreases |entries|
  {
    if entries == [] then BatchResult([], None)
    else
      match check(known, entries[0])
      case Err(e) => BatchResult([], Some(e))
      case Ok(c) =>
        var rest := RunBatch(check, known + [c], entries[1..]);
        BatchResult([c] + rest.added, rest.refusal)
  }

  /** The i-th inserted record is what the check makes of the i-th entry,
      judged against the loaded records and the i records inserted before it. */
  lemma {:induction false} BatchAcceptsInOrder(check: (seq<Country>, Entry) -> Result<Country, Refusal>,
                                               known: seq<Country>, entries: seq<Entry>, i: nat)
    requires i < |RunBatch(check, known, entries).added|
    ensures check(known + RunBatch(check, known, entries).added[..i], entries[i])
              == Ok(RunBatch(check, known, entries).added[i])
    decreases |entries|
  {
    var added := RunBatch(check, known, entries).added;
    var c := check(known, entries[0]).value;
    if i == 0 {
      assert known + added[..0] == known;
    } else {
      var rest := RunBatch(check, known + [c], entries[1..]).added;
      BatchAcceptsInOrder(check, known + [c], entries[1..], i - 1);
      assert added[..i] == [c] + rest[..i - 1];
      assert known + added[..i] == known + [c] + rest[..i - 1];
    }
  }

  /** A batch that is refused stops at the entry right after the inserted
      ones: that entry fails the check with the reported refusal, and no
      later entry is looked at. */
  lemma {:induction false} BatchStopsAtRefusal(check: (seq<Country>, Entry) -> Result<Country, Refusal>,
                                               known: seq<Country>, entries: seq<Entry>)
    requires RunBatch(check, known, entries).refusal.Some?
    ensures var r := RunBatch(check, known, entries);
            |r.added| < |entries| && check(known + r.added, entries[|r.added|]) == Err(r.refusal.value)
    decreases |entries|
  {
    var r := RunBatch(check, known, entries);
    match check(known, entries[0])
    case Err(e) =>
      assert known + r.added == known;
    case Ok(c) =>
      BatchStopsAtRefusal(check, known + [c], entries[1..]);
      assert known + r.added == known + [c] + RunBatch(check, known + [c], entries[1..]).added;
  }

  /** One step of the batch, for a non-empty list of entries. */
  lemma BatchStep(check: (seq<Country>, Entry) -> Result<Country, Refusal>, known: seq<Country>, entries: seq<Entry>)
    requires entries != []
    ensures check(known, entries[0]).Err? ==>
              RunBatch(check, known, entries) == BatchResult([], Some(check(known, entries[0]).error))
    ensures check(known, entries[0]).Ok? ==>
              var c := check(known, entries[0]).value;
              var rest := RunBatch(check, known + [c], entries[1..]);
              RunBatch(check, known, entries) == BatchResult([c] + rest.added, rest.refusal)
  {
  }

  /** The invariants of the catalogue built by the insert workflow: every
      record valid, and no two names equal ignoring case. */
  predicate CatalogueValid(ps: seq<Country>) {
    NamesDistinct(ps) && forall j :: 0 <= j < |ps| ==> ValidCountry(ps[j])
  }

  /** A per-entry check that only ever accepts a record the catalogue can
      take without losing its invariants. */
  ghost predicate KeepsValid(check: (seq<Country>, Entry) -> Result<Country, Refusal>) {
    forall known, e :: CatalogueValid(known) && check(known, e).Ok? ==> CatalogueValid(known + [check(known, e).value])
  }

  /** The checks of ingresar_paises are such a check. */
  lemma CheckEntryKeepsValid()
    ensures KeepsValid(CheckEntry)
  {
  }

  /** A batch run with such a check keeps the invariants. */
  lemma {:induction false} BatchKeepsValid(check: (seq<Country>, Entry) -> Result<Country, Refusal>,
                                           known: seq<Country>, entries: seq<Entry>)
    requires KeepsValid(check) && CatalogueValid(known)
    ensures CatalogueValid(known + RunBatch(check, known, entries).added)
    decreases |entries|
  {
    if entries == [] || check(known, entries[0]).Err? {
      assert known + RunBatch(check, known, entries).added == known;
    } else {
      var c := check(known, entries[0]).value;
      BatchKeepsValid(check, known + [c], entries[1..]);
      assert known + RunBatch(check, known, entries).added
          == known + [c] + RunBatch(check, known + [c], entries[1..]).added;
    }
  }

  /** The insert batch keeps the catalogue's invariants: if the known records
      are valid and have distinct names, so do they together with the
      inserted ones. In particular a name already present, in any case, is
      never inserted again. */
  lemma BatchKeepsCatalogueValid(known: seq<Country>, entries: seq<Entry>)
    requires CatalogueValid(known)
    ensures CatalogueValid(known + RunBatch(CheckEntry, known, entries).added)
  {
    CheckEntryKeepsValid();
    BatchKeepsValid(CheckEntry, known, entries);
  }

  /** The record as agregar_pais_a_archivo writes it: name and continent
      capitalized. The list kept in memory holds the stripped text as typed. */
  function FileForm(c: Country): Country {
    Country(Capitalize(c.name), c.population, c.area, Capitalize(c.continent))
  }

  function FileForms(ps: seq<Country>): seq<Country> {
    seq(|ps|, i requires 0 <= i < |ps| => FileForm(ps[i]))
  }

  /** The rows agregar_pais_a_archivo appends for the records, one call per
      record, in order. */
  function AppendedRows(ps: seq<Country>): seq<Row> {
    if ps == [] then [] else AppendedRows(ps[..|ps| - 1]) + [ToRow(FileForm(ps[|ps| - 1]))]
  }

  /** One more append extends the rows by the record's capitalized row. */
  lemma AppendedRowsSnoc(before: seq<Row>, ps: seq<Country>, c: Country)
    ensures before + AppendedRows(ps) + [ToRow(FileForm(c))] == before + AppendedRows(ps + [c])
  {
    assert (ps + [c])[..|ps|] == ps;
  }

  /** Appending the records one by one writes the same rows as rendering
      their capitalized forms all at once. */
  lemma {:induction false} AppendedRowsRendered(ps: seq<Country>)
    ensures AppendedRows(ps) == RenderAll(FileForms(ps))
  {
    if ps != [] {
      var init := ps[..|ps| - 1];
      AppendedRowsRendered(init);
      assert FileForms(ps) == FileForms(init) + [FileForm(ps[|ps| - 1])];
      RenderAllConcat(FileForms(init), [FileForm(ps[|ps| - 1])]);
    }
  }

  /** The capitalized records written to the file answer every name lookup
      exactly as the records kept in memory do, and stay valid. */
  lemma FileFormsAgree(ps: seq<Country>, query: string)
    ensures FirstNameMatch(FileForms(ps), query) == FirstNameMatch(ps, query)
    ensures forall j :: 0 <= j < |ps| ==> (ValidCountry(FileForms(ps)[j]) <==> ValidCountry(ps[j]))
  {
    var fs := FileForms(ps);
    forall j | 0 <= j < |ps|
      ensures Lower(fs[j].name) == Lower(ps[j].name) && Lower(fs[j].continent) == Lower(ps[j].continent)
      ensures fs[j].name == [] <==> ps[j].name == []
    {
      CapitalizeKeepsLower(ps[j].name);
      CapitalizeKeepsLower(ps[j].continent);
    }
    var a, b := FirstNameMatch(fs, query), FirstNameMatch(ps, query);
    if a.Some? && b.Some? {
      assert !(a.value < b.value) && !(b.value < a.value);
    }
  }

  /** ingresar_paises. The count is validated as typed (it is not stripped);
      then the catalogue is loaded and the answers are checked one entry at a
      time. Every accepted record is appended to the file in its capitalized
      form and to the list in memory; the first refused answer ends the
      workflow, abandoning the rest of the batch. */
  method InsertCountries(store: CatalogFile, count: string, entries: seq<Entry>) returns (refusal: Option<Refusal>)
    requires IsPositiveInteger(count) ==> DigitsValue(count) <= |entries|
    modifies store
    ensures !IsPositiveInteger(count) ==> refusal == Some(InvalidCount) && store.rows == old(store.rows)
    ensures IsPositiveInteger(count) ==>
              var outcome := RunBatch(CheckEntry, LoadResult(old(store.rows)), entries[..DigitsValue(count)]);
              && refusal == outcome.refusal
              && store.rows == old(store.rows) + RenderAll(FileForms(outcome.added))
  {
    if !IsPositiveInteger(count) {
      return Some(InvalidCount);
    }
    var known := store.Load();
    refusal := InsertBatch(store, known, entries[..DigitsValue(count)]);
    AppendedRowsRendered(RunBatch(CheckEntry, known, entries[..DigitsValue(count)]).added);
  }

  /** After the records added have been accepted from the first entries of
      the batch, the rest of the batch runs on from the extended catalogue. */
  predicate BatchResumes(check: (seq<Country>, Entry) -> Result<Country, Refusal>,
                         known: seq<Country>, batch: seq<Entry>, added: seq<Country>)
    requires |added| <= |batch|
  {
    var rest := RunBatch(check, known + added, batch[|added|..]);
    RunBatch(check, known, batch) == BatchResult(added + rest.added, rest.refusal)
  }

  /** Accepting the next entry keeps the batch resumable. */
  lemma BatchResumesStep(check: (seq<Country>, Entry) -> Result<Country, Refusal>,
                         known: seq<Country>, batch: seq<Entry>, added: seq<Country>)
    requires |added| < |batch| && BatchResumes(check, known, batch, added)
    requires check(known + added, batch[|added|]).Ok?
    ensures BatchResumes(check, known, batch, added + [check(known + added, batch[|added|]).value])
  {
    var i := |added|;
    var c := check(known + added, batch[i]).value;
    assert batch[i..][0] == batch[i] && batch[i..][1..] == batch[i + 1..];
    BatchStep(check, known + added, batch[i..]);
    var next := RunBatch(check, known + added + [c], batch[i + 1..]);
    assert added + RunBatch(check, known + added, batch[i..]).added == (added + [c]) + next.added;
    assert known + (added + [c]) == known + added + [c];
  }

  /** A refused next entry ends the batch with what was added so far. */
  lemma BatchResumesRefused(check: (seq<Country>, Entry) -> Result<Country, Refusal>,
                            known: seq<Country>, batch: seq<Entry>, added: seq<Country>)
    requires |added| < |batch| && BatchResumes(check, known, batch, added)
    requires check(known + added, batch[|added|]).Err?
    ensures RunBatch(check, known, batch) == BatchResult(added, Some(check(known + added, batch[|added|]).error))
  {
  }

  /** The loop of ingresar_paises over the answers, once the catalogue has
      been loaded into known: what it appends to the file and where it stops
      are those of the batch run with the entry checks. */
  method InsertBatch(store: CatalogFile, known: seq<Country>, batch: seq<Entry>) returns (refusal: Option<Refusal>)
    modifies store
    ensures var outcome := RunBatch(CheckEntry, known, batch);
            && refusal == outcome.refusal
            && store.rows == old(store.rows) + AppendedRows(outcome.added)
  {
    var current := known;
    ghost var added: seq<Country> := [];
    assert batch[0..] == batch;
    assert known + [] == known;
    var i := 0;
    while i < |batch|
      invariant 0 <= i <= |batch| && |added| == i
      invariant current == known + added
      invariant store.rows == old(store.rows) + AppendedRows(added)
      invariant BatchResumes(CheckEntry, known, batch, added)
    {
      var checked := CheckEntry(current, batch[i]);
      if checked.Err? {
        BatchResumesRefused(CheckEntry, known, batch, added);
        return Some(checked.error);
      }
      var c := checked.value;
      BatchResumesStep(CheckEntry, known, batch, added);
      AppendedRowsSnoc(old(store.rows), added, c);
      store.Append(FileForm(c));
      current := current + [c];
      added := added + [c];
      i := i + 1;
    }
    assert batch[|batch|..] == [];
    assert added + [] == added;
    refusal := None;
  }

  /** actualizar_poblacion_y_superficie on a loaded catalogue: the first
      record whose name matches the query (taken as typed, not stripped)
      gets the two new values, once both pass the positive validator. */
  function UpdateCountry(ps: seq<Country>, query: string, populationText: string, areaText: string)
    : Result<seq<Country>, Refusal>
  {
    match FirstNameMatch(ps, query)
    case None => Err(NotFound)
    case Some(k) =>
      var population, area := Strip(populationText), Strip(areaText);
      if !IsPositiveInteger(population) then Err(InvalidPopulation)
      else if !IsPositiveInteger(area) then Err(InvalidArea)
      else Ok(ps[k := ps[k].(population := DigitsValue(population), area := DigitsValue(area))])
  }

  /** The update succeeds exactly when the name is found and both values are
      positive integers; a missing name is reported before the values are
      looked at. */
  lemma UpdateOutcome(ps: seq<Country>, query: string, populationText: string, areaText: string)
    ensures UpdateCountry(ps, query, populationText, areaText).Ok? <==>
              && FirstNameMatch(ps, query).Some?
              && IsPositiveInteger(Strip(populationText))
              && IsPositiveInteger(Strip(areaText))
    ensures UpdateCountry(ps, query, populationText, areaText) == Err(NotFound) <==>
              FirstNameMatch(ps, query).None?
  {
  }

  /** What a successful update changes: only the population and area of the
      record the lookup finds. Length, order, every other record and that
      record's name and continent stay as they were, so the same lookup
      finds it again, and the catalogue's invariants are kept. */
  lemma UpdateFrame(ps: seq<Country>, query: string, populationText: string, areaText: string)
    requires UpdateCountry(ps, query, populationText, areaText).Ok?
    ensures var updated := UpdateCountry(ps, query, populationText, areaText).value;
            var k := FirstNameMatch(ps, query).value;
            && |updated| == |ps|
            && (forall j :: 0 <= j < |ps| && j != k ==> updated[j] == ps[j])
            && updated[k].name == ps[k].name && updated[k].continent == ps[k].continent
            && updated[k].population == DigitsValue(Strip(populationText))
            && updated[k].area == DigitsValue(Strip(areaText))
            && FirstNameMatch(updated, query) == FirstNameMatch(ps, query)
            && (NamesDistinct(ps) ==> NamesDistinct(updated))
            && ((forall j :: 0 <= j < |ps| ==> ValidCountry(ps[j])) ==>
                  forall j :: 0 <= j < |updated| ==> ValidCountry(updated[j]))
  {
  }

  /** actualizar_poblacion_y_superficie: load, look up, validate, change the
      found record and rewrite the whole file. On any refusal nothing is
      written. */
  method UpdatePopulationAndArea(store: CatalogFile, query: string, populationText: string, areaText: string)
    returns (refusal: Option<Refusal>)
    modifies store
    ensures match UpdateCountry(LoadResult(old(store.rows)), query, populationText, areaText)
            case Ok(updated) => refusal == None && store.rows == RenderAll(updated)
            case Err(e) => refusal == Some(e) && store.rows == old(store.rows)
  {
    var ps := store.Load();
    var found := FindCountry(ps, query);
    if found.None? {
      return Some(NotFound);
    }
    var population := Strip(populationText);
    if !IsPositiveInteger(population) {
      return Some(InvalidPopulation);
    }
    var area := Strip(areaText);
    if !IsPositiveInteger(area) {
      return Some(InvalidArea);
    }
    var k := found.value;
    ps := ps[k := ps[k].(population := DigitsValue(population), area := DigitsValue(area))];
    store.SaveAll(ps);
    refusal := None;
  }
}
