/**
 * The country record, the CSV row it is written as, and the catalogue file.
 * The file is modelled as its sequence of data rows (the header row
 * NOMBRE,POBLACION,SUPERFICIE,CONTINENTE is implicit); reading parses every
 * row and yields the empty catalogue as soon as one row fails.
 */
module Countries {
  import opened Outcomes
  import opened Numbers

  /** One catalogue entry (a dictionary with the four column keys in Python). */
  datatype Country = Country(name: string, population: int, area: int, continent: string)

  /** The two numeric columns. */
  datatype Quantity = Population | Area

  /** The columns a catalogue can be sorted by. */
  datatype Column = Name | Numeric(quantity: Quantity)

  function Amount(c: Country, q: Quantity): int {
    match q
    case Population => c.population
    case Area => c.area
  }

  /** A data row of the CSV file, each field as text. */
  datatype Row = Row(name: string, population: string, area: string, continent: string)

  /** The row csv.DictWriter writes for a record: integers through str(). */
  function ToRow(c: Country): Row {
    Row(c.name, IntToString(c.population), IntToString(c.area), c.continent)
  }

  /** The record leer_paises_desde_archivo builds from a row, or None when
      int() raises on the population or the area. */
  function FromRow(r: Row): Option<Country> {
    var p := ParseInt(r.population);
    var a := ParseInt(r.area);
    if p.Some? && a.Some? then Some(Country(r.name, p.value, a.value, r.continent)) else None
  }

  /** The rows written for the records, one per record, in order. */
  function RenderAll(ps: seq<Country>): seq<Row> {
    seq(|ps|, i requires 0 <= i < |ps| => ToRow(ps[i]))
  }

  /** Writing two lists of records one after the other writes the same rows
      as writing them together: appending records one by one to a saved
      catalogue leaves the file a save of the longer catalogue would. */
  lemma RenderAllConcat(a: seq<Country>, b: seq<Country>)
    ensures RenderAll(a + b) == RenderAll(a) + RenderAll(b)
  {
  }

  /** Parsing all rows: Some exactly when every row parses, holding the
      records in file order. */
  function ParseRows(rows: seq<Row>): (r: Option<seq<Country>>)
    ensures r.Some? <==> forall i :: 0 <= i < |rows| ==> FromRow(rows[i]).Some?
    ensures r.Some? ==> |r.value| == |rows|
    ensures r.Some? ==> forall i :: 0 <= i < |rows| ==> r.value[i] == FromRow(rows[i]).value
  {
    if rows == [] then Some([])
    else
      match FromRow(rows[0])
      case None => None
      case Some(c) =>
        match ParseRows(rows[1..])
        case None => None
        case Some(rest) => Some([c] + rest)
  }

  /** What leer_paises_desde_archivo returns: all records, or the empty list
      when any row fails to parse. */
  function LoadResult(rows: seq<Row>): seq<Country> {
    match ParseRows(rows)
    case Some(ps) => ps
    case None => []
  }

  /** Saving a catalogue and reading it back gives the same catalogue. */
  lemma LoadAfterSave(ps: seq<Country>)
    ensures ParseRows(RenderAll(ps)) == Some(ps)
    ensures LoadResult(RenderAll(ps)) == ps
  {
    var rows := RenderAll(ps);
    forall i | 0 <= i < |ps|
      ensures FromRow(rows[i]) == Some(ps[i])
    {
      ParseIntRoundTrip(ps[i].population);
      ParseIntRoundTrip(ps[i].area);
    }
    var parsed := ParseRows(rows);
    assert parsed.Some?;
    assert parsed.value == ps;
  }

  /** Reading the file and rewriting it is idempotent: a second read-and-save
      writes exactly the rows the first one wrote. */
  lemma SaveAfterLoadIdempotent(rows: seq<Row>)
    ensures RenderAll(LoadResult(RenderAll(LoadResult(rows)))) == RenderAll(LoadResult(rows))
  {
    LoadAfterSave(LoadResult(rows));
  }

  /** The catalogue file gestion.paises.csv. */
  class CatalogFile {
    var rows: seq<Row>

    /** verificar_archivo on a missing file: it is created holding only the header. */
    constructor ()
      ensures rows == []
    {
      rows := [];
    }

    /** The row-by-row loop of leer_paises_desde_archivo: a failing row
        abandons the records read so far and the empty list is returned. */
    method Load() returns (ps: seq<Country>)
      ensures ps == LoadResult(rows)
    {
      ps := [];
      var i := 0;
      while i < |rows|
        invariant 0 <= i <= |rows| && |ps| == i
        invariant forall k :: 0 <= k < i ==> FromRow(rows[k]).Some? && ps[k] == FromRow(rows[k]).value
      {
        var c := FromRow(rows[i]);
        if c.None? {
          assert !FromRow(rows[i]).Some?;
          return [];
        }
        ghost var before := ps;
        ps := ps + [c.value];
        assert forall k :: 0 <= k < i ==> ps[k] == before[k];
        i := i + 1;
      }
      assert ParseRows(rows).Some?;
      assert ParseRows(rows).value == ps;
    }

    /** agregar_pais_a_archivo: one row appended after the existing ones. */
    method Append(c: Country)
      modifies this
      ensures rows == old(rows) + [ToRow(c)]
    {
      rows := rows + [ToRow(c)];
    }

    /** guardar_paises_en_archivo: the whole content replaced by the given records. */
    method SaveAll(ps: seq<Country>)
      modifies this
      ensures rows == RenderAll(ps)
    {
      rows := RenderAll(ps);
    }
  }
}
