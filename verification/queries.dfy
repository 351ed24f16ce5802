/**
 * Lookup and filtering over a loaded catalogue: the exact case-insensitive
 * lookup (buscar_pais), the substring search (buscar_paises) and the three
 * filters of the "Filtrar países" menu. Every filter keeps, in catalogue
 * order, exactly the records that satisfy one criterion.
 */
module Queries {
  import opened Outcomes
  import opened Text
  import opened Numbers
  import opened Countries

  /** The test buscar_pais applies: the names agree once lower-cased. */
  predicate NameMatches(c: Country, query: string) {
    Lower(query) == Lower(c.name)
  }

  /** The position of the first record whose name matches, if any. */
  function FirstNameMatch(ps: seq<Country>, query: string): (r: Option<nat>)
    ensures r.Some? ==> r.value < |ps| && NameMatches(ps[r.value], query)
    ensures r.Some? ==> forall j :: 0 <= j < r.value ==> !NameMatches(ps[j], query)
    ensures r.None? <==> forall j :: 0 <= j < |ps| ==> !NameMatches(ps[j], query)
  {
    if ps == [] then None
    else if NameMatches(ps[0], query) then Some(0)
    else
      match FirstNameMatch(ps[1..], query)
      case None => None
      case Some(k) => Some(k + 1)
  }

  /** buscar_pais: scans the catalogue and stops at the first record whose
      name equals the query ignoring case. The Python function returns that
      dictionary, which is the list's own element; the model returns its
      position. */
  method FindCountry(ps: seq<Country>, query: string) returns (found: Option<nat>)
    ensures found == FirstNameMatch(ps, query)
  {
    var needle := Lower(query);
    for i := 0 to |ps|
      invariant forall j :: 0 <= j < i ==> !NameMatches(ps[j], query)
    {
      if needle == Lower(ps[i].name) {
        return Some(i);
      }
    }
    return None;
  }

  /** The condition one filter loop tests on each record. */
  datatype Criterion =
    | NameContains(text: string)
    | ContinentIs(continent: string)
    | Between(quantity: Quantity, low: int, high: int)

  predicate Satisfies(c: Country, k: Criterion) {
    match k
    case NameContains(text) =>
      Lower(text) == Lower(c.name) || Contains(Lower(c.name), Lower(text))
    case ContinentIs(continent) =>
      Lower(c.continent) == Lower(continent)
    case Between(q, low, high) =>
      Amount(c, q) >= low && Amount(c, q) <= high
  }

  /** The records satisfying k, in catalogue order. */
  function Select(ps: seq<Country>, k: Criterion): seq<Country> {
    if ps == [] then []
    else
      var last := ps[|ps| - 1];
      Select(ps[..|ps| - 1], k) + (if Satisfies(last, k) then [last] else [])
  }

  /** The positions of the records satisfying k, in increasing order. */
  function SelectedPositions(ps: seq<Country>, k: Criterion): seq<nat> {
    if ps == [] then []
    else
      SelectedPositions(ps[..|ps| - 1], k) + (if Satisfies(ps[|ps| - 1], k) then [|ps| - 1] else [])
  }

  /** A selection is the subsequence of the catalogue at strictly increasing
      positions, and those positions are exactly the ones whose record
      satisfies the criterion: nothing is dropped, added or reordered. */
  lemma {:induction false} SelectIsOrderedSubsequence(ps: seq<Country>, k: Criterion)
    ensures |Select(ps, k)| == |SelectedPositions(ps, k)|
    ensures forall i :: 0 <= i < |SelectedPositions(ps, k)| ==>
              SelectedPositions(ps, k)[i] < |ps| && Select(ps, k)[i] == ps[SelectedPositions(ps, k)[i]]
    ensures forall i, j :: 0 <= i < j < |SelectedPositions(ps, k)| ==>
              SelectedPositions(ps, k)[i] < SelectedPositions(ps, k)[j]
    ensures forall j :: 0 <= j < |ps| ==> (j in SelectedPositions(ps, k) <==> Satisfies(ps[j], k))
  {
    if ps != [] {
      var init := ps[..|ps| - 1];
      SelectIsOrderedSubsequence(init, k);
      var pos, initPos := SelectedPositions(ps, k), SelectedPositions(init, k);
      assert forall j :: 0 <= j < |init| ==> init[j] == ps[j];
      assert forall i :: 0 <= i < |initPos| ==> pos[i] == initPos[i];
    }
  }

  /** A record is in a selection exactly when it is in the catalogue and
      satisfies the criterion. */
  lemma {:induction false} SelectMembership(ps: seq<Country>, k: Criterion)
    ensures forall c :: c in Select(ps, k) <==> c in ps && Satisfies(c, k)
  {
    if ps != [] {
      var init := ps[..|ps| - 1];
      SelectMembership(init, k);
      assert ps == init + [ps[|ps| - 1]];
    }
  }

  /** The equality test of buscar_paises is subsumed by its substring test. */
  lemma ExactMatchIsSubstringMatch(c: Country, text: string)
    ensures NameMatches(c, text) ==> Contains(Lower(c.name), Lower(text))
    ensures Satisfies(c, NameContains(text)) <==> Contains(Lower(c.name), Lower(text))
  {
    ContainsItself(Lower(c.name));
  }

  /** The loop shared by buscar_paises and the three filters: every record
      satisfying the criterion is appended to a fresh result list. */
  method Collect(ps: seq<Country>, k: Criterion) returns (selected: seq<Country>)
    ensures selected == Select(ps, k)
  {
    selected := [];
    for i := 0 to |ps|
      invariant selected == Select(ps[..i], k)
    {
      assert ps[..i + 1][..i] == ps[..i];
      if Satisfies(ps[i], k) {
        selected := selected + [ps[i]];
      }
    }
    assert ps[..|ps|] == ps;
  }

  /** buscar_paises: the records whose lower-cased name equals or contains
      the lower-cased text. */
  method SearchByName(ps: seq<Country>, text: string) returns (results: seq<Country>)
    ensures results == Select(ps, NameContains(text))
    ensures forall c :: c in results <==> c in ps && Contains(Lower(c.name), Lower(text))
  {
    results := Collect(ps, NameContains(text));
    SelectMembership(ps, NameContains(text));
    forall c | c in ps
      ensures Satisfies(c, NameContains(text)) <==> Contains(Lower(c.name), Lower(text))
    {
      ExactMatchIsSubstringMatch(c, text);
    }
  }

  /** filtrar_paises_por_continente: the answer is stripped, then the
      records whose continent equals it ignoring case are kept. */
  method FilterByContinent(ps: seq<Country>, answer: string) returns (filtered: seq<Country>)
    ensures filtered == Select(ps, ContinentIs(Strip(answer)))
    ensures forall c :: c in filtered <==> c in ps && Lower(c.continent) == Lower(Strip(answer))
  {
    filtered := Collect(ps, ContinentIs(Strip(answer)));
    SelectMembership(ps, ContinentIs(Strip(answer)));
  }

  /** Why a range filter shows no listing. */
  datatype RangeError = InvalidBound | LowAboveHigh

  /** filtrar_paises_por_rango_poblacion and filtrar_paises_por_rango_superficie:
      both stripped bounds must pass the non-negative validator and the lower
      must not exceed the upper; then the records whose amount lies between
      them, both ends included, are kept. */
  method FilterByRange(ps: seq<Country>, q: Quantity, lowText: string, highText: string)
    returns (r: Result<seq<Country>, RangeError>)
    ensures (!IsNonNegativeInteger(Strip(lowText)) || !IsNonNegativeInteger(Strip(highText)))
              ==> r == Err(InvalidBound)
    ensures IsNonNegativeInteger(Strip(lowText)) && IsNonNegativeInteger(Strip(highText)) ==>
              var low, high := DigitsValue(Strip(lowText)), DigitsValue(Strip(highText));
              r == if low > high then Err(LowAboveHigh) else Ok(Select(ps, Between(q, low, high)))
    ensures r.Ok? ==>
              var low, high := DigitsValue(Strip(lowText)), DigitsValue(Strip(highText));
              forall c :: c in r.value <==> (c in ps && low <= Amount(c, q) <= high)
  {
    var low, high := Strip(lowText), Strip(highText);
    if !(IsNonNegativeInteger(low) && IsNonNegativeInteger(high)) {
      return Err(InvalidBound);
    }
    var lo, hi := DigitsValue(low), DigitsValue(high);
    if lo > hi {
      return Err(LowAboveHigh);
    }
    var filtered := Collect(ps, Between(q, lo, hi));
    SelectMembership(ps, Between(q, lo, hi));
    r := Ok(filtered);
  }
}
