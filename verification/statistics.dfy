/**
 * mostrar_estadisticas on a non-empty catalogue: the records with the
 * largest and smallest population (max and min with a key, which keep the
 * first of several equal candidates), the population and area totals behind
 * the averages, and the number of records per continent as stored.
 */
module Statistics {
  import opened Outcomes
  import opened Countries

  /** max(paises, key=poblacion): the first record of largest population. */
  function MaxPopulationIndex(ps: seq<Country>): (k: nat)
    requires |ps| > 0
    ensures k < |ps|
    ensures forall j :: 0 <= j < |ps| ==> ps[j].population <= ps[k].population
    ensures forall j :: 0 <= j < k ==> ps[j].population < ps[k].population
  {
    if |ps| == 1 then 0
    else
      var k := MaxPopulationIndex(ps[..|ps| - 1]);
      if ps[|ps| - 1].population > ps[k].population then |ps| - 1 else k
  }

  /** min(paises, key=poblacion): the first record of smallest population. */
  function MinPopulationIndex(ps: seq<Country>): (k: nat)
    requires |ps| > 0
    ensures k < |ps|
    ensures forall j :: 0 <= j < |ps| ==> ps[k].population <= ps[j].population
    ensures forall j :: 0 <= j < k ==> ps[k].population < ps[j].population
  {
    if |ps| == 1 then 0
    else
      var k := MinPopulationIndex(ps[..|ps| - 1]);
      if ps[|ps| - 1].population < ps[k].population then |ps| - 1 else k
  }

  /** sum(pais[q] for pais in paises) */
  function Total(ps: seq<Country>, q: Quantity): int {
    if ps == [] then 0 else Total(ps[..|ps| - 1], q) + Amount(ps[|ps| - 1], q)
  }

  /** When every amount lies in lo..hi, the total lies in |ps|*lo..|ps|*hi. */
  lemma {:induction false} TotalWithin(ps: seq<Country>, q: Quantity, lo: int, hi: int)
    requires forall j :: 0 <= j < |ps| ==> lo <= Amount(ps[j], q) <= hi
    ensures |ps| * lo <= Total(ps, q) <= |ps| * hi
  {
    if ps != [] {
      var init := ps[..|ps| - 1];
      TotalWithin(init, q, lo, hi);
      assert |ps| * lo == |init| * lo + lo;
      assert |ps| * hi == |init| * hi + hi;
    }
  }

  /** The average population lies between the populations of the minimum and
      the maximum records: |ps| * min <= total <= |ps| * max. */
  lemma AveragePopulationBetweenExtremes(ps: seq<Country>)
    requires |ps| > 0
    ensures |ps| * ps[MinPopulationIndex(ps)].population <= Total(ps, Population)
    ensures Total(ps, Population) <= |ps| * ps[MaxPopulationIndex(ps)].population
  {
    TotalWithin(ps, Population, ps[MinPopulationIndex(ps)].population, ps[MaxPopulationIndex(ps)].population);
  }

  /** When every amount is positive, as insertion and update enforce, the
      total is at least the number of records. */
  lemma {:induction false} TotalOfPositiveAmounts(ps: seq<Country>, q: Quantity)
    requires forall j :: 0 <= j < |ps| ==> Amount(ps[j], q) > 0
    ensures Total(ps, q) >= |ps|
  {
    if ps != [] {
      TotalOfPositiveAmounts(ps[..|ps| - 1], q);
    }
  }

  /** The figures mostrar_estadisticas prints before the tally. */
  datatype Report = Report(largest: Country, smallest: Country, totalPopulation: int, totalArea: int)

  /** Nothing is reported for an empty catalogue; otherwise the records of
      largest and smallest population and the two totals, whose average lies
      between the two extremes. */
  function Summarise(ps: seq<Country>): (r: Option<Report>)
    ensures r.None? <==> ps == []
    ensures r.Some? ==>
              && r.value.largest in ps && r.value.smallest in ps
              && (forall j :: 0 <= j < |ps| ==>
                    r.value.smallest.population <= ps[j].population <= r.value.largest.population)
              && |ps| * r.value.smallest.population <= r.value.totalPopulation
              && r.value.totalPopulation <= |ps| * r.value.largest.population
    ensures r.Some? ==>
              r.value == Report(ps[MaxPopulationIndex(ps)], ps[MinPopulationIndex(ps)],
                                Total(ps, Population), Total(ps, Area))
  {
    if ps == [] then None
    else
      var hi, lo := MaxPopulationIndex(ps), MinPopulationIndex(ps);
      AveragePopulationBetweenExtremes(ps);
      Some(Report(ps[hi], ps[lo], Total(ps, Population), Total(ps, Area)))
  }

  /** The number of records whose continent is exactly `continent`. */
  function CountOn(ps: seq<Country>, continent: string): nat {
    if ps == [] then 0
    else CountOn(ps[..|ps| - 1], continent) + (if ps[|ps| - 1].continent == continent then 1 else 0)
  }

  /** The counts of the listed keys added up (a key missing from the map adds nothing). */
  function SumCounts(keys: seq<string>, counts: map<string, nat>): int {
    if keys == [] then 0
    else
      var k := keys[|keys| - 1];
      SumCounts(keys[..|keys| - 1], counts) + (if k in counts then counts[k] else 0)
  }

  predicate Distinct(keys: seq<string>) {
    forall a, b :: 0 <= a < b < |keys| ==> keys[a] != keys[b]
  }

  lemma {:induction false} SumCountsIgnoresOthers(keys: seq<string>, counts: map<string, nat>, c: string, v: nat)
    requires c !in keys
    ensures SumCounts(keys, counts[c := v]) == SumCounts(keys, counts)
  {
    if keys != [] {
      SumCountsIgnoresOthers(keys[..|keys| - 1], counts, c, v);
    }
  }

  lemma {:induction false} SumCountsIncrement(keys: seq<string>, counts: map<string, nat>, c: string)
    requires Distinct(keys) && c in keys && c in counts
    ensures SumCounts(keys, counts[c := counts[c] + 1]) == SumCounts(keys, counts) + 1
  {
    var init := keys[..|keys| - 1];
    if keys[|keys| - 1] == c {
      assert c !in init;
      SumCountsIgnoresOthers(init, counts, c, counts[c] + 1);
    } else {
      assert c in init;
      SumCountsIncrement(init, counts, c);
    }
  }

  lemma CountOnStep(ps: seq<Country>, i: nat, k: string)
    requires i < |ps|
    ensures CountOn(ps[..i + 1], k) == CountOn(ps[..i], k) + (if ps[i].continent == k then 1 else 0)
  {
    assert ps[..i + 1][..i] == ps[..i];
  }

  /** A continent is counted at least once exactly when some record has it. */
  lemma {:induction false} CountOnPositive(ps: seq<Country>, k: string)
    ensures CountOn(ps, k) > 0 <==> exists i :: 0 <= i < |ps| && ps[i].continent == k
  {
    if ps != [] {
      var init := ps[..|ps| - 1];
      CountOnPositive(init, k);
      assert forall i :: 0 <= i < |init| ==> init[i] == ps[i];
      if CountOn(init, k) > 0 {
        var i :| 0 <= i < |init| && init[i].continent == k;
        assert ps[i].continent == k;
      }
    }
  }

  /** The state of the tally after the first i records: the keys are
      distinct and name the entries of the map, which count each continent of
      those records and nothing else, and the counts add up to i. */
  ghost predicate Tallied(ps: seq<Country>, i: nat, keys: seq<string>, counts: map<string, nat>)
    requires i <= |ps|
  {
    && Distinct(keys)
    && (forall k :: k in keys <==> k in counts)
    && (forall k :: k in counts <==> CountOn(ps[..i], k) > 0)
    && (forall k :: k in counts ==> counts[k] == CountOn(ps[..i], k))
    && SumCounts(keys, counts) == i
  }

  /** A continent already counted has its count raised by one. */
  lemma TallyIncrement(ps: seq<Country>, i: nat, keys: seq<string>, counts: map<string, nat>)
    requires i < |ps| && Tallied(ps, i, keys, counts) && ps[i].continent in counts
    ensures Tallied(ps, i + 1, keys, counts[ps[i].continent := counts[ps[i].continent] + 1])
  {
    forall k {
      CountOnStep(ps, i, k);
    }
    SumCountsIncrement(keys, counts, ps[i].continent);
  }

  /** A new continent gets a new key, after the others, with count one. */
  lemma TallyInsert(ps: seq<Country>, i: nat, keys: seq<string>, counts: map<string, nat>)
    requires i < |ps| && Tallied(ps, i, keys, counts) && ps[i].continent !in counts
    ensures Tallied(ps, i + 1, keys + [ps[i].continent], counts[ps[i].continent := 1])
  {
    var c := ps[i].continent;
    forall k {
      CountOnStep(ps, i, k);
    }
    SumCountsIgnoresOthers(keys, counts, c, 1);
    assert (keys + [c])[..|keys|] == keys;
  }

  /** The loop at the end of mostrar_estadisticas, filling a dictionary keyed
      by the continent text exactly as stored. The Python dictionary keeps
      its keys in the order of first appearance; `keys` is that order. */
  method TallyByContinent(ps: seq<Country>) returns (keys: seq<string>, counts: map<string, nat>)
    ensures Distinct(keys) && forall k :: k in keys <==> k in counts
    ensures forall k :: k in counts <==> exists i :: 0 <= i < |ps| && ps[i].continent == k
    ensures forall k :: k in counts ==> counts[k] == CountOn(ps, k) && counts[k] >= 1
    ensures SumCounts(keys, counts) == |ps|
  {
    keys, counts := [], map[];
    for i := 0 to |ps|
      invariant Tallied(ps, i, keys, counts)
    {
      var continent := ps[i].continent;
      if continent in counts {
        TallyIncrement(ps, i, keys, counts);
        counts := counts[continent := counts[continent] + 1];
      } else {
        TallyInsert(ps, i, keys, counts);
        keys := keys + [continent];
        counts := counts[continent := 1];
      }
    }
    assert ps[..|ps|] == ps;
    forall k {
      CountOnPositive(ps, k);
    }
  }
}
