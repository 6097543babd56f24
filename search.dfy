/** The search and the filters of src/funciones/busqueda.py: each returns the records of
    the collection that pass its test, in their order, and leaves the collection alone. */
module Search {
  import opened Text
  import opened Sequences
  import opened Schools

  /** The test of `buscar_colegio_recursivo`: the normalised query occurs in the
      normalised name. */
  function NameTest(fold: Folding, query: string): School -> bool {
    (s: School) => Contains(Normalize(fold, s.name), Normalize(fold, query))
  }

  /** The test of `filtrar_por_provincia`, the same containment on the province. */
  function ProvinceTest(fold: Folding, province: string): School -> bool {
    (s: School) => Contains(Normalize(fold, s.province), Normalize(fold, province))
  }

  /** The tests of the two range filters, both bounds inclusive. */
  function StudentsTest(lo: int, hi: int): School -> bool {
    (s: School) => lo <= s.students <= hi
  }

  function YearTest(lo: int, hi: int): School -> bool {
    (s: School) => lo <= s.year <= hi
  }

  /** What `buscar_colegio` returns: nothing for an empty collection or an empty query,
      otherwise the records whose name matches, in their order. */
  function NameSearch(fold: Folding, cs: seq<School>, query: string): (r: seq<School>)
    ensures cs == [] || query == "" ==> r == []
    ensures |r| <= |cs|
    ensures forall i :: 0 <= i < |r| ==> NameTest(fold, query)(r[i])
  {
    if cs == [] || query == "" then [] else Filter(NameTest(fold, query), cs)
  }

  /** `buscar_colegio_recursivo`: visit the records from index `i` on, appending to
      `results` each one whose name matches. */
  method SearchFrom(fold: Folding, cs: seq<School>, query: string, i: nat, results: seq<School>)
    returns (r: seq<School>)
    ensures r == results + Filter(NameTest(fold, query), Tail(cs, i))
    decreases |cs| - i
  {
    if i >= |cs| {
      return results;
    }
    var current := cs[i];
    var acc := results;
    FilterTailStep(NameTest(fold, query), cs, i);
    if NameTest(fold, query)(current) {
      acc := acc + [current];
    }
    r := SearchFrom(fold, cs, query, i + 1, acc);
    assert r == results + Filter(NameTest(fold, query), Tail(cs, i)) by {
      ConcatAssoc(results, if NameTest(fold, query)(current) then [current] else [], Filter(NameTest(fold, query), Tail(cs, i + 1)));
    }
  }

  /** `buscar_colegio`, without its report on the console. */
  method SearchByName(fold: Folding, cs: seq<School>, query: string) returns (r: seq<School>)
    ensures r == NameSearch(fold, cs, query)
  {
    if cs == [] || query == "" {
      return [];
    }
    r := SearchFrom(fold, cs, query, 0, []);
    assert Tail(cs, 0) == cs;
  }

  /** A record is found exactly when it is in the collection and its name matches a
      non-empty query. */
  lemma NameSearchMembership(fold: Folding, cs: seq<School>, query: string, x: School)
    ensures x in NameSearch(fold, cs, query)
        <==> query != "" && x in cs && Contains(Normalize(fold, x.name), Normalize(fold, query))
  {
    FilterMembership(NameTest(fold, query), cs, x);
  }

  /** The result is the collection read at exactly the matching indices, in increasing
      order. */
  lemma NameSearchIsSubsequence(fold: Folding, cs: seq<School>, query: string)
    requires query != ""
    ensures SubsequenceAt(NameSearch(fold, cs, query), cs, Positions(NameTest(fold, query), cs, 0))
  {
    FilterSubsequence(NameTest(fold, query), cs);
  }

  /** A non-empty query that normalises to the empty string, such as one made of blanks,
      finds every record. */
  lemma BlankQueryFindsAll(fold: Folding, cs: seq<School>, query: string)
    requires query != "" && fold(query) == ""
    ensures NameSearch(fold, cs, query) == cs
  {
    forall i | 0 <= i < |cs| ensures NameTest(fold, query)(cs[i]) {
      ContainsEmpty(Normalize(fold, cs[i].name));
    }
    FilterKeepsAll(NameTest(fold, query), cs);
  }

  /** Searching the result again with the same query gives it back. */
  lemma NameSearchIdempotent(fold: Folding, cs: seq<School>, query: string)
    ensures NameSearch(fold, NameSearch(fold, cs, query), query) == NameSearch(fold, cs, query)
  {
    if cs != [] && query != "" {
      FilterIdempotent(NameTest(fold, query), cs);
    }
  }

  /** `filtrar_por_provincia`, without its report: nothing for an empty collection or an
      empty province, otherwise the records whose province matches. */
  function FilterByProvince(fold: Folding, cs: seq<School>, province: string): (r: seq<School>)
    ensures cs == [] || province == "" ==> r == []
    ensures |r| <= |cs|
    ensures forall i :: 0 <= i < |r| ==> ProvinceTest(fold, province)(r[i])
  {
    if cs == [] || province == "" then [] else Filter(ProvinceTest(fold, province), cs)
  }

  lemma ProvinceMembership(fold: Folding, cs: seq<School>, province: string, x: School)
    ensures x in FilterByProvince(fold, cs, province)
        <==> province != "" && x in cs && Contains(Normalize(fold, x.province), Normalize(fold, province))
  {
    FilterMembership(ProvinceTest(fold, province), cs, x);
  }

  lemma ProvinceIsSubsequence(fold: Folding, cs: seq<School>, province: string)
    requires province != ""
    ensures SubsequenceAt(FilterByProvince(fold, cs, province), cs, Positions(ProvinceTest(fold, province), cs, 0))
  {
    FilterSubsequence(ProvinceTest(fold, province), cs);
  }

  lemma BlankProvinceFindsAll(fold: Folding, cs: seq<School>, province: string)
    requires province != "" && fold(province) == ""
    ensures FilterByProvince(fold, cs, province) == cs
  {
    forall i | 0 <= i < |cs| ensures ProvinceTest(fold, province)(cs[i]) {
      ContainsEmpty(Normalize(fold, cs[i].province));
    }
    FilterKeepsAll(ProvinceTest(fold, province), cs);
  }

  lemma ProvinceIdempotent(fold: Folding, cs: seq<School>, province: string)
    ensures FilterByProvince(fold, FilterByProvince(fold, cs, province), province) == FilterByProvince(fold, cs, province)
  {
    if cs != [] && province != "" {
      FilterIdempotent(ProvinceTest(fold, province), cs);
    }
  }

  /** `filtrar_por_rango_estudiantes`, without its report. */
  function FilterByStudents(cs: seq<School>, lo: int, hi: int): (r: seq<School>)
    ensures |r| <= |cs|
    ensures forall i :: 0 <= i < |r| ==> lo <= r[i].students <= hi
  {
    if cs == [] then [] else Filter(StudentsTest(lo, hi), cs)
  }

  /** `filtrar_por_rango_año`, without its report. */
  function FilterByYear(cs: seq<School>, lo: int, hi: int): (r: seq<School>)
    ensures |r| <= |cs|
    ensures forall i :: 0 <= i < |r| ==> lo <= r[i].year <= hi
  {
    if cs == [] then [] else Filter(YearTest(lo, hi), cs)
  }

  /** A record passes a range filter exactly when its value lies between the bounds. */
  lemma StudentsMembership(cs: seq<School>, lo: int, hi: int, x: School)
    ensures x in FilterByStudents(cs, lo, hi) <==> x in cs && lo <= x.students <= hi
  {
    FilterMembership(StudentsTest(lo, hi), cs, x);
  }

  lemma YearMembership(cs: seq<School>, lo: int, hi: int, x: School)
    ensures x in FilterByYear(cs, lo, hi) <==> x in cs && lo <= x.year <= hi
  {
    FilterMembership(YearTest(lo, hi), cs, x);
  }

  lemma StudentsIsSubsequence(cs: seq<School>, lo: int, hi: int)
    ensures SubsequenceAt(FilterByStudents(cs, lo, hi), cs, Positions(StudentsTest(lo, hi), cs, 0))
  {
    FilterSubsequence(StudentsTest(lo, hi), cs);
  }

  lemma YearIsSubsequence(cs: seq<School>, lo: int, hi: int)
    ensures SubsequenceAt(FilterByYear(cs, lo, hi), cs, Positions(YearTest(lo, hi), cs, 0))
  {
    FilterSubsequence(YearTest(lo, hi), cs);
  }

  /** Bounds in the wrong order select nothing. */
  lemma EmptyStudentRange(cs: seq<School>, lo: int, hi: int)
    requires lo > hi
    ensures FilterByStudents(cs, lo, hi) == []
  {
    FilterNone(StudentsTest(lo, hi), cs);
  }

  lemma EmptyYearRange(cs: seq<School>, lo: int, hi: int)
    requires lo > hi
    ensures FilterByYear(cs, lo, hi) == []
  {
    FilterNone(YearTest(lo, hi), cs);
  }

  lemma StudentsIdempotent(cs: seq<School>, lo: int, hi: int)
    ensures FilterByStudents(FilterByStudents(cs, lo, hi), lo, hi) == FilterByStudents(cs, lo, hi)
  {
    FilterIdempotent(StudentsTest(lo, hi), cs);
  }

  lemma YearIdempotent(cs: seq<School>, lo: int, hi: int)
    ensures FilterByYear(FilterByYear(cs, lo, hi), lo, hi) == FilterByYear(cs, lo, hi)
  {
    FilterIdempotent(YearTest(lo, hi), cs);
  }
}
