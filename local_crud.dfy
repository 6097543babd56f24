/** The local operations of src/funciones/carga_datos.py. Each one changes the list of
    records in place, saves it with `escribir_csv`, and undoes its change in memory when
    the save reports failure. */
module LocalCrud {
  import opened Options
  import opened Text
  import opened Numerals
  import opened Sequences
  import opened Schools
  import opened Search
  import opened Entry

  /** The index of the record an edit or a delete works on: the query is stripped and must
      not be empty, the candidates are the indices of the records whose name matches it,
      and one of them is picked. */
  function Target(fold: Folding, cs: seq<School>, query: string, choice: string): (r: Option<nat>)
    ensures cs == [] || Trim(query) == "" ==> r.None?
    ensures r.Some? ==> r.value < |cs| && NameTest(fold, Trim(query))(cs[r.value])
  {
    if cs == [] || Trim(query) == "" then None
    else
      var candidates := Positions(NameTest(fold, Trim(query)), cs, 0);
      if candidates == [] then None
      else match Pick(|candidates|, choice)
        case None => None
        case Some(k) => Some(candidates[k])
  }

  /** With exactly one matching record, that record is the target and nothing is asked. */
  lemma SingleMatchIsTarget(fold: Folding, cs: seq<School>, query: string, choice: string, i: nat)
    requires Trim(query) != "" && i < |cs| && NameTest(fold, Trim(query))(cs[i])
    requires forall j :: 0 <= j < |cs| && j != i ==> !NameTest(fold, Trim(query))(cs[j])
    ensures Target(fold, cs, query, choice) == Some(i)
  {
    PositionsSingle(NameTest(fold, Trim(query)), cs, 0, i);
  }

  /** How the target is chosen among the matching records. The candidates are the indices
      of the matching records in list order; a single candidate is taken without asking;
      among several, an answer `k` in 1..n picks candidate `k - 1` and any other answer
      gives no target. */
  lemma TargetChoice(fold: Folding, cs: seq<School>, query: string, choice: string)
    requires cs != [] && Trim(query) != ""
    ensures var c := Positions(NameTest(fold, Trim(query)), cs, 0);
      var r := Target(fold, cs, query, choice);
      && (c == [] ==> r.None?)
      && (|c| == 1 ==> r == Some(c[0]))
      && (|c| > 1 ==> (r.Some? <==> ParseInt(choice).Some? && 1 <= ParseInt(choice).value <= |c|))
      && (|c| > 1 && ParseInt(choice).Some? && 1 <= ParseInt(choice).value <= |c| ==>
            r == Some(c[ParseInt(choice).value - 1]))
  {
    PickedCandidate(Positions(NameTest(fold, Trim(query)), cs, 0), choice, Target(fold, cs, query, choice));
  }

  /** The choice among candidates, whatever they are. */
  lemma PickedCandidate(c: seq<nat>, choice: string, r: Option<nat>)
    requires r == if c == [] then None else match Pick(|c|, choice)
                 case None => None
                 case Some(k) => Some(c[k])
    ensures && (c == [] ==> r.None?)
            && (|c| == 1 ==> r == Some(c[0]))
            && (|c| > 1 ==> (r.Some? <==> ParseInt(choice).Some? && 1 <= ParseInt(choice).value <= |c|))
            && (|c| > 1 && ParseInt(choice).Some? && 1 <= ParseInt(choice).value <= |c| ==>
                  r == Some(c[ParseInt(choice).value - 1]))
  {
    if |c| > 1 && ParseInt(choice).Some? && 1 <= ParseInt(choice).value <= |c| {
      PickAnswer(|c|, choice, ParseInt(choice).value);
    }
  }

  /** No matching record means no target. */
  lemma NoMatchNoTarget(fold: Folding, cs: seq<School>, query: string, choice: string)
    requires forall j :: 0 <= j < |cs| ==> !NameTest(fold, Trim(query))(cs[j])
    ensures Target(fold, cs, query, choice).None?
  {
  }

  /** The record after the answers of an edit have been applied one field at a time, and
      whether all of them were accepted. A blank answer keeps the field. A count that is
      not an integer or is negative, or a year that is not an integer or is out of range,
      stops the edit; the fields changed before it stay changed. */
  function Edited(s: School, province: string, name: string, count: string, year: string): (r: (School, bool))
    ensures r.0.province == if Trim(province) != "" then Trim(province) else s.province
    ensures r.0.name == if Trim(name) != "" then Trim(name) else s.name
    ensures r.1 <==> && (Trim(count) == "" || (ParseInt(count).Some? && ParseInt(count).value >= 0))
                     && (Trim(year) == "" || (ParseInt(year).Some? && YearInRange(ParseInt(year).value)))
    ensures r.0.students == if Trim(count) != "" && ParseInt(count).Some? && ParseInt(count).value >= 0
                            then ParseInt(count).value else s.students
    ensures r.0.year == if r.1 && Trim(year) != "" then ParseInt(year).value else s.year
  {
    ParseIgnoresSpace(count);
    ParseIgnoresSpace(year);
    var p, n, c, y := Trim(province), Trim(name), Trim(count), Trim(year);
    var s1 := if p != "" then s.(province := p) else s;
    var s2 := if n != "" then s1.(name := n) else s1;
    if c != "" && (ParseInt(c).None? || ParseInt(c).value < 0) then (s2, false)
    else
      var s3 := if c != "" then s2.(students := ParseInt(c).value) else s2;
      if y != "" && (ParseInt(y).None? || !YearInRange(ParseInt(y).value)) then (s3, false)
      else (if y != "" then s3.(year := ParseInt(y).value) else s3, true)
  }

  /** An edit stopped by a bad count keeps the new province it already wrote, and leaves
      the count and the year as they were. */
  lemma StoppedEditKeepsText(s: School, province: string, name: string, count: string, year: string)
    requires Trim(province) != "" && ParseInt(count).Some? && ParseInt(count).value < 0
    ensures var e := Edited(s, province, name, count, year);
      && !e.1 && e.0.province == Trim(province) && e.0.students == s.students && e.0.year == s.year
  {
  }

  /** The list of records in memory. The save is an oracle: `save(rs)` is what
      `escribir_csv(ruta_csv, rs)` returns, `Store.Save` on the disk of the moment. */
  class Catalog {
    var schools: seq<School>

    constructor(schools: seq<School>)
      ensures this.schools == schools
    {
      this.schools := schools;
    }

    /** `agregar_colegio`: append the new record and save; on failure pop it again. */
    method Add(province: string, name: string, count: string, year: string,
               save: seq<School> -> bool) returns (ok: bool)
      modifies this
      ensures var v := ValidateNew(province, name, count, year);
        && (v.Refused? ==> !ok && schools == old(schools))
        && (v.Accepted? ==>
              && ok == save(old(schools) + [v.school])
              && schools == if ok then old(schools) + [v.school] else old(schools))
    {
      var v := ValidateNew(province, name, count, year);
      if v.Refused? {
        return false;
      }
      var before := schools;
      schools := schools + [v.school];
      ok := save(schools);
      if !ok {
        schools := schools[..|schools| - 1];
        assert schools == before;
      }
    }

    /** `editar_colegio`: find the target, apply the answers, save; on a failed save put
        the original record back. An edit stopped by a bad number returns false with the
        fields changed so far left changed in memory, and nothing is saved. */
    method Edit(fold: Folding, query: string, choice: string,
                province: string, name: string, count: string, year: string,
                save: seq<School> -> bool) returns (ok: bool)
      modifies this
      ensures var t := Target(fold, old(schools), query, choice);
        && (t.None? ==> !ok && schools == old(schools))
        && (t.Some? ==>
              var e := Edited(old(schools)[t.value], province, name, count, year);
              var changed := old(schools)[t.value := e.0];
              && (!e.1 ==> !ok && schools == changed)
              && (e.1 ==> ok == save(changed) && schools == if ok then changed else old(schools)))
    {
      var t := Target(fold, schools, query, choice);
      if t.None? {
        return false;
      }
      var idx := t.value;
      var original := schools[idx];
      var e := Edited(original, province, name, count, year);
      schools := schools[idx := e.0];
      if !e.1 {
        return false;
      }
      ok := save(schools);
      if !ok {
        schools := schools[idx := original];
      }
    }

    /** `borrar_colegio`: find the target, ask for confirmation, pop it and save; on a
        failed save insert it again where it was. */
    method Delete(fold: Folding, query: string, choice: string, answer: string,
                  save: seq<School> -> bool) returns (ok: bool)
      modifies this
      ensures var t := Target(fold, old(schools), query, choice);
        && (t.None? || !Confirmed(answer) ==> !ok && schools == old(schools))
        && (t.Some? && Confirmed(answer) ==>
              var rest := RemoveAt(old(schools), t.value);
              && ok == save(rest)
              && schools == if ok then rest else old(schools))
    {
      var t := Target(fold, schools, query, choice);
      if t.None? || !Confirmed(answer) {
        return false;
      }
      var idx := t.value;
      var removed := schools[idx];
      var before := schools;
      schools := RemoveAt(schools, idx);
      ok := save(schools);
      if !ok {
        schools := InsertAt(schools, idx, removed);
        InsertRemoved(before, idx);
      }
    }
  }
}
