/** The per-row filter shared by `leer_csv` and `leer_desde_subgrupo`
    (src/funciones/utilidades.py, src/funciones/jerarquia.py), and the rows a save writes.
    A file is seen through its four named columns, one row per data line. */
module Rows {
  import opened Options
  import opened Text
  import opened Numerals
  import opened Schools
  import opened Sequences

  /** One data line as read under the four headers; `None` is the value a reader gives the
      columns missing from a short line. */
  datatype Row = Row(province: Option<string>, name: Option<string>,
                     students: Option<string>, year: Option<string>)

  /** What the loader makes of one row: a record, a row it drops as invalid, or a row on
      which stripping a missing cell raises. */
  datatype Verdict = Keep(school: School) | Invalid | Broken

  predicate HasMissingCell(row: Row) {
    row.province.None? || row.name.None? || row.students.None? || row.year.None?
  }

  /** The row filter: strip all four cells; drop the row when the province or the name is
      empty or when a non-blank numeric cell is not an integer; a blank numeric cell is 0. */
  function ParseRow(row: Row): (v: Verdict)
    ensures v.Broken? <==> HasMissingCell(row)
  {
    if HasMissingCell(row) then Broken
    else ParseCells(Trim(row.province.value), Trim(row.name.value),
                    Trim(row.students.value), Trim(row.year.value))
  }

  /** The filter on the four stripped cells. */
  function ParseCells(p: string, n: string, c: string, y: string): (v: Verdict)
    ensures !v.Broken?
    ensures v.Keep? ==> v.school.province == p && v.school.name == n
  {
    if p == "" || n == "" then Invalid
    else
      match (IntOrZero(c), IntOrZero(y))
      case (Some(count), Some(founded)) => Keep(School(p, n, count, founded))
      case _ => Invalid
  }

  /** A row with all four cells is kept exactly when its stripped province and name are
      non-empty and each stripped numeric cell is blank or an integer; the kept record holds
      the stripped text and those numbers, blank ones as 0. Any other such row is dropped
      as invalid. */
  lemma ParseRowMeaning(row: Row)
    requires !HasMissingCell(row)
    ensures var p, n := Trim(row.province.value), Trim(row.name.value);
      var c, y := IntOrZero(Trim(row.students.value)), IntOrZero(Trim(row.year.value));
      && (ParseRow(row).Keep? <==> p != "" && n != "" && c.Some? && y.Some?)
      && (ParseRow(row).Keep? ==> ParseRow(row).school == School(p, n, c.value, y.value))
      && (!ParseRow(row).Keep? ==> ParseRow(row) == Invalid)
  {
    var p, n := Trim(row.province.value), Trim(row.name.value);
    var c, y := Trim(row.students.value), Trim(row.year.value);
    assert ParseRow(row) == ParseCells(p, n, c, y);
  }

  /** A non-blank numeric cell that is not an integer drops the row. */
  lemma DropsBadNumber(row: Row)
    requires !HasMissingCell(row)
    requires || (Trim(row.students.value) != "" && ParseInt(Trim(row.students.value)).None?)
             || (Trim(row.year.value) != "" && ParseInt(Trim(row.year.value)).None?)
    ensures ParseRow(row) == Invalid
  {
    ParseRowMeaning(row);
  }

  /** A kept record has stripped, non-empty province and name. */
  lemma KeptIsStorable(row: Row)
    requires ParseRow(row).Keep?
    ensures Storable(ParseRow(row).school)
  {
    TrimIdempotent(row.province.value);
    TrimIdempotent(row.name.value);
  }

  /** The records of the kept rows, in file order. */
  function Kept(rows: seq<Row>): (r: seq<School>)
    ensures |r| <= |rows|
  {
    if rows == [] then []
    else
      var v := ParseRow(rows[|rows| - 1]);
      Kept(rows[..|rows| - 1]) + (if v.Keep? then [v.school] else [])
  }

  /** The number of rows dropped, the loader's `filas_invalidas`. */
  function Skipped(rows: seq<Row>): nat {
    if rows == [] then 0
    else Skipped(rows[..|rows| - 1]) + (if ParseRow(rows[|rows| - 1]).Keep? then 0 else 1)
  }

  /** Every row read is either kept or counted as skipped. */
  lemma {:induction false} KeptPlusSkipped(rows: seq<Row>)
    ensures |Kept(rows)| + Skipped(rows) == |rows|
  {
    if rows != [] {
      KeptPlusSkipped(rows[..|rows| - 1]);
    }
  }

  /** Rows are judged one by one, so kept records keep the order of the file. */
  lemma {:induction false} KeptConcat(a: seq<Row>, b: seq<Row>)
    ensures Kept(a + b) == Kept(a) + Kept(b)
  {
    if b == [] {
      assert a + b == a;
    } else {
      var b' := b[..|b| - 1];
      assert (a + b)[..|a + b| - 1] == a + b';
      KeptConcat(a, b');
    }
  }

  /** A row whose province and name are blank after stripping is dropped. */
  lemma DropsBlankText(row: Row)
    requires !HasMissingCell(row)
    requires Trim(row.province.value) == "" || Trim(row.name.value) == ""
    ensures ParseRow(row) == Invalid
  {
  }

  /** Blank numeric cells read as 0. */
  lemma BlankNumbersAreZero(p: string, n: string, c: string, y: string)
    requires Trim(p) != "" && Trim(n) != "" && Trim(c) == "" && Trim(y) == ""
    ensures ParseRow(Row(Some(p), Some(n), Some(c), Some(y))) == Keep(School(Trim(p), Trim(n), 0, 0))
  {
    assert ParseRow(Row(Some(p), Some(n), Some(c), Some(y))) == ParseCells(Trim(p), Trim(n), "", "");
  }

  /** `str()` of each field under the four headers, as `DictWriter` writes a record. */
  function FormatRow(s: School): (row: Row)
    ensures !HasMissingCell(row)
  {
    Row(Some(s.province), Some(s.name), Some(FormatInt(s.students)), Some(FormatInt(s.year)))
  }

  function FormatRows(ss: seq<School>): (rows: seq<Row>)
    ensures |rows| == |ss|
    ensures forall i :: 0 <= i < |ss| ==> rows[i] == FormatRow(ss[i])
  {
    seq(|ss|, i requires 0 <= i < |ss| => FormatRow(ss[i]))
  }

  /** A written record is read back as itself: the loader checks no range, so any count and
      any year, 0 and negative ones included, survive. */
  lemma ParseFormatRow(s: School)
    requires Storable(s)
    ensures ParseRow(FormatRow(s)) == Keep(s)
  {
    var c, y := FormatInt(s.students), FormatInt(s.year);
    assert Trim(c) == c by { TrimOfTrimmed(c); }
    assert Trim(y) == y by { TrimOfTrimmed(y); }
    assert ParseRow(FormatRow(s)) == ParseCells(s.province, s.name, c, y);
    assert IntOrZero(c) == Some(s.students) by { ParseFormat(s.students); }
    assert IntOrZero(y) == Some(s.year) by { ParseFormat(s.year); }
  }

  lemma FormatRowsSnoc(ss: seq<School>, s: School)
    ensures FormatRows(ss + [s]) == FormatRows(ss) + [FormatRow(s)]
  {
  }

  lemma KeptSnoc(rows: seq<Row>, row: Row)
    ensures Kept(rows + [row]) == Kept(rows) + (if ParseRow(row).Keep? then [ParseRow(row).school] else [])
    ensures Skipped(rows + [row]) == Skipped(rows) + (if ParseRow(row).Keep? then 0 else 1)
  {
    assert (rows + [row])[..|rows|] == rows;
  }

  /** One more row judged. */
  lemma KeptStep(rows: seq<Row>, i: nat)
    requires i < |rows|
    ensures Kept(rows[..i + 1]) == Kept(rows[..i]) + (if ParseRow(rows[i]).Keep? then [ParseRow(rows[i]).school] else [])
    ensures Skipped(rows[..i + 1]) == Skipped(rows[..i]) + (if ParseRow(rows[i]).Keep? then 0 else 1)
  {
    assert rows[..i + 1][..i] == rows[..i];
  }

  /** Loading what was saved gives back the records, none skipped: load(write(rs)) == rs. */
  lemma {:induction false} KeptFormatRows(ss: seq<School>)
    requires forall i :: 0 <= i < |ss| ==> Storable(ss[i])
    ensures Kept(FormatRows(ss)) == ss && Skipped(FormatRows(ss)) == 0
  {
    if ss != [] {
      var init, last := ss[..|ss| - 1], ss[|ss| - 1];
      SplitLast(ss);
      FormatRowsSnoc(init, last);
      KeptFormatRows(init);
      assert ParseRow(FormatRow(last)) == Keep(last) by { ParseFormatRow(last); }
      KeptSnoc(FormatRows(init), FormatRow(last));
    }
  }

  /** The index of the first row with a missing cell, `|rows|` when there is none. */
  function FirstBroken(rows: seq<Row>): (n: nat)
    ensures n <= |rows|
    ensures forall i :: 0 <= i < n ==> !HasMissingCell(rows[i])
    ensures n < |rows| ==> HasMissingCell(rows[n])
  {
    if rows == [] || HasMissingCell(rows[0]) then 0 else 1 + FirstBroken(rows[1..])
  }

  /** The records kept from a prefix of the rows are a prefix of those kept from all of them. */
  lemma KeptPrefix(rows: seq<Row>, m: nat)
    requires m <= |rows|
    ensures Kept(rows[..m]) <= Kept(rows)
  {
    assert rows == rows[..m] + rows[m..];
    KeptConcat(rows[..m], rows[m..]);
  }

  /** Written rows have no missing cell. */
  lemma FormatRowsUnbroken(ss: seq<School>)
    ensures FirstBroken(FormatRows(ss)) == |ss|
  {
  }
}
