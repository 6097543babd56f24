/** The central CSV file of src/funciones/utilidades.py: `leer_csv` loads it with the row
    filter, `escribir_csv` rewrites it and then refreshes the projection, and `pedir_rango`
    reads the bounds of the range filters. */
module Store {
  import opened Options
  import opened Numerals
  import opened Schools
  import opened Rows
  import opened Files
  import opened Sequences
  import opened Hierarchy

  /** What `leer_csv` returns, with the number of skipped rows it reports: nothing when the
      file is missing or when reading raises (`fault` is the number of rows the reader yields
      before it raises, if it does), the kept records and the skipped count otherwise. */
  function Load(disk: Disk, path: Path, fault: Option<nat>): (r: (seq<School>, nat))
    ensures path !in disk ==> r == ([], 0)
    ensures path in disk && fault.Some? && fault.value <= |disk[path]| ==> r == ([], 0)
  {
    if path !in disk then ([], 0)
    else if fault.Some? && fault.value <= |disk[path]| then ([], 0)
    else (Kept(disk[path]), Skipped(disk[path]))
  }

  /** The loop of `leer_csv`: a row on which stripping raises is counted like a rejected
      one, and an exception of the reader discards everything read so far. */
  method ReadCsv(disk: Disk, path: Path, fault: Option<nat>) returns (schools: seq<School>, skipped: nat)
    ensures (schools, skipped) == Load(disk, path, fault)
  {
    schools, skipped := [], 0;
    if path !in disk {
      return;
    }
    var rows := disk[path];
    var i := 0;
    while i < |rows|
      invariant 0 <= i <= |rows|
      invariant fault.Some? ==> i <= fault.value
      invariant schools == Kept(rows[..i]) && skipped == Skipped(rows[..i])
    {
      if fault == Some(i) {
        schools, skipped := [], 0;
        return;
      }
      KeptStep(rows, i);
      var v := ParseRow(rows[i]);
      if v.Keep? {
        schools := schools + [v.school];
      } else {
        // an invalid row, or one on which stripping a missing cell raised
        skipped := skipped + 1;
      }
      i := i + 1;
    }
    assert rows[..i] == rows;
    if fault == Some(i) {
      schools, skipped := [], 0;
    }
  }

  /** Every row read is kept or counted. */
  lemma LoadAccountsForRows(disk: Disk, path: Path)
    requires path in disk
    ensures |Load(disk, path, None).0| + Load(disk, path, None).1 == |disk[path]|
  {
    KeptPlusSkipped(disk[path]);
  }

  /** What `escribir_csv` leaves on disk and returns. An `open` that raises, for the central
      file or for any file of the projection, makes it return false; `projector` is false when
      importing the projection module fails, which is ignored. */
  function Save(disk: Disk, path: Path, ss: seq<School>, writable: Path -> bool, projector: bool): (r: (Disk, bool))
    ensures !writable(path) ==> r == (disk, false)
    ensures writable(path) && !projector ==> r == (disk[path := FormatRows(ss)], true)
    ensures writable(path) && projector ==> r == Run(disk[path := FormatRows(ss)], SyncWrites(path, ss), writable)
  {
    if !writable(path) then (disk, false)
    else
      var d := disk[path := FormatRows(ss)];
      if projector then Run(d, SyncWrites(path, ss), writable) else (d, true)
  }

  /** `escribir_csv`: write the central file, then synchronise the projection. */
  method WriteCsv(disk: Disk, path: Path, ss: seq<School>, writable: Path -> bool, projector: bool)
    returns (d: Disk, ok: bool)
    ensures (d, ok) == Save(disk, path, ss, writable, projector)
  {
    if !writable(path) {
      return disk, false;
    }
    d := disk[path := FormatRows(ss)];
    ok := true;
    if projector {
      d, ok := Synchronize(d, path, ss, writable);
    }
  }

  /** All files of the projection lie two levels below `subgrupos`, so none of them is the
      central file. */
  lemma SyncAvoidsCentral(path: Path, ss: seq<School>)
    ensures forall j :: 0 <= j < |SyncWrites(path, ss)| ==> SyncWrites(path, ss)[j].path != path
  {
    var root := SubgroupRoot(path);
    var a := GroupWrites(root + [ByProvince], ss, ProvinceOf);
    var b := GroupWrites(root + [ByStudents], ss, StudentKey);
    var c := GroupWrites(root + [ByYear], ss, YearKey);
    assert SyncWrites(path, ss) == a + b + c;
    GroupPathLengths(root + [ByProvince], ss, ProvinceOf);
    GroupPathLengths(root + [ByStudents], ss, StudentKey);
    GroupPathLengths(root + [ByYear], ss, YearKey);
    assert |path| < |root| + 2;
    AvoidConcat(a, b, path);
    AvoidConcat(a + b, c, path);
  }

  /** Once its `open` succeeded, the central file holds the records, even when the save then
      reports failure because the projection raised. */
  lemma SaveWritesCentral(disk: Disk, path: Path, ss: seq<School>, writable: Path -> bool, projector: bool)
    requires writable(path)
    ensures var d := Save(disk, path, ss, writable, projector).0;
      path in d && d[path] == FormatRows(ss)
  {
    if projector {
      SyncAvoidsCentral(path, ss);
      RunUntouched(disk[path := FormatRows(ss)], SyncWrites(path, ss), writable, path);
    }
  }

  /** Loading after a save gives back the records, none skipped: load(save(rs)) == rs, whatever
      the save returned. */
  lemma LoadAfterSave(disk: Disk, path: Path, ss: seq<School>, writable: Path -> bool, projector: bool)
    requires writable(path)
    requires forall i :: 0 <= i < |ss| ==> Storable(ss[i])
    ensures Load(Save(disk, path, ss, writable, projector).0, path, None) == (ss, 0)
  {
    SaveWritesCentral(disk, path, ss, writable, projector);
    KeptFormatRows(ss);
  }

  /** The save can report failure with the central file already rewritten: when the file of
      the first province of the projection cannot be opened, nothing of the projection is
      written and false is returned. */
  lemma SaveFailsAfterWriting(disk: Disk, path: Path, ss: seq<School>, writable: Path -> bool)
    requires writable(path) && ss != []
    requires !writable(FileFor(SubgroupRoot(path) + [ByProvince], ss[0].province))
    ensures var r := Save(disk, path, ss, writable, true);
      r == (disk[path := FormatRows(ss)], false)
  {
    KeysFirst(ss, ProvinceOf);
    SyncFailsFirst(disk[path := FormatRows(ss)], path, ss, writable);
  }

  /** `pedir_rango` on the two answers: both must be integers and the minimum may not exceed
      the maximum; otherwise the pair is (None, None). */
  function AskRange(minText: string, maxText: string): (r: (Option<int>, Option<int>))
    ensures r.0.Some? <==> r.1.Some?
    ensures r.0.Some? ==> Some(r.0.value) == ParseInt(minText) && Some(r.1.value) == ParseInt(maxText)
    ensures r.0.Some? ==> r.0.value <= r.1.value
    ensures r.0.None? ==> ParseInt(minText).None? || ParseInt(maxText).None? || ParseInt(minText).value > ParseInt(maxText).value
  {
    match (ParseInt(minText), ParseInt(maxText))
    case (Some(lo), Some(hi)) => if lo > hi then (None, None) else (Some(lo), Some(hi))
    case _ => (None, None)
  }

  /** Typing two integers gives them back exactly when they are in order. */
  lemma AskRangeOfNumbers(lo: int, hi: int)
    ensures AskRange(FormatInt(lo), FormatInt(hi)) == if lo <= hi then (Some(lo), Some(hi)) else (None, None)
  {
    ParseFormat(lo);
    ParseFormat(hi);
  }
}
