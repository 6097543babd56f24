/** The hierarchical projection of src/funciones/jerarquia.py: after every save of the
    central file, the whole collection is grouped three ways (by province, by student-count
    range, by founding decade) and each group is written to a CSV file of its own under
    `subgrupos/` beside the central file. */
module Hierarchy {
  import opened Options
  import opened Text
  import opened Sequences
  import opened Schools
  import opened Rows
  import opened Files

  /** The directory of the projection: `subgrupos` beside the central file. */
  function SubgroupRoot(central: Path): (r: Path)
    ensures r == Parent(central) + ["subgrupos"]
  {
    Parent(central) + ["subgrupos"]
  }

  const ByProvince := "por_provincia"
  const ByStudents := "por_estudiantes"
  const ByYear := "por_año"

  /** The characters a file name may not contain. */
  predicate IsForbidden(c: char) {
    c == '/' || c == '\\' || c == ':' || c == '*' || c == '?' || c == '"' || c == '<' || c == '>' || c == '|'
  }

  /** Every forbidden character replaced by '-', in one pass over the name. */
  function DashForbidden(name: string): (r: string)
    ensures |r| == |name|
    ensures forall i :: 0 <= i < |name| ==> r[i] == if IsForbidden(name[i]) then '-' else name[i]
  {
    if name == [] then []
    else [if IsForbidden(name[0]) then '-' else name[0]] + DashForbidden(name[1..])
  }

  /** The nine successive `replace(c, "-")` calls of the source, one per forbidden character,
      do the same as the single pass, because '-' itself is not forbidden. */
  lemma NineReplaces(name: string)
    ensures DashForbidden(name)
         == ReplaceChar(ReplaceChar(ReplaceChar(ReplaceChar(ReplaceChar(ReplaceChar(ReplaceChar(ReplaceChar(ReplaceChar(
              name, '/', '-'), '\\', '-'), ':', '-'), '*', '-'), '?', '-'), '"', '-'), '<', '-'), '>', '-'), '|', '-')
  {
    var s := ReplaceChar(ReplaceChar(ReplaceChar(name, '/', '-'), '\\', '-'), ':', '-');
    var s' := ReplaceChar(ReplaceChar(ReplaceChar(s, '*', '-'), '?', '-'), '"', '-');
    var r := ReplaceChar(ReplaceChar(ReplaceChar(s', '<', '-'), '>', '-'), '|', '-');
    assert |r| == |name|;
    forall i | 0 <= i < |name|
      ensures r[i] == DashForbidden(name)[i]
    {
    }
  }

  /** `limpiar_nombre_archivo`: forbidden characters become '-', the result is stripped,
      and an empty result is replaced by "SinNombre". */
  function CleanFileName(name: string): (r: string)
    ensures r != ""
    ensures forall i :: 0 <= i < |r| ==> !IsForbidden(r[i])
  {
    var d := DashForbidden(name);
    TrimPreserves(d, c => !IsForbidden(c));
    var t := Trim(d);
    if t == "" then "SinNombre" else t
  }

  /** A name without forbidden characters or surrounding whitespace is kept as it is. */
  lemma CleanKeepsCleanName(s: string)
    requires s != "" && Trim(s) == s
    requires forall i :: 0 <= i < |s| ==> !IsForbidden(s[i])
    ensures CleanFileName(s) == s
  {
    assert DashForbidden(s) == s;
  }

  /** Cleaning a cleaned name changes nothing. */
  lemma CleanIdempotent(name: string)
    ensures CleanFileName(CleanFileName(name)) == CleanFileName(name)
  {
    var d := DashForbidden(name);
    var r := CleanFileName(name);
    if Trim(d) == "" {
      TrimOfTrimmed("SinNombre");
    } else {
      TrimIdempotent(d);
    }
    CleanKeepsCleanName(r);
  }

  /** Two province names that differ only in forbidden characters replaced by '-' share a
      file: "A/B" and "A-B" are both written to `A-B.csv`. */
  lemma CleanCollides()
    ensures CleanFileName("A/B") == CleanFileName("A-B") == "A-B"
  {
    TrimOfTrimmed("A-B");
    DashesSlash();
    CleanOfDashed("A/B", "A-B");
    DashesNothing();
    CleanOfDashed("A-B", "A-B");
  }

  lemma CleanOfDashed(name: string, d: string)
    requires DashForbidden(name) == d && d != "" && Trim(d) == d
    ensures CleanFileName(name) == d
  {
  }

  lemma DashesSlash()
    ensures DashForbidden("A/B") == "A-B"
  {
    var d := DashForbidden("A/B");
    assert IsForbidden("A/B"[1]) && !IsForbidden("A/B"[0]) && !IsForbidden("A/B"[2]);
    assert d[0] == 'A' && d[1] == '-' && d[2] == 'B';
  }

  lemma DashesNothing()
    ensures DashForbidden("A-B") == "A-B"
  {
    var d := DashForbidden("A-B");
    assert d[0] == 'A' && d[1] == '-' && d[2] == 'B';
  }

  /** The student-count range of `organizar_por_estudiantes`. */
  function StudentRange(n: int): string {
    if n < 300 then "Menos_300"
    else if n < 500 then "300_499"
    else if n < 700 then "500_699"
    else "700_o_mas"
  }

  /** The founding decade of `organizar_por_año`; a year of 0 (blank) falls before 1970. */
  function DecadeOf(y: int): string {
    if y < 1970 then "Antes_1970"
    else if y < 1980 then "1970_1979"
    else if y < 1990 then "1980_1989"
    else if y < 2000 then "1990_1999"
    else "2000_o_despues"
  }

  const StudentLabels: seq<string> := ["Menos_300", "300_499", "500_699", "700_o_mas"]
  const DecadeLabels: seq<string> := ["Antes_1970", "1970_1979", "1980_1989", "1990_1999", "2000_o_despues"]

  /** The position of each range label, ordered by the counts it covers. */
  lemma StudentRangeOrdered(n: int, m: int)
    requires n <= m
    ensures StudentRange(n) in StudentLabels && StudentRange(m) in StudentLabels
    ensures exists i, j :: 0 <= i <= j < 4 && StudentLabels[i] == StudentRange(n) && StudentLabels[j] == StudentRange(m)
  {
    var i := if n < 300 then 0 else if n < 500 then 1 else if n < 700 then 2 else 3;
    var j := if m < 300 then 0 else if m < 500 then 1 else if m < 700 then 2 else 3;
    assert StudentLabels[i] == StudentRange(n) && StudentLabels[j] == StudentRange(m);
  }

  lemma DecadeOrdered(y: int, z: int)
    requires y <= z
    ensures DecadeOf(y) in DecadeLabels && DecadeOf(z) in DecadeLabels
    ensures exists i, j :: 0 <= i <= j < 5 && DecadeLabels[i] == DecadeOf(y) && DecadeLabels[j] == DecadeOf(z)
  {
    var i := if y < 1970 then 0 else if y < 1980 then 1 else if y < 1990 then 2 else if y < 2000 then 3 else 4;
    var j := if z < 1970 then 0 else if z < 1980 then 1 else if z < 1990 then 2 else if z < 2000 then 3 else 4;
    assert DecadeLabels[i] == DecadeOf(y) && DecadeLabels[j] == DecadeOf(z);
  }

  /** The boundaries of the ranges, as the comparisons `< 300`, `< 500`, `< 700` place them. */
  lemma StudentRangeBoundaries()
    ensures StudentRange(-5) == StudentRange(0) == StudentRange(299) == "Menos_300"
    ensures StudentRange(300) == StudentRange(499) == "300_499"
    ensures StudentRange(500) == StudentRange(699) == "500_699"
    ensures StudentRange(700) == "700_o_mas"
  {
  }

  lemma DecadeBoundaries()
    ensures DecadeOf(0) == DecadeOf(1969) == "Antes_1970"
    ensures DecadeOf(1970) == DecadeOf(1979) == "1970_1979"
    ensures DecadeOf(1999) == "1990_1999"
    ensures DecadeOf(2000) == DecadeOf(2100) == "2000_o_despues"
  {
  }

  predicate CleanLabel(s: string) {
    s != "" && !IsSpace(s[0]) && !IsSpace(s[|s| - 1]) && forall i :: 0 <= i < |s| ==> !IsForbidden(s[i])
  }

  /** Range and decade labels are their own file names. */
  lemma LabelIsOwnFileName(s: string)
    requires CleanLabel(s)
    ensures CleanFileName(s) == s
  {
    TrimOfTrimmed(s);
    CleanKeepsCleanName(s);
  }

  lemma StudentRangeName(n: int)
    ensures CleanFileName(StudentRange(n)) == StudentRange(n)
  {
    var s := StudentRange(n);
    assert CleanLabel(s);
    LabelIsOwnFileName(s);
  }

  lemma DecadeName(y: int)
    ensures CleanFileName(DecadeOf(y)) == DecadeOf(y)
  {
    var s := DecadeOf(y);
    assert CleanLabel(s);
    LabelIsOwnFileName(s);
  }

  function StudentKey(s: School): string { StudentRange(s.students) }
  function YearKey(s: School): string { DecadeOf(s.year) }

  /** The file a group key is written to inside `dir`. */
  function FileFor(dir: Path, k: string): Path {
    dir + [CleanFileName(k) + ".csv"]
  }

  /** The writes of one `organizar_*` function: one file per key, in the order in which the
      keys first appear in the collection, each holding that key's records in input order. */
  function GroupWrites(dir: Path, rs: seq<School>, key: School -> string): (ws: seq<FileWrite>)
    ensures |ws| == |Keys(rs, key)|
  {
    var ks := Keys(rs, key);
    seq(|ks|, i requires 0 <= i < |ks| => FileWrite(FileFor(dir, ks[i]), FormatRows(Bucket(rs, key, ks[i]))))
  }

  /** The writes of `sincronizar_estructura_jerarquica`, in order. */
  function SyncWrites(central: Path, rs: seq<School>): seq<FileWrite> {
    var root := SubgroupRoot(central);
    GroupWrites(root + [ByProvince], rs, ProvinceOf)
      + GroupWrites(root + [ByStudents], rs, StudentKey)
      + GroupWrites(root + [ByYear], rs, YearKey)
  }

  /** The dict of lists as a key order and a map from key to records. */
  ghost predicate Grouped(rs: seq<School>, key: School -> string, order: seq<string>, groups: map<string, seq<School>>) {
    && order == Keys(rs, key)
    && (forall k :: k in groups <==> k in order)
    && (forall k :: k in groups ==> groups[k] == Bucket(rs, key, k))
  }

  /** One step of the grouping loop: appending `rs[i]` to the list of its key, opening that
      list first when the key is new. */
  lemma GroupStep(rs: seq<School>, i: nat, key: School -> string,
                  order: seq<string>, groups: map<string, seq<School>>)
    requires i < |rs|
    requires Grouped(rs[..i], key, order, groups)
    ensures var k := key(rs[i]);
      Grouped(rs[..i + 1], key, if k in groups then order else order + [k],
              groups[k := (if k in groups then groups[k] else []) + [rs[i]]])
  {
    var x, k := rs[i], key(rs[i]);
    assert rs[..i + 1] == rs[..i] + [x];
    assert rs[..i + 1][..i] == rs[..i];
    if k !in groups {
      BucketOfAbsentKey(rs[..i], key, k);
    }
    var groups' := groups[k := (if k in groups then groups[k] else []) + [x]];
    forall k' | k' in groups'
      ensures groups'[k'] == Bucket(rs[..i + 1], key, k')
    {
      BucketSnoc(rs[..i], x, key, k');
    }
  }

  /** The dict of lists an `organizar_*` function builds: the keys in order of first
      appearance, and for each key its records in input order. */
  method GroupBy(rs: seq<School>, key: School -> string)
    returns (order: seq<string>, groups: map<string, seq<School>>)
    ensures order == Keys(rs, key)
    ensures forall k :: k in groups <==> k in order
    ensures forall k :: k in groups ==> groups[k] == Bucket(rs, key, k)
  {
    order, groups := [], map[];
    var i := 0;
    while i < |rs|
      invariant 0 <= i <= |rs|
      invariant Grouped(rs[..i], key, order, groups)
    {
      var x := rs[i];
      var k := key(x);
      GroupStep(rs, i, key, order, groups);
      var list := if k in groups then groups[k] else [];
      if k !in groups {
        order := order + [k];
      }
      groups := groups[k := list + [x]];
      i := i + 1;
    }
    assert rs[..i] == rs;
  }

  /** Writing the files in order; the first `open` that raises stops the loop. */
  method WriteAll(disk: Disk, ws: seq<FileWrite>, writable: Path -> bool) returns (d: Disk, ok: bool)
    ensures (d, ok) == Run(disk, ws, writable)
  {
    d := disk;
    var j := 0;
    while j < |ws|
      invariant 0 <= j <= |ws|
      invariant Run(disk, ws, writable) == Run(d, ws[j..], writable)
    {
      if !writable(ws[j].path) {
        ok := false;
        return;
      }
      assert ws[j..][1..] == ws[j + 1..];
      d := d[ws[j].path := ws[j].rows];
      j := j + 1;
    }
    ok := true;
  }

  /** One `organizar_*` function: group `rs` by `key` in a dict of lists, then write one file
      per group. The first `open` that raises ends the projection. */
  method Organize(disk: Disk, dir: Path, rs: seq<School>, key: School -> string, writable: Path -> bool)
    returns (d: Disk, ok: bool)
    ensures (d, ok) == Run(disk, GroupWrites(dir, rs, key), writable)
  {
    var order, groups := GroupBy(rs, key);
    var ws := seq(|order|, i requires 0 <= i < |order| =>
      FileWrite(dir + [CleanFileName(order[i]) + ".csv"], FormatRows(groups[order[i]])));
    assert ws == GroupWrites(dir, rs, key);
    d, ok := WriteAll(disk, ws, writable);
  }

  /** `sincronizar_estructura_jerarquica`: the province, student and decade projections in
      turn; an exception in one skips the ones after it. */
  method Synchronize(disk: Disk, central: Path, rs: seq<School>, writable: Path -> bool)
    returns (d: Disk, ok: bool)
    ensures (d, ok) == Run(disk, SyncWrites(central, rs), writable)
  {
    var root := SubgroupRoot(central);
    ghost var a := GroupWrites(root + [ByProvince], rs, ProvinceOf);
    ghost var b := GroupWrites(root + [ByStudents], rs, StudentKey);
    ghost var c := GroupWrites(root + [ByYear], rs, YearKey);
    RunConcat(disk, a + b, c, writable);
    RunConcat(disk, a, b, writable);
    d, ok := Organize(disk, root + [ByProvince], rs, ProvinceOf, writable);
    if !ok {
      return;
    }
    d, ok := Organize(d, root + [ByStudents], rs, StudentKey, writable);
    if !ok {
      return;
    }
    d, ok := Organize(d, root + [ByYear], rs, YearKey, writable);
  }

  /** Each write of a grouping goes to the file of the key at the same position and carries
      that key's records; only groups that have records are written. */
  lemma GroupWriteAt(dir: Path, rs: seq<School>, key: School -> string, i: nat)
    requires i < |Keys(rs, key)|
    ensures var w, k := GroupWrites(dir, rs, key)[i], Keys(rs, key)[i];
      w.path == FileFor(dir, k) && w.rows == FormatRows(Bucket(rs, key, k)) && Bucket(rs, key, k) != []
  {
    BucketOfKey(rs, key, Keys(rs, key)[i]);
  }

  /** A group file is `dir` followed by one name. */
  lemma FileForShape(dir: Path, k: string)
    ensures |FileFor(dir, k)| == |dir| + 1 && FileFor(dir, k)[..|dir|] == dir
  {
  }

  /** Every file of a grouping lies directly in its directory. */
  lemma GroupPathLengths(dir: Path, rs: seq<School>, key: School -> string)
    ensures forall j :: 0 <= j < |GroupWrites(dir, rs, key)| ==> |GroupWrites(dir, rs, key)[j].path| == |dir| + 1
  {
    forall j | 0 <= j < |GroupWrites(dir, rs, key)|
      ensures |GroupWrites(dir, rs, key)[j].path| == |dir| + 1
    {
      GroupWriteAt(dir, rs, key, j);
    }
  }

  /** Keys whose cleaned names differ are written to different files. */
  lemma FileForDistinct(dir: Path, k: string, k': string)
    requires CleanFileName(k) != CleanFileName(k')
    ensures FileFor(dir, k) != FileFor(dir, k')
  {
    var x, y := CleanFileName(k) + ".csv", CleanFileName(k') + ".csv";
    assert x[..|x| - 4] == CleanFileName(k) && y[..|y| - 4] == CleanFileName(k');
    assert FileFor(dir, k)[|dir|] == x && FileFor(dir, k')[|dir|] == y;
  }

  /** The writes of one grouping never name a file of another directory of the same depth. */
  lemma OtherDirAvoids(dir: Path, dir': Path, rs: seq<School>, key: School -> string, k: string)
    requires |dir| == |dir'| && dir != dir'
    ensures forall j :: 0 <= j < |GroupWrites(dir', rs, key)| ==> GroupWrites(dir', rs, key)[j].path != FileFor(dir, k)
  {
    forall j | 0 <= j < |GroupWrites(dir', rs, key)|
      ensures GroupWrites(dir', rs, key)[j].path != FileFor(dir, k)
    {
      GroupWriteAt(dir', rs, key, j);
      FileForShape(dir', Keys(rs, key)[j]);
      FileForShape(dir, k);
    }
  }

  /** The writes of one grouping only name the files of keys that occur in `rs`. */
  lemma AbsentKeyAvoids(dir: Path, rs: seq<School>, key: School -> string, p: Path)
    requires forall s :: s in rs ==> p != FileFor(dir, key(s))
    ensures forall j :: 0 <= j < |GroupWrites(dir, rs, key)| ==> GroupWrites(dir, rs, key)[j].path != p
  {
    forall j | 0 <= j < |GroupWrites(dir, rs, key)|
      ensures GroupWrites(dir, rs, key)[j].path != p
    {
      GroupWriteAt(dir, rs, key, j);
      var k := Keys(rs, key)[j];
      assert k in Keys(rs, key);
      var i :| 0 <= i < |rs| && key(rs[i]) == k;
      assert rs[i] in rs;
    }
  }

  /** Within one grouping, keys whose cleaned names differ from that of key `i` write other files. */
  lemma GroupPathsDistinct(dir: Path, rs: seq<School>, key: School -> string, i: nat)
    requires i < |Keys(rs, key)|
    requires forall j :: i < j < |Keys(rs, key)| ==> CleanFileName(Keys(rs, key)[j]) != CleanFileName(Keys(rs, key)[i])
    ensures var g := GroupWrites(dir, rs, key);
      forall j :: i < j < |g| ==> g[j].path != g[i].path
  {
    var ks, g := Keys(rs, key), GroupWrites(dir, rs, key);
    forall j | i < j < |g|
      ensures g[j].path != g[i].path
    {
      GroupWriteAt(dir, rs, key, i);
      GroupWriteAt(dir, rs, key, j);
      FileForDistinct(dir, ks[j], ks[i]);
    }
  }

  /** No write after position `i` of `g` in the batch `pre + g + post` names the same file. */
  lemma LaterWritesAvoid(pre: seq<FileWrite>, g: seq<FileWrite>, post: seq<FileWrite>, i: nat)
    requires i < |g|
    requires forall j :: i < j < |g| ==> g[j].path != g[i].path
    requires forall j :: 0 <= j < |post| ==> post[j].path != g[i].path
    ensures var ws := pre + g + post;
      ws[|pre| + i] == g[i] && forall j :: |pre| + i < j < |ws| ==> ws[j].path != g[i].path
  {
    var ws := pre + g + post;
    forall j | |pre| + i < j < |ws|
      ensures ws[j].path != g[i].path
    {
      if j < |pre| + |g| {
        assert ws[j] == g[j - |pre|];
      } else {
        assert ws[j] == post[j - |pre| - |g|];
      }
    }
  }

  /** After a complete synchronisation, the file of key `i` of a grouping holds that key's
      records, provided no later key of the same grouping cleans to the same name. */
  lemma GroupFileHolds(disk: Disk, pre: seq<FileWrite>, dir: Path, rs: seq<School>, key: School -> string,
                       post: seq<FileWrite>, i: nat)
    requires i < |Keys(rs, key)|
    requires forall j :: i < j < |Keys(rs, key)| ==> CleanFileName(Keys(rs, key)[j]) != CleanFileName(Keys(rs, key)[i])
    requires forall j :: 0 <= j < |post| ==> post[j].path != FileFor(dir, Keys(rs, key)[i])
    ensures var d, p := Apply(disk, pre + GroupWrites(dir, rs, key) + post), FileFor(dir, Keys(rs, key)[i]);
      p in d && d[p] == FormatRows(Bucket(rs, key, Keys(rs, key)[i]))
  {
    var g := GroupWrites(dir, rs, key);
    GroupWriteAt(dir, rs, key, i);
    GroupPathsDistinct(dir, rs, key, i);
    LaterWritesAvoid(pre, g, post, i);
    ApplyLastWins(disk, pre + g + post, |pre| + i);
  }

  lemma Regroup(a: seq<FileWrite>, b: seq<FileWrite>, c: seq<FileWrite>)
    ensures a + b + c == [] + a + (b + c) == (a + b) + c + [] == a + (b + c)
  {
  }

  /** A synchronisation that completed performed every write. */
  lemma CompleteRun(disk: Disk, ws: seq<FileWrite>, writable: Path -> bool)
    requires Run(disk, ws, writable).1
    ensures Run(disk, ws, writable).0 == Apply(disk, ws)
  {
    RunIsApply(disk, ws, writable);
    assert ws[..|ws|] == ws;
  }

  /** The last province key with a given file name wins: after a complete synchronisation
      its file holds exactly its records. With distinct cleaned names, every province file
      holds exactly that province's records. */
  lemma ProvinceFileHolds(disk: Disk, central: Path, rs: seq<School>, writable: Path -> bool, i: nat)
    requires Run(disk, SyncWrites(central, rs), writable).1
    requires i < |Keys(rs, ProvinceOf)|
    requires forall j :: i < j < |Keys(rs, ProvinceOf)| ==> CleanFileName(Keys(rs, ProvinceOf)[j]) != CleanFileName(Keys(rs, ProvinceOf)[i])
    ensures var d, k := Run(disk, SyncWrites(central, rs), writable).0, Keys(rs, ProvinceOf)[i];
      var p := FileFor(SubgroupRoot(central) + [ByProvince], k);
      p in d && d[p] == FormatRows(Bucket(rs, ProvinceOf, k))
  {
    var root := SubgroupRoot(central);
    var dp, ds, dy := root + [ByProvince], root + [ByStudents], root + [ByYear];
    var a, b, c := GroupWrites(dp, rs, ProvinceOf), GroupWrites(ds, rs, StudentKey), GroupWrites(dy, rs, YearKey);
    var k := Keys(rs, ProvinceOf)[i];
    assert SyncWrites(central, rs) == [] + a + (b + c) by { Regroup(a, b, c); }
    assert forall j :: 0 <= j < |b + c| ==> (b + c)[j].path != FileFor(dp, k) by {
      assert dp[|root|] != ds[|root|] && dp[|root|] != dy[|root|];
      OtherDirAvoids(dp, ds, rs, StudentKey, k);
      OtherDirAvoids(dp, dy, rs, YearKey, k);
      AvoidConcat(b, c, FileFor(dp, k));
    }
    GroupFileHolds(disk, [], dp, rs, ProvinceOf, b + c, i);
    CompleteRun(disk, SyncWrites(central, rs), writable);
  }

  lemma AvoidConcat(b: seq<FileWrite>, c: seq<FileWrite>, p: Path)
    requires forall j :: 0 <= j < |b| ==> b[j].path != p
    requires forall j :: 0 <= j < |c| ==> c[j].path != p
    ensures forall j :: 0 <= j < |b + c| ==> (b + c)[j].path != p
  {
  }

  /** When every key is its own file name, distinct keys never share a file. */
  lemma OwnNamesDistinct(ks: seq<string>, i: nat)
    requires forall j :: 0 <= j < |ks| ==> CleanFileName(ks[j]) == ks[j]
    requires forall j, l :: 0 <= j < l < |ks| ==> ks[j] != ks[l]
    requires i < |ks|
    ensures forall j :: i < j < |ks| ==> CleanFileName(ks[j]) != CleanFileName(ks[i])
  {
  }

  /** The range labels that occur are their own file names. */
  lemma StudentKeysClean(rs: seq<School>)
    ensures var ks := Keys(rs, StudentKey); forall j :: 0 <= j < |ks| ==> CleanFileName(ks[j]) == ks[j]
  {
    var ks := Keys(rs, StudentKey);
    forall j | 0 <= j < |ks|
      ensures CleanFileName(ks[j]) == ks[j]
    {
      assert ks[j] in ks;
      var m :| 0 <= m < |rs| && StudentKey(rs[m]) == ks[j];
      StudentRangeName(rs[m].students);
    }
  }

  /** The decade labels that occur are their own file names. */
  lemma DecadeKeysClean(rs: seq<School>)
    ensures var ks := Keys(rs, YearKey); forall j :: 0 <= j < |ks| ==> CleanFileName(ks[j]) == ks[j]
  {
    var ks := Keys(rs, YearKey);
    forall j | 0 <= j < |ks|
      ensures CleanFileName(ks[j]) == ks[j]
    {
      assert ks[j] in ks;
      var m :| 0 <= m < |rs| && YearKey(rs[m]) == ks[j];
      DecadeName(rs[m].year);
    }
  }

  /** After a complete synchronisation, the file of every range that occurs holds exactly
      the records of that range, in input order: the labels are their own file names, so no
      two groups share a file. */
  lemma StudentFileHolds(disk: Disk, central: Path, rs: seq<School>, writable: Path -> bool, i: nat)
    requires Run(disk, SyncWrites(central, rs), writable).1
    requires i < |Keys(rs, StudentKey)|
    ensures var d, k := Run(disk, SyncWrites(central, rs), writable).0, Keys(rs, StudentKey)[i];
      var p := FileFor(SubgroupRoot(central) + [ByStudents], k);
      p in d && d[p] == FormatRows(Bucket(rs, StudentKey, k))
  {
    var root := SubgroupRoot(central);
    var dp, ds, dy := root + [ByProvince], root + [ByStudents], root + [ByYear];
    var a, b, c := GroupWrites(dp, rs, ProvinceOf), GroupWrites(ds, rs, StudentKey), GroupWrites(dy, rs, YearKey);
    var k := Keys(rs, StudentKey)[i];
    var p := FileFor(ds, k);
    assert SyncWrites(central, rs) == a + b + c;
    assert p in Apply(disk, a + b + c) && Apply(disk, a + b + c)[p] == FormatRows(Bucket(rs, StudentKey, k)) by {
      assert forall j :: 0 <= j < |c| ==> c[j].path != FileFor(ds, k) by {
        assert ds[|root|] != dy[|root|];
        OtherDirAvoids(ds, dy, rs, YearKey, k);
      }
      StudentKeysClean(rs);
      OwnNamesDistinct(Keys(rs, StudentKey), i);
      GroupFileHolds(disk, a, ds, rs, StudentKey, c, i);
    }
    CompleteRun(disk, SyncWrites(central, rs), writable);
  }

  /** After a complete synchronisation, the file of every decade that occurs holds exactly
      the records of that decade, in input order: the labels are their own file names, so no
      two groups share a file. */
  lemma DecadeFileHolds(disk: Disk, central: Path, rs: seq<School>, writable: Path -> bool, i: nat)
    requires Run(disk, SyncWrites(central, rs), writable).1
    requires i < |Keys(rs, YearKey)|
    ensures var d, k := Run(disk, SyncWrites(central, rs), writable).0, Keys(rs, YearKey)[i];
      var p := FileFor(SubgroupRoot(central) + [ByYear], k);
      p in d && d[p] == FormatRows(Bucket(rs, YearKey, k))
  {
    var root := SubgroupRoot(central);
    var dp, ds, dy := root + [ByProvince], root + [ByStudents], root + [ByYear];
    var a, b, c := GroupWrites(dp, rs, ProvinceOf), GroupWrites(ds, rs, StudentKey), GroupWrites(dy, rs, YearKey);
    var k := Keys(rs, YearKey)[i];
    var p := FileFor(dy, k);
    assert SyncWrites(central, rs) == (a + b) + c + [] by { Regroup(a, b, c); }
    assert p in Apply(disk, (a + b) + c + []) && Apply(disk, (a + b) + c + [])[p] == FormatRows(Bucket(rs, YearKey, k)) by {
      DecadeKeysClean(rs);
      OwnNamesDistinct(Keys(rs, YearKey), i);
      GroupFileHolds(disk, a + b, dy, rs, YearKey, [], i);
    }
    CompleteRun(disk, SyncWrites(central, rs), writable);
  }

  /** Files that no current record maps to — those of provinces, ranges or decades that no
      longer occur, and every file outside the projection — are neither rewritten nor
      deleted, however far the synchronisation got. */
  lemma StaleFilesSurvive(disk: Disk, central: Path, rs: seq<School>, writable: Path -> bool, p: Path)
    requires forall s :: s in rs ==>
      && p != FileFor(SubgroupRoot(central) + [ByProvince], ProvinceOf(s))
      && p != FileFor(SubgroupRoot(central) + [ByStudents], StudentKey(s))
      && p != FileFor(SubgroupRoot(central) + [ByYear], YearKey(s))
    ensures var d := Run(disk, SyncWrites(central, rs), writable).0;
      (p in d <==> p in disk) && (p in disk ==> d[p] == disk[p])
  {
    var root := SubgroupRoot(central);
    var a := GroupWrites(root + [ByProvince], rs, ProvinceOf);
    var b := GroupWrites(root + [ByStudents], rs, StudentKey);
    var c := GroupWrites(root + [ByYear], rs, YearKey);
    var ws := SyncWrites(central, rs);
    assert forall j :: 0 <= j < |ws| ==> ws[j].path != p by {
      AbsentKeyAvoids(root + [ByProvince], rs, ProvinceOf, p);
      AbsentKeyAvoids(root + [ByStudents], rs, StudentKey, p);
      AbsentKeyAvoids(root + [ByYear], rs, YearKey, p);
      AvoidConcat(a, b, p);
      AvoidConcat(a + b, c, p);
    }
    RunUntouched(disk, ws, writable, p);
  }

  /** The records a complete synchronisation wrote for one group are read back unchanged by
      the subgroup reader. */
  lemma BucketReadBack(rs: seq<School>, key: School -> string, k: string)
    requires forall i :: 0 <= i < |rs| ==> Storable(rs[i])
    ensures Kept(FormatRows(Bucket(rs, key, k))) == Bucket(rs, key, k)
  {
    var g := Bucket(rs, key, k);
    forall i | 0 <= i < |g|
      ensures Storable(g[i])
    {
      BucketMembership(rs, key, k, g[i]);
    }
    KeptFormatRows(g);
  }

  /** How many rows the subgroup reader gets through: it stops at the first row with a
      missing cell (stripping it raises) or where the reader itself raises, whichever comes
      first. `fault` is the number of rows the reader yields before raising, if it does. */
  function ReadLimit(rows: seq<Row>, fault: Option<nat>): (m: nat)
    ensures m <= FirstBroken(rows) <= |rows|
    ensures fault.Some? && fault.value < FirstBroken(rows) ==> m == fault.value
    ensures (fault.None? || FirstBroken(rows) <= fault.value) ==> m == FirstBroken(rows)
  {
    if fault.Some? && fault.value < FirstBroken(rows) then fault.value else FirstBroken(rows)
  }

  /** `leer_desde_subgrupo`: a missing file gives no records; otherwise the rows are judged
      one by one with the loader's filter, and an exception ends the loop and the function
      returns the records accumulated so far. */
  method ReadSubgroup(disk: Disk, path: Path, fault: Option<nat>) returns (schools: seq<School>)
    ensures path !in disk ==> schools == []
    ensures path in disk ==> schools == Kept(disk[path][..ReadLimit(disk[path], fault)])
  {
    schools := [];
    if path !in disk {
      return;
    }
    var rows := disk[path];
    var i := 0;
    while i < |rows|
      invariant 0 <= i <= ReadLimit(rows, fault)
      invariant schools == Kept(rows[..i])
    {
      if fault == Some(i) || HasMissingCell(rows[i]) {
        ReadLimitAt(rows, fault, i);
        return;
      }
      ReadLimitAt(rows, fault, i);
      var v := ParseRow(rows[i]);
      KeptStep(rows, i);
      if v.Keep? {
        schools := schools + [v.school];
      }
      i := i + 1;
    }
    ReadLimitAt(rows, fault, i);
  }

  /** Where the subgroup reader is after judging `i` rows. */
  lemma ReadLimitAt(rows: seq<Row>, fault: Option<nat>, i: nat)
    requires i <= ReadLimit(rows, fault) && i <= |rows|
    ensures i == |rows| ==> i == ReadLimit(rows, fault)
    ensures i < |rows| && (fault == Some(i) || HasMissingCell(rows[i])) ==> i == ReadLimit(rows, fault)
    ensures i < |rows| && fault != Some(i) && !HasMissingCell(rows[i]) ==> i < ReadLimit(rows, fault)
  {
  }

  /** What the subgroup reader returns is a prefix of what the loader keeps from the same rows:
      it judges rows alike but stops instead of skipping. */
  lemma SubgroupIsLoaderPrefix(rows: seq<Row>, fault: Option<nat>)
    ensures Kept(rows[..ReadLimit(rows, fault)]) <= Kept(rows)
  {
    KeptPrefix(rows, ReadLimit(rows, fault));
  }

  /** A bucket file written by a complete synchronisation is read back as the bucket itself,
      when the reader does not raise. */
  lemma SubgroupReadBack(rs: seq<School>, key: School -> string, k: string)
    requires forall i :: 0 <= i < |rs| ==> Storable(rs[i])
    ensures var rows := FormatRows(Bucket(rs, key, k));
      Kept(rows[..ReadLimit(rows, None)]) == Bucket(rs, key, k)
  {
    var g := Bucket(rs, key, k);
    var rows := FormatRows(g);
    assert ReadLimit(rows, None) == |rows| by { FormatRowsUnbroken(g); }
    assert rows[..|rows|] == rows;
    assert Kept(rows) == g by { BucketReadBack(rs, key, k); }
  }

  /** When the file of the first province cannot be opened, the synchronisation writes
      nothing and fails. */
  lemma SyncFailsFirst(disk: Disk, central: Path, rs: seq<School>, writable: Path -> bool)
    requires Keys(rs, ProvinceOf) != []
    requires !writable(FileFor(SubgroupRoot(central) + [ByProvince], Keys(rs, ProvinceOf)[0]))
    ensures Run(disk, SyncWrites(central, rs), writable) == (disk, false)
  {
    var root := SubgroupRoot(central);
    var a := GroupWrites(root + [ByProvince], rs, ProvinceOf);
    var b := GroupWrites(root + [ByStudents], rs, StudentKey);
    var c := GroupWrites(root + [ByYear], rs, YearKey);
    assert a != [] && !writable(a[0].path) by {
      GroupWriteAt(root + [ByProvince], rs, ProvinceOf, 0);
    }
    var ws := SyncWrites(central, rs);
    assert ws != [] && !writable(ws[0].path) by {
      assert ws == a + b + c;
      assert (a + b + c)[0] == a[0];
    }
    RunFailsFirst(disk, ws, writable);
  }
}
