/** The computations of src/funciones/estadisticas.py: the count of records per province,
    the total of students, and the figures `mostrar_estadisticas` reports. */
module Statistics {
  import opened Options
  import opened Text
  import opened Sequences
  import opened Schools
  import opened Ordering

  /** One entry of the dict of counts: a province and its number of records. The dict is
      kept as its items in insertion order. */
  type Count = (string, nat)

  function CountValue(c: Count): int { c.1 }
  function CountKey(c: Count): Key { Text(c.0) }
  function StudentsOf(s: School): int { s.students }
  function YearOf(s: School): int { s.year }

  /** `conteo[provincia] = conteo.get(provincia, 0) + 1`. */
  function Bump(counts: seq<Count>, p: string): (r: seq<Count>)
    ensures |r| >= |counts|
  {
    if counts == [] then [(p, 1)]
    else if counts[0].0 == p then [(p, counts[0].1 + 1)] + counts[1..]
    else [counts[0]] + Bump(counts[1..], p)
  }

  /** A new province is added at the end with count 1. */
  lemma {:induction false} BumpAbsent(counts: seq<Count>, p: string)
    requires forall j :: 0 <= j < |counts| ==> counts[j].0 != p
    ensures Bump(counts, p) == counts + [(p, 1)]
  {
    if counts != [] {
      BumpAbsent(counts[1..], p);
      assert counts == [counts[0]] + counts[1..];
    }
  }

  /** A province already present has its count raised by one, in place. */
  lemma {:induction false} BumpPresent(counts: seq<Count>, p: string, j: nat)
    requires j < |counts| && counts[j].0 == p
    requires forall l :: 0 <= l < j ==> counts[l].0 != p
    ensures Bump(counts, p) == counts[j := (p, counts[j].1 + 1)]
  {
    if j > 0 {
      BumpPresent(counts[1..], p, j - 1);
      assert counts[j := (p, counts[j].1 + 1)] == [counts[0]] + counts[1..][j - 1 := (p, counts[j].1 + 1)];
    }
  }

  /** The dict after counting `s` into `counts`. */
  function Tally(counts: seq<Count>, s: seq<School>): seq<Count> {
    if s == [] then counts else Bump(Tally(counts, s[..|s| - 1]), s[|s| - 1].province)
  }

  lemma {:induction false} TallyCons(counts: seq<Count>, x: School, s: seq<School>)
    ensures Tally(counts, [x] + s) == Tally(Bump(counts, x.province), s)
  {
    if s != [] {
      assert ([x] + s)[..|[x] + s| - 1] == [x] + s[..|s| - 1];
      TallyCons(counts, x, s[..|s| - 1]);
    }
  }

  /** The entries for the keys `ks`, each with the size of its bucket. */
  function CountsOf(s: seq<School>, ks: seq<string>): (r: seq<Count>)
    ensures |r| == |ks|
    ensures forall j :: 0 <= j < |ks| ==> r[j] == (ks[j], |Bucket(s, ProvinceOf, ks[j])|)
  {
    seq(|ks|, j requires 0 <= j < |ks| => (ks[j], |Bucket(s, ProvinceOf, ks[j])|))
  }

  /** The counts the report is made of: the provinces in order of first appearance, each
      with its number of records. */
  function ProvinceCounts(s: seq<School>): seq<Count> {
    CountsOf(s, Keys(s, ProvinceOf))
  }

  /** Counting one more record of a province already present. */
  lemma CountsSnocPresent(init: seq<School>, x: School, j: nat)
    requires j < |Keys(init, ProvinceOf)| && Keys(init, ProvinceOf)[j] == x.province
    ensures ProvinceCounts(init + [x]) == Bump(ProvinceCounts(init), x.province)
  {
    var s, ks := init + [x], Keys(init, ProvinceOf);
    assert s[..|s| - 1] == init;
    assert Keys(s, ProvinceOf) == ks;
    BumpPresent(ProvinceCounts(init), x.province, j);
    forall l | 0 <= l < |ks| ensures |Bucket(s, ProvinceOf, ks[l])| == |Bucket(init, ProvinceOf, ks[l])| + (if l == j then 1 else 0) {
      BucketSnoc(init, x, ProvinceOf, ks[l]);
    }
  }

  /** Counting the first record of a new province. */
  lemma CountsSnocAbsent(init: seq<School>, x: School)
    requires x.province !in Keys(init, ProvinceOf)
    ensures ProvinceCounts(init + [x]) == Bump(ProvinceCounts(init), x.province)
  {
    var s, ks, p := init + [x], Keys(init, ProvinceOf), x.province;
    assert Keys(s, ProvinceOf) == ks + [p] by {
      assert s[..|s| - 1] == init;
    }
    BucketOfAbsentKey(init, ProvinceOf, p);
    CountsOfSnocAbsent(init, x, ks);
    BumpAbsent(ProvinceCounts(init), p);
  }

  /** The entries after one more record, of a province that had none and is not among `ks`. */
  lemma CountsOfSnocAbsent(init: seq<School>, x: School, ks: seq<string>)
    requires x.province !in ks && Bucket(init, ProvinceOf, x.province) == []
    ensures CountsOf(init + [x], ks + [x.province]) == CountsOf(init, ks) + [(x.province, 1)]
  {
    var s, p := init + [x], x.province;
    var lhs, rhs := CountsOf(s, ks + [p]), CountsOf(init, ks) + [(p, 1)];
    forall l | 0 <= l < |lhs| ensures lhs[l] == rhs[l] {
      if l < |ks| {
        var k := ks[l];
        assert lhs[l] == (k, |Bucket(s, ProvinceOf, k)|) by {
          assert (ks + [p])[l] == k;
        }
        assert Bucket(s, ProvinceOf, k) == Bucket(init, ProvinceOf, k) by {
          BucketSnoc(init, x, ProvinceOf, k);
        }
      } else {
        assert Bucket(s, ProvinceOf, p) == [x] by {
          BucketSnoc(init, x, ProvinceOf, p);
        }
      }
    }
  }

  lemma CountsSnoc(init: seq<School>, x: School)
    ensures ProvinceCounts(init + [x]) == Bump(ProvinceCounts(init), x.province)
  {
    var ks := Keys(init, ProvinceOf);
    if x.province in ks {
      var j :| 0 <= j < |ks| && ks[j] == x.province;
      CountsSnocPresent(init, x, j);
    } else {
      CountsSnocAbsent(init, x);
    }
  }

  lemma {:induction false} TallyCounts(s: seq<School>)
    ensures Tally([], s) == ProvinceCounts(s)
  {
    if s != [] {
      var init := s[..|s| - 1];
      TallyCounts(init);
      CountsSnoc(init, s[|s| - 1]);
      SplitLast(s);
    }
  }

  /** `contar_colegios_por_provincia_recursivo`: count the records from index `i` on into
      `counts`. */
  method CountFrom(cs: seq<School>, i: nat, counts: seq<Count>) returns (r: seq<Count>)
    ensures r == Tally(counts, Tail(cs, i))
    decreases |cs| - i
  {
    if i >= |cs| {
      return counts;
    }
    r := CountFrom(cs, i + 1, Bump(counts, cs[i].province));
    TallyCons(counts, cs[i], Tail(cs, i + 1));
    assert Tail(cs, i) == [cs[i]] + Tail(cs, i + 1);
  }

  /** The call with the default arguments, starting from an empty dict. */
  method CountByProvince(cs: seq<School>) returns (counts: seq<Count>)
    ensures counts == ProvinceCounts(cs)
  {
    counts := CountFrom(cs, 0, []);
    assert Tail(cs, 0) == cs;
    TallyCounts(cs);
  }

  /** Each province of the data is counted once, with the number of its records. */
  lemma ProvinceCountsMeaning(cs: seq<School>)
    ensures var c := ProvinceCounts(cs);
      && (forall i :: 0 <= i < |cs| ==> exists j :: 0 <= j < |c| && c[j].0 == cs[i].province)
      && (forall j, l :: 0 <= j < l < |c| ==> c[j].0 != c[l].0)
      && (forall j :: 0 <= j < |c| ==> c[j].1 == |Bucket(cs, ProvinceOf, c[j].0)| && c[j].1 > 0)
  {
    var ks, c := Keys(cs, ProvinceOf), ProvinceCounts(cs);
    forall i | 0 <= i < |cs| ensures exists j :: 0 <= j < |c| && c[j].0 == cs[i].province {
      var j :| 0 <= j < |ks| && ks[j] == cs[i].province;
      assert c[j].0 == cs[i].province;
    }
    forall j | 0 <= j < |c| ensures c[j].1 > 0 {
      BucketOfKey(cs, ProvinceOf, ks[j]);
    }
  }

  lemma {:induction false} TotalCountsOf(s: seq<School>, ks: seq<string>)
    ensures Total(CountsOf(s, ks), CountValue) == BucketSizes(s, ProvinceOf, ks)
  {
    if ks != [] {
      var init := ks[..|ks| - 1];
      TotalCountsOf(s, init);
      assert CountsOf(s, ks)[..|ks| - 1] == CountsOf(s, init);
    }
  }

  /** The per-province counts add up to the number of records. */
  lemma CountsSum(cs: seq<School>)
    ensures Total(ProvinceCounts(cs), CountValue) == |cs|
  {
    TotalCountsOf(cs, Keys(cs, ProvinceOf));
    BucketSizesSum(cs, ProvinceOf);
  }

  /** `sorted(conteo.items())`: the entries in ascending order of province. */
  function Report(counts: seq<Count>): seq<Count> {
    SortBy(counts, CountKey, false)
  }

  lemma {:induction false} InsertTotal(x: Count, t: seq<Count>)
    ensures Total(Insert(x, t, CountKey, false), CountValue) == Total(t, CountValue) + x.1
  {
    if t == [] {
      assert Total([x], CountValue) == Total([x][..0], CountValue) + x.1;
    } else if Precedes(false, CountKey(x), CountKey(t[0])) {
      TotalConcat([x], t, CountValue);
      assert Total([x], CountValue) == Total([x][..0], CountValue) + x.1;
    } else {
      InsertTotal(x, t[1..]);
      TotalConcat([t[0]], Insert(x, t[1..], CountKey, false), CountValue);
      TotalConcat([t[0]], t[1..], CountValue);
      assert t == [t[0]] + t[1..];
      assert Total([t[0]], CountValue) == Total([t[0]][..0], CountValue) + t[0].1;
    }
  }

  lemma {:induction false} ReportTotal(counts: seq<Count>)
    ensures Total(Report(counts), CountValue) == Total(counts, CountValue)
  {
    if counts != [] {
      var init := counts[..|counts| - 1];
      ReportTotal(init);
      InsertTotal(counts[|counts| - 1], Report(init));
    }
  }

  /** The report lists the same entries as the dict, in ascending order of province, and
      its counts still add up to the number of records. */
  lemma ReportMeaning(cs: seq<School>)
    ensures var r := Report(ProvinceCounts(cs));
      && multiset(r) == multiset(ProvinceCounts(cs))
      && (forall i, j :: 0 <= i < j < |r| ==> !LexLess(r[j].0, r[i].0))
      && Total(r, CountValue) == |cs|
  {
    SortPermutes(ProvinceCounts(cs), CountKey, false);
    SortSorted(ProvinceCounts(cs), CountKey, false);
    ReportTotal(ProvinceCounts(cs));
    CountsSum(cs);
  }

  /** `sumar_estudiantes_recursivo(colegios, indice)`. */
  function StudentsFrom(cs: seq<School>, i: nat): (total: int)
    ensures i >= |cs| ==> total == 0
    decreases |cs| - i
  {
    if i >= |cs| then 0 else cs[i].students + StudentsFrom(cs, i + 1)
  }

  /** The recursion adds up the counts of the records from index `i` on. */
  lemma {:induction false} StudentsFromIsTotal(cs: seq<School>, i: nat)
    ensures StudentsFrom(cs, i) == Total(Tail(cs, i), StudentsOf)
    decreases |cs| - i
  {
    if i < |cs| {
      StudentsFromIsTotal(cs, i + 1);
      assert Tail(cs, i) == [cs[i]] + Tail(cs, i + 1);
      TotalConcat([cs[i]], Tail(cs, i + 1), StudentsOf);
      assert Total([cs[i]], StudentsOf) == Total([cs[i]][..0], StudentsOf) + cs[i].students;
    }
  }

  /** `min(colegios, key=...)`: the index of the first element with the least key. */
  function FirstMin<T>(s: seq<T>, key: T -> int): (m: nat)
    requires s != []
    ensures m < |s|
    ensures forall j :: 0 <= j < |s| ==> key(s[m]) <= key(s[j])
    ensures forall j :: 0 <= j < m ==> key(s[j]) > key(s[m])
  {
    if |s| == 1 then 0
    else
      var m := FirstMin(s[..|s| - 1], key);
      if key(s[|s| - 1]) < key(s[m]) then |s| - 1 else m
  }

  /** `max(colegios, key=...)`: the index of the first element with the greatest key. */
  function FirstMax<T>(s: seq<T>, key: T -> int): (m: nat)
    requires s != []
    ensures m < |s|
    ensures forall j :: 0 <= j < |s| ==> key(s[j]) <= key(s[m])
    ensures forall j :: 0 <= j < m ==> key(s[j]) < key(s[m])
  {
    if |s| == 1 then 0
    else
      var m := FirstMax(s[..|s| - 1], key);
      if key(s[|s| - 1]) > key(s[m]) then |s| - 1 else m
  }

  function YearKnown(s: School): bool { s.year > 0 }

  lemma {:induction false} TotalOfPositive(s: seq<School>)
    requires forall i :: 0 <= i < |s| ==> s[i].year > 0
    ensures Total(s, YearOf) >= |s|
  {
    if s != [] {
      TotalOfPositive(s[..|s| - 1]);
    }
  }

  /** `int(sum(años) / len(años))` over the years above 0, or 0 when there is none: the
      integer part of their mean, at least 1. */
  function AverageYear(cs: seq<School>): (avg: int)
    ensures var f := Filter(YearKnown, cs);
      && (f == [] ==> avg == 0)
      && (f != [] ==> avg >= 1 && avg * |f| <= Total(f, YearOf) < (avg + 1) * |f|)
  {
    var f := Filter(YearKnown, cs);
    if f == [] then 0
    else
      TotalOfPositive(f);
      Total(f, YearOf) / |f|
  }

  /** `int(a / n)`: division truncated toward zero. */
  function TruncDiv(a: int, n: nat): (q: int)
    requires n > 0
    ensures a >= 0 ==> q >= 0 && q * n <= a < (q + 1) * n
    ensures a < 0 ==> q <= 0 && (q - 1) * n < a <= q * n
  {
    if a >= 0 then
      DivBounds(a, n);
      a / n
    else
      DivBounds(-a, n);
      NegatedBounds(-a / n, n);
      -((-a) / n)
  }

  /** Euclidean division of a natural number by a positive one. */
  lemma DivBounds(a: nat, n: nat)
    requires n > 0
    ensures a / n >= 0 && (a / n) * n <= a < (a / n + 1) * n
  {
    var q, m := a / n, a % n;
    assert a == q * n + m && 0 <= m < n;
    assert (q + 1) * n == q * n + n;
  }

  lemma NegatedBounds(q: int, n: nat)
    ensures (-q) * n == -(q * n) && (-q - 1) * n == -((q + 1) * n)
  {
  }

  /** What `mostrar_estadisticas` prints for a non-empty collection. */
  datatype Stats = Stats(oldest: School, newest: School, averageYear: int,
                         totalStudents: int, averageStudents: int,
                         mostStudents: School, fewestStudents: School,
                         byProvince: seq<Count>)

  /** `mostrar_estadisticas` without the printing: nothing for an empty collection. */
  method Summarize(cs: seq<School>) returns (r: Option<Stats>)
    ensures r.None? <==> cs == []
    ensures r.Some? ==>
      && r.value.oldest == cs[FirstMin(cs, YearOf)]
      && r.value.newest == cs[FirstMax(cs, YearOf)]
      && r.value.averageYear == AverageYear(cs)
      && r.value.totalStudents == Total(cs, StudentsOf)
      && r.value.averageStudents == TruncDiv(Total(cs, StudentsOf), |cs|)
      && r.value.mostStudents == cs[FirstMax(cs, StudentsOf)]
      && r.value.fewestStudents == cs[FirstMin(cs, StudentsOf)]
      && r.value.byProvince == Report(ProvinceCounts(cs))
  {
    if cs == [] {
      return None;
    }
    var oldest := cs[FirstMin(cs, YearOf)];
    var newest := cs[FirstMax(cs, YearOf)];
    var total := StudentsFrom(cs, 0);
    StudentsFromIsTotal(cs, 0);
    assert Tail(cs, 0) == cs;
    var counts := CountByProvince(cs);
    r := Some(Stats(oldest, newest, AverageYear(cs), total, TruncDiv(total, |cs|),
                    cs[FirstMax(cs, StudentsOf)], cs[FirstMin(cs, StudentsOf)], Report(counts)));
  }
}
