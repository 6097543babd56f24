/** `ordenar_colegios` of src/funciones/vista.py: Python's `sorted` with a key and the
    `reverse` flag, which is stable in both directions. */
module Ordering {
  import opened Options
  import opened Text
  import opened Sequences
  import opened Schools

  /** A sort key: the normalised text of a text field, or the value of a numeric one. */
  datatype Key = Text(text: string) | Number(number: int)

  /** Python's `<` on keys. All keys of one sort come from the same field, so a text key
      is never compared with a number; the order puts text first only to be total. */
  predicate KeyLess(a: Key, b: Key) {
    match (a, b)
    case (Text(x), Text(y)) => LexLess(x, y)
    case (Number(x), Number(y)) => x < y
    case (Text(_), Number(_)) => true
    case (Number(_), Text(_)) => false
  }

  /** The key lambda of `ordenar_colegios`. */
  function KeyOf(fold: Folding, f: Field): School -> Key {
    (s: School) =>
      match f
      case Province => Text(Normalize(fold, s.province))
      case Name => Text(Normalize(fold, s.name))
      case Students => Number(s.students)
      case Year => Number(s.year)
  }

  /** `a` comes strictly before `b` in the requested direction. */
  predicate Precedes(desc: bool, a: Key, b: Key) {
    if desc then KeyLess(b, a) else KeyLess(a, b)
  }

  lemma PrecedesIrreflexive(desc: bool, a: Key)
    ensures !Precedes(desc, a, a)
  {
    if a.Text? {
      LexLessIrreflexive(a.text);
    }
  }

  lemma PrecedesTransitive(desc: bool, a: Key, b: Key, c: Key)
    requires Precedes(desc, a, b) && Precedes(desc, b, c)
    ensures Precedes(desc, a, c)
  {
    if a.Text? && b.Text? && c.Text? {
      if desc {
        LexLessTransitive(c.text, b.text, a.text);
      } else {
        LexLessTransitive(a.text, b.text, c.text);
      }
    }
  }

  /** Two different keys are ordered one way or the other. */
  lemma PrecedesTotal(desc: bool, a: Key, b: Key)
    requires a != b
    ensures Precedes(desc, a, b) || Precedes(desc, b, a)
  {
    if a.Text? && b.Text? {
      LexLessTotal(a.text, b.text);
    }
  }

  /** No later element comes strictly before an earlier one: non-decreasing keys when
      ascending, non-increasing when descending. */
  predicate Sorted<T>(t: seq<T>, key: T -> Key, desc: bool) {
    forall i, j :: 0 <= i < j < |t| ==> !Precedes(desc, key(t[j]), key(t[i]))
  }

  /** Place `x` after every element of `t` it does not strictly precede. */
  function Insert<T>(x: T, t: seq<T>, key: T -> Key, desc: bool): (r: seq<T>)
    ensures |r| == |t| + 1
  {
    if t == [] then [x]
    else if Precedes(desc, key(x), key(t[0])) then [x] + t
    else [t[0]] + Insert(x, t[1..], key, desc)
  }

  /** A stable sort: each element in turn is inserted after the equal ones before it. */
  function SortBy<T>(s: seq<T>, key: T -> Key, desc: bool): (r: seq<T>)
    ensures |r| == |s|
  {
    if s == [] then []
    else Insert(s[|s| - 1], SortBy(s[..|s| - 1], key, desc), key, desc)
  }

  /** `ordenar_colegios`: an empty list gives an empty list, a header that names no field
      gives the input back, anything else the sorted copy. */
  function OrderSchools(fold: Folding, cs: seq<School>, header: string, desc: bool): (r: seq<School>)
    ensures cs == [] ==> r == []
    ensures FieldOf(header).None? ==> r == cs
  {
    if cs == [] then []
    else match FieldOf(header)
      case None => cs
      case Some(f) => SortBy(cs, KeyOf(fold, f), desc)
  }

  lemma {:induction false} InsertPermutes<T>(x: T, t: seq<T>, key: T -> Key, desc: bool)
    ensures multiset(Insert(x, t, key, desc)) == multiset(t) + multiset{x}
  {
    if t != [] && !Precedes(desc, key(x), key(t[0])) {
      InsertPermutes(x, t[1..], key, desc);
      assert t == [t[0]] + t[1..];
    }
  }

  lemma {:induction false} SortPermutes<T>(s: seq<T>, key: T -> Key, desc: bool)
    ensures multiset(SortBy(s, key, desc)) == multiset(s)
  {
    if s != [] {
      SortPermutes(s[..|s| - 1], key, desc);
      InsertPermutes(s[|s| - 1], SortBy(s[..|s| - 1], key, desc), key, desc);
      SplitLast(s);
    }
  }

  /** Everything in a sorted sequence is at or after its first element. */
  lemma SortedHead<T>(t: seq<T>, key: T -> Key, desc: bool, y: T)
    requires Sorted(t, key, desc) && t != [] && y in t
    ensures !Precedes(desc, key(y), key(t[0]))
  {
    var j :| 0 <= j < |t| && t[j] == y;
    if j == 0 {
      PrecedesIrreflexive(desc, key(y));
    }
  }

  /** An element that nothing in a sorted sequence strictly precedes can go in front. */
  lemma ConsSorted<T>(y: T, t: seq<T>, key: T -> Key, desc: bool)
    requires Sorted(t, key, desc)
    requires forall j :: 0 <= j < |t| ==> !Precedes(desc, key(t[j]), key(y))
    ensures Sorted([y] + t, key, desc)
  {
    var r := [y] + t;
    forall i, j | 0 <= i < j < |r| ensures !Precedes(desc, key(r[j]), key(r[i])) {
      assert r[j] == t[j - 1];
      if i > 0 {
        assert r[i] == t[i - 1];
      }
    }
  }

  lemma {:induction false} InsertSorted<T>(x: T, t: seq<T>, key: T -> Key, desc: bool)
    requires Sorted(t, key, desc)
    ensures Sorted(Insert(x, t, key, desc), key, desc)
  {
    if t == [] {
    } else if Precedes(desc, key(x), key(t[0])) {
      forall j | 0 <= j < |t| ensures !Precedes(desc, key(t[j]), key(x)) {
        SortedHead(t, key, desc, t[j]);
        if Precedes(desc, key(t[j]), key(x)) {
          PrecedesTransitive(desc, key(t[j]), key(x), key(t[0]));
        }
      }
      ConsSorted(x, t, key, desc);
    } else {
      var rest := Insert(x, t[1..], key, desc);
      InsertSorted(x, t[1..], key, desc);
      InsertPermutes(x, t[1..], key, desc);
      forall j | 0 <= j < |rest| ensures !Precedes(desc, key(rest[j]), key(t[0])) {
        assert rest[j] in multiset(rest);
        if rest[j] != x {
          assert rest[j] in t;
          SortedHead(t, key, desc, rest[j]);
        }
      }
      ConsSorted(t[0], rest, key, desc);
    }
  }

  lemma {:induction false} SortSorted<T>(s: seq<T>, key: T -> Key, desc: bool)
    ensures Sorted(SortBy(s, key, desc), key, desc)
  {
    if s != [] {
      SortSorted(s[..|s| - 1], key, desc);
      InsertSorted(s[|s| - 1], SortBy(s[..|s| - 1], key, desc), key, desc);
    }
  }

  /** Inserting into a sorted sequence puts `x` after every element with its key. */
  lemma {:induction false} InsertBucket<T>(x: T, t: seq<T>, key: T -> Key, desc: bool, k: Key)
    requires Sorted(t, key, desc)
    ensures Bucket(Insert(x, t, key, desc), key, k) == Bucket(t, key, k) + (if key(x) == k then [x] else [])
  {
    if t == [] {
    } else if Precedes(desc, key(x), key(t[0])) {
      assert ([x] + t)[1..] == t;
      if key(x) == k {
        forall i | 0 <= i < |t| ensures key(t[i]) != k {
          SortedHead(t, key, desc, t[i]);
        }
        BucketNone(t, key, k);
      }
    } else {
      InsertBucket(x, t[1..], key, desc, k);
      assert t == [t[0]] + t[1..];
      assert ([t[0]] + Insert(x, t[1..], key, desc))[1..] == Insert(x, t[1..], key, desc);
    }
  }

  /** The sort is stable: the elements with any one key keep their original order. */
  lemma {:induction false} SortStable<T>(s: seq<T>, key: T -> Key, desc: bool, k: Key)
    ensures Bucket(SortBy(s, key, desc), key, k) == Bucket(s, key, k)
  {
    if s != [] {
      var init, last := s[..|s| - 1], s[|s| - 1];
      SortStable(init, key, desc, k);
      SortSorted(init, key, desc);
      InsertBucket(last, SortBy(init, key, desc), key, desc, k);
      SplitLast(s);
      BucketSnoc(init, last, key, k);
    }
  }

  /** For a valid header the result is a permutation of the input, ordered by the key of
      that field in the requested direction, and stable. */
  lemma OrderSchoolsSorts(fold: Folding, cs: seq<School>, f: Field, desc: bool)
    ensures var r := OrderSchools(fold, cs, FieldName(f), desc);
      && multiset(r) == multiset(cs)
      && Sorted(r, KeyOf(fold, f), desc)
      && forall k :: Bucket(r, KeyOf(fold, f), k) == Bucket(cs, KeyOf(fold, f), k)
  {
    FieldOfName(f);
    SortPermutes(cs, KeyOf(fold, f), desc);
    SortSorted(cs, KeyOf(fold, f), desc);
    forall k ensures Bucket(OrderSchools(fold, cs, FieldName(f), desc), KeyOf(fold, f), k) == Bucket(cs, KeyOf(fold, f), k) {
      SortStable(cs, KeyOf(fold, f), desc, k);
    }
  }
}
