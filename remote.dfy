/** The API operations of src/funciones/modo_api.py. The server is an oracle: each
    operation receives what the listing returned and whether each call raised, and the
    model records the requests that are sent. */
module Remote {
  import opened Options
  import opened Text
  import opened Numerals
  import opened Schools
  import opened Entry

  /** The `id` of a record as the server sends it; the id is usable unless it is missing
      or falsy (0 or the empty string). */
  datatype RemoteId = NoId | IntId(n: int) | TextId(s: string)

  predicate HasId(id: RemoteId) {
    match id
    case NoId => false
    case IntId(n) => n != 0
    case TextId(s) => s != ""
  }

  datatype RemoteSchool = RemoteSchool(school: School, id: RemoteId)

  /** What `listar_colegios` gave back: not a list, a list, or an exception. */
  datatype Listing = NotAList | Items(items: seq<RemoteSchool>) | Raised

  /** The value of one entry of the update sent to the server. */
  datatype Value = TextValue(text: string) | IntValue(number: int)

  /** The requests the operations send. */
  datatype Request =
    | List(query: string)
    | Create(school: School)
    | Patch(id: RemoteId, changes: map<Field, Value>)
    | Remove(id: RemoteId)

  /** `obtener_colegios_api`: the items when the server sent a non-empty list, nothing
      when it sent something else, an empty list, or raised. */
  function Fetched(l: Listing): (r: seq<RemoteSchool>)
    ensures r != [] <==> l.Items? && l.items != []
    ensures r != [] ==> r == l.items
  {
    match l
    case Items(items) => items
    case _ => []
  }

  /** `agregar_colegio_api`: the record is validated as in the local mode before anything
      is sent; the operation succeeds when the create call does not raise. */
  function AddRemote(province: string, name: string, count: string, year: string, createRaises: bool)
    : (r: (bool, seq<Request>))
    ensures ValidateNew(province, name, count, year).Refused? ==> r == (false, [])
    ensures ValidateNew(province, name, count, year).Accepted? ==>
      r == (!createRaises, [Create(ValidateNew(province, name, count, year).school)])
  {
    match ValidateNew(province, name, count, year)
    case Refused(_) => (false, [])
    case Accepted(s) => (!createRaises, [Create(s)])
  }

  /** A negative count is refused on creation, before any request. */
  lemma NegativeCountNeverSent(province: string, name: string, count: int, year: string, createRaises: bool)
    requires count < 0
    ensures AddRemote(province, name, FormatInt(count), year, createRaises) == (false, [])
  {
    TrimOfTrimmed(FormatInt(count));
    ParseFormat(count);
  }

  /** The numeric answers of an edit are usable: a non-blank count is an integer, of any
      sign, and a non-blank year is an integer in the accepted range. `count` and `year` are
      the stripped answers, `countValue` and `yearValue` what `int()` makes of them. */
  predicate Usable(count: string, countValue: Option<int>, year: string, yearValue: Option<int>) {
    && (count == "" || countValue.Some?)
    && (year == "" || (yearValue.Some? && YearInRange(yearValue.value)))
  }

  /** `cambios[f] = v` when the answer for `f` is not blank. */
  function Put(m: map<Field, Value>, f: Field, answer: string, v: Value): map<Field, Value> {
    if answer == "" then m else m[f := v]
  }

  /** The update built from the stripped answers and their integer values. */
  function Entries(province: string, name: string, count: string, countValue: Option<int>,
                   year: string, yearValue: Option<int>): (r: Option<map<Field, Value>>)
    ensures r.Some? <==> Usable(count, countValue, year, yearValue)
  {
    if !Usable(count, countValue, year, yearValue) then None
    else
      var m := Put(Put(map[], Province, province, TextValue(province)), Name, name, TextValue(name));
      Some(Put(Put(m, Students, count, IntValue(countValue.GetOr(0))), Year, year, IntValue(yearValue.GetOr(0))))
  }

  /** The update holds one entry for each non-blank answer: the answer itself for the text
      fields, its integer value for the numeric ones. */
  lemma EntriesMeaning(province: string, name: string, count: string, countValue: Option<int>,
                       year: string, yearValue: Option<int>)
    requires Usable(count, countValue, year, yearValue)
    ensures var m := Entries(province, name, count, countValue, year, yearValue).value;
      && (Province in m <==> province != "") && (province != "" ==> m[Province] == TextValue(province))
      && (Name in m <==> name != "") && (name != "" ==> m[Name] == TextValue(name))
      && (Students in m <==> count != "") && (count != "" ==> m[Students] == IntValue(countValue.value))
      && (Year in m <==> year != "") && (year != "" ==> m[Year] == IntValue(yearValue.value))
  {
  }

  /** The update an edit sends, or nothing at all when an answer is unusable. */
  function Changes(province: string, name: string, count: string, year: string): (r: Option<map<Field, Value>>)
  {
    var c, y := Trim(count), Trim(year);
    Entries(Trim(province), Trim(name), c, ParseInt(c), y, ParseInt(y))
  }

  /** The step-by-step construction of `cambios` in `editar_colegio_api`. */
  method BuildChanges(province: string, name: string, count: string, year: string)
    returns (changes: map<Field, Value>, valid: bool)
    ensures valid <==> Changes(province, name, count, year).Some?
    ensures valid ==> changes == Changes(province, name, count, year).value
  {
    var p, n, c, y := Trim(province), Trim(name), Trim(count), Trim(year);
    ghost var spec := Entries(p, n, c, ParseInt(c), y, ParseInt(y));
    // `m` follows the update the answers seen so far describe
    ghost var m: map<Field, Value> := map[];
    changes := map[];
    if p != "" {
      changes := changes[Province := TextValue(p)];
    }
    m := Put(m, Province, p, TextValue(p));
    assert changes == m;
    if n != "" {
      changes := changes[Name := TextValue(n)];
    }
    m := Put(m, Name, n, TextValue(n));
    assert changes == m;
    if c != "" {
      var k := ParseInt(c);
      if k.None? {
        return changes, false;
      }
      changes := changes[Students := IntValue(k.value)];
    }
    m := Put(m, Students, c, IntValue(ParseInt(c).GetOr(0)));
    assert changes == m;
    if y != "" {
      var k := ParseInt(y);
      if k.None? || !YearInRange(k.value) {
        return changes, false;
      }
      changes := changes[Year := IntValue(k.value)];
    }
    m := Put(m, Year, y, IntValue(ParseInt(y).GetOr(0)));
    assert changes == m;
    valid := true;
    assert spec == Some(m);
  }

  /** Unlike the creation, the edit sends a negative count as it is. */
  lemma NegativeCountPatched(count: int)
    requires count < 0
    ensures Changes("", "", FormatInt(count), "") == Some(map[Students := IntValue(count)])
  {
    var t := FormatInt(count);
    assert Trim(t) == t by { TrimOfTrimmed(t); }
    assert ParseInt(t) == Some(count) by { ParseFormat(count); }
    assert Trim("") == "";
    assert Changes("", "", t, "") == Entries("", "", t, Some(count), "", ParseInt(""));
  }

  /** A year out of range makes the whole edit unusable. */
  lemma YearOutOfRangeRefused(province: string, name: string, count: string, year: int)
    requires !YearInRange(year)
    ensures Changes(province, name, count, FormatInt(year)).None?
  {
    var t := FormatInt(year);
    assert Trim(t) == t by { TrimOfTrimmed(t); }
    assert ParseInt(t) == Some(year) by { ParseFormat(year); }
  }

  /** The update is empty exactly when all four answers are blank. */
  lemma EmptyChangesAllBlank(province: string, name: string, count: string, year: string)
    requires Changes(province, name, count, year).Some?
    ensures Changes(province, name, count, year).value == map[]
        <==> Trim(province) == "" && Trim(name) == "" && Trim(count) == "" && Trim(year) == ""
  {
    var c, y := Trim(count), Trim(year);
    EntriesMeaning(Trim(province), Trim(name), c, ParseInt(c), y, ParseInt(y));
    var m := Changes(province, name, count, year).value;
    if m == map[] {
      assert Province !in m && Name !in m && Students !in m && Year !in m;
    }
  }

  /** Choosing the record an edit or a delete works on, among the results of the listing
      for the stripped query. */
  function Chosen(query: string, listing: Listing, choice: string): (r: Option<RemoteSchool>)
    ensures r.Some? ==> r.value in Fetched(listing) && HasId(r.value.id)
  {
    var items := Fetched(listing);
    if Trim(query) == "" || items == [] then None
    else match Pick(|items|, choice)
      case None => None
      case Some(k) => if HasId(items[k].id) then Some(items[k]) else None
  }

  /** How the record is chosen among the listed items: a single item is taken without
      asking; among several, an answer `k` in 1..n picks item `k - 1` and any other answer
      chooses nothing; an item without an id is never chosen. */
  lemma ChosenChoice(query: string, listing: Listing, choice: string)
    requires Trim(query) != ""
    ensures var items := Fetched(listing);
      var r := Chosen(query, listing, choice);
      && (items == [] ==> r.None?)
      && (|items| == 1 ==> r == if HasId(items[0].id) then Some(items[0]) else None)
      && (|items| > 1 ==> (r.Some? <==> && ParseInt(choice).Some?
                                        && 1 <= ParseInt(choice).value <= |items|
                                        && HasId(items[ParseInt(choice).value - 1].id)))
      && (|items| > 1 && ParseInt(choice).Some? && 1 <= ParseInt(choice).value <= |items| &&
          HasId(items[ParseInt(choice).value - 1].id) ==>
            r == Some(items[ParseInt(choice).value - 1]))
  {
    var items := Fetched(listing);
    if |items| > 1 && ParseInt(choice).Some? && 1 <= ParseInt(choice).value <= |items| {
      PickAnswer(|items|, choice, ParseInt(choice).value);
    }
  }

  /** `editar_colegio_api`: the outcome and the requests sent. A blank query sends
      nothing; otherwise the listing is requested, and an update is sent only for a
      chosen record with an id and a usable, non-empty set of changes. */
  function EditRemote(query: string, listing: Listing, choice: string,
                      province: string, name: string, count: string, year: string,
                      patchRaises: bool): (r: (bool, seq<Request>))
  {
    if Trim(query) == "" then (false, [])
    else
      var sent := [List(Trim(query))];
      match Chosen(query, listing, choice)
      case None => (false, sent)
      case Some(target) =>
        match Changes(province, name, count, year)
        case None => (false, sent)
        case Some(changes) =>
          if changes == map[] then (false, sent)
          else (!patchRaises, sent + [Patch(target.id, changes)])
  }

  /** The edit operation itself, building the changes step by step. */
  method EditRemoteOp(query: string, listing: Listing, choice: string,
                      province: string, name: string, count: string, year: string,
                      patchRaises: bool) returns (ok: bool, sent: seq<Request>)
    ensures (ok, sent) == EditRemote(query, listing, choice, province, name, count, year, patchRaises)
  {
    var q := Trim(query);
    if q == "" {
      return false, [];
    }
    sent := [List(q)];
    var target := Chosen(query, listing, choice);
    if target.None? {
      return false, sent;
    }
    var changes, valid := BuildChanges(province, name, count, year);
    if !valid || changes == map[] {
      return false, sent;
    }
    sent := sent + [Patch(target.value.id, changes)];
    ok := !patchRaises;
  }

  /** An update is sent exactly when the query is not blank, a record with an id was
      chosen and the answers describe a usable, non-empty update; it is that update, sent
      for the chosen record, and the edit succeeds exactly when it was sent and did not
      raise. */
  lemma EditSendsOnlyUsefulPatches(query: string, listing: Listing, choice: string,
                                   province: string, name: string, count: string, year: string,
                                   patchRaises: bool)
    ensures var r := EditRemote(query, listing, choice, province, name, count, year, patchRaises);
      var changes := Changes(province, name, count, year);
      |r.1| == 2 <==> Trim(query) != "" && Chosen(query, listing, choice).Some?
                      && changes.Some? && changes.value != map[]
    ensures var r := EditRemote(query, listing, choice, province, name, count, year, patchRaises);
      |r.1| == 2 ==> r.1[1] == Patch(Chosen(query, listing, choice).value.id, Changes(province, name, count, year).value)
    ensures var r := EditRemote(query, listing, choice, province, name, count, year, patchRaises);
      r.0 <==> |r.1| == 2 && !patchRaises
  {
  }

  /** Whatever is sent first, the listing is requested for the stripped query and nothing
      is requested for a blank one. */
  lemma EditListsFirst(query: string, listing: Listing, choice: string,
                       province: string, name: string, count: string, year: string,
                       patchRaises: bool)
    ensures var r := EditRemote(query, listing, choice, province, name, count, year, patchRaises);
      (Trim(query) == "" ==> r == (false, [])) && (Trim(query) != "" ==> r.1[0] == List(Trim(query)))
  {
  }

  /** `borrar_colegio_api`: the delete call is sent only for a chosen record with an id,
      and only once the prompt was answered `s`. */
  function DeleteRemote(query: string, listing: Listing, choice: string, answer: string,
                        deleteRaises: bool): (r: (bool, seq<Request>))
    ensures Trim(query) == "" ==> r == (false, [])
    ensures r.0 <==> |r.1| == 2 && !deleteRaises
    ensures |r.1| == 2 <==> Trim(query) != "" && Chosen(query, listing, choice).Some? && Confirmed(answer)
    ensures |r.1| == 2 ==> r.1[1] == Remove(Chosen(query, listing, choice).value.id)
  {
    if Trim(query) == "" then (false, [])
    else
      var sent := [List(Trim(query))];
      match Chosen(query, listing, choice)
      case None => (false, sent)
      case Some(target) =>
        if !Confirmed(answer) then (false, sent)
        else (!deleteRaises, sent + [Remove(target.id)])
  }
}
