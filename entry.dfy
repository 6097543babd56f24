/** The console input rules shared by the local operations of src/funciones/carga_datos.py
    and the API operations of src/funciones/modo_api.py: validating a new record, choosing
    one of several matches, and the confirmation prompt. */
module Entry {
  import opened Options
  import opened Text
  import opened Numerals
  import opened Schools

  /** Why a new record is refused. */
  datatype Reason = MissingText | NotInteger | NegativeCount | YearOutOfRange

  datatype Checked = Accepted(school: School) | Refused(reason: Reason)

  /** The accepted range of founding years, bounds included. */
  const FirstYear := 1800
  const LastYear := 2100

  predicate YearInRange(y: int) {
    FirstYear <= y <= LastYear
  }

  /** The checks on the four answers for a new record, in the order the source makes
      them: the answers are stripped; province and name are required; a blank number is 0;
      both numbers must be integers; the count may not be negative; the year must lie in
      the accepted range. */
  function ValidateNew(province: string, name: string, count: string, year: string): (r: Checked)
    ensures r.Refused? && r.reason == MissingText <==> Trim(province) == "" || Trim(name) == ""
    ensures r.Accepted? <==>
      && Trim(province) != "" && Trim(name) != ""
      && IntOrZero(Trim(count)).Some? && IntOrZero(Trim(year)).Some?
      && IntOrZero(Trim(count)).value >= 0 && YearInRange(IntOrZero(Trim(year)).value)
    ensures r.Accepted? ==> r.school == School(Trim(province), Trim(name),
                                               IntOrZero(Trim(count)).value, IntOrZero(Trim(year)).value)
  {
    var p, n := Trim(province), Trim(name);
    if p == "" || n == "" then Refused(MissingText)
    else
      match (IntOrZero(Trim(count)), IntOrZero(Trim(year)))
      case (Some(c), Some(y)) =>
        if c < 0 then Refused(NegativeCount)
        else if !YearInRange(y) then Refused(YearOutOfRange)
        else Accepted(School(p, n, c, y))
      case _ => Refused(NotInteger)
  }

  /** An accepted record can be saved and read back unchanged. */
  lemma AcceptedIsStorable(province: string, name: string, count: string, year: string)
    requires ValidateNew(province, name, count, year).Accepted?
    ensures Storable(ValidateNew(province, name, count, year).school)
  {
    TrimIdempotent(province);
    TrimIdempotent(name);
  }

  /** A blank year reads as 0, which is outside the range: leaving the year blank always
      refuses the record. */
  lemma BlankYearRefused(province: string, name: string, count: string, year: string)
    requires Trim(year) == ""
    ensures ValidateNew(province, name, count, year).Refused?
  {
  }

  /** Any non-negative count and any year in range are accepted as typed. */
  lemma AcceptsTypedNumbers(province: string, name: string, count: nat, year: int)
    requires Trim(province) != "" && Trim(name) != "" && YearInRange(year)
    ensures ValidateNew(province, name, FormatInt(count), FormatInt(year))
         == Accepted(School(Trim(province), Trim(name), count, year))
  {
    var c, y := FormatInt(count), FormatInt(year);
    TrimOfTrimmed(c);
    TrimOfTrimmed(y);
    ParseFormat(count);
    ParseFormat(year);
  }

  /** The choice among `count` matches: with one match it is taken without asking;
      otherwise the answer is a 1-based position, and anything else cancels. */
  function Pick(count: nat, answer: string): (r: Option<nat>)
    requires count > 0
    ensures r.Some? ==> r.value < count
    ensures count == 1 ==> r == Some(0)
    ensures count > 1 ==> (r.Some? <==> ParseInt(answer).Some? && 1 <= ParseInt(answer).value <= count)
  {
    if count == 1 then Some(0)
    else match ParseInt(answer)
      case Some(k) => if 1 <= k <= count then Some(k - 1) else None
      case None => None
  }

  /** Typing the position `k` picks the `k`-th match. */
  lemma PickPosition(count: nat, k: int)
    requires count > 1 && 1 <= k <= count
    ensures Pick(count, FormatInt(k)) == Some(k - 1)
  {
    ParseFormat(k);
    PickAnswer(count, FormatInt(k), k);
  }

  lemma PickAnswer(count: nat, answer: string, k: int)
    requires count > 1 && 1 <= k <= count && ParseInt(answer) == Some(k)
    ensures Pick(count, answer) == Some(k - 1)
  {
  }

  /** `input(...).strip().lower() == 's'`: the only answers that confirm are `s` and `S`,
      possibly surrounded by whitespace. */
  predicate Confirmed(answer: string) {
    Trim(answer) == "s" || Trim(answer) == "S"
  }

  /** Surrounding whitespace never changes the answer to the prompt. */
  lemma ConfirmedIgnoresSpace(answer: string)
    ensures Confirmed(answer) <==> Confirmed(Trim(answer))
  {
    TrimIdempotent(answer);
  }
}
