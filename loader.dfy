/** `load_raw`: the `date` column is coerced to a number, and anything that does
    not parse as one becomes day 0; every other column is kept as it is. */
module Loader {
  import opened Records

  predicate IsDigit(c: char) {
    '0' <= c <= '9'
  }

  predicate AllDigits(s: string) {
    forall i :: 0 <= i < |s| ==> IsDigit(s[i])
  }

  /** The value of a string of decimal digits, most significant first. */
  function DigitsValue(s: string): (v: nat)
    requires AllDigits(s)
  {
    if s == [] then 0
    else DigitsValue(s[..|s| - 1]) * 10 + (s[|s| - 1] as int - '0' as int)
  }

  /** Reads an optionally signed decimal integer; `None` when `s` is not one. */
  function ParseInt(s: string): (r: Option<int>)
    ensures s == [] ==> r == None
  {
    if s == [] then None
    else if s[0] == '-' || s[0] == '+' then
      var digits := s[1..];
      if digits != [] && AllDigits(digits) then
        Some(if s[0] == '-' then 0 - DigitsValue(digits) as int else DigitsValue(digits))
      else None
    else if AllDigits(s) then Some(DigitsValue(s))
    else None
  }

  /** `to_numeric(..., errors="coerce").fillna(0)` on one cell. */
  function CoerceDate(cell: DateCell): int {
    match cell
    case Number(n) => n
    case Text(s) => (match ParseInt(s) case Some(v) => v case None => 0)
    case Null => 0
    case Absent => 0
  }

  /** `load_raw` once the file has been read: only `date` changes. */
  function LoadRaw(raw: seq<RawRow>): (rows: seq<LogRow>)
    ensures |rows| == |raw|
    ensures forall i :: 0 <= i < |raw| ==>
      rows[i] == Row(raw[i].idStudent, CoerceDate(raw[i].date), raw[i].sumClick, raw[i].attrs, raw[i].finalResult)
    ensures Ids(rows) == Ids(raw)
  {
    if raw == [] then []
    else
      var r := raw[0];
      [Row(r.idStudent, CoerceDate(r.date), r.sumClick, r.attrs, r.finalResult)] + LoadRaw(raw[1..])
  }

  // ----- the inverse of parsing: decimal rendering, as a CSV file holds a day -----

  function DigitChar(d: nat): (c: char)
    requires d < 10
    ensures IsDigit(c) && c as int - '0' as int == d
  {
    ('0' as int + d) as char
  }

  function ShowNat(n: nat): (s: string)
    decreases n
  {
    if n < 10 then [DigitChar(n)] else ShowNat(n / 10) + [DigitChar(n % 10)]
  }

  function ShowInt(n: int): string {
    if n < 0 then "-" + ShowNat(-n) else ShowNat(n)
  }

  lemma {:induction false} ShowNatDigits(n: nat)
    ensures ShowNat(n) != [] && AllDigits(ShowNat(n))
    ensures DigitsValue(ShowNat(n)) == n
    decreases n
  {
    if n >= 10 {
      ShowNatDigits(n / 10);
      var s := ShowNat(n);
      assert s[..|s| - 1] == ShowNat(n / 10);
    }
  }

  /** Parsing is a left inverse of rendering: every day offset written in decimal
      reads back as itself. */
  lemma ParseShowInt(n: int)
    ensures ParseInt(ShowInt(n)) == Some(n)
  {
    if n < 0 {
      ShowNatDigits(-n);
      assert ShowInt(n)[1..] == ShowNat(-n);
    } else {
      ShowNatDigits(n);
    }
  }

  /** A date written in decimal survives loading unchanged; so does a numeric JSON date. */
  lemma NumericDateKept(n: int)
    ensures CoerceDate(Text(ShowInt(n))) == n
    ensures CoerceDate(Number(n)) == n
  {
    ParseShowInt(n);
  }

  predicate IsLetter(c: char) {
    'a' <= c <= 'z' || 'A' <= c <= 'Z'
  }

  /** A missing date, or a text with neither a digit nor a letter in it (an
      empty cell, a lone sign, a `?`), is not a number and becomes day 0. */
  lemma NonNumericDateIsDayZero(cell: DateCell)
    requires cell.Null? || cell.Absent? ||
      (cell.Text? && forall i :: 0 <= i < |cell.s| ==> !IsDigit(cell.s[i]) && !IsLetter(cell.s[i]))
    ensures CoerceDate(cell) == 0
  {
    if cell.Text? && cell.s != [] {
      assert !IsDigit(cell.s[0]);
      if |cell.s| > 1 {
        assert cell.s[1..][0] == cell.s[1];
      }
    }
  }
}
