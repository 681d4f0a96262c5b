/**
 `formatDate` and `parseDate` of the datepicker (js/jquery-ui.js:8671-8832, 8879-8964): both read a format through a
 cursor, and here both are proved against one reading of the format as tokens.
 */
module DateFormats {
  import Arithmetic
  import opened CivilDates

  /**
   The names, the century rule and the surroundings: the year it is now, `toLowerCase` character by character, and the
   timestamp texts of `@` and `!` with the dates read back from their numbers.
   */
  datatype Settings = Settings(
    dayNamesShort: seq<string>,
    dayNames: seq<string>,
    monthNamesShort: seq<string>,
    monthNames: seq<string>,
    shortYearCutoff: int,
    currentYear: int,
    lower: char -> char,
    stamp: (char, Date) -> string,
    dateOfStamp: (char, nat) -> Date)
  {
    predicate Valid() {
      |dayNamesShort| == |dayNames| == 7 && |monthNamesShort| == |monthNames| == 12
    }

    function DayNames(doubled: bool): seq<string> {
      if doubled then dayNames else dayNamesShort
    }

    function MonthNames(doubled: bool): seq<string> {
      if doubled then monthNames else monthNamesShort
    }
  }

  // ----- the format

  datatype Token = Field(kind: char, doubled: bool) | Literal(c: char)

  predicate IsField(c: char) {
    c == 'd' || c == 'D' || c == 'o' || c == 'm' || c == 'M' || c == 'y' || c == '@' || c == '!'
  }

  predicate IsStamp(c: char) {
    c == '@' || c == '!'
  }

  /** `lookAhead`: the next character of the format is `c` as well. */
  predicate LooksAhead(format: string, i: nat, c: char) {
    i + 1 < |format| && format[i + 1] == c
  }

  /**
   The tokens from place `i` on, inside or outside a quoted literal. The parser also reads `@@` and `!!` as one token,
   the printer does not.
   */
  function Tokens(format: string, i: nat, literal: bool, stampsDouble: bool): (ts: seq<Token>)
    decreases |format| - i
  {
    if i >= |format| then [] else
    var c := format[i];
    if c == '\'' then
      if LooksAhead(format, i, c) then [Literal(c)] + Tokens(format, i + 2, literal, stampsDouble)
      else Tokens(format, i + 1, !literal, stampsDouble)
    else if literal || !IsField(c) then
      [Literal(c)] + Tokens(format, i + 1, literal, stampsDouble)
    else if LooksAhead(format, i, c) && (stampsDouble || !IsStamp(c)) then
      [Field(c, true)] + Tokens(format, i + 2, false, stampsDouble)
    else
      [Field(c, false)] + Tokens(format, i + 1, false, stampsDouble)
  }

  // ----- numbers as text

  predicate IsDigit(c: char) {
    '0' <= c <= '9'
  }

  function DigitChar(n: nat): (c: char)
    requires n < 10
    ensures IsDigit(c) && c as int - 48 == n
  {
    (48 + n) as char
  }

  function Decimal(n: nat): (t: string)
    ensures |t| > 0 && forall i :: 0 <= i < |t| ==> IsDigit(t[i])
  {
    if n < 10 then [DigitChar(n)] else Decimal(n / 10) + [DigitChar(n % 10)]
  }

  /** `"" + n` */
  function Text(n: int): string {
    if n < 0 then "-" + Decimal(-n) else Decimal(n)
  }

  function Zeros(n: nat): (z: string)
    ensures |z| == n
  {
    seq(n, _ => '0')
  }

  function Padded(num: string, len: nat): string {
    if |num| < len then Zeros(len - |num|) + num else num
  }

  /** `parseInt` of a run of digits. */
  function NumberIn(t: string): nat {
    if |t| == 0 || !IsDigit(t[|t| - 1]) then 0
    else 10 * NumberIn(t[..|t| - 1]) + (t[|t| - 1] as int - 48)
  }

  lemma {:induction false} DecimalRead(n: nat)
    ensures NumberIn(Decimal(n)) == n
    decreases n
  {
    if n >= 10 {
      DecimalRead(n / 10);
      assert Decimal(n)[..|Decimal(n)| - 1] == Decimal(n / 10);
    }
  }

  lemma {:induction false} LeadingZeros(z: nat, t: string)
    requires forall i :: 0 <= i < |t| ==> IsDigit(t[i])
    ensures NumberIn(Zeros(z) + t) == NumberIn(t)
    decreases z + |t|
  {
    var x := Zeros(z) + t;
    if |t| > 0 {
      LeadingZeros(z, t[..|t| - 1]);
      assert x[..|x| - 1] == Zeros(z) + t[..|t| - 1];
    } else if z > 0 {
      LeadingZeros(z - 1, []);
      assert x[..|x| - 1] == Zeros(z - 1) + [];
    }
  }

  lemma DecimalLength(n: nat)
    ensures n < 10 ==> |Decimal(n)| == 1
    ensures 10 <= n < 100 ==> |Decimal(n)| == 2
    ensures 100 <= n < 1000 ==> |Decimal(n)| == 3
    ensures 1000 <= n < 10000 ==> |Decimal(n)| == 4
  {
    if 1000 <= n {
      assert |Decimal(n)| == |Decimal(n / 10)| + 1;
    }
  }

  /** Decimal notation of `n`, filled up with zeros to `width` digits. */
  predicate Numeral(t: string, n: nat, width: nat) {
    && |t| > 0 && |t| >= width && (forall i :: 0 <= i < |t| ==> '0' <= t[i] <= '9') && NumberIn(t) == n
    && (|t| > 1 && |t| > width ==> t[0] != '0')
  }

  /** The last digit of a numeral counts once, what is before it ten times. */
  lemma LastDigit(t: string, c: char)
    requires '0' <= c <= '9'
    ensures NumberIn("") == 0 && NumberIn(t + [c]) == 10 * NumberIn(t) + (c as int - '0' as int)
  {
    assert (t + [c])[..|t|] == t;
  }

  lemma {:induction false} DecimalNumeral(n: nat)
    ensures Numeral(Decimal(n), n, 1)
    decreases n
  {
    DecimalRead(n);
    if n >= 10 {
      DecimalNumeral(n / 10);
      DecimalLength(n / 10);
    }
  }

  lemma NumberNumeral(n: nat, doubled: bool, len: nat)
    requires len > 0
    ensures Numeral(Number(n, doubled, len), n, if doubled then len else 1)
  {
    hide Decimal, NumberIn;
    DecimalNumeral(n);
    LeadingZeros(if |Decimal(n)| < len then len - |Decimal(n)| else 0, Decimal(n));
  }

  // ----- the printer

  /** The remainder that JavaScript's `%` gives: it has the sign of the dividend. */
  function Remainder(a: int, b: nat): int
    requires b > 0
  {
    if a >= 0 then a % b else -(-a % b)
  }

  /** `(y % 100 < 10 ? "0" : "") + y % 100` for `y = getYear()` */
  function ShortYear(year: int): string {
    var y := Remainder(year - 1900, 100);
    (if y < 10 then "0" else "") + Text(y)
  }

  /** The day of the year as the difference of two dates. */
  function PrintedDoy(date: Date): int {
    Days(NewDate(date.year, date.month - 1, date.day)) - Days(NewDate(date.year, 0, 0))
  }

  function Number(n: int, doubled: bool, len: nat): string {
    if doubled then Padded(Text(n), len) else Text(n)
  }

  function Show(t: Token, date: Date, s: Settings): string
    requires Valid(date) && s.Valid()
  {
    match t
    case Literal(c) => [c]
    case Field(kind, doubled) =>
      if kind == 'd' then Number(date.day, doubled, 2)
      else if kind == 'D' then s.DayNames(doubled)[Weekday(date)]
      else if kind == 'o' then Number(PrintedDoy(date), doubled, 3)
      else if kind == 'm' then Number(date.month, doubled, 2)
      else if kind == 'M' then s.MonthNames(doubled)[date.month - 1]
      else if kind == 'y' then (if doubled then Text(date.year) else ShortYear(date.year))
      else s.stamp(kind, date)
  }

  function ShowAll(ts: seq<Token>, date: Date, s: Settings): string
    requires Valid(date) && s.Valid()
  {
    if |ts| == 0 then "" else Show(ts[0], date, s) + ShowAll(ts[1..], date, s)
  }

  /** `formatNumber` */
  method FormatNumber(value: int, doubled: bool, len: nat) returns (num: string)
    ensures num == Number(value, doubled, len)
  {
    num := Text(value);
    ghost var n0 := num;
    if doubled {
      while |num| < len
        invariant |n0| <= |num| && (|num| <= len || num == n0)
        invariant num == Zeros(|num| - |n0|) + n0
      {
        num := "0" + num;
      }
    }
  }

  lemma PrintedDays(date: Date)
    requires Valid(date) && !(0 <= date.year <= 99)
    ensures PrintedDoy(date) == DayOfYear(date) > 0
  {
    hide Days;
    PrintedDayOfYear(date);
  }

  /** The remainder keeps the last two digits of a year from 1900 on, and takes those of the distance to 1900 before. */
  lemma YearRemainder(year: int)
    ensures year >= 1900 || year % 100 == 0 ==> Remainder(year - 1900, 100) == year % 100
    ensures year < 1900 && year % 100 != 0 ==> Remainder(year - 1900, 100) == year % 100 - 100
  {
    var q, r := year / 100, year % 100;
    assert year == q * 100 + r;
    if year >= 1900 {
      Arithmetic.QuotientUnique(year - 1900, q - 19, r, 100);
    } else if r == 0 {
      Arithmetic.QuotientUnique(1900 - year, 19 - q, 0, 100);
    } else {
      Arithmetic.QuotientUnique(1900 - year, 18 - q, 100 - r, 100);
    }
  }

  lemma TwoDigits(n: nat)
    requires n < 100
    ensures Numeral((if n < 10 then "0" else "") + Text(n), n, 2)
  {
    hide NumberIn, Decimal, Numeral;
    NumberNumeral(n, true, 2);
    DecimalLength(n);
    assert Zeros(1) == "0" && "" + Decimal(n) == Decimal(n);
  }

  lemma ShortYearNumeral(year: int)
    ensures year >= 1900 || year % 100 == 0 ==> Numeral(ShortYear(year), year % 100, 2)
    ensures year < 1900 && year % 100 != 0 ==>
              |ShortYear(year)| > 2 && ShortYear(year)[..2] == "0-" && Numeral(ShortYear(year)[2..], 100 - year % 100, 1)
  {
    hide NumberIn, Decimal, Numeral, Remainder;
    YearRemainder(year);
    if year >= 1900 || year % 100 == 0 {
      TwoDigits(year % 100);
    } else {
      var n := 100 - year % 100;
      DecimalNumeral(n);
      assert ShortYear(year) == "0" + ("-" + Decimal(n));
      assert ShortYear(year)[2..] == Decimal(n);
    }
  }

  /** One field of `formatDate`; a doubled letter has already been looked for. */
  method FormatField(kind: char, doubled: bool, date: Date, s: Settings) returns (text: string)
    requires Valid(date) && s.Valid()
    ensures text == Show(Field(kind, doubled), date, s)
    ensures kind == 'D' ==> text == (if doubled then s.dayNames else s.dayNamesShort)[Weekday(date)]
    ensures kind == 'M' ==> text == (if doubled then s.monthNames else s.monthNamesShort)[date.month - 1]
    ensures kind == 'd' ==> Numeral(text, date.day, if doubled then 2 else 1)
    ensures kind == 'm' ==> Numeral(text, date.month, if doubled then 2 else 1)
    ensures kind == 'o' && !(0 <= date.year <= 99) ==> Numeral(text, DayOfYear(date), if doubled then 3 else 1)
    ensures kind == 'y' && date.year >= 0 && doubled ==> Numeral(text, date.year, 1)
    ensures kind == 'y' && !doubled && (date.year >= 1900 || date.year % 100 == 0) ==> Numeral(text, date.year % 100, 2)
    ensures kind == 'y' && date.year < 1900 && !doubled && date.year % 100 != 0 ==>
              |text| > 2 && text[..2] == "0-" && Numeral(text[2..], 100 - date.year % 100, 1)
    ensures kind in "@!" ==> text == s.stamp(kind, date)
  {
    hide Days, PrintedDoy, ShortYear, Weekday, Number;
    NumberNumeral(date.day, doubled, 2);
    NumberNumeral(date.month, doubled, 2);
    ShortYearNumeral(date.year);
    hide Numeral;
    if kind == 'd' {
      text := FormatNumber(date.day, doubled, 2);
    } else if kind == 'D' {
      text := s.DayNames(doubled)[Weekday(date)];
    } else if kind == 'o' {
      text := FormatNumber(PrintedDoy(date), doubled, 3);
      if !(0 <= date.year <= 99) {
        PrintedDays(date);
        NumberNumeral(DayOfYear(date), doubled, 3);
      }
    } else if kind == 'm' {
      text := FormatNumber(date.month, doubled, 2);
    } else if kind == 'M' {
      text := s.MonthNames(doubled)[date.month - 1];
    } else if kind == 'y' {
      text := if doubled then Text(date.year) else ShortYear(date.year);
      if date.year >= 0 {
        DecimalNumeral(date.year);
      }
    } else {
      text := s.stamp(kind, date);
    }
  }

  lemma ShowNext(a: string, t: Token, ts: seq<Token>, date: Date, s: Settings)
    requires Valid(date) && s.Valid()
    ensures a + ShowAll([t] + ts, date, s) == (a + Show(t, date, s)) + ShowAll(ts, date, s)
  {
    assert ([t] + ts)[1..] == ts;
  }

  /** `formatDate`: the cursor loop prints the tokens of the format. */
  method FormatDate(format: string, date: Date, s: Settings) returns (output: string)
    requires Valid(date) && s.Valid()
    ensures output == ShowAll(Tokens(format, 0, false, false), date, s)
  {
    hide Show, ShowAll;
    output := "";
    var literal := false;
    var iFormat := 0;
    ghost var whole := ShowAll(Tokens(format, 0, false, false), date, s);
    while iFormat < |format|
      invariant iFormat <= |format|
      invariant output + ShowAll(Tokens(format, iFormat, literal, false), date, s) == whole
    {
      var c := format[iFormat];
      if literal {
        if c == '\'' && !LooksAhead(format, iFormat, '\'') {
          literal := false;
        } else {
          if c == '\'' {
            iFormat := iFormat + 1;
          }
          ShowLiteral(output, c, Tokens(format, iFormat + 1, literal, false), date, s);
          output := output + [format[iFormat]];
        }
      } else if c == '\'' {
        if LooksAhead(format, iFormat, '\'') {
          iFormat := iFormat + 1;
          ShowLiteral(output, c, Tokens(format, iFormat + 1, literal, false), date, s);
          output := output + "'";
        } else {
          literal := true;
        }
      } else if IsField(c) {
        var doubled := !IsStamp(c) && LooksAhead(format, iFormat, c);
        if doubled {
          iFormat := iFormat + 1;
        }
        var text := FormatField(c, doubled, date, s);
        ShowNext(output, Field(c, doubled), Tokens(format, iFormat + 1, false, false), date, s);
        output := output + text;
      } else {
        ShowLiteral(output, c, Tokens(format, iFormat + 1, literal, false), date, s);
        output := output + [format[iFormat]];
      }
      iFormat := iFormat + 1;
    }
    NothingToShow(date, s);
    assert output + "" == output;
  }

  lemma ShowLiteral(a: string, c: char, ts: seq<Token>, date: Date, s: Settings)
    requires Valid(date) && s.Valid()
    ensures a + ShowAll([Literal(c)] + ts, date, s) == (a + [c]) + ShowAll(ts, date, s)
  {
    ShowNext(a, Literal(c), ts, date, s);
  }

  lemma NothingToShow(date: Date, s: Settings)
    requires Valid(date) && s.Valid()
    ensures ShowAll([], date, s) == ""
  {
  }
}
