/** `parseDate` (js/jquery-ui.js:8671-8832) and what it makes of the text that `formatDate` prints. */
module DateParsing {
  import opened CivilDates
  import opened DateFormats
  import opened Options

  /** What `parseDate` throws. */
  datatype ParseError =
    | MissingNumber(at: nat)
    | UnknownName(at: nat)
    | UnexpectedLiteral(at: nat)
    | ExtraCharacters(extra: string)
    | InvalidDate

  datatype Result<T> = Ok(value: T) | Err(error: ParseError)

  /** The cursor into the value and the fields found so far; -1 stands for none. */
  datatype Fields = Fields(pos: nat, year: int, month: int, day: int, doy: int)

  // ----- numbers

  /** How many digits stand at `pos`, at most `size`: the match of `^\d{1,size}`. */
  function Run(value: string, pos: nat, size: nat): (n: nat)
    ensures n <= size && (n > 0 ==> pos + n <= |value|)
    ensures forall i :: pos <= i < pos + n ==> IsDigit(value[i])
    decreases size
  {
    if size == 0 || pos >= |value| || !IsDigit(value[pos]) then 0 else 1 + Run(value, pos + 1, size - 1)
  }

  function Size(kind: char, doubled: bool): nat {
    if kind == '@' then 14 else if kind == '!' then 20 else if kind == 'y' && doubled then 4 else if kind == 'o' then 3 else 2
  }

  /** `getNumber`: the number and the cursor behind it. */
  function GetNumber(value: string, pos: nat, size: nat): Result<(nat, nat)> {
    var n := Run(value, pos, size);
    if n == 0 then Err(MissingNumber(pos)) else Ok((NumberIn(value[pos..pos + n]), pos + n))
  }

  // ----- names

  /** A name, without regard to case, stands at `pos`. */
  predicate MatchesAt(value: string, pos: nat, name: string, lower: char -> char) {
    pos + |name| <= |value| && forall i :: 0 <= i < |name| ==> lower(value[pos + i]) == lower(name[i])
  }

  function Insert(p: (nat, string), ps: seq<(nat, string)>): seq<(nat, string)> {
    if |ps| == 0 || |p.1| > |ps[0].1| then [p] + ps else [ps[0]] + Insert(p, ps[1..])
  }

  /** The pairs of index and name sorted by falling length, names of equal length in the order of the list. */
  function Sorted(names: seq<string>): seq<(nat, string)> {
    if |names| == 0 then [] else Insert((|names| - 1, names[|names| - 1]), Sorted(names[..|names| - 1]))
  }

  /** The first pair whose name stands at `pos`. */
  function FirstMatch(value: string, pos: nat, ps: seq<(nat, string)>, lower: char -> char): Option<(nat, string)> {
    if |ps| == 0 then None
    else if MatchesAt(value, pos, ps[0].1, lower) then Some(ps[0])
    else FirstMatch(value, pos, ps[1..], lower)
  }

  /** `getName`: the index from 1 and the cursor behind the name. */
  function GetName(value: string, pos: nat, names: seq<string>, lower: char -> char): Result<(nat, nat)> {
    match FirstMatch(value, pos, Sorted(names), lower)
    case None => Err(UnknownName(pos))
    case Some(p) => Ok((p.0 + 1, pos + |p.1|))
  }

  // ----- the parser on tokens

  function Step(t: Token, value: string, f: Fields, s: Settings): Result<Fields> {
    match t
    case Literal(c) =>
      if f.pos < |value| && value[f.pos] == c then Ok(f.(pos := f.pos + 1)) else Err(UnexpectedLiteral(f.pos))
    case Field(kind, doubled) =>
      if kind == 'D' || kind == 'M' then
        match GetName(value, f.pos, if kind == 'D' then s.DayNames(doubled) else s.MonthNames(doubled), s.lower)
        case Err(e) => Err(e)
        case Ok((k, pos)) => Ok(if kind == 'M' then f.(pos := pos, month := k) else f.(pos := pos))
      else
        match GetNumber(value, f.pos, Size(kind, doubled))
        case Err(e) => Err(e)
        case Ok((n, pos)) => Ok(WithNumber(kind, n, f.(pos := pos), s))
  }

  function WithNumber(kind: char, n: nat, f: Fields, s: Settings): Fields {
    if kind == 'd' then f.(day := n)
    else if kind == 'o' then f.(doy := n)
    else if kind == 'm' then f.(month := n)
    else if kind == 'y' then f.(year := n)
    else var d := s.dateOfStamp(kind, n); f.(year := d.year, month := d.month, day := d.day)
  }

  function RunTokens(ts: seq<Token>, value: string, f: Fields, s: Settings): Result<Fields> {
    if |ts| == 0 then Ok(f) else
    var r := Step(ts[0], value, f, s);
    if r.Err? then r else RunTokens(ts[1..], value, r.value, s)
  }

  /** The characters of `\s`. */
  predicate IsSpace(c: char) {
    c in " \t\n\U{000b}\U{000c}\r\U{00a0}\U{1680}\U{2028}\U{2029}\U{202f}\U{205f}\U{3000}\U{feff}" || '\U{2000}' <= c <= '\U{200a}'
  }

  /** A missing year is this year; a year below 100 falls into this century or the last. */
  function FullYear(year: int, s: Settings): int {
    if year == -1 then s.currentYear
    else if year < 100 then
      year + s.currentYear - Remainder(s.currentYear, 100) + if year <= s.shortYearCutoff then 0 else -100
    else year
  }

  function Finish(value: string, f: Fields, s: Settings): Result<Date> {
    if f.pos < |value| && !IsSpace(value[f.pos]) then Err(ExtraCharacters(value[f.pos..])) else
    var year := FullYear(f.year, s);
    var (month, day) := if f.doy > -1 then SplitDayOfYear(year, 1, f.doy) else (f.month, f.day);
    if Confirmed(year, month, day) then Ok(Date(year, month, day)) else Err(InvalidDate)
  }

  function NoFields(): Fields {
    Fields(0, -1, -1, -1, -1)
  }

  /** What is parsed from a value that is not blank. */
  function Parsed(ts: seq<Token>, value: string, s: Settings): Result<Date> {
    match RunTokens(ts, value, NoFields(), s)
    case Err(e) => Err(e)
    case Ok(f) => Finish(value, f, s)
  }

  // ----- what is accepted

  /** `d` is the calendar date that the fields name in `year`: by the day of the year if there is one. */
  predicate Names(f: Fields, year: int, d: Date) {
    && PlainYear(year) && d.year == year && Valid(d)
    && if f.doy > -1 then DayOfYear(d) == f.doy else d.month == f.month && d.day == f.day
  }

  /** Nothing is left of the value, or what is left begins with a space. */
  predicate Ended(value: string, pos: nat) {
    pos >= |value| || IsSpace(value[pos])
  }

  lemma DayOfYearNames(f: Fields, year: int, d: Date)
    requires PlainYear(year) && f.doy > -1
    ensures var (m, n) := SplitDayOfYear(year, 1, f.doy);
            Confirmed(year, m, n) && d == Date(year, m, n) <==> Names(f, year, d)
  {
    hide YearLength, Leap, Confirmed, Before, DaysIn;
    DayOfYearInverts(year, f.doy);
    if Names(f, year, d) {
      InYear(d);
      PrintedDayOfYear(d);
    }
  }

  /** The years that `new Date` takes for years of the last century are never confirmed. */
  lemma ShortYearFails(year: int, month: int, day: int)
    requires !PlainYear(year) && month >= -1 && day >= -1
    ensures !Confirmed(year, month, day)
  {
    hide Days, Plus;
    var first := MonthStart(YearArgument(year), month - 1);
    assert first.year >= 1899 && Valid(first);
    PlusDays(first, day - 1);
    LateYear(first, NewDate(year, month - 1, day));
  }

  lemma LateYear(c: Date, d: Date)
    requires Valid(c) && Valid(d) && c.year >= 1899 && Days(d) >= Days(c) - 2
    ensures d.year >= 1898
  {
    hide YearStart, YearLength, DayOfYear;
    InYear(c);
    InYear(d);
    NextYear(d.year);
    if d.year < 1898 {
      YearsGrow(d.year + 1, 1898);
      YearsGrow(1899, c.year);
      NextYear(1898);
      LongYear(1898);
    }
  }

  lemma LongYear(y: int)
    ensures YearLength(y) >= 365
  {
  }

  /**
   The end of `parseDate` gives a date exactly when the value has ended and the fields name a calendar date, and then that
   date.
   */
  lemma FinishAccepts(value: string, f: Fields, s: Settings, d: Date)
    requires f.month >= -1 && f.day >= -1
    ensures Finish(value, f, s) == Ok(d) <==> Ended(value, f.pos) && Names(f, FullYear(f.year, s), d)
  {
    hide FullYear, Confirmed, Valid, IsSpace;
    var year := FullYear(f.year, s);
    if !PlainYear(year) {
      var (month, day) := if f.doy > -1 then SplitDayOfYear(year, 1, f.doy) else (f.month, f.day);
      ShortYearFails(year, month, day);
    } else if f.doy > -1 {
      DayOfYearNames(f, year, d);
    } else {
      ConfirmedIsValid(year, f.month, f.day);
    }
  }

  /** The fields found by a run start from none and are numbers, so that the end of `parseDate` may be applied to them. */
  lemma {:induction false} FieldsFound(ts: seq<Token>, value: string, f: Fields, s: Settings)
    requires f.month >= -1 && f.day >= -1
    requires forall c: char, n: nat :: s.dateOfStamp(c, n).month >= -1 && s.dateOfStamp(c, n).day >= -1
    ensures var r := RunTokens(ts, value, f, s); r.Ok? ==> r.value.month >= -1 && r.value.day >= -1
    decreases |ts|
  {
    hide GetNumber, GetName;
    if |ts| > 0 {
      var r := Step(ts[0], value, f, s);
      if r.Ok? {
        FieldsFound(ts[1..], value, r.value, s);
      }
    }
  }

  // ----- the method

  /** `null` for a blank value, a date, or an exception. */
  datatype Outcome = Blank | Found(date: Date) | Thrown(error: ParseError)

  function Parse(format: string, value: string, s: Settings): Outcome {
    if value == "" then Blank else
    match Parsed(Tokens(format, 0, false, true), value, s)
    case Ok(d) => Found(d)
    case Err(e) => Thrown(e)
  }

  /** `parseDate` gives a date exactly when the tokens take the value up to its end and the fields they set name that date. */
  lemma ParseAccepts(format: string, value: string, s: Settings, d: Date)
    requires forall c: char, n: nat :: s.dateOfStamp(c, n).month >= -1 && s.dateOfStamp(c, n).day >= -1
    ensures var r := RunTokens(Tokens(format, 0, false, true), value, Fields(0, -1, -1, -1, -1), s);
            Parse(format, value, s) == Found(d) <==>
              value != "" && r.Ok? && Ended(value, r.value.pos) && Names(r.value, FullYear(r.value.year, s), d)
  {
    hide Tokens, RunTokens, Finish, FullYear, Names, Ended;
    var ts := Tokens(format, 0, false, true);
    FieldsFound(ts, value, NoFields(), s);
    var r := RunTokens(ts, value, NoFields(), s);
    if r.Ok? {
      FinishAccepts(value, r.value, s, d);
    }
  }

  lemma RunNext(t: Token, ts: seq<Token>, value: string, f: Fields, s: Settings)
    ensures var r := Step(t, value, f, s);
            RunTokens([t] + ts, value, f, s) == if r.Err? then r else RunTokens(ts, value, r.value, s)
  {
    hide Step;
    assert ([t] + ts)[1..] == ts;
  }

  lemma RunNothing(value: string, f: Fields, s: Settings)
    ensures RunTokens([], value, f, s) == Ok(f)
  {
  }

  /** One character of the format outside a literal, with its doubled letter taken: the switch of `parseDate`. */
  function TokenOf(c: char, doubled: bool): Token {
    if IsField(c) then Field(c, doubled) else Literal(c)
  }

  /** The end of `parseDate`. */
  method Conclude(value: string, f: Fields, s: Settings) returns (r: Result<Date>)
    ensures r == Finish(value, f, s)
  {
    hide Confirmed, FullYear;
    if f.pos < |value| && !IsSpace(value[f.pos]) {
      return Err(ExtraCharacters(value[f.pos..]));
    }
    var year := FullYear(f.year, s);
    var month, day := f.month, f.day;
    if f.doy > -1 {
      month, day := DayOfYearLoop(year, f.doy);
    }
    r := if Confirmed(year, month, day) then Ok(Date(year, month, day)) else Err(InvalidDate);
  }

  /** `parseDate`: the cursor loop runs the tokens of the format over the value, up to the first exception. */
  method ParseDate(format: string, value: string, s: Settings) returns (r: Outcome)
    ensures r == Parse(format, value, s)
  {
    hide Step, RunTokens, Finish;
    if value == "" {
      return Blank;
    }
    var f := NoFields();
    var literal := false;
    var iFormat := 0;
    ghost var whole := RunTokens(Tokens(format, 0, false, true), value, f, s);
    while iFormat < |format|
      invariant iFormat <= |format|
      invariant RunTokens(Tokens(format, iFormat, literal, true), value, f, s) == whole
    {
      var c := format[iFormat];
      var doubled := (if literal then c == '\'' else c == '\'' || IsField(c)) && LooksAhead(format, iFormat, c);
      if doubled {
        iFormat := iFormat + 1;
      }
      if c == '\'' && !doubled {
        literal := !literal;
      } else {
        var t := if literal then Literal(c) else TokenOf(c, doubled);
        RunNext(t, Tokens(format, iFormat + 1, literal, true), value, f, s);
        var next := Step(t, value, f, s);
        if next.Err? {
          return Thrown(next.error);
        }
        f := next.value;
      }
      iFormat := iFormat + 1;
    }
    RunNothing(value, f, s);
    var date := Conclude(value, f, s);
    r := if date.Ok? then Found(date.value) else Thrown(date.error);
  }
}
