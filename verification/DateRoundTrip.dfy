/** `parseDate` reads back what `formatDate` printed (js/jquery-ui.js:8671-8832, 8879-8964). */
module DateRoundTrip {
  import opened CivilDates
  import opened DateFormats
  import opened DateParsing
  import opened Options

  // ----- what a format must be

  predicate IsNumber(t: Token) {
    t.Field? && (t.kind == 'd' || t.kind == 'o' || t.kind == 'm')
  }

  /** `text` begins with something else than a digit, or is empty. */
  predicate NoDigitAhead(text: string) {
    |text| == 0 || !IsDigit(text[0])
  }

  /** Without regard to case, `a` is a prefix of `b`. */
  predicate PrefixOf(a: string, b: string, lower: char -> char) {
    |a| <= |b| && forall i :: 0 <= i < |a| ==> lower(a[i]) == lower(b[i])
  }

  predicate PrefixFree(names: seq<string>, lower: char -> char) {
    forall i, j :: 0 <= i < |names| && 0 <= j < |names| && i != j ==> !PrefixOf(names[i], names[j], lower)
  }

  /** A token that can be read back: no two-digit year, no timestamp, and no two names of a list begin alike. */
  predicate Readable(t: Token, s: Settings) {
    match t
    case Literal(c) => true
    case Field(kind, doubled) =>
      && !IsStamp(kind) && IsField(kind)
      && (kind == 'y' ==> doubled)
      && (kind == 'D' ==> PrefixFree(s.DayNames(doubled), s.lower))
      && (kind == 'M' ==> PrefixFree(s.MonthNames(doubled), s.lower))
  }

  /** A printed number has as many digits as the parser may read, or no digit follows it. */
  predicate Delimited(t: Token, rest: string, date: Date, s: Settings)
    requires Valid(date) && s.Valid()
  {
    IsNumber(t) ==> |Show(t, date, s)| == Size(t.kind, t.doubled) || NoDigitAhead(rest)
  }

  predicate AllDelimited(ts: seq<Token>, date: Date, s: Settings)
    requires Valid(date) && s.Valid()
  {
    |ts| == 0 || (Delimited(ts[0], ShowAll(ts[1..], date, s), date, s) && AllDelimited(ts[1..], date, s))
  }

  predicate AllReadable(ts: seq<Token>, s: Settings) {
    forall i :: 0 <= i < |ts| ==> Readable(ts[i], s)
  }

  predicate Has(ts: seq<Token>, kind: char) {
    exists t :: t in ts && t.Field? && t.kind == kind
  }

  /** The format fixes the year, and either the day of the year or month and day. */
  predicate Fixes(ts: seq<Token>) {
    Has(ts, 'y') && (Has(ts, 'o') || (Has(ts, 'd') && (Has(ts, 'm') || Has(ts, 'M'))))
  }

  /** The field that a token sets: 1 for the day, 2 for the month, 3 for the day of the year. */
  function Sets(t: Token): nat {
    if t.Literal? then 0
    else if t.kind == 'd' then 1
    else if t.kind == 'm' || t.kind == 'M' then 2
    else if t.kind == 'o' then 3
    else 0
  }

  /** No field is set twice, and a day of the year does not stand beside a day or a month. */
  predicate SetOnce(ts: seq<Token>) {
    && (forall i, j :: 0 <= i < j < |ts| && Sets(ts[i]) > 0 ==> Sets(ts[i]) != Sets(ts[j]))
    && (Has(ts, 'o') ==> !Has(ts, 'd') && !Has(ts, 'm') && !Has(ts, 'M'))
  }

  // ----- reading one number

  lemma {:induction false} RunReads(value: string, pos: nat, size: nat, n: nat)
    requires n <= size && pos + n <= |value|
    requires forall i :: pos <= i < pos + n ==> IsDigit(value[i])
    requires n == size || NoDigitAhead(value[pos + n..])
    ensures Run(value, pos, size) == n
    decreases n
  {
    if n > 0 {
      RunReads(value, pos + 1, size - 1, n - 1);
    } else if size > 0 && pos < |value| {
      assert value[pos..][0] == value[pos];
    }
  }

  /** A printed number of at most `size` digits is read back whole. */
  lemma NumberReads(value: string, pos: nat, size: nat, text: string, rest: string)
    requires pos <= |value| && value[pos..] == text + rest
    requires 0 < |text| <= size && forall i :: 0 <= i < |text| ==> IsDigit(text[i])
    requires |text| == size || NoDigitAhead(rest)
    ensures GetNumber(value, pos, size) == Ok((NumberIn(text), pos + |text|))
  {
    hide Run, NumberIn, IsDigit, NoDigitAhead;
    assert forall i :: pos <= i < pos + |text| ==> value[i] == value[pos..][i - pos] == text[i - pos];
    assert value[pos + |text|..] == value[pos..][|text|..] == rest;
    RunReads(value, pos, size, |text|);
    assert value[pos..pos + |text|] == text;
  }

  lemma {:induction false} RunTakes(value: string, pos: nat, size: nat, n: nat)
    requires n <= size && pos + n <= |value| && forall i :: pos <= i < pos + n ==> IsDigit(value[i])
    ensures Run(value, pos, size) >= n
    decreases n
  {
    if n > 0 {
      RunTakes(value, pos + 1, size - 1, n - 1);
    }
  }

  /** Digits read left to right only grow. */
  lemma {:induction false} MoreDigits(t: string, more: string)
    requires forall i :: 0 <= i < |t| ==> IsDigit(t[i])
    requires forall i :: 0 <= i < |more| ==> IsDigit(more[i])
    requires |more| > 0
    ensures NumberIn(t + more) >= 10 * NumberIn(t)
    decreases |more|
  {
    var x := t + more;
    assert IsDigit(x[|x| - 1]) && x[..|x| - 1] == t + more[..|more| - 1];
    if |more| == 1 {
      assert t + more[..0] == t;
    } else {
      MoreDigits(t, more[..|more| - 1]);
    }
  }

  /** A narrower number followed by a digit is read as a larger one. */
  lemma NumberMisread(value: string, pos: nat, size: nat, text: string, rest: string)
    requires pos <= |value| && value[pos..] == text + rest
    requires 0 < |text| < size && forall i :: 0 <= i < |text| ==> IsDigit(text[i])
    requires !NoDigitAhead(rest) && NumberIn(text) > 0
    ensures var r := GetNumber(value, pos, size);
            r.Ok? && r.value.0 > NumberIn(text) && r.value.1 > pos + |text|
  {
    hide NumberIn, Run, IsDigit;
    assert forall i :: pos <= i < pos + |text| ==> value[i] == value[pos..][i - pos] == text[i - pos];
    assert value[pos + |text|] == value[pos..][|text|] == rest[0];
    RunTakes(value, pos, size, |text| + 1);
    LongerRun(value, pos, Run(value, pos, size), text);
  }

  lemma LongerRun(value: string, pos: nat, n: nat, text: string)
    requires |text| < n && pos + n <= |value| && forall i :: pos <= i < pos + n ==> IsDigit(value[i])
    requires forall i :: 0 <= i < |text| ==> value[pos + i] == text[i]
    ensures NumberIn(value[pos..pos + n]) >= 10 * NumberIn(text)
  {
    hide NumberIn, IsDigit;
    var more := value[pos + |text|..pos + n];
    assert value[pos..pos + n] == text + more;
    MoreDigits(text, more);
  }

  /** The text of a number field: digits only, of fixed width when doubled, and worth the number. */
  lemma NumberText(n: nat, doubled: bool, len: nat)
    requires n < (if len == 2 then 100 else 1000) && 2 <= len <= 3
    ensures var t := Number(n, doubled, len);
            && 0 < |t| <= len && (doubled ==> |t| == len)
            && (forall i :: 0 <= i < |t| ==> IsDigit(t[i]))
            && NumberIn(t) == n
  {
    DecimalLength(n);
    DecimalRead(n);
    LeadingZeros(len - |Decimal(n)|, Decimal(n));
  }

  // ----- reading one name

  lemma {:induction false} InsertHolds(p: (nat, string), ps: seq<(nat, string)>)
    ensures forall q :: q in Insert(p, ps) <==> q == p || q in ps
    decreases |ps|
  {
    if |ps| == 0 || |p.1| > |ps[0].1| {
    } else {
      InsertHolds(p, ps[1..]);
      assert ps == [ps[0]] + ps[1..];
    }
  }

  lemma {:induction false} SortedHolds(names: seq<string>)
    ensures forall q :: q in Sorted(names) <==> q.0 < |names| && names[q.0] == q.1
    decreases |names|
  {
    if |names| > 0 {
      var k := |names| - 1;
      SortedHolds(names[..k]);
      InsertHolds((k, names[k]), Sorted(names[..k]));
    }
  }

  lemma {:induction false} FirstMatchOnly(value: string, pos: nat, ps: seq<(nat, string)>, lower: char -> char, p: (nat, string))
    requires p in ps && MatchesAt(value, pos, p.1, lower)
    requires forall q :: q in ps && MatchesAt(value, pos, q.1, lower) ==> q == p
    ensures FirstMatch(value, pos, ps, lower) == Some(p)
    decreases |ps|
  {
    if ps[0] != p {
      assert p in ps[1..];
      FirstMatchOnly(value, pos, ps[1..], lower, p);
    }
  }

  predicate Falling(ps: seq<(nat, string)>) {
    forall i, j :: 0 <= i < j < |ps| ==> |ps[i].1| >= |ps[j].1|
  }

  lemma {:induction false} InsertFalls(p: (nat, string), ps: seq<(nat, string)>)
    requires Falling(ps)
    ensures Falling(Insert(p, ps))
    decreases |ps|
  {
    if |ps| == 0 || |p.1| > |ps[0].1| {
    } else {
      InsertFalls(p, ps[1..]);
      InsertHolds(p, ps[1..]);
      var rest := Insert(p, ps[1..]);
      forall j | 0 <= j < |rest|
        ensures |ps[0].1| >= |rest[j].1|
      {
        assert rest[j] in rest;
      }
    }
  }

  lemma {:induction false} SortedFalls(names: seq<string>)
    ensures Falling(Sorted(names))
    decreases |names|
  {
    if |names| > 0 {
      SortedFalls(names[..|names| - 1]);
      InsertFalls((|names| - 1, names[|names| - 1]), Sorted(names[..|names| - 1]));
    }
  }

  /** The first match of a list of falling lengths is a longest one. */
  lemma {:induction false} FirstIsLongest(value: string, pos: nat, ps: seq<(nat, string)>, lower: char -> char)
    requires Falling(ps)
    ensures match FirstMatch(value, pos, ps, lower)
            case None => forall q :: q in ps ==> !MatchesAt(value, pos, q.1, lower)
            case Some(p) =>
              && p in ps && MatchesAt(value, pos, p.1, lower)
              && forall q :: q in ps && MatchesAt(value, pos, q.1, lower) ==> |q.1| <= |p.1|
    decreases |ps|
  {
    if |ps| > 0 {
      assert forall q :: q in ps <==> q == ps[0] || q in ps[1..];
      if !MatchesAt(value, pos, ps[0].1, lower) {
        FirstIsLongest(value, pos, ps[1..], lower);
      }
    }
  }

  /** No two names are equal up to case. */
  predicate NoTwins(names: seq<string>, lower: char -> char) {
    forall i, j :: 0 <= i < |names| && 0 <= j < |names| && |names[i]| == |names[j]| && i != j ==>
      !MatchesAt(names[i], 0, names[j], lower)
  }

  /** However a sort by falling length arranges names of equal length, the parser reads the same one. */
  lemma SortDoesNotMatter(value: string, pos: nat, names: seq<string>, ps: seq<(nat, string)>, lower: char -> char)
    requires NoTwins(names, lower) && Falling(ps)
    requires forall q :: q in ps <==> q.0 < |names| && names[q.0] == q.1
    ensures FirstMatch(value, pos, ps, lower) == FirstMatch(value, pos, Sorted(names), lower)
  {
    hide FirstMatch, Sorted, Falling;
    SortedHolds(names);
    SortedFalls(names);
    FirstIsLongest(value, pos, ps, lower);
    FirstIsLongest(value, pos, Sorted(names), lower);
    var r, t := FirstMatch(value, pos, ps, lower), FirstMatch(value, pos, Sorted(names), lower);
    if r.Some? && t.Some? {
      BothMatch(value, pos, r.value.1, t.value.1, lower);
      assert |r.value.1| == |t.value.1|;
      assert MatchesAt(names[r.value.0], 0, names[t.value.0], lower);
    }
  }

  lemma BothMatch(value: string, pos: nat, a: string, b: string, lower: char -> char)
    requires MatchesAt(value, pos, a, lower) && MatchesAt(value, pos, b, lower)
    ensures PrefixOf(a, b, lower) || PrefixOf(b, a, lower)
  {
    assert forall i :: 0 <= i < |a| && i < |b| ==> lower(a[i]) == lower(value[pos + i]) == lower(b[i]);
  }

  /** A name is read back, whatever the case it is written in, when no other name of the list begins alike. */
  lemma NameReads(value: string, pos: nat, names: seq<string>, k: nat, text: string, rest: string, lower: char -> char)
    requires k < |names| && pos <= |value| && value[pos..] == text + rest
    requires |text| == |names[k]| && forall i :: 0 <= i < |text| ==> lower(text[i]) == lower(names[k][i])
    requires PrefixFree(names, lower)
    ensures GetName(value, pos, names, lower) == Ok((k + 1, pos + |text|))
  {
    hide FirstMatch, Sorted, PrefixOf;
    var ps := Sorted(names);
    SortedHolds(names);
    assert forall i :: 0 <= i < |text| ==> value[pos + i] == value[pos..][i] == text[i];
    forall q | q in ps && MatchesAt(value, pos, q.1, lower)
      ensures q == (k, names[k])
    {
      BothMatch(value, pos, q.1, names[k], lower);
    }
    FirstMatchOnly(value, pos, ps, lower, (k, names[k]));
  }

  // ----- reading one token

  /** What a token of a printed date puts into the fields, `n` characters on. */
  function Took(t: Token, f: Fields, date: Date, n: nat): Fields {
    var g := f.(pos := f.pos + n);
    match t
    case Literal(c) => g
    case Field(kind, doubled) =>
      if kind == 'd' then g.(day := date.day)
      else if kind == 'o' then g.(doy := DayOfYear(date))
      else if kind == 'm' || kind == 'M' then g.(month := date.month)
      else if kind == 'y' then g.(year := date.year)
      else g
  }

  predicate Printable(date: Date) {
    Valid(date) && 1000 <= date.year <= 9999
  }

  lemma FieldNumbers(date: Date)
    requires Printable(date)
    ensures 0 < date.day < 100 && 0 < date.month < 100 && 0 < DayOfYear(date) < 1000 && PrintedDoy(date) == DayOfYear(date)
  {
    PrintedDayOfYear(date);
    InYear(date);
  }

  /** A delimited token takes exactly the text it printed. */
  lemma StepReads(t: Token, rest: string, value: string, f: Fields, date: Date, s: Settings)
    requires Printable(date) && s.Valid() && Readable(t, s)
    requires f.pos <= |value| && value[f.pos..] == Show(t, date, s) + rest
    requires Delimited(t, rest, date, s)
    ensures Step(t, value, f, s) == Ok(Took(t, f, date, |Show(t, date, s)|))
  {
    hide DayOfYear, Days, GetNumber, GetName, PrintedDoy, Number, NumberIn, Weekday, PrefixFree, NoDigitAhead, Valid;
    FieldNumbers(date);
    match t {
      case Literal(c) =>
        assert value[f.pos..][0] == value[f.pos];
      case Field(kind, doubled) =>
        if kind == 'D' {
          NameReads(value, f.pos, s.DayNames(doubled), Weekday(date), Show(t, date, s), rest, s.lower);
        } else if kind == 'M' {
          MonthInRange(date);
          NameReads(value, f.pos, s.MonthNames(doubled), date.month - 1, Show(t, date, s), rest, s.lower);
        } else if kind == 'y' {
          YearReads(value, f.pos, date.year, rest);
        } else {
          FieldReads(kind, doubled, value, f.pos, rest, date);
        }
    }
  }

  /** The value that a number token has set. */
  function FieldOf(t: Token, f: Fields): int {
    if Sets(t) == 1 then f.day else if Sets(t) == 2 then f.month else f.doy
  }

  /** A token that is not delimited sets its field to a larger number than it printed. */
  lemma StepMisreads(t: Token, rest: string, value: string, f: Fields, date: Date, s: Settings)
    requires Printable(date) && s.Valid() && Readable(t, s)
    requires f.pos <= |value| && value[f.pos..] == Show(t, date, s) + rest
    requires !Delimited(t, rest, date, s)
    ensures var r := Step(t, value, f, s);
            r.Ok? && r.value.pos > f.pos + |Show(t, date, s)| && FieldOf(t, r.value) > NumberOf(t.kind, date)
  {
    hide DayOfYear, Days, GetNumber, GetName, PrintedDoy, Number, NumberIn, Weekday, PrefixFree, NoDigitAhead, Valid;
    FieldNumbers(date);
    var kind, doubled := t.kind, t.doubled;
    NumberText(NumberOf(kind, date), doubled, Size(kind, doubled));
    NumberMisread(value, f.pos, Size(kind, doubled), Show(t, date, s), rest);
  }

  /** A readable token takes exactly the text it printed if and only if it is delimited. */
  lemma StepReadsIff(t: Token, rest: string, value: string, f: Fields, date: Date, s: Settings)
    requires Printable(date) && s.Valid() && Readable(t, s)
    requires f.pos <= |value| && value[f.pos..] == Show(t, date, s) + rest
    ensures Step(t, value, f, s) == Ok(Took(t, f, date, |Show(t, date, s)|)) <==> Delimited(t, rest, date, s)
  {
    hide Step, Show, Delimited, Readable, Valid;
    if Delimited(t, rest, date, s) {
      StepReads(t, rest, value, f, date, s);
    } else {
      StepMisreads(t, rest, value, f, date, s);
    }
  }

  lemma MonthInRange(date: Date)
    requires Valid(date)
    ensures 1 <= date.month <= 12
  {
  }

  lemma YearReads(value: string, pos: nat, year: int, rest: string)
    requires 1000 <= year <= 9999 && pos <= |value| && value[pos..] == Text(year) + rest
    ensures GetNumber(value, pos, 4) == Ok((year, pos + |Text(year)|)) && |Text(year)| > 0
  {
    DecimalLength(year);
    DecimalRead(year);
    NumberReads(value, pos, 4, Text(year), rest);
  }

  /** The number that a number field prints. */
  function NumberOf(kind: char, date: Date): int {
    if kind == 'd' then date.day else if kind == 'o' then DayOfYear(date) else date.month
  }

  lemma FieldReads(kind: char, doubled: bool, value: string, pos: nat, rest: string, date: Date)
    requires kind == 'd' || kind == 'o' || kind == 'm'
    requires Printable(date) && pos <= |value|
    requires value[pos..] == Number(NumberOf(kind, date), doubled, Size(kind, doubled)) + rest
    requires |Number(NumberOf(kind, date), doubled, Size(kind, doubled))| == Size(kind, doubled) || NoDigitAhead(rest)
    ensures var text := Number(NumberOf(kind, date), doubled, Size(kind, doubled));
            GetNumber(value, pos, Size(kind, doubled)) == Ok((NumberOf(kind, date), pos + |text|))
  {
    hide GetNumber, Number, NumberIn, NoDigitAhead, DayOfYear, Valid, PrintedDoy, Days;
    FieldNumbers(date);
    NumberText(NumberOf(kind, date), doubled, Size(kind, doubled));
    NumberReads(value, pos, Size(kind, doubled), Number(NumberOf(kind, date), doubled, Size(kind, doubled)), rest);
  }

  // ----- reading the whole text

  function TookAll(ts: seq<Token>, f: Fields, date: Date, s: Settings): Fields
    requires Valid(date) && s.Valid()
  {
    if |ts| == 0 then f else TookAll(ts[1..], Took(ts[0], f, date, |Show(ts[0], date, s)|), date, s)
  }

  lemma {:induction false} RunReadsAll(ts: seq<Token>, value: string, f: Fields, date: Date, s: Settings)
    requires Printable(date) && s.Valid() && AllReadable(ts, s) && AllDelimited(ts, date, s)
    requires f.pos <= |value| && value[f.pos..] == ShowAll(ts, date, s)
    ensures RunTokens(ts, value, f, s) == Ok(TookAll(ts, f, date, s)) && TookAll(ts, f, date, s).pos == |value|
    decreases |ts|
  {
    hide Show, Step, Readable, Delimited, Valid;
    if |ts| > 0 {
      var shown := Show(ts[0], date, s);
      StepReads(ts[0], ShowAll(ts[1..], date, s), value, f, date, s);
      assert value[f.pos + |shown|..] == value[f.pos..][|shown|..] == ShowAll(ts[1..], date, s);
      RunReadsAll(ts[1..], value, Took(ts[0], f, date, |shown|), date, s);
    }
  }

  /** A step leaves alone the fields that its token does not set. */
  lemma StepKeeps(t: Token, value: string, f: Fields, s: Settings, k: nat)
    requires Readable(t, s) && 0 < k != Sets(t) && Step(t, value, f, s).Ok?
    ensures var g := Step(t, value, f, s).value;
            (k == 1 ==> g.day == f.day) && (k == 2 ==> g.month == f.month) && (k == 3 ==> g.doy == f.doy)
  {
    hide GetNumber, GetName;
  }

  lemma {:induction false} RunKeeps(ts: seq<Token>, value: string, f: Fields, s: Settings, k: nat)
    requires AllReadable(ts, s) && k > 0 && forall i :: 0 <= i < |ts| ==> Sets(ts[i]) != k
    requires RunTokens(ts, value, f, s).Ok?
    ensures var g := RunTokens(ts, value, f, s).value;
            (k == 1 ==> g.day == f.day) && (k == 2 ==> g.month == f.month) && (k == 3 ==> g.doy == f.doy)
    decreases |ts|
  {
    hide Step, Readable;
    if |ts| > 0 {
      StepKeeps(ts[0], value, f, s, k);
      assert forall i :: 0 <= i < |ts| - 1 ==> ts[1..][i] == ts[i + 1];
      RunKeeps(ts[1..], value, Step(ts[0], value, f, s).value, s, k);
    }
  }

  /** The first number that is not delimited leaves its field too large for good. */
  lemma {:induction false} RunMisreads(ts: seq<Token>, value: string, f: Fields, date: Date, s: Settings) returns (t: Token)
    requires Printable(date) && s.Valid() && AllReadable(ts, s) && !AllDelimited(ts, date, s)
    requires forall i, j :: 0 <= i < j < |ts| && Sets(ts[i]) > 0 ==> Sets(ts[i]) != Sets(ts[j])
    requires f.pos <= |value| && value[f.pos..] == ShowAll(ts, date, s)
    ensures t in ts && IsNumber(t)
    ensures var r := RunTokens(ts, value, f, s);
            r.Ok? ==> FieldOf(t, r.value) > NumberOf(t.kind, date)
    decreases |ts|
  {
    hide Show, Step, Readable, Delimited, Valid, NumberOf;
    var shown, rest := Show(ts[0], date, s), ShowAll(ts[1..], date, s);
    assert forall i :: 0 <= i < |ts| - 1 ==> ts[1..][i] == ts[i + 1];
    if Delimited(ts[0], rest, date, s) {
      StepReads(ts[0], rest, value, f, date, s);
      assert value[f.pos + |shown|..] == value[f.pos..][|shown|..] == rest;
      t := RunMisreads(ts[1..], value, Took(ts[0], f, date, |shown|), date, s);
    } else {
      t := ts[0];
      UndelimitedIsNumber(t, rest, date, s);
      StepMisreads(t, rest, value, f, date, s);
      if RunTokens(ts, value, f, s).Ok? {
        RunKeeps(ts[1..], value, Step(t, value, f, s).value, s, Sets(t));
      }
    }
  }

  lemma UndelimitedIsNumber(t: Token, rest: string, date: Date, s: Settings)
    requires Valid(date) && s.Valid() && !Delimited(t, rest, date, s)
    ensures IsNumber(t) && Sets(t) > 0
  {
  }

  lemma HasNext(ts: seq<Token>, kind: char)
    requires |ts| > 0
    ensures Has(ts, kind) <==> (ts[0].Field? && ts[0].kind == kind) || Has(ts[1..], kind)
  {
    assert ts == [ts[0]] + ts[1..];
  }

  /** Every field the format has ends up with the date's value, and the day of the year only then. */
  lemma {:induction false} TookFields(ts: seq<Token>, f: Fields, date: Date, s: Settings)
    requires Valid(date) && s.Valid()
    ensures var g := TookAll(ts, f, date, s);
            && (f.year == date.year || Has(ts, 'y') ==> g.year == date.year)
            && (f.month == date.month || Has(ts, 'm') || Has(ts, 'M') ==> g.month == date.month)
            && (f.day == date.day || Has(ts, 'd') ==> g.day == date.day)
            && (f.doy == DayOfYear(date) || Has(ts, 'o') ==> g.doy == DayOfYear(date))
            && (f.doy == -1 && !Has(ts, 'o') ==> g.doy == -1)
    decreases |ts|
  {
    hide Show, Has, DayOfYear, Valid;
    if |ts| == 0 {
      HasNone('y');
      HasNone('m');
      HasNone('M');
      HasNone('d');
      HasNone('o');
    } else {
      HasNext(ts, 'y');
      HasNext(ts, 'm');
      HasNext(ts, 'M');
      HasNext(ts, 'd');
      HasNext(ts, 'o');
      TookFields(ts[1..], Took(ts[0], f, date, |Show(ts[0], date, s)|), date, s);
    }
  }

  lemma HasNone(kind: char)
    ensures !Has([], kind)
  {
  }

  predicate DoubledStamp(t: Token) {
    t.Field? && IsStamp(t.kind) && t.doubled
  }

  predicate HasDoubledStamp(ts: seq<Token>) {
    exists t :: t in ts && DoubledStamp(t)
  }

  /** The printer never doubles a timestamp. */
  lemma {:induction false} PrinterStamps(format: string, i: nat, literal: bool)
    ensures !HasDoubledStamp(Tokens(format, i, literal, false))
    decreases |format| - i
  {
    if i < |format| {
      var c := format[i];
      PrinterStamps(format, i + 1, literal);
      PrinterStamps(format, i + 1, !literal);
      PrinterStamps(format, i + 1, false);
      if LooksAhead(format, i, c) {
        PrinterStamps(format, i + 2, literal);
        PrinterStamps(format, i + 2, false);
      }
    }
  }

  lemma DoubledNext(t: Token, ts: seq<Token>)
    ensures HasDoubledStamp([t] + ts) <==> DoubledStamp(t) || HasDoubledStamp(ts)
  {
    if DoubledStamp(t) {
      assert t in [t] + ts;
    }
    if HasDoubledStamp(ts) {
      var u :| u in ts && DoubledStamp(u);
      assert u in [t] + ts;
    }
  }

  lemma {:induction false} SameWithoutStamps(format: string, i: nat, literal: bool)
    requires !HasDoubledStamp(Tokens(format, i, literal, true))
    ensures Tokens(format, i, literal, true) == Tokens(format, i, literal, false)
    decreases |format| - i
  {
    hide HasDoubledStamp;
    if i < |format| {
      var c := format[i];
      var ahead := LooksAhead(format, i, c);
      if c == '\'' && !ahead {
        SameWithoutStamps(format, i + 1, !literal);
      } else if c == '\'' {
        DoubledNext(Literal(c), Tokens(format, i + 2, literal, true));
        SameWithoutStamps(format, i + 2, literal);
      } else if literal || !IsField(c) {
        DoubledNext(Literal(c), Tokens(format, i + 1, literal, true));
        SameWithoutStamps(format, i + 1, literal);
      } else if ahead {
        DoubledNext(Field(c, true), Tokens(format, i + 2, false, true));
        SameWithoutStamps(format, i + 2, false);
      } else {
        DoubledNext(Field(c, false), Tokens(format, i + 1, false, true));
        SameWithoutStamps(format, i + 1, false);
      }
    }
  }

  /** The printer and the parser read a format as the same tokens exactly when the parser finds no doubled timestamp in it. */
  lemma SameTokensIff(format: string)
    ensures Tokens(format, 0, false, true) == Tokens(format, 0, false, false) <==> !HasDoubledStamp(Tokens(format, 0, false, true))
  {
    PrinterStamps(format, 0, false);
    if !HasDoubledStamp(Tokens(format, 0, false, true)) {
      SameWithoutStamps(format, 0, false);
    }
  }

  /** Two at signs: two timestamps are printed, and one is read. */
  lemma TwoStamps()
    ensures Tokens("@@", 0, false, false) == [Field('@', false), Field('@', false)]
    ensures Tokens("@@", 0, false, true) == [Field('@', true)]
  {
  }

  lemma {:induction false} ReadableTokens(format: string, i: nat, literal: bool, s: Settings)
    requires AllReadable(Tokens(format, i, literal, false), s)
    ensures Tokens(format, i, literal, true) == Tokens(format, i, literal, false)
    decreases |format| - i
  {
    if i < |format| {
      var c := format[i];
      var ts := Tokens(format, i, literal, false);
      assert |ts| > 0 ==> ts == [ts[0]] + ts[1..] && forall k :: 0 <= k < |ts| - 1 ==> ts[1..][k] == ts[k + 1];
      if c == '\'' {
        ReadableTokens(format, if LooksAhead(format, i, c) then i + 2 else i + 1, if LooksAhead(format, i, c) then literal else !literal, s);
      } else if literal || !IsField(c) {
        ReadableTokens(format, i + 1, literal, s);
      } else if LooksAhead(format, i, c) && !IsStamp(c) {
        ReadableTokens(format, i + 2, false, s);
      } else {
        assert Readable(ts[0], s);
        ReadableTokens(format, i + 1, false, s);
      }
    }
  }

  lemma {:induction false} YearShows(ts: seq<Token>, date: Date, s: Settings)
    requires Valid(date) && s.Valid() && AllReadable(ts, s) && Has(ts, 'y')
    ensures |ShowAll(ts, date, s)| > 0
    decreases |ts|
  {
    HasNext(ts, 'y');
    if ts[0].Field? && ts[0].kind == 'y' {
      assert Readable(ts[0], s);
    } else {
      YearShows(ts[1..], date, s);
    }
  }

  /** What the parser makes of a printed date is what it makes of the printer's tokens. */
  lemma ParsesPrinted(format: string, date: Date, s: Settings)
    requires Valid(date) && s.Valid()
    requires var ts := Tokens(format, 0, false, false); AllReadable(ts, s) && Fixes(ts)
    ensures var ts := Tokens(format, 0, false, false);
            var value := ShowAll(ts, date, s);
            Parse(format, value, s) == Found(date) <==> Parsed(ts, value, s) == Ok(date)
  {
    hide Tokens, AllReadable, Has, ShowAll, RunTokens, Finish, Valid;
    ReadableTokens(format, 0, false, s);
    YearShows(Tokens(format, 0, false, false), date, s);
  }

  lemma DelimitedReadsBack(ts: seq<Token>, date: Date, s: Settings)
    requires Printable(date) && s.Valid() && AllReadable(ts, s) && Fixes(ts) && AllDelimited(ts, date, s)
    ensures Parsed(ts, ShowAll(ts, date, s), s) == Ok(date)
  {
    hide AllReadable, AllDelimited, Has, ShowAll, RunTokens, TookAll, Days, DayOfYear, YearLength;
    var value := ShowAll(ts, date, s);
    assert value[0..] == value;
    RunReadsAll(ts, value, NoFields(), date, s);
    TookFields(ts, NoFields(), date, s);
    PrintedDayOfYear(date);
    ConfirmedIsValid(date.year, date.month, date.day);
    hide Confirmed, Valid;
  }

  /**
   Parsing the text that a date was printed to gives the date: for every year of four digits and every format whose
   tokens fix the year and either the day of the year or month and day, with quoted and other literals of any kind, when
   no printed number runs into a digit after it.
   */
  lemma RoundTrip(format: string, date: Date, s: Settings)
    requires Printable(date) && s.Valid()
    requires var ts := Tokens(format, 0, false, false); AllReadable(ts, s) && Fixes(ts) && AllDelimited(ts, date, s)
    ensures Parse(format, ShowAll(Tokens(format, 0, false, false), date, s), s) == Found(date)
  {
    hide Tokens, AllReadable, AllDelimited, Fixes, ShowAll, Parse, Parsed;
    ParsesPrinted(format, date, s);
    DelimitedReadsBack(Tokens(format, 0, false, false), date, s);
  }

  // ----- when it fails

  lemma HasSets(ts: seq<Token>, t: Token)
    requires t in ts && t.Field?
    ensures Has(ts, t.kind)
  {
  }

  /** A field that has been read too large is not the date's, so another date or an exception comes out. */
  lemma MisreadIsNotDate(value: string, f: Fields, s: Settings, t: Token, date: Date)
    requires Printable(date) && s.Valid() && IsNumber(t) && FieldOf(t, f) > NumberOf(t.kind, date)
    requires t.kind == 'o' || f.doy == -1
    ensures Finish(value, f, s) != Ok(date)
  {
    hide Confirmed, Days, YearLength, FullYear;
    FieldNumbers(date);
    if t.kind == 'o' && FullYear(f.year, s) == date.year {
      hide DayOfYear;
      DayOfYearInverts(date.year, f.doy);
    }
  }

  lemma {:induction false} RunWithoutDoy(ts: seq<Token>, value: string, s: Settings)
    requires AllReadable(ts, s) && !Has(ts, 'o') && RunTokens(ts, value, NoFields(), s).Ok?
    ensures RunTokens(ts, value, NoFields(), s).value.doy == -1
  {
    forall i | 0 <= i < |ts|
      ensures Sets(ts[i]) != 3
    {
      if ts[i].Field? {
        HasSets(ts, ts[i]);
      }
    }
    RunKeeps(ts, value, NoFields(), s, 3);
  }

  lemma UndelimitedReadsOther(ts: seq<Token>, date: Date, s: Settings)
    requires Printable(date) && s.Valid() && AllReadable(ts, s) && SetOnce(ts) && !AllDelimited(ts, date, s)
    ensures Parsed(ts, ShowAll(ts, date, s), s) != Ok(date)
  {
    hide AllReadable, AllDelimited, ShowAll, RunTokens, Finish, FieldOf, NumberOf, Valid, Has;
    var value := ShowAll(ts, date, s);
    assert value[0..] == value;
    var t := RunMisreads(ts, value, NoFields(), date, s);
    HasSets(ts, t);
    if RunTokens(ts, value, NoFields(), s).Ok? {
      if t.kind != 'o' {
        RunWithoutDoy(ts, value, s);
      }
      MisreadIsNotDate(value, RunTokens(ts, value, NoFields(), s).value, s, t, date);
    }
  }

  /**
   A format that sets no field twice restores a date exactly when none of the numbers printed for that date runs into a
   digit after it.
   */
  lemma RoundTripIff(format: string, date: Date, s: Settings)
    requires Printable(date) && s.Valid()
    requires var ts := Tokens(format, 0, false, false); AllReadable(ts, s) && Fixes(ts) && SetOnce(ts)
    ensures var ts := Tokens(format, 0, false, false);
            Parse(format, ShowAll(ts, date, s), s) == Found(date) <==> AllDelimited(ts, date, s)
  {
    hide Tokens, AllReadable, AllDelimited, Fixes, SetOnce, ShowAll, Parse, Parsed;
    var ts := Tokens(format, 0, false, false);
    ParsesPrinted(format, date, s);
    if AllDelimited(ts, date, s) {
      DelimitedReadsBack(ts, date, s);
    } else {
      UndelimitedReadsOther(ts, date, s);
    }
  }

  // ----- formats that are safe for every date

  predicate StartsPlain(name: string) {
    |name| > 0 && !IsDigit(name[0])
  }

  /** The token prints something that does not begin with a digit, whatever the date. */
  predicate Separates(t: Token, s: Settings) {
    match t
    case Literal(c) => !IsDigit(c)
    case Field(kind, doubled) =>
      || (kind == 'D' && forall i :: 0 <= i < |s.DayNames(doubled)| ==> StartsPlain(s.DayNames(doubled)[i]))
      || (kind == 'M' && forall i :: 0 <= i < |s.MonthNames(doubled)| ==> StartsPlain(s.MonthNames(doubled)[i]))
  }

  /** Readable tokens, each number of variable width at the end or before a separating token. */
  predicate Safe(ts: seq<Token>, s: Settings) {
    |ts| == 0 || (
      && Readable(ts[0], s)
      && (IsNumber(ts[0]) && !ts[0].doubled && |ts| > 1 ==> Separates(ts[1], s))
      && Safe(ts[1..], s))
  }

  lemma {:induction false} SafeIsReadable(ts: seq<Token>, date: Date, s: Settings)
    requires Printable(date) && s.Valid() && Safe(ts, s)
    ensures AllReadable(ts, s) && AllDelimited(ts, date, s)
    decreases |ts|
  {
    hide Days, PrintedDoy, Weekday, Readable, ShortYear;
    if |ts| > 0 {
      SafeIsReadable(ts[1..], date, s);
      assert forall i :: 0 < i < |ts| ==> ts[i] == ts[1..][i - 1];
      if |ts| > 1 && Separates(ts[1], s) {
        assert ts[1..][0] == ts[1];
        MonthInRange(date);
        assert StartsPlain(Show(ts[1], date, s));
      }
      if IsNumber(ts[0]) && ts[0].doubled {
        DoubledIsFull(ts[0], date, s);
      }
    }
  }

  lemma DoubledIsFull(t: Token, date: Date, s: Settings)
    requires Printable(date) && s.Valid() && IsNumber(t) && t.doubled
    ensures |Show(t, date, s)| == Size(t.kind, true)
  {
    hide DayOfYear, Days, PrintedDoy, Number, NumberIn, Valid;
    FieldNumbers(date);
    NumberText(NumberOf(t.kind, date), true, Size(t.kind, true));
  }

  /** A safe format that fixes the date restores every date with a four-digit year. */
  lemma SafeRoundTrip(format: string, s: Settings)
    requires s.Valid() && Safe(Tokens(format, 0, false, false), s) && Fixes(Tokens(format, 0, false, false))
    ensures forall date | Printable(date) :: Parse(format, ShowAll(Tokens(format, 0, false, false), date, s), s) == Found(date)
  {
    hide Tokens, Safe, AllReadable, AllDelimited, Fixes, ShowAll, Parse;
    forall date | Printable(date)
      ensures Parse(format, ShowAll(Tokens(format, 0, false, false), date, s), s) == Found(date)
    {
      SafeIsReadable(Tokens(format, 0, false, false), date, s);
      RoundTrip(format, date, s);
    }
  }

  // ----- an unseparated format

  const UNSEPARATED: seq<Token> := [Field('d', false), Field('m', false), Literal(' '), Field('y', true)]

  lemma UnseparatedTokens()
    ensures Tokens("dm yy", 0, false, false) == UNSEPARATED
  {
    assert Tokens("dm yy", 3, false, false) == [Field('y', true)];
    assert Tokens("dm yy", 2, false, false) == [Literal(' '), Field('y', true)];
    assert Tokens("dm yy", 1, false, false) == [Field('m', false), Literal(' '), Field('y', true)];
  }

  lemma UnseparatedShows(date: Date, s: Settings)
    requires Valid(date) && s.Valid()
    ensures ShowAll(UNSEPARATED, date, s) == Text(date.day) + (Text(date.month) + ([' '] + Text(date.year)))
    ensures ShowAll(UNSEPARATED[1..], date, s) == Text(date.month) + ([' '] + Text(date.year))
    ensures ShowAll(UNSEPARATED[2..], date, s) == [' '] + Text(date.year)
  {
    hide Valid;
    var ts := UNSEPARATED;
    assert ts[1..][1..] == ts[2..] && ts[2..][1..] == ts[3..] && ts[3..][1..] == [];
    assert ShowAll(ts[3..], date, s) == Text(date.year) + "";
    assert ts[2..][0] == Literal(' ') && ts[1..][0] == Field('m', false);
    assert ShowAll(ts, date, s) == Show(ts[0], date, s) + ShowAll(ts[1..], date, s);
  }

  lemma UnseparatedFits(s: Settings)
    ensures AllReadable(UNSEPARATED, s) && Fixes(UNSEPARATED) && SetOnce(UNSEPARATED)
  {
    var ts := UNSEPARATED;
    assert Field('d', false) in ts && Field('m', false) in ts && Field('y', true) in ts;
  }

  lemma DelimitedNext(ts: seq<Token>, date: Date, s: Settings)
    requires Valid(date) && s.Valid() && |ts| > 0
    ensures AllDelimited(ts, date, s) <==>
              Delimited(ts[0], ShowAll(ts[1..], date, s), date, s) && AllDelimited(ts[1..], date, s)
  {
  }

  lemma OnlyNumbersMatter(t: Token, rest: string, date: Date, s: Settings)
    requires Valid(date) && s.Valid() && !IsNumber(t)
    ensures Delimited(t, rest, date, s)
  {
  }

  /** From the month on everything is delimited: a space follows it. */
  lemma MonthDelimits(date: Date, s: Settings)
    requires Valid(date) && s.Valid()
    ensures AllDelimited(UNSEPARATED[1..], date, s)
  {
    UnseparatedShows(date, s);
    var t1, t2, t3 := UNSEPARATED[1..], UNSEPARATED[2..], UNSEPARATED[3..];
    assert t1[0] == Field('m', false) && t2[0] == Literal(' ') && t3[0] == Field('y', true);
    assert t1[1..] == t2 && t2[1..] == t3 && t3[1..] == [];
    OnlyNumbersMatter(t3[0], ShowAll([], date, s), date, s);
    OnlyNumbersMatter(t2[0], ShowAll(t3, date, s), date, s);
    assert NoDigitAhead(ShowAll(t2, date, s));
    hide ShowAll, NoDigitAhead, Show;
    DelimitedNext(t3, date, s);
    DelimitedNext(t2, date, s);
    DelimitedNext(t1, date, s);
  }

  /** On this format the exact condition is a day of two digits: the month begins with a digit, and a space follows it. */
  lemma UnseparatedDelimits(date: Date, s: Settings)
    requires Printable(date) && s.Valid()
    ensures AllDelimited(UNSEPARATED, date, s) <==> date.day >= 10
  {
    UnseparatedShows(date, s);
    DecimalLength(date.day);
    hide Text, Valid, ShowAll, AllDelimited;
    MonthDelimits(date, s);
    DelimitedNext(UNSEPARATED, date, s);
    MonthStartsWithDigit(date);
  }

  lemma MonthStartsWithDigit(date: Date)
    requires Valid(date)
    ensures IsDigit(Text(date.month)[0])
  {
  }

  /**
   Without a separator: the first of November prints as the eleventh of January does, and is read as that; the eleventh of
   November prints and reads back.
   */
  lemma UnseparatedIsAmbiguous(s: Settings)
    requires s.Valid()
    ensures var ts := Tokens("dm yy", 0, false, false);
            var text := ShowAll(ts, Date(2013, 11, 1), s);
            && text == ShowAll(ts, Date(2013, 1, 11), s)
            && Parse("dm yy", text, s) == Found(Date(2013, 1, 11))
            && Parse("dm yy", ShowAll(ts, Date(2013, 11, 11), s), s) == Found(Date(2013, 11, 11))
  {
    hide Tokens, ShowAll, AllDelimited, AllReadable, Fixes, Parse;
    UnseparatedTokens();
    UnseparatedFits(s);
    SharedText(s);
    UnseparatedDelimits(Date(2013, 1, 11), s);
    RoundTrip("dm yy", Date(2013, 1, 11), s);
    UnseparatedDelimits(Date(2013, 11, 11), s);
    RoundTrip("dm yy", Date(2013, 11, 11), s);
  }

  lemma SharedText(s: Settings)
    requires s.Valid()
    ensures ShowAll(UNSEPARATED, Date(2013, 11, 1), s) == ShowAll(UNSEPARATED, Date(2013, 1, 11), s)
  {
    UnseparatedShows(Date(2013, 11, 1), s);
    UnseparatedShows(Date(2013, 1, 11), s);
    hide ShowAll;
    assert Decimal(11) == Decimal(1) + Decimal(1);
    hide Decimal;
    Repeated(Text(1), [' '] + Text(2013));
  }

  lemma Repeated(a: string, rest: string)
    ensures a + ((a + a) + rest) == (a + a) + (a + rest)
  {
  }
}
