/**
 How a date format is read, piece by piece, and what each token prints and takes (js/jquery-ui.js:8671-8832, 8879-8964).
 */
module DateTokens {
  import opened CivilDates
  import opened DateFormats
  import opened DateParsing
  import R = DateRoundTrip

  // ----- the syntax of formats

  lemma {:induction false} TokensFrom(format: string, k: nat, i: nat, literal: bool, stampsDouble: bool)
    requires k <= |format|
    ensures Tokens(format, k + i, literal, stampsDouble) == Tokens(format[k..], i, literal, stampsDouble)
    decreases |format| - i
  {
    if k + i < |format| {
      assert LooksAhead(format, k + i, format[k + i]) == LooksAhead(format[k..], i, format[k..][i]);
      TokensFrom(format, k, i + 1, literal, stampsDouble);
      TokensFrom(format, k, i + 1, !literal, stampsDouble);
      TokensFrom(format, k, i + 1, false, stampsDouble);
      TokensFrom(format, k, i + 2, literal, stampsDouble);
      TokensFrom(format, k, i + 2, false, stampsDouble);
    }
  }

  /** What follows the first `k` characters, when these have been read. */
  lemma RestOfFormat(format: string, k: nat, rest: string, literal: bool, stampsDouble: bool)
    requires k <= |format| && format[k..] == rest
    ensures Tokens(format, k, literal, stampsDouble) == Tokens(rest, 0, literal, stampsDouble)
  {
    TokensFrom(format, k, 0, literal, stampsDouble);
  }

  /** A field letter stands for a field, and two of them for one doubled field; the printer does not double timestamps. */
  lemma FieldSyntax(c: char, rest: string, stampsDouble: bool)
    requires c in "dDomMy@!"
    ensures c in "dDomMy" || stampsDouble ==>
              Tokens([c, c] + rest, 0, false, stampsDouble) == [Field(c, true)] + Tokens(rest, 0, false, stampsDouble)
    ensures |rest| == 0 || rest[0] != c || (c in "@!" && !stampsDouble) ==>
              Tokens([c] + rest, 0, false, stampsDouble) == [Field(c, false)] + Tokens(rest, 0, false, stampsDouble)
  {
    assert ([c, c] + rest)[2..] == rest && ([c] + rest)[1..] == rest;
    RestOfFormat([c, c] + rest, 2, rest, false, stampsDouble);
    RestOfFormat([c] + rest, 1, rest, false, stampsDouble);
    assert LooksAhead([c, c] + rest, 0, c) && LooksAhead([c] + rest, 0, c) == (|rest| > 0 && rest[0] == c);
  }

  /** Any other character but the quote stands for itself, and two quotes stand for one. */
  lemma PlainSyntax(c: char, rest: string, stampsDouble: bool)
    ensures c !in "dDomMy@!'" ==> Tokens([c] + rest, 0, false, stampsDouble) == [Literal(c)] + Tokens(rest, 0, false, stampsDouble)
    ensures Tokens("''" + rest, 0, false, stampsDouble) == [Literal('\'')] + Tokens(rest, 0, false, stampsDouble)
  {
    assert ("''" + rest)[2..] == rest && ([c] + rest)[1..] == rest;
    RestOfFormat("''" + rest, 2, rest, false, stampsDouble);
    RestOfFormat([c] + rest, 1, rest, false, stampsDouble);
    assert LooksAhead("''" + rest, 0, '\'');
  }

  /** A text with its quotes doubled. */
  function Doubled(text: string): string {
    if |text| == 0 then "" else (if text[0] == '\'' then "''" else [text[0]]) + Doubled(text[1..])
  }

  function Literals(text: string): seq<Token> {
    if |text| == 0 then [] else [Literal(text[0])] + Literals(text[1..])
  }

  lemma {:induction false} InsideQuotes(text: string, rest: string, stampsDouble: bool)
    requires |rest| == 0 || rest[0] != '\''
    ensures Tokens(Doubled(text) + "'" + rest, 0, true, stampsDouble) == Literals(text) + Tokens(rest, 0, false, stampsDouble)
    decreases |text|
  {
    var format := Doubled(text) + "'" + rest;
    if |text| == 0 {
      assert format[1..] == rest && LooksAhead(format, 0, '\'') == (|rest| > 0 && rest[0] == '\'');
      RestOfFormat(format, 1, rest, false, stampsDouble);
    } else {
      var k := if text[0] == '\'' then 2 else 1;
      var more := Doubled(text[1..]) + "'" + rest;
      assert format[k..] == more && (text[0] == '\'' ==> LooksAhead(format, 0, '\''));
      RestOfFormat(format, k, more, true, stampsDouble);
      InsideQuotes(text[1..], rest, stampsDouble);
    }
  }

  /** A quoted text stands for its characters, field letters among them; a quote in it is doubled. */
  lemma QuotedSyntax(text: string, rest: string, stampsDouble: bool)
    requires |text| > 0 && text[0] != '\'' && (|rest| == 0 || rest[0] != '\'')
    ensures Tokens("'" + Doubled(text) + "'" + rest, 0, false, stampsDouble) ==
            Literals(text) + Tokens(rest, 0, false, stampsDouble)
  {
    var format := "'" + Doubled(text) + "'" + rest;
    assert format[1..] == Doubled(text) + "'" + rest && !LooksAhead(format, 0, '\'');
    RestOfFormat(format, 1, Doubled(text) + "'" + rest, true, stampsDouble);
    InsideQuotes(text, rest, stampsDouble);
  }

  // ----- what a token takes

  /** A digit stands at `pos`. */
  predicate DigitAt(value: string, pos: nat) {
    pos < |value| && '0' <= value[pos] <= '9'
  }

  lemma {:induction false} RunIsLongest(value: string, pos: nat, size: nat)
    ensures var n := Run(value, pos, size);
            (forall i: nat :: pos <= i < pos + n ==> DigitAt(value, i)) && (n == size || !DigitAt(value, pos + n))
    decreases size
  {
    if size > 0 && pos < |value| && IsDigit(value[pos]) {
      RunIsLongest(value, pos + 1, size - 1);
    }
  }

  /** A number is the longest run of digits, at most `size` of them, and an exception says where there is none. */
  lemma NumberTaken(value: string, pos: nat, size: nat)
    requires size > 0
    ensures match GetNumber(value, pos, size)
            case Err(e) => e == MissingNumber(pos) && !DigitAt(value, pos)
            case Ok((n, q)) =>
              && pos < q <= |value| && q - pos <= size && n == NumberIn(value[pos..q])
              && (forall i: nat :: pos <= i < q ==> DigitAt(value, i)) && (q - pos == size || !DigitAt(value, q))
  {
    hide NumberIn;
    RunIsLongest(value, pos, size);
  }

  /** The digits that a number field may have: 14 and 20 for timestamps, 4 for `yy`, 3 for `o`, and 2 for the others. */
  lemma FieldSizes(value: string, f: Fields, s: Settings, kind: char, doubled: bool)
    requires kind in "domy@!"
    ensures var size := if kind == '@' then 14 else if kind == '!' then 20 else if kind == 'o' then 3
                        else if kind == 'y' && doubled then 4 else 2;
            match GetNumber(value, f.pos, size)
            case Err(e) => Step(Field(kind, doubled), value, f, s) == Err(e)
            case Ok((n, pos)) =>
              var d := s.dateOfStamp(kind, n);
              Step(Field(kind, doubled), value, f, s) == Ok(
                if kind == 'd' then Fields(pos, f.year, f.month, n, f.doy)
                else if kind == 'o' then Fields(pos, f.year, f.month, f.day, n)
                else if kind == 'm' then Fields(pos, f.year, n, f.day, f.doy)
                else if kind == 'y' then Fields(pos, n, f.month, f.day, f.doy)
                else Fields(pos, d.year, d.month, d.day, f.doy))
  {
    hide GetNumber;
  }

  /** `text` is a name of the list, whatever the case of its letters. */
  predicate Spells(text: string, name: string, lower: char -> char) {
    |text| == |name| && forall i :: 0 <= i < |text| ==> lower(text[i]) == lower(name[i])
  }

  /** The name that stands at `pos`, and a longest one if several do; an exception says where none does. */
  lemma NameTaken(value: string, pos: nat, names: seq<string>, lower: char -> char)
    requires pos <= |value|
    ensures match GetName(value, pos, names, lower)
            case Err(e) =>
              && e == UnknownName(pos)
              && forall k: nat, q: nat :: k < |names| && pos <= q <= |value| ==> !Spells(value[pos..q], names[k], lower)
            case Ok((k, q)) =>
              && 0 < k <= |names| && pos <= q <= |value| && Spells(value[pos..q], names[k - 1], lower)
              && forall j: nat, r: nat :: j < |names| && pos <= r <= |value| && Spells(value[pos..r], names[j], lower) ==> r <= q
  {
    hide FirstMatch, Sorted, MatchesAt;
    var ps := Sorted(names);
    R.SortedHolds(names);
    R.SortedFalls(names);
    R.FirstIsLongest(value, pos, ps, lower);
    var found := FirstMatch(value, pos, ps, lower);
    forall j: nat, r: nat | j < |names| && pos <= r <= |value| && Spells(value[pos..r], names[j], lower)
      ensures found.Some? && r <= pos + |found.value.1|
    {
      SpelledAt(value, pos, r, names[j], lower);
      assert (j, names[j]) in ps && MatchesAt(value, pos, (j, names[j]).1, lower);
    }
    if found.Some? {
      MatchFits(value, pos, found.value.1, lower);
      SpelledAt(value, pos, pos + |found.value.1|, found.value.1, lower);
    }
  }

  lemma MatchFits(value: string, pos: nat, name: string, lower: char -> char)
    requires MatchesAt(value, pos, name, lower)
    ensures pos + |name| <= |value|
  {
  }

  lemma SpelledAt(value: string, pos: nat, r: nat, name: string, lower: char -> char)
    requires pos <= r <= |value|
    ensures Spells(value[pos..r], name, lower) <==> r == pos + |name| && MatchesAt(value, pos, name, lower)
  {
    if r == pos + |name| && Spells(value[pos..r], name, lower) {
      assert forall i :: 0 <= i < |name| ==> value[pos..r][i] == value[pos + i];
    }
  }

  /** The letters D and M take a name of the short list, doubled of the long one; only a month is kept. */
  lemma FieldNames(value: string, f: Fields, s: Settings, kind: char, doubled: bool)
    requires kind in "DM"
    ensures var names := if kind == 'D' then (if doubled then s.dayNames else s.dayNamesShort)
                         else if doubled then s.monthNames else s.monthNamesShort;
            match GetName(value, f.pos, names, s.lower)
            case Err(e) => Step(Field(kind, doubled), value, f, s) == Err(e)
            case Ok((k, pos)) =>
              Step(Field(kind, doubled), value, f, s) == Ok(Fields(pos, f.year, if kind == 'M' then k else f.month, f.day, f.doy))
  {
    hide GetName;
  }

  /**
   A year below 100 is put into this century exactly when it does not exceed the cutoff, and otherwise into the one before;
   a missing year is the current one, and any other is itself.
   */
  lemma CenturyOf(year: int, s: Settings)
    requires s.currentYear >= 0
    ensures 0 <= year < 100 ==>
              && FullYear(year, s) % 100 == year
              && (FullYear(year, s) / 100 == s.currentYear / 100 <==> year <= s.shortYearCutoff)
              && (FullYear(year, s) / 100 == s.currentYear / 100 - 1 <==> year > s.shortYearCutoff)
    ensures year == -1 ==> FullYear(year, s) == s.currentYear
    ensures year >= 100 ==> FullYear(year, s) == year
  {
    var c, r := s.currentYear / 100, s.currentYear % 100;
    assert s.currentYear == c * 100 + r;
    if 0 <= year < 100 {
      assert FullYear(year, s) == (if year <= s.shortYearCutoff then c else c - 1) * 100 + year;
    }
  }

  /** The character that ends a value early is a blank one: the code points of `\s`. */
  lemma Spaces(c: char)
    ensures IsSpace(c) <==>
              c as int in {9, 10, 11, 12, 13, 32, 0xA0, 0x1680, 0x2028, 0x2029, 0x202F, 0x205F, 0x3000, 0xFEFF} ||
              0x2000 <= c as int <= 0x200A
  {
  }

  // ----- dates from numbers

  /** `new Date(y, month, day)`: days and months carry over, and the years 0 to 99 are those of the 20th century. */
  lemma DateOf(y: int, month: int, day: int)
    ensures var first := Date((if 0 <= y <= 99 then 1900 + y else y) + month / 12, month % 12 + 1, 1);
            Valid(NewDate(y, month, day)) && Valid(first) && Days(NewDate(y, month, day)) == Days(first) + day - 1
    ensures PlainYear(y) <==> y < 0 || y > 99
  {
    hide Days, Plus;
    PlusDays(MonthStart(YearArgument(y), month), day - 1);
  }
}
