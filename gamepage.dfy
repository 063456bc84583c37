/**
 * Gamebox's group page: ISO dates shown as month-day-year, the ordering of
 * a group's games and sub-groups, and the split of a long group into
 * pages of twenty entries whose page number survives between calls.
 */
module GamePages {
  import opened Text
  import opened GameSets
  import opened GameGroups
  import Vectors

  // ---------------------------------------------------------------------
  // Decimal numbers
  // ---------------------------------------------------------------------

  function Pow10(n: nat): (r: nat)
    ensures r > 0
  {
    if n == 0 then 1 else 10 * Pow10(n - 1)
  }

  lemma {:induction false} Pow10Grows(a: nat, b: nat)
    requires a <= b
    ensures Pow10(a) <= Pow10(b)
    decreases b
  {
    if a < b {
      Pow10Grows(a, b - 1);
    }
  }

  function DigitChar(d: nat): char
    requires d < 10
  {
    ('0' as int + d) as char
  }

  function DigitValue(c: char): nat
    requires IsDigit(c)
  {
    c as int - '0' as int
  }

  predicate AllDigits(t: string)
  {
    forall k :: 0 <= k < |t| ==> IsDigit(t[k])
  }

  /** The number a run of decimal digits spells. */
  function Value(t: string): (r: nat)
    requires AllDigits(t)
    ensures r < Pow10(|t|)
  {
    if |t| == 0 then 0 else 10 * Value(t[..|t| - 1]) + DigitValue(t[|t| - 1])
  }

  /** The shortest decimal spelling of `n`: `printf("%d")` of a non-negative value. */
  function Decimal(n: nat): (r: string)
    ensures |r| > 0 && AllDigits(r)
  {
    if n < 10 then [DigitChar(n)] else Decimal(n / 10) + [DigitChar(n % 10)]
  }

  function Repeat(c: char, count: int): (r: string)
    ensures |r| == if count <= 0 then 0 else count
    ensures forall k :: 0 <= k < |r| ==> r[k] == c
    decreases count
  {
    if count <= 0 then "" else [c] + Repeat(c, count - 1)
  }

  function Magnitude(n: int): nat
  {
    if n < 0 then -n else n
  }

  /** `printf("%0<width>d", n)`: the sign, then zeros up to `width` characters, then the digits. */
  function ZeroPadded(n: int, width: nat): string
  {
    var sign := if n < 0 then "-" else "";
    var digits := Decimal(Magnitude(n));
    sign + Repeat('0', width - |sign| - |digits|) + digits
  }

  /** `printf("%<width>d", n)`: spaces up to `width` characters, then the sign and digits. */
  function SpacePadded(n: int, width: nat): string
  {
    var sign := if n < 0 then "-" else "";
    var digits := Decimal(Magnitude(n));
    Repeat(' ', width - |sign| - |digits|) + sign + digits
  }

  lemma {:induction false} DecimalValue(n: nat)
    ensures Value(Decimal(n)) == n
  {
    if n >= 10 {
      DecimalValue(n / 10);
      var d := Decimal(n);
      assert d[..|d| - 1] == Decimal(n / 10);
    }
  }

  lemma {:induction false} DecimalLength(n: nat, width: nat)
    requires n < Pow10(width) && width > 0
    ensures |Decimal(n)| <= width
  {
    if n >= 10 {
      assert width > 1;
      DecimalLength(n / 10, width - 1);
    }
  }

  lemma {:induction false} LeadingZeros(count: nat, t: string)
    requires AllDigits(t)
    ensures AllDigits(Repeat('0', count) + t)
    ensures Value(Repeat('0', count) + t) == Value(t)
    decreases |t|
  {
    var z := Repeat('0', count);
    if |t| == 0 {
      assert z + t == z;
      Zeros(count);
    } else {
      var init := t[..|t| - 1];
      LeadingZeros(count, init);
      assert (z + t)[..|z + t| - 1] == z + init;
    }
  }

  lemma {:induction false} Zeros(count: nat)
    ensures AllDigits(Repeat('0', count)) && Value(Repeat('0', count)) == 0
    decreases count
  {
    if count > 0 {
      Zeros(count - 1);
      var z := Repeat('0', count);
      assert z[..|z| - 1] == Repeat('0', count - 1);
    }
  }

  lemma ZeroPaddedNatural(n: nat, width: nat)
    ensures ZeroPadded(n, width) == Repeat('0', width - |Decimal(n)|) + Decimal(n)
  {
    assert Magnitude(n) == n;
    var z := Repeat('0', width - |Decimal(n)|);
    assert "" + z == z;
  }

  /** Zero padding a number that fits gives exactly `width` digits spelling it. */
  lemma ZeroPaddedValue(n: nat, width: nat)
    requires n < Pow10(width) && width > 0
    ensures |ZeroPadded(n, width)| == width
    ensures AllDigits(ZeroPadded(n, width)) && Value(ZeroPadded(n, width)) == n
  {
    var digits := Decimal(n);
    DecimalLength(n, width);
    DecimalValue(n);
    LeadingZeros(width - |digits|, digits);
    ZeroPaddedNatural(n, width);
  }

  // ---------------------------------------------------------------------
  // The `sscanf` subset used to read dates
  // ---------------------------------------------------------------------

  /** A format directive: ` `, `%<width>d`, an ordinary character, or `%c`. */
  datatype Directive = Blank | Number(width: nat) | Literal(c: char) | AnyChar

  /** A format string, one directive after another. */
  datatype Format = End | Then(first: Directive, rest: Format)

  /** A converted value. */
  datatype Item = IntItem(n: int) | CharItem(c: char)

  function Min(a: int, b: int): int
  {
    if a < b then a else b
  }

  /**
   * `%<width>d` from index `i`: skip white space, then at most `width`
   * characters made of an optional sign and at least one digit.  The
   * result is the value and the index after it.
   */
  function ScanInt(s: string, i: nat, width: nat): (r: Option<(int, nat)>)
    requires i <= |s| && width > 0
    ensures r.Some? ==> i < r.value.1 <= |s|
  {
    var j := Span(s, i, IsSpace);
    var signed := j < |s| && (s[j] == '-' || s[j] == '+');
    var start := if signed then j + 1 else j;
    var limit := Min(|s|, j + width);
    var end := Span(s[..limit], start, IsDigit);
    if end == start then None
    else
      var magnitude: int := Value(s[start..end]);
      var v: int := if signed && s[j] == '-' then -magnitude else magnitude;
      Some((v, end))
  }

  /**
   * The values `sscanf` stores, in order, up to the first directive that
   * fails; its count is the length of the result.
   */
  function ScanF(s: string, i: nat, format: Format): seq<Item>
    requires i <= |s|
    decreases format
  {
    match format {
      case End => []
      case Then(Blank, rest) => ScanF(s, Span(s, i, IsSpace), rest)
      case Then(Literal(c), rest) => if i < |s| && s[i] == c then ScanF(s, i + 1, rest) else []
      case Then(AnyChar, rest) => if i < |s| then [CharItem(s[i])] + ScanF(s, i + 1, rest) else []
      case Then(Number(w), rest) =>
        if w == 0 then []
        else match ScanInt(s, i, w) {
          case None => []
          case Some((v, j)) => [IntItem(v)] + ScanF(s, j, rest)
        }
    }
  }

  /** `%c` */
  const CharEnd := Then(AnyChar, End)
  /** `-%02d%c` */
  const DashMonth := Then(Literal('-'), Then(Number(2), CharEnd))
  /** `-%02d-%02d%c` */
  const DashMonthDay := Then(Literal('-'), Then(Number(2), Then(Literal('-'), Then(Number(2), CharEnd))))
  /** ` %04d-%02d-%02d%c` */
  const FullDate := Then(Blank, Then(Number(4), DashMonthDay))
  /** ` %04d-%02d%c` */
  const MonthDate := Then(Blank, Then(Number(4), DashMonth))
  /** ` %04d%c` */
  const YearDate := Then(Blank, Then(Number(4), CharEnd))

  /** Exactly `n` numbers, or `n` numbers and then a space. */
  predicate Accepted(items: seq<Item>, n: nat)
  {
    |items| == n || (|items| == n + 1 && items[n] == CharItem(' '))
  }

  function Field(items: seq<Item>, k: nat): int
  {
    if k < |items| && items[k].IntItem? then items[k].n else 0
  }

  const MonthNames := ["Jan", "Feb", "Mar", "Apr", "May", "Jun",
                       "Jul", "Aug", "Sep", "Oct", "Nov", "Dec"]

  /** The month abbreviation and a space, or nothing for month 0. */
  function MonthPart(month: int): string
    requires 0 <= month <= 12
  {
    if month == 0 then "" else MonthNames[month - 1] + " "
  }

  /** The day right-aligned in two columns and a space, or nothing for day 0. */
  function DayPart(day: int): string
    requires 0 <= day <= 31
  {
    if day == 0 then "" else SpacePadded(day, 2) + " "
  }

  function Render(iso: string, year: int, month: int, day: int): string
  {
    if month < 0 || month > 12 || day < 0 || day > 31 then iso
    else MonthPart(month) + DayPart(day) + ZeroPadded(year, 4)
  }

  /**
   * `gamepage_convert_date`: the text shown for a release date.  The
   * three formats are tried longest first; a format is taken when it
   * stores all its numbers and nothing, or a space, follows them.
   */
  function ConvertDate(iso: string): string
  {
    var full := ScanF(iso, 0, FullDate);
    var month := ScanF(iso, 0, MonthDate);
    var year := ScanF(iso, 0, YearDate);
    if Accepted(full, 3) then Render(iso, Field(full, 0), Field(full, 1), Field(full, 2))
    else if Accepted(month, 2) then Render(iso, Field(month, 0), Field(month, 1), 0)
    else if Accepted(year, 1) then Render(iso, Field(year, 0), 0, 0)
    else iso
  }

  /** What may follow a date: nothing, or a space and anything. */
  predicate DateTail(tail: string)
  {
    tail == "" || tail[0] == ' '
  }

  /** `width` digits at `i` are read back as the number they spell. */
  lemma ScanDigits(s: string, i: nat, width: nat)
    requires width > 0 && i + width <= |s| && AllDigits(s[i..i + width])
    ensures ScanInt(s, i, width) == Some((Value(s[i..i + width]), i + width))
  {
    assert IsDigit(s[i..i + width][0]);
    SpanIs(s, i, i, IsSpace);
    var t := s[..i + width];
    assert forall k :: i <= k < i + width ==> t[k] == s[i..i + width][k - i];
    SpanIs(t, i, i + width, IsDigit);
    assert t[i..i + width] == s[i..i + width];
  }

  /** A format that starts with ` %04d` skips no blanks before a digit. */
  lemma YearStep(s: string, rest: Format)
    requires |s| >= 4 && AllDigits(s[0..4])
    ensures ScanF(s, 0, Then(Blank, Then(Number(4), rest))) == [IntItem(Value(s[0..4]))] + ScanF(s, 4, rest)
  {
    assert IsDigit(s[0..4][0]);
    SpanIs(s, 0, 0, IsSpace);
    ScanDigits(s, 0, 4);
  }

  /** `-%02d` at `i`. */
  lemma DashNumberStep(s: string, i: nat, rest: Format)
    requires i + 3 <= |s| && s[i] == '-' && AllDigits(s[i + 1..i + 3])
    ensures ScanF(s, i, Then(Literal('-'), Then(Number(2), rest))) == [IntItem(Value(s[i + 1..i + 3]))] + ScanF(s, i + 3, rest)
  {
    ScanDigits(s, i + 1, 2);
  }

  /** The closing `%c`: the next character, if there is one. */
  lemma CharStep(s: string, i: nat)
    requires i <= |s|
    ensures ScanF(s, i, CharEnd) == if i < |s| then [CharItem(s[i])] else []
  {
  }

  /** Three numbers and what `%c` read after them, if anything. */
  lemma ThreeNumbers(items: seq<Item>, a: int, b: int, c: int, rest: seq<Item>)
    requires items == [IntItem(a)] + ([IntItem(b)] + ([IntItem(c)] + rest))
    requires rest == [] || rest == [CharItem(' ')]
    ensures Accepted(items, 3) && Field(items, 0) == a && Field(items, 1) == b && Field(items, 2) == c
  {
  }

  lemma TwoNumbers(items: seq<Item>, a: int, b: int, rest: seq<Item>)
    requires items == [IntItem(a)] + ([IntItem(b)] + rest)
    requires rest == [] || rest == [CharItem(' ')]
    ensures Accepted(items, 2) && Field(items, 0) == a && Field(items, 1) == b
    ensures rest == [] ==> !Accepted(items, 3)
  {
  }

  /** What `gamepage_convert_date` reads from `YYYY-MM-DD`. */
  lemma FullFields(s: string)
    requires |s| >= 10 && AllDigits(s[0..4]) && s[4] == '-' && AllDigits(s[5..7])
    requires s[7] == '-' && AllDigits(s[8..10]) && (|s| == 10 || s[10] == ' ')
    ensures var items := ScanF(s, 0, FullDate);
      Accepted(items, 3) && Field(items, 0) == Value(s[0..4]) && Field(items, 1) == Value(s[5..7])
      && Field(items, 2) == Value(s[8..10])
  {
    YearStep(s, DashMonthDay);
    DashNumberStep(s, 4, Then(Literal('-'), Then(Number(2), CharEnd)));
    DashNumberStep(s, 7, CharEnd);
    CharStep(s, 10);
    ThreeNumbers(ScanF(s, 0, FullDate), Value(s[0..4]), Value(s[5..7]), Value(s[8..10]), ScanF(s, 10, CharEnd));
  }

  /** What `gamepage_convert_date` reads from `YYYY-MM`. */
  lemma MonthFields(s: string)
    requires |s| >= 7 && AllDigits(s[0..4]) && s[4] == '-' && AllDigits(s[5..7])
    requires |s| == 7 || s[7] == ' '
    ensures !Accepted(ScanF(s, 0, FullDate), 3)
    ensures var items := ScanF(s, 0, MonthDate);
      Accepted(items, 2) && Field(items, 0) == Value(s[0..4]) && Field(items, 1) == Value(s[5..7])
  {
    YearStep(s, DashMonthDay);
    DashNumberStep(s, 4, Then(Literal('-'), Then(Number(2), CharEnd)));
    assert ScanF(s, 7, Then(Literal('-'), Then(Number(2), CharEnd))) == [];
    TwoNumbers(ScanF(s, 0, FullDate), Value(s[0..4]), Value(s[5..7]), []);
    YearStep(s, DashMonth);
    DashNumberStep(s, 4, CharEnd);
    CharStep(s, 7);
    TwoNumbers(ScanF(s, 0, MonthDate), Value(s[0..4]), Value(s[5..7]), ScanF(s, 7, CharEnd));
  }

  /** What `gamepage_convert_date` reads from `YYYY`. */
  lemma YearFields(s: string)
    requires |s| >= 4 && AllDigits(s[0..4]) && (|s| == 4 || s[4] == ' ')
    ensures !Accepted(ScanF(s, 0, FullDate), 3) && !Accepted(ScanF(s, 0, MonthDate), 2)
    ensures var items := ScanF(s, 0, YearDate);
      Accepted(items, 1) && Field(items, 0) == Value(s[0..4])
  {
    YearAlone(s, DashMonthDay);
    YearAlone(s, DashMonth);
    YearStep(s, CharEnd);
    CharStep(s, 4);
  }

  /** After a bare year, a format that wants a `-` next reads nothing more. */
  lemma YearAlone(s: string, rest: Format)
    requires |s| >= 4 && AllDigits(s[0..4]) && (|s| == 4 || s[4] == ' ')
    requires rest == DashMonthDay || rest == DashMonth
    ensures ScanF(s, 0, Then(Blank, Then(Number(4), rest))) == [IntItem(Value(s[0..4]))]
  {
    YearStep(s, rest);
    assert ScanF(s, 4, rest) == [];
  }

  lemma ConvertTakesFull(iso: string)
    requires Accepted(ScanF(iso, 0, FullDate), 3)
    ensures var full := ScanF(iso, 0, FullDate);
      ConvertDate(iso) == Render(iso, Field(full, 0), Field(full, 1), Field(full, 2))
  {
  }

  lemma ConvertTakesMonth(iso: string)
    requires !Accepted(ScanF(iso, 0, FullDate), 3) && Accepted(ScanF(iso, 0, MonthDate), 2)
    ensures var month := ScanF(iso, 0, MonthDate);
      ConvertDate(iso) == Render(iso, Field(month, 0), Field(month, 1), 0)
  {
  }

  lemma ConvertTakesYear(iso: string)
    requires !Accepted(ScanF(iso, 0, FullDate), 3) && !Accepted(ScanF(iso, 0, MonthDate), 2)
    requires Accepted(ScanF(iso, 0, YearDate), 1)
    ensures ConvertDate(iso) == Render(iso, Field(ScanF(iso, 0, YearDate), 0), 0, 0)
  {
  }

  /**
   * `YYYY-MM-DD`, alone or followed by a space, is shown as month, day and
   * year, month and day left out when zero; a month past 12 or a day past
   * 31 leaves the text as it was.
   */
  lemma ConvertFullDate(year: nat, month: nat, day: nat, tail: string)
    requires year < 10000 && month < 100 && day < 100 && DateTail(tail)
    ensures var iso := ZeroPadded(year, 4) + "-" + ZeroPadded(month, 2) + "-" + ZeroPadded(day, 2) + tail;
      ConvertDate(iso) == if month > 12 || day > 31 then iso
                          else MonthPart(month) + DayPart(day) + ZeroPadded(year, 4)
  {
    var y, m, d := ZeroPadded(year, 4), ZeroPadded(month, 2), ZeroPadded(day, 2);
    ZeroPaddedValue(year, 4);
    ZeroPaddedValue(month, 2);
    ZeroPaddedValue(day, 2);
    var iso := y + "-" + m + "-" + d + tail;
    FullDatePieces(y, m, d, tail);
    FullFields(iso);
    ConvertTakesFull(iso);
  }

  /** Where the pieces of `YYYY-MM-DD` sit in the text. */
  lemma FullDatePieces(y: string, m: string, d: string, tail: string)
    requires |y| == 4 && |m| == 2 && |d| == 2
    ensures var iso := y + "-" + m + "-" + d + tail;
      |iso| >= 10 && iso[0..4] == y && iso[4] == '-' && iso[5..7] == m && iso[7] == '-' && iso[8..10] == d
      && (|iso| > 10 ==> iso[10] == tail[0])
  {
  }

  /** `YYYY-MM`: the month and year, or the text as it was for a month past 12. */
  lemma ConvertMonthDate(year: nat, month: nat, tail: string)
    requires year < 10000 && month < 100 && DateTail(tail)
    ensures var iso := ZeroPadded(year, 4) + "-" + ZeroPadded(month, 2) + tail;
      ConvertDate(iso) == if month > 12 then iso else MonthPart(month) + ZeroPadded(year, 4)
  {
    var y, m := ZeroPadded(year, 4), ZeroPadded(month, 2);
    ZeroPaddedValue(year, 4);
    ZeroPaddedValue(month, 2);
    var iso := y + "-" + m + tail;
    assert iso[0..4] == y && iso[4] == '-' && iso[5..7] == m;
    assert |iso| > 7 ==> iso[7] == tail[0];
    MonthFields(iso);
    ConvertTakesMonth(iso);
    assert month <= 12 ==> MonthPart(month) + "" == MonthPart(month);
  }

  /** `YYYY`: the year alone. */
  lemma ConvertYear(year: nat, tail: string)
    requires year < 10000 && DateTail(tail)
    ensures ConvertDate(ZeroPadded(year, 4) + tail) == ZeroPadded(year, 4)
  {
    var y := ZeroPadded(year, 4);
    ZeroPaddedValue(year, 4);
    var iso := y + tail;
    assert iso[0..4] == y;
    assert |iso| > 4 ==> iso[4] == tail[0];
    YearFields(iso);
    ConvertTakesYear(iso);
  }

  /** Text that does not start, after blanks, with a digit or a sign is shown as it is. */
  lemma ConvertNonDate(iso: string)
    requires NoNumber(iso)
    ensures ConvertDate(iso) == iso
  {
    NothingScanned(iso, FullDate);
    NothingScanned(iso, MonthDate);
    NothingScanned(iso, YearDate);
    ConvertRejects(iso);
  }

  lemma ConvertRejects(iso: string)
    requires !Accepted(ScanF(iso, 0, FullDate), 3) && !Accepted(ScanF(iso, 0, MonthDate), 2)
    requires !Accepted(ScanF(iso, 0, YearDate), 1)
    ensures ConvertDate(iso) == iso
  {
  }

  /** After any blanks, `iso` ends or goes on with neither a digit nor a sign. */
  predicate NoNumber(iso: string)
  {
    var j := Span(iso, 0, IsSpace);
    j == |iso| || !(IsDigit(iso[j]) || iso[j] == '-' || iso[j] == '+')
  }

  predicate YearFirst(format: Format)
  {
    format.Then? && format.first == Blank && format.rest.Then? && format.rest.first == Number(4)
  }

  lemma NothingScanned(iso: string, format: Format)
    requires NoNumber(iso) && YearFirst(format)
    ensures ScanF(iso, 0, format) == []
  {
    var j := Span(iso, 0, IsSpace);
    assert ScanInt(iso, j, 4).None?;
    assert ScanF(iso, 0, format) == ScanF(iso, j, format.rest);
  }

  // ---------------------------------------------------------------------
  // Sorting a group's entries
  // ---------------------------------------------------------------------

  /** What a group page lists: a game or a sub-group. */
  datatype Entry = GameEntry(game: Game) | GroupEntry(group: Group)

  /** The two sort fields; a missing primary sorts before every present one. */
  datatype SortKey = SortKey(primary: Option<string>, secondary: string)

  /**
   * `gamepage_compare_get_primary`: when sorting by author, a game's author,
   * or its publisher if it has no author; when sorting by genre, its genre;
   * otherwise, and for every group, nothing.
   */
  function Primary(e: Entry, byAuthor: bool, byGenre: bool): Option<string>
  {
    match e {
      case GroupEntry(_) => None
      case GameEntry(g) =>
        if byAuthor then (if g.details.author.Some? then g.details.author else g.details.publisher)
        else if byGenre then g.details.genre
        else None
    }
  }

  /** `t` starts with `p`, ignoring case, as `strncasecmp(t, p, |p|) == 0` does. */
  predicate StartsWithIgnoringCase(t: string, p: string)
  {
    |t| >= |p| && EqualsIgnoreCase(t[..|p|], p)
  }

  predicate HasArticle(title: string)
  {
    StartsWithIgnoringCase(title, "The ") || StartsWithIgnoringCase(title, "An ")
    || StartsWithIgnoringCase(title, "A ")
  }

  /** A title without a leading `The `, `An ` or `A `, in any case. */
  function StripArticle(title: string): (r: string)
    ensures IsSuffix(r, title)
    ensures r == title <==> !HasArticle(title)
    ensures r != title ==>
      (EqualsIgnoreCase(title[..|title| - |r|], "The ") || EqualsIgnoreCase(title[..|title| - |r|], "An ")
       || EqualsIgnoreCase(title[..|title| - |r|], "A "))
  {
    if StartsWithIgnoringCase(title, "The ") then title[4..]
    else if StartsWithIgnoringCase(title, "An ") then title[3..]
    else if StartsWithIgnoringCase(title, "A ") then title[2..]
    else title
  }

  /** `gamepage_compare_get_secondary`: a game's title without its article, or a group's title. */
  function Secondary(e: Entry): string
  {
    match e {
      case GameEntry(g) => StripArticle(g.title)
      case GroupEntry(g) => g.title
    }
  }

  function KeyOf(e: Entry, byAuthor: bool, byGenre: bool): SortKey
  {
    SortKey(Primary(e, byAuthor, byGenre), Secondary(e))
  }

  /** The primary fields compared: a missing one first, present ones ignoring case. */
  function PrimaryOrder(a: Option<string>, b: Option<string>): int
  {
    if a.Some? && b.Some? then CaseCompare(a.value, b.value)
    else if a.Some? then 1
    else if b.Some? then -1
    else 0
  }

  /**
   * The sign of `gamepage_compare`: by primary field, then, when the
   * primaries are equal ignoring case or both missing, by secondary field.
   */
  function Compare(a: SortKey, b: SortKey): (r: int)
    ensures -1 <= r <= 1
    ensures a.primary.None? && b.primary.Some? ==> r == -1
    ensures a.primary.Some? && b.primary.None? ==> r == 1
  {
    if a.primary.Some? && b.primary.Some? && CaseCompare(a.primary.value, b.primary.value) != 0 then
      CaseCompare(a.primary.value, b.primary.value)
    else if a.primary.Some? && b.primary.None? then 1
    else if a.primary.None? && b.primary.Some? then -1
    else CaseCompare(a.secondary, b.secondary)
  }

  /** `gamepage_compare` on two entries. */
  function CompareEntries(left: Entry, right: Entry, byAuthor: bool, byGenre: bool): (r: int)
    ensures left.GroupEntry? && Primary(right, byAuthor, byGenre).Some? ==> r == -1
    ensures !byAuthor && !byGenre ==> r == CaseCompare(Secondary(left), Secondary(right))
  {
    Compare(KeyOf(left, byAuthor, byGenre), KeyOf(right, byAuthor, byGenre))
  }

  /** Keys that compare equal: the same primary presence, and equal fields ignoring case. */
  predicate Equivalent(a: SortKey, b: SortKey)
  {
    (a.primary.Some? <==> b.primary.Some?)
    && (a.primary.Some? && b.primary.Some? ==> EqualsIgnoreCase(a.primary.value, b.primary.value))
    && EqualsIgnoreCase(a.secondary, b.secondary)
  }

  lemma CompareIsLexicographic(a: SortKey, b: SortKey)
    ensures Compare(a, b) == if PrimaryOrder(a.primary, b.primary) != 0 then PrimaryOrder(a.primary, b.primary)
                             else CaseCompare(a.secondary, b.secondary)
  {
  }

  lemma PrimaryAntisymmetric(a: Option<string>, b: Option<string>)
    ensures PrimaryOrder(a, b) == -PrimaryOrder(b, a)
  {
    if a.Some? && b.Some? {
      CaseCompareAntisymmetric(a.value, b.value);
    }
  }

  lemma PrimaryTransitive(a: Option<string>, b: Option<string>, c: Option<string>)
    requires PrimaryOrder(a, b) <= 0 && PrimaryOrder(b, c) <= 0
    ensures PrimaryOrder(a, c) <= 0
  {
    if a.Some? && b.Some? && c.Some? {
      CaseCompareTransitive(a.value, b.value, c.value);
    }
  }

  /** Two keys compare equal exactly when they are equivalent. */
  lemma CompareZero(a: SortKey, b: SortKey)
    ensures Compare(a, b) == 0 <==> Equivalent(a, b)
  {
    CaseCompareZero(a.secondary, b.secondary);
    if a.primary.Some? && b.primary.Some? {
      CaseCompareZero(a.primary.value, b.primary.value);
    }
  }

  /** Swapping the keys negates the comparison. */
  lemma CompareAntisymmetric(a: SortKey, b: SortKey)
    ensures Compare(a, b) == -Compare(b, a)
  {
    CompareIsLexicographic(a, b);
    CompareIsLexicographic(b, a);
    PrimaryAntisymmetric(a.primary, b.primary);
    CaseCompareAntisymmetric(a.secondary, b.secondary);
  }

  /** The comparison is transitive, so `qsort` is given a total preorder. */
  lemma CompareTransitive(a: SortKey, b: SortKey, c: SortKey)
    requires Compare(a, b) <= 0 && Compare(b, c) <= 0
    ensures Compare(a, c) <= 0
  {
    var pa, pb, pc := a.primary, b.primary, c.primary;
    CompareIsLexicographic(a, b);
    CompareIsLexicographic(b, c);
    CompareIsLexicographic(a, c);
    PrimaryAntisymmetric(pa, pb);
    PrimaryAntisymmetric(pb, pc);
    PrimaryAntisymmetric(pa, pc);
    PrimaryTransitive(pa, pb, pc);
    if PrimaryOrder(pa, pc) == 0 {
      if PrimaryOrder(pa, pb) < 0 {
        PrimaryTransitive(pc, pa, pb);
        PrimaryTransitive(pb, pc, pa);
        assert false;
      } else if PrimaryOrder(pb, pc) < 0 {
        PrimaryTransitive(pb, pc, pa);
        PrimaryTransitive(pc, pa, pb);
        assert false;
      } else {
        CaseCompareTransitive(a.secondary, b.secondary, c.secondary);
      }
    }
  }

  // ---------------------------------------------------------------------
  // Pages
  // ---------------------------------------------------------------------

  const ItemsPerPage: nat := 20

  /** The last page number as `gamepage_gamegroup` computes it. */
  function LastPageAsWritten(count: nat): nat
  {
    count / ItemsPerPage
  }

  /** The page shown after a turn, with the last page as written. */
  function TurnedAsWritten(start: nat, count: nat, increment: int): nat
  {
    if count > ItemsPerPage then Clamp(start + increment, LastPageAsWritten(count)) else start
  }

  /**
   * As written, a group of a whole number of pages, two or more, can be
   * turned forward to a last page that holds no entry.
   */
  lemma AsWrittenLastPageEmpty<T>(nodes: seq<T>, start: nat)
    requires |nodes| > ItemsPerPage && |nodes| % ItemsPerPage == 0
    ensures TurnedAsWritten(start, |nodes|, |nodes|) == LastPageAsWritten(|nodes|)
    ensures |PageOf(nodes, LastPageAsWritten(|nodes|))| == 0
  {
    var last := LastPageAsWritten(|nodes|);
    assert last * ItemsPerPage == |nodes|;
    assert start + |nodes| >= last;
  }

  /** The last page that holds an entry. */
  function LastPage(count: nat): (r: nat)
    requires count > 0
    ensures r * ItemsPerPage < count <= (r + 1) * ItemsPerPage
  {
    (count - 1) / ItemsPerPage
  }

  /** The entries on page `page`: from `page * 20` up to twenty of them. */
  function PageOf<T>(entries: seq<T>, page: nat): (r: seq<T>)
    ensures |r| <= ItemsPerPage
    ensures page * ItemsPerPage < |entries| ==> |r| > 0
  {
    var begin := Min(page * ItemsPerPage, |entries|);
    var end := Min((page + 1) * ItemsPerPage, |entries|);
    entries[begin..end]
  }

  /** Every page up to the last holds entries, and every entry is on one of them. */
  lemma PagesCover(count: nat, k: nat)
    requires count > 0 && k < count
    ensures k / ItemsPerPage <= LastPage(count)
    ensures forall page: nat :: page <= LastPage(count) ==> page * ItemsPerPage < count
  {
    forall page: nat | page <= LastPage(count)
      ensures page * ItemsPerPage < count
    {
      assert page * ItemsPerPage <= LastPage(count) * ItemsPerPage;
    }
  }

  /** `p` kept within `[0, last]`. */
  function Clamp(p: int, last: nat): (r: nat)
    ensures r <= last
    ensures 0 <= p <= last ==> r == p
  {
    if p < 0 then 0 else if p > last then last else p
  }

  /** The page shown after a turn by `increment`; short groups are not paged. */
  function Turned(start: nat, count: nat, increment: int): nat
  {
    if count > ItemsPerPage then Clamp(start + increment, LastPage(count)) else start
  }

  /** What the display map records for an entry: its game id, or its group id. */
  function DisplayId(n: Node): nat
  {
    match n {
      case GameNode(i) => i
      case GroupNode(k) => (k + IdOffset) % Word
    }
  }

  function DisplayIds(nodes: seq<Node>): (r: seq<nat>)
    ensures |r| == |nodes|
    ensures forall k :: 0 <= k < |nodes| ==> r[k] == DisplayId(nodes[k])
  {
    seq(|nodes|, k requires 0 <= k < |nodes| => DisplayId(nodes[k]))
  }

  /** The display id of a group is the id that finds it again. */
  lemma DisplayIdFindsGroup(reg: Registry, k: nat)
    requires reg.Valid() && k < |reg.groups| && |reg.groups| <= IdOffset
    ensures reg.hasVector && DisplayId(GroupNode(k)) < Word
    ensures reg.IdToGroup(DisplayId(GroupNode(k))) == Some(reg.groups[k])
  {
    GroupIdRoundTrip(reg, reg.groups[k]);
  }

  /** The entry a node stands for: game `i` of the game set, or group `k` of the registry. */
  function EntryOf(games: seq<Game>, groups: seq<Group>, n: Node): Entry
    requires Fits(n, |games|, |groups|)
  {
    match n {
      case GameNode(i) => GameEntry(games[i])
      case GroupNode(k) => GroupEntry(groups[k])
    }
  }

  predicate AllFit(nodes: seq<Node>, games: seq<Game>, groups: seq<Group>)
  {
    forall k :: 0 <= k < |nodes| ==> Fits(nodes[k], |games|, |groups|)
  }

  /** Neighbouring nodes are in `gamepage_compare` order, as `qsort` leaves them. */
  predicate SortedEntries(nodes: seq<Node>, games: seq<Game>, groups: seq<Group>, byAuthor: bool, byGenre: bool)
    requires AllFit(nodes, games, groups)
  {
    forall k :: 0 <= k < |nodes| - 1 ==>
      CompareEntries(EntryOf(games, groups, nodes[k]), EntryOf(games, groups, nodes[k + 1]), byAuthor, byGenre) <= 0
  }

  /** In a sorted sequence every earlier node compares no greater than every later one. */
  lemma {:induction false} SortedPairwise(nodes: seq<Node>, games: seq<Game>, groups: seq<Group>,
                                          byAuthor: bool, byGenre: bool, i: nat, j: nat)
    requires AllFit(nodes, games, groups) && SortedEntries(nodes, games, groups, byAuthor, byGenre)
    requires i < j < |nodes|
    ensures CompareEntries(EntryOf(games, groups, nodes[i]), EntryOf(games, groups, nodes[j]), byAuthor, byGenre) <= 0
    decreases j - i
  {
    if i + 1 < j {
      SortedPairwise(nodes, games, groups, byAuthor, byGenre, i, j - 1);
      var a := KeyOf(EntryOf(games, groups, nodes[i]), byAuthor, byGenre);
      var b := KeyOf(EntryOf(games, groups, nodes[j - 1]), byAuthor, byGenre);
      var c := KeyOf(EntryOf(games, groups, nodes[j]), byAuthor, byGenre);
      CompareTransitive(a, b, c);
    }
  }

  /**
   * The page shown of a group's sorted entries holds only entries of the
   * group, and in `gamepage_compare` order.
   */
  lemma ShownPageSorted(contents: seq<Node>, sorted: seq<Node>, games: seq<Game>, groups: seq<Group>,
                        byAuthor: bool, byGenre: bool, page: nat)
    requires AllFit(sorted, games, groups) && SortedEntries(sorted, games, groups, byAuthor, byGenre)
    requires multiset(sorted) == multiset(contents)
    ensures forall n :: n in PageOf(sorted, page) ==> n in contents
    ensures AllFit(PageOf(sorted, page), games, groups)
    ensures forall i, j :: 0 <= i < j < |PageOf(sorted, page)| ==>
      CompareEntries(EntryOf(games, groups, PageOf(sorted, page)[i]),
                     EntryOf(games, groups, PageOf(sorted, page)[j]), byAuthor, byGenre) <= 0
  {
    PageMembers(contents, sorted, page);
    var shown := PageOf(sorted, page);
    SliceSorted(sorted, games, groups, byAuthor, byGenre,
                Min(page * ItemsPerPage, |sorted|), Min((page + 1) * ItemsPerPage, |sorted|));
    forall i, j | 0 <= i < j < |shown|
      ensures CompareEntries(EntryOf(games, groups, shown[i]), EntryOf(games, groups, shown[j]), byAuthor, byGenre) <= 0
    {
      SortedPairwise(shown, games, groups, byAuthor, byGenre, i, j);
    }
  }

  /** A slice of a sorted sequence is sorted. */
  lemma SliceSorted(nodes: seq<Node>, games: seq<Game>, groups: seq<Group>,
                    byAuthor: bool, byGenre: bool, lo: nat, hi: nat)
    requires AllFit(nodes, games, groups) && SortedEntries(nodes, games, groups, byAuthor, byGenre)
    requires lo <= hi <= |nodes|
    ensures AllFit(nodes[lo..hi], games, groups) && SortedEntries(nodes[lo..hi], games, groups, byAuthor, byGenre)
  {
    assert forall k :: 0 <= k < hi - lo ==> nodes[lo..hi][k] == nodes[lo + k];
  }

  /** A page of a permutation of the contents holds only entries of the contents. */
  lemma PageMembers(contents: seq<Node>, sorted: seq<Node>, page: nat)
    requires multiset(sorted) == multiset(contents)
    ensures forall n :: n in PageOf(sorted, page) ==> n in contents
  {
    forall n | n in PageOf(sorted, page) ensures n in contents {
      assert n in multiset(sorted);
    }
  }

  /** The static page number and last group of `gamepage_gamegroup`. */
  class Pager {
    var pageNumber: nat
    var lastGroup: Option<nat>

    constructor ()
      ensures pageNumber == 0 && lastGroup == None
    {
      pageNumber := 0;
      lastGroup := None;
    }

    /**
     * The paging of `gamepage_gamegroup`: back to the first page when the
     * group differs from the last one shown, then, for more than one page
     * of entries, turn by `increment` and stay within the pages.
     */
    method TurnPage(group: nat, count: nat, increment: int)
      modifies this
      ensures lastGroup == Some(group)
      ensures pageNumber == Turned(if old(lastGroup) == Some(group) then old(pageNumber) else 0, count, increment)
    {
      if lastGroup != Some(group) {
        pageNumber := 0;
        lastGroup := Some(group);
      }
      if count > ItemsPerPage {
        var last := LastPage(count);
        var page := pageNumber + increment;
        if page < 0 {
          page := 0;
        } else if page > last {
          page := last;
        }
        pageNumber := page;
      }
    }

    /**
     * `gamepage_gamegroup` for group `group` of `groups`, whose nodes name
     * entries of `games` and `groups`: turn the page, then record the
     * display id of each entry on it.  `qsort` is outside the model;
     * `sorted` is what it returns, the group's contents in
     * `gamepage_compare` order.  The result says whether more pages follow.
     */
    method ShowGroup(group: nat, games: seq<Game>, groups: seq<Group>, byAuthor: bool, byGenre: bool,
                     sorted: seq<Node>, increment: int, display: Vectors.Vector<nat>)
      returns (more: bool)
      requires group < |groups|
      requires multiset(sorted) == multiset(groups[group].contents)
      requires AllFit(sorted, games, groups) && SortedEntries(sorted, games, groups, byAuthor, byGenre)
      requires display.Valid()
      modifies this, display, display.data
      ensures lastGroup == Some(group)
      ensures pageNumber == Turned(if old(lastGroup) == Some(group) then old(pageNumber) else 0, |sorted|, increment)
      ensures display.Valid()
      ensures display.Contents() == old(display.Contents()) + DisplayIds(PageOf(sorted, pageNumber))
      ensures forall n :: n in PageOf(sorted, pageNumber) ==> n in groups[group].contents
      ensures more <==> |sorted| > ItemsPerPage && pageNumber < LastPage(|sorted|)
    {
      TurnPage(group, |sorted|, increment);
      ShownPageSorted(groups[group].contents, sorted, games, groups, byAuthor, byGenre, pageNumber);
      if |sorted| == 0 {
        assert DisplayIds(PageOf(sorted, pageNumber)) == [];
        assert display.Contents() == old(display.Contents()) + [];
        return false;
      }
      RecordPage(sorted, pageNumber, display);
      more := |sorted| > ItemsPerPage && pageNumber < LastPage(|sorted|);
    }
  }

  /** The display loop of `gamepage_gamegroup`: append the display id of each entry on page `page`. */
  method RecordPage(nodes: seq<Node>, page: nat, display: Vectors.Vector<nat>)
    requires display.Valid()
    modifies display, display.data
    ensures display.Valid()
    ensures display.Contents() == old(display.Contents()) + DisplayIds(PageOf(nodes, page))
  {
    var count := |nodes|;
    var begin := page * ItemsPerPage;
    var end := (page + 1) * ItemsPerPage;
    var index := begin;
    while index < end && index < count
      invariant begin <= index && (begin < count ==> index <= Min(end, count))
      invariant display.Valid()
      invariant display.data == old(display.data) || fresh(display.data)
      invariant display.Contents() == old(display.Contents()) + DisplayIds(nodes[Min(begin, count)..Min(index, count)])
    {
      DisplayIdsSnoc(nodes, Min(begin, count), index);
      Associative(old(display.Contents()), DisplayIds(nodes[Min(begin, count)..index]), [DisplayId(nodes[index])]);
      var mapping := display.Append(DisplayId(nodes[index]));
      index := index + 1;
    }
  }

  lemma DisplayIdsSnoc(nodes: seq<Node>, lo: nat, index: nat)
    requires lo <= index < |nodes|
    ensures DisplayIds(nodes[lo..index + 1]) == DisplayIds(nodes[lo..index]) + [DisplayId(nodes[index])]
  {
    assert nodes[lo..index + 1] == nodes[lo..index] + [nodes[index]];
  }

  /** A page turned to within a long group always holds entries. */
  lemma TurnedPageHoldsEntries(start: nat, nodes: seq<Node>, increment: int)
    requires |nodes| > ItemsPerPage
    ensures |PageOf(nodes, Turned(start, |nodes|, increment))| > 0
  {
    var page := Turned(start, |nodes|, increment);
    assert page * ItemsPerPage <= LastPage(|nodes|) * ItemsPerPage;
  }
}
