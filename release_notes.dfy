/**
 * The label and title formatting of createReleaseNotes.py: `releaseLabel` turns a period kind and a
 * number into a ticket-system label, and the page title is built from the environment and the date.
 * The current date is a parameter; printing the message and leaving with `sys.exit()` is an `Exit`
 * outcome.
 */
module ReleaseNotes {
  import opened Text
  import opened Results

  /** The period kinds the command line accepts. */
  datatype Filter = Year | Month | Week

  /** A label, or the message printed before `sys.exit()` and the status that call leaves with. */
  datatype LabelOutcome = Label(text: string) | Exit(message: string, status: int)

  /** The allow-list of years. */
  const YEARS: seq<int> := [2018]

  /** A calendar date as `datetime.now()` gives it; the year has four digits. */
  datatype Date = Date(year: nat, month: nat, day: nat)

  predicate ValidDate(d: Date)
  {
    1000 <= d.year <= 9999 && 1 <= d.month <= 12 && 1 <= d.day <= 31
  }

  /** `str(n).zfill(2)`. */
  function TwoDigit(n: nat): string
  {
    ZeroFill(Decimal(n), 2)
  }

  /**
   * `releaseLabel`: a year must be on the allow-list and gives `RY.<year>`; a month must be in
   * 1..12 and a week in 1..52, and both take the current year and a two-digit number. Any other
   * value prints a message and exits with status 0 (`sys.exit()` has no argument).
   */
  function ReleaseLabel(filter: Filter, value: int, currentYear: nat): (r: LabelOutcome)
    requires 1000 <= currentYear <= 9999
    ensures r.Exit? ==> r.status == 0
  {
    match filter
    case Year =>
      if value in YEARS then Label("RY." + Decimal(value)) else Exit("This is not a valid year", 0)
    case Month =>
      if 1 <= value <= 12 then Label("RM." + Decimal(currentYear) + "." + TwoDigit(value))
      else Exit("This is not a valid month", 0)
    case Week =>
      if 1 <= value <= 52 then Label("RW." + Decimal(currentYear) + "." + TwoDigit(value))
      else Exit("This is not a valid work week", 0)
  }

  /** What a value names: a year, or a month or week of a year. */
  datatype LabelKey = YearKey(year: nat) | MonthKey(year: nat, month: nat) | WeekKey(year: nat, week: nat)

  /** Reads a value back: `RY.<digits>`, or `RM.`/`RW.` with four digits, a dot and two digits. */
  function ParseLabel(s: string): Option<LabelKey>
  {
    if |s| > 3 && s[..3] == "RY." && AllDigits(s[3..]) then Some(YearKey(DecimalValue(s[3..])))
    else if |s| == 10 && s[7] == '.' && AllDigits(s[3..7]) && AllDigits(s[8..]) then
      if s[..3] == "RM." then Some(MonthKey(DecimalValue(s[3..7]), DecimalValue(s[8..])))
      else if s[..3] == "RW." then Some(WeekKey(DecimalValue(s[3..7]), DecimalValue(s[8..])))
      else None
    else None
  }

  /** The period a label for `value` stands for. */
  function KeyOf(filter: Filter, value: nat, currentYear: nat): LabelKey
  {
    match filter
    case Year => YearKey(value)
    case Month => MonthKey(currentYear, value)
    case Week => WeekKey(currentYear, value)
  }

  /** The value `releaseLabel` accepts for each period kind. */
  predicate Accepted(filter: Filter, value: int)
  {
    match filter
    case Year => value == 2018
    case Month => 1 <= value <= 12
    case Week => 1 <= value <= 52
  }

  /**
   * A value is produced exactly for an accepted value, and reading it back gives the period it was
   * made for: the year itself for a year value, and for a month or week value the current year
   * (never the argument) with the month or week number.
   */
  lemma {:induction false} LabelRoundTrip(filter: Filter, value: int, currentYear: nat)
    requires 1000 <= currentYear <= 9999
    ensures ReleaseLabel(filter, value, currentYear).Label? <==> Accepted(filter, value)
    ensures Accepted(filter, value) ==>
              ParseLabel(ReleaseLabel(filter, value, currentYear).text) == Some(KeyOf(filter, value, currentYear))
  {
    if Accepted(filter, value) {
      if filter == Year {
        var s := ReleaseLabel(filter, value, currentYear).text;
        DecimalRoundTrip(2018);
        assert s[..3] == "RY." && s[3..] == Decimal(2018);
      } else {
        PeriodRoundTrip(filter, value, currentYear);
      }
    }
  }

  /** A month or week label reads back as the current year and the number. */
  lemma PeriodRoundTrip(filter: Filter, value: int, currentYear: nat)
    requires 1000 <= currentYear <= 9999
    requires filter != Year && Accepted(filter, value)
    ensures ParseLabel(ReleaseLabel(filter, value, currentYear).text) == Some(KeyOf(filter, value, currentYear))
  {
    var year := Decimal(currentYear);
    var number := TwoDigit(value);
    DecimalLength(currentYear);
    DecimalRoundTrip(currentYear);
    TwoDigits(value);
    var prefix := if filter == Month then "RM." else "RW.";
    LabelLayout(prefix, year, number);
    var s := prefix + year + "." + number;
    assert ReleaseLabel(filter, value, currentYear).text == s;
    assert s[..3] != "RY.";
  }

  /** Where the parts of a `RM.`/`RW.` label sit. */
  lemma LabelLayout(prefix: string, year: string, number: string)
    requires |prefix| == 3 && |year| == 4 && |number| == 2
    ensures var s := prefix + year + "." + number;
      |s| == 10 && s[..3] == prefix && s[3..7] == year && s[7] == '.' && s[8..] == number
  {
  }

  /** Month and week labels end in exactly two digits, with a leading `0` below 10. */
  lemma PeriodNumberTwoDigits(filter: Filter, value: int, currentYear: nat)
    requires 1000 <= currentYear <= 9999
    requires filter != Year && Accepted(filter, value)
    ensures var s := ReleaseLabel(filter, value, currentYear).text;
      |s| == 10 && AllDigits(s[8..]) && (s[8] == '0' <==> value < 10)
  {
    var s := ReleaseLabel(filter, value, currentYear).text;
    var number := TwoDigit(value);
    DecimalLength(currentYear);
    TwoDigits(value);
    assert s == (if filter == Month then "RM." else "RW.") + Decimal(currentYear) + "." + number;
    assert s[8..] == number;
  }

  /** March in 2024 is `RM.2024.03`. */
  lemma MonthLabelExample()
    ensures ReleaseLabel(Month, 3, 2024) == Label("RM.2024.03")
  {
    Decimal2024();
    assert TwoDigit(3) == "03";
  }

  /** The last week of 2024 is `RW.2024.52`. */
  lemma WeekLabelExample()
    ensures ReleaseLabel(Week, 52, 2024) == Label("RW.2024.52")
  {
    Decimal2024();
    TwoDigit52();
  }

  lemma TwoDigit52()
    ensures TwoDigit(52) == "52"
  {
    Decimal52();
    ZeroFillWide(Decimal(52), 2);
  }

  lemma Decimal52()
    ensures Decimal(52) == "52"
  {
    assert Decimal(5) == "5";
  }

  /** A string at least as wide as the width is left as it is by `zfill`. */
  lemma ZeroFillWide(s: string, width: nat)
    requires s == [] || (s[0] != '+' && s[0] != '-')
    requires |s| >= width
    ensures ZeroFill(s, width) == s
  {
  }

  /** 2018 is `RY.2018`, and 1999, not on the allow-list, is refused. */
  lemma YearLabelExample()
    ensures ReleaseLabel(Year, 2018, 2024) == Label("RY.2018")
    ensures ReleaseLabel(Year, 1999, 2024) == Exit("This is not a valid year", 0)
  {
    assert Decimal(20) == "20";
    assert Decimal(201) == "201";
    assert Decimal(2018) == "2018";
  }

  lemma Decimal2024()
    ensures Decimal(2024) == "2024"
  {
    assert Decimal(20) == "20";
    assert Decimal(202) == "202";
  }

  /** `today.strftime("%Y-%m-%d")`: ten characters, with the dashes at 4 and 7. */
  function FormatDate(d: Date): (r: string)
    requires ValidDate(d)
    ensures |r| == 10 && r[4] == '-' && r[7] == '-'
  {
    DecimalLength(d.year);
    TwoDigits(d.month);
    TwoDigits(d.day);
    DateFields(Decimal(d.year), TwoDigit(d.month), TwoDigit(d.day));
    Decimal(d.year) + "-" + TwoDigit(d.month) + "-" + TwoDigit(d.day)
  }

  /** The date is ten characters, dashes at 4 and 7, and its three fields read back as the date. */
  lemma FormatDateRoundTrip(d: Date)
    requires ValidDate(d)
    ensures var r := FormatDate(d);
      |r| == 10 && r[4] == '-' && r[7] == '-' &&
      AllDigits(r[..4]) && AllDigits(r[5..7]) && AllDigits(r[8..]) &&
      DecimalValue(r[..4]) == d.year && DecimalValue(r[5..7]) == d.month && DecimalValue(r[8..]) == d.day
  {
    DecimalLength(d.year);
    DecimalRoundTrip(d.year);
    TwoDigits(d.month);
    TwoDigits(d.day);
    DateFields(Decimal(d.year), TwoDigit(d.month), TwoDigit(d.day));
  }

  /** Where the three fields of a `YYYY-MM-DD` text sit. */
  lemma DateFields(year: string, month: string, day: string)
    requires |year| == 4 && |month| == 2 && |day| == 2
    ensures var r := year + "-" + month + "-" + day;
      |r| == 10 && r[4] == '-' && r[7] == '-' && r[..4] == year && r[5..7] == month && r[8..] == day
  {
  }

  /** The environment as `main` hands it on: `"RE." + env`, a prefix that the title removes again. */
  function ReleaseEnv(env: string): (r: string)
    ensures RemoveAll(r, "RE.") == RemoveAll(env, "RE.")
  {
    RemoveAllLeading(env, "RE.");
    "RE." + env
  }

  /**
   * The page title: the environment with every `RE.` removed, `" Release Notes "` and the date, so
   * it ends in those 25 characters and is at most that much longer than the environment.
   */
  function ReleaseTitle(env: string, today: Date): (r: string)
    requires ValidDate(today)
    ensures 25 <= |r| <= |env| + 25
    ensures r[|r| - 25..] == " Release Notes " + FormatDate(today)
  {
    TitleLayout(RemoveAll(env, "RE."), FormatDate(today));
    RemoveAll(env, "RE.") + " Release Notes " + FormatDate(today)
  }

  /** Where the environment, the fixed words and the date sit in a title. */
  lemma TitleLayout(env: string, date: string)
    requires |date| == 10
    ensures var r := env + " Release Notes " + date;
      |r| == |env| + 25 && r[|r| - 25..] == " Release Notes " + date
  {
  }

  /** For an environment without `RE.` in it, the title starts with the environment as given. */
  lemma TitleOfEnvironment(env: string, today: Date)
    requires ValidDate(today) && !Contains(env, "RE.")
    ensures ReleaseTitle(ReleaseEnv(env), today) == env + " Release Notes " + FormatDate(today)
  {
    RemoveAllAbsent(env, "RE.");
  }
}
