/**
 * The month and date parsers of components/script/dom/bindings/str.rs, the
 * Rust integer parsing they rest on, and the calendar helpers
 * `max_day_in_month` and `is_leap_year`.
 */
module DomDates {
  import opened Wrappers
  import opened Unicode
  import opened LineText
  import opened DomStr

  const I32Min: int := -0x8000_0000
  const I32Max: int := 0x7FFF_FFFF
  const U32Max: int := 0xFFFF_FFFF

  // ------------------------------------------------------- integer parsing

  predicate AllAsciiDigits(s: string)
  {
    forall i :: 0 <= i < |s| ==> IsAsciiDigit(s[i])
  }

  /** The value of a string of decimal digits, read from the left. */
  function DigitsValue(ds: string): nat
    requires AllAsciiDigits(ds)
    decreases |ds|
  {
    if ds == [] then 0 else DigitsValue(ds[..|ds| - 1]) * 10 + (ds[|ds| - 1] as int - '0' as int)
  }

  /**
   * `str::parse::<i32>` (when `signed`) and `str::parse::<u32>`: an optional
   * '+', or '-' for `i32` only, then one or more ASCII digits whose value fits
   * the type. Rust stops at the first digit that overflows; digits only move
   * the value away from zero, so that is the same as checking the final value.
   */
  function ParseInt(s: string, signed: bool): (r: Result<int>)
    ensures r.Ok? ==> if signed then I32Min <= r.value <= I32Max else 0 <= r.value <= U32Max
    ensures r.Ok? ==> |s| > 0 && forall i :: 0 <= i < |s| ==> (s[i] as int) < 0x80
    ensures AllAsciiDigits(s) && |s| > 0 ==>
      r == if DigitsValue(s) <= (if signed then I32Max else U32Max) then Ok(DigitsValue(s)) else Err
    ensures |s| > 1 && s[0] == '+' && AllAsciiDigits(s[1..]) ==>
      r == if DigitsValue(s[1..]) <= (if signed then I32Max else U32Max) then Ok(DigitsValue(s[1..])) else Err
    ensures signed && |s| > 1 && s[0] == '-' && AllAsciiDigits(s[1..]) ==>
      r == if DigitsValue(s[1..]) <= -I32Min then Ok(-(DigitsValue(s[1..]) as int)) else Err
    ensures !signed && |s| > 0 && s[0] == '-' ==> r.Err?
    ensures s == "+" || s == "-" ==> r.Err?
    ensures r.Ok? ==> AllAsciiDigits(s) || (|s| > 1 && (s[0] == '+' || s[0] == '-') && AllAsciiDigits(s[1..]))
  {
    if |s| == 0 || ((s[0] == '+' || s[0] == '-') && |s| == 1) then Err
    else
      var negative := signed && s[0] == '-';
      var digits := if s[0] == '+' || negative then s[1..] else s;
      if !AllAsciiDigits(digits) then Err
      else
        var v: int := if negative then -(DigitsValue(digits) as int) else DigitsValue(digits);
        if signed && I32Min <= v <= I32Max then Ok(v)
        else if !signed && v <= U32Max then Ok(v)
        else Err
  }

  /** The character of a decimal digit. */
  function DigitChar(d: nat): (c: char)
    requires d < 10
    ensures IsAsciiDigit(c) && c as int - '0' as int == d
  {
    ('0' as int + d) as char
  }

  /** The decimal representation of `n`, without leading zeros, as `Display` writes it. */
  function Decimal(n: nat): (r: string)
    ensures |r| >= 1 && AllAsciiDigits(r)
    decreases n
  {
    if n < 10 then [DigitChar(n)] else Decimal(n / 10) + [DigitChar(n % 10)]
  }

  /** Reading the decimal representation of `n` gives `n` back. */
  lemma {:induction false} DecimalValue(n: nat)
    ensures DigitsValue(Decimal(n)) == n
    decreases n
  {
    if n >= 10 {
      DecimalValue(n / 10);
      var d := Decimal(n);
      assert d[..|d| - 1] == Decimal(n / 10);
    } else {
      assert Decimal(n)[..0] == [];
    }
  }

  /** Numbers from 1000 up take at least four digits. */
  lemma {:induction false} DecimalLength(n: nat)
    ensures |Decimal(n)| >= 4 <==> n >= 1000
    decreases n
  {
    if n >= 10 {
      DecimalLength(n / 10);
      if n / 10 >= 10 {
        DecimalLength(n / 100);
        assert n / 10 / 10 == n / 100;
      }
    }
  }

  /** `parse` reads back what `Display` writes, for every value of the type. */
  lemma ParseIntDecimal(n: nat, signed: bool)
    requires n <= if signed then I32Max else U32Max
    ensures ParseInt(Decimal(n), signed) == Ok(n)
  {
    DecimalValue(n);
  }

  /** A '-' sign makes a signed parse negative, down to the least `i32`. */
  lemma ParseIntNegative(n: nat)
    requires n <= -I32Min
    ensures ParseInt("-" + Decimal(n), true) == Ok(-(n as int))
  {
    DecimalValue(n);
    assert ("-" + Decimal(n))[1..] == Decimal(n);
  }

  // ----------------------------------------------- max_day_in_month, is_leap_year

  /** Rust's `%` on integers: the remainder has the sign of the dividend. */
  function RustRem(a: int, b: int): int
    requires b > 0
  {
    if a >= 0 then a % b else -((-a) % b)
  }

  /** `is_leap_year`, with Rust's remainder. */
  predicate IsLeapYear(year: int)
  {
    RustRem(year, 400) == 0 || (RustRem(year, 4) == 0 && RustRem(year, 100) != 0)
  }

  /** The Gregorian rule: every fourth year, except centuries not divisible by 400, also for years before 0. */
  lemma IsLeapYearGregorian(year: int)
    ensures IsLeapYear(year) <==> year % 400 == 0 || (year % 4 == 0 && year % 100 != 0)
  {
    if year < 0 {
      NegatedDivisible(year, 400);
      NegatedDivisible(year, 100);
      NegatedDivisible(year, 4);
    }
  }

  /** A year and its negation are divisible by `m` alike. */
  lemma NegatedDivisible(a: int, m: int)
    requires m > 0
    ensures ((-a) % m == 0) <==> (a % m == 0)
  {
    DivisibleNegated(a, m);
    DivisibleNegated(-a, m);
  }

  /** If `m` divides `a`, it divides `-a`. */
  lemma DivisibleNegated(a: int, m: int)
    requires m > 0
    ensures a % m == 0 ==> (-a) % m == 0
  {
    if a % m == 0 {
      var k := a / m;
      assert a == m * k;
      assert -a == m * -k;
      MultipleDivisible(-k, m);
    }
  }

  /** A multiple of `m` leaves no remainder. */
  lemma MultipleDivisible(k: int, m: int)
    requires m > 0
    ensures (m * k) % m == 0
  {
    var q, r := (m * k) / m, (m * k) % m;
    assert m * k == m * q + r;
    assert m * (k - q) == r;
    SmallMultiple(k - q, m);
  }

  /** The only multiple of `m` below `m` and not negative is 0. */
  lemma SmallMultiple(j: int, m: int)
    requires m > 0
    ensures 0 <= m * j < m ==> j == 0
  {
    if j >= 1 {
      assert m * j == m + m * (j - 1);
    } else if j <= -1 {
      assert m * j == -m + m * (j + 1);
    }
  }

  /** The leap-year pattern repeats every 400 years. */
  lemma LeapYearsRepeat(year: int)
    ensures IsLeapYear(year + 400) == IsLeapYear(year)
  {
    IsLeapYearGregorian(year);
    IsLeapYearGregorian(year + 400);
  }

  /** `max_day_in_month`: the number of days of `month` in `year`; no other month is one. */
  function MaxDayInMonth(year: int, month: nat): (r: Result<nat>)
    ensures r.Ok? <==> 1 <= month <= 12
    ensures r.Ok? ==> 28 <= r.value <= 31
    ensures r.Ok? && month == 2 ==> (r.value == 29 <==> IsLeapYear(year))
  {
    if month in {1, 3, 5, 7, 8, 10, 12} then Ok(31)
    else if month in {4, 6, 9, 11} then Ok(30)
    else if month == 2 then (if IsLeapYear(year) then Ok(29) else Ok(28))
    else Err
  }

  /** The number of days in the first `months` months of `year`. */
  function DaysThrough(year: int, months: nat): nat
    requires months <= 12
  {
    if months == 0 then 0 else DaysThrough(year, months - 1) + MaxDayInMonth(year, months).value
  }

  /** The twelve months make a year of 366 days in a leap year and 365 otherwise. */
  lemma YearLength(year: int)
    ensures DaysThrough(year, 12) == if IsLeapYear(year) then 366 else 365
  {
    var feb := MaxDayInMonth(year, 2).value;
    assert DaysThrough(year, 1) == 31;
    assert DaysThrough(year, 2) == 31 + feb;
    assert DaysThrough(year, 3) == 62 + feb;
    assert DaysThrough(year, 4) == 92 + feb;
    assert DaysThrough(year, 5) == 123 + feb;
    assert DaysThrough(year, 6) == 153 + feb;
    assert DaysThrough(year, 7) == 184 + feb;
    assert DaysThrough(year, 8) == 215 + feb;
    assert DaysThrough(year, 9) == 245 + feb;
    assert DaysThrough(year, 10) == 276 + feb;
    assert DaysThrough(year, 11) == 306 + feb;
  }

  // --------------------------------------------------- splitting on '-'

  predicate NoDash(s: string)
  {
    forall i :: 0 <= i < |s| ==> s[i] != '-'
  }

  /** The pieces joined again with '-' between them. */
  function JoinDash(pieces: seq<string>): string
    requires |pieces| >= 1
    decreases |pieces|
  {
    if |pieces| == 1 then pieces[0] else pieces[0] + "-" + JoinDash(pieces[1..])
  }

  /** Splitting on '-' loses nothing: joining the pieces gives the string back. */
  lemma {:induction false} SplitDashRejoins(s: string)
    ensures JoinDash(Split(s, {'-'})) == s
    decreases |s|
  {
    if s != [] {
      var rest := Split(s[1..], {'-'});
      SplitDashRejoins(s[1..]);
      if s[0] == '-' {
        assert Split(s, {'-'}) == [""] + rest;
        assert ([""] + rest)[1..] == rest;
        assert s == "" + "-" + s[1..];
      } else {
        var r := Split(s, {'-'});
        assert r == [[s[0]] + rest[0]] + rest[1..];
        if |rest| == 1 {
          assert JoinDash(r) == [s[0]] + rest[0];
        } else {
          assert r[1..] == rest[1..];
          assert JoinDash(r) == ([s[0]] + rest[0]) + "-" + JoinDash(rest[1..]);
          assert JoinDash(rest) == rest[0] + "-" + JoinDash(rest[1..]);
        }
        assert s == [s[0]] + s[1..];
      }
    }
  }

  /** A string without '-' is one piece. */
  lemma {:induction false} SplitNoDash(s: string)
    requires NoDash(s)
    ensures Split(s, {'-'}) == [s]
    decreases |s|
  {
    if s != [] {
      SplitNoDash(s[1..]);
      assert [s[0]] + s[1..] == s;
    }
  }

  /** A dash after a piece without one ends that piece. */
  lemma {:induction false} SplitAtDash(a: string, b: string)
    requires NoDash(a)
    ensures Split(a + "-" + b, {'-'}) == [a] + Split(b, {'-'})
    decreases |a|
  {
    if a == [] {
      assert a + "-" + b == "-" + b;
      assert ("-" + b)[1..] == b;
    } else {
      assert (a + "-" + b)[1..] == a[1..] + "-" + b;
      SplitAtDash(a[1..], b);
      assert [a[0]] + a[1..] == a;
    }
  }

  // ---------------------------------------------- month and date components

  /**
   * A field of a month or date string read as a number: with `digitsOnly`
   * only ASCII digits are taken, as the HTML standard requires; without it,
   * whatever `str::parse` takes.
   */
  function ParseField(field: string, signed: bool, digitsOnly: bool): Result<int>
  {
    if digitsOnly && !AllAsciiDigits(field) then Err else ParseInt(field, signed)
  }

  /** `parse_month_component`, its fields read by `ParseField`. */
  function MonthComponentWith(value: string, digitsOnly: bool): (r: Result<(int, nat)>)
    ensures r.Ok? ==> r.value.0 != 0 && I32Min <= r.value.0 <= I32Max && 1 <= r.value.1 <= 12
    ensures r.Ok? && digitsOnly ==> r.value.0 >= 1
    ensures r.Ok? ==> var p := Split(value, {'-'});
      |p| >= 2 && ByteLen(p[0]) >= 4 && ByteLen(p[1]) == 2
      && ParseInt(p[0], true) == Ok(r.value.0) && ParseInt(p[1], false) == Ok(r.value.1)
  {
    var pieces := Split(value, {'-'});
    if |pieces| < 2 then Err
    else
      var year := pieces[0];
      var month := pieces[1];
      match ParseField(year, true, digitsOnly)
      case Err => Err
      case Ok(yearInt) =>
        if ByteLen(year) < 4 || yearInt == 0 then Err
        else
          match ParseField(month, false, digitsOnly)
          case Err => Err
          case Ok(monthInt) =>
            if ByteLen(month) != 2 || monthInt > 12 || monthInt < 1 then Err
            else Ok((yearInt, monthInt as nat))
  }

  /** `parse_date_component`, its fields read by `ParseField`. */
  function DateComponentWith(value: string, digitsOnly: bool): (r: Result<(int, nat, nat)>)
    ensures r.Ok? ==> MonthComponentWith(value, digitsOnly) == Ok((r.value.0, r.value.1))
    ensures r.Ok? ==> 1 <= r.value.2 <= MaxDayInMonth(r.value.0, r.value.1).value
    ensures r.Ok? ==> var p := Split(value, {'-'});
      |p| >= 3 && ByteLen(p[2]) == 2 && ParseInt(p[2], false) == Ok(r.value.2)
  {
    match MonthComponentWith(value, digitsOnly)
    case Err => Err
    case Ok((yearInt, monthInt)) =>
      var pieces := Split(value, {'-'});
      if |pieces| < 3 then Err
      else
        var day := pieces[2];
        match ParseField(day, false, digitsOnly)
        case Err => Err
        case Ok(dayInt) =>
          if ByteLen(day) != 2 then Err
          else
            match MaxDayInMonth(yearInt, monthInt)
            case Err => Err
            case Ok(maxDay) =>
              if dayInt == 0 || dayInt > maxDay then Err else Ok((yearInt, monthInt, dayInt as nat))
  }

  /** `parse_month_component` as written: the fields go straight to `str::parse`. */
  function ParseMonthComponentAsWritten(value: string): (r: Result<(int, nat)>)
    ensures r.Ok? ==> r.value.0 != 0 && I32Min <= r.value.0 <= I32Max && 1 <= r.value.1 <= 12
    ensures r.Ok? ==> var p := Split(value, {'-'});
      |p| >= 2 && ByteLen(p[0]) >= 4 && ByteLen(p[1]) == 2
      && ParseInt(p[0], true) == Ok(r.value.0) && ParseInt(p[1], false) == Ok(r.value.1)
    ensures MonthComponentWith(value, true).Ok? ==> r == MonthComponentWith(value, true)
  {
    MonthComponentWith(value, false)
  }

  /** `parse_date_component` as written: the fields go straight to `str::parse`. */
  function ParseDateComponentAsWritten(value: string): (r: Result<(int, nat, nat)>)
    ensures r.Ok? ==> ParseMonthComponentAsWritten(value) == Ok((r.value.0, r.value.1))
    ensures r.Ok? ==> 1 <= r.value.2 <= MaxDayInMonth(r.value.0, r.value.1).value
    ensures r.Ok? ==> var p := Split(value, {'-'});
      |p| >= 3 && ByteLen(p[2]) == 2 && ParseInt(p[2], false) == Ok(r.value.2)
    ensures DateComponentWith(value, true).Ok? ==> r == DateComponentWith(value, true)
  {
    DateComponentWith(value, false)
  }

  /** `parse_month_component`, reading only digit fields. */
  function ParseMonthComponent(value: string): (r: Result<(int, nat)>)
    ensures r.Ok? ==> 1 <= r.value.0 <= I32Max && 1 <= r.value.1 <= 12
  {
    MonthComponentWith(value, true)
  }

  /** `parse_date_component`, reading only digit fields. */
  function ParseDateComponent(value: string): (r: Result<(int, nat, nat)>)
    ensures r.Ok? ==> ParseMonthComponent(value) == Ok((r.value.0, r.value.1))
    ensures r.Ok? ==> 1 <= r.value.2 <= MaxDayInMonth(r.value.0, r.value.1).value
  {
    DateComponentWith(value, true)
  }

  /** The fields of a valid month string: four or more digits of year, two of month. */
  predicate IsMonthFields(year: string, month: string)
  {
    |year| >= 4 && AllAsciiDigits(year) && 1 <= DigitsValue(year) <= I32Max
    && |month| == 2 && AllAsciiDigits(month) && 1 <= DigitsValue(month) <= 12
  }

  /** The fields of a valid date string: a month's fields, then two digits of day within the month. */
  predicate IsDateFields(year: string, month: string, day: string)
  {
    IsMonthFields(year, month)
    && |day| == 2 && AllAsciiDigits(day)
    && 1 <= DigitsValue(day) <= MaxDayInMonth(DigitsValue(year), DigitsValue(month)).value
  }

  lemma DigitsByteLen(s: string)
    requires AllAsciiDigits(s)
    ensures ByteLen(s) == |s|
  {
    ByteLenAscii(s);
  }

  /** The month component succeeds exactly when the first two pieces are month fields, and reads them. */
  lemma ParseMonthComponentIff(value: string)
    ensures var p := Split(value, {'-'});
      (ParseMonthComponent(value).Ok? <==> |p| >= 2 && IsMonthFields(p[0], p[1]))
      && (ParseMonthComponent(value).Ok? ==> ParseMonthComponent(value).value == (DigitsValue(p[0]), DigitsValue(p[1])))
  {
    var p := Split(value, {'-'});
    if |p| >= 2 {
      if AllAsciiDigits(p[0]) {
        DigitsByteLen(p[0]);
      }
      if AllAsciiDigits(p[1]) {
        DigitsByteLen(p[1]);
      }
    }
  }

  /** The date component succeeds exactly when the first three pieces are date fields, and reads them. */
  lemma ParseDateComponentIff(value: string)
    ensures var p := Split(value, {'-'});
      (ParseDateComponent(value).Ok? <==> |p| >= 3 && IsDateFields(p[0], p[1], p[2]))
      && (ParseDateComponent(value).Ok? ==>
            ParseDateComponent(value).value == (DigitsValue(p[0]), DigitsValue(p[1]), DigitsValue(p[2])))
  {
    var p := Split(value, {'-'});
    ParseMonthComponentIff(value);
    if |p| >= 3 && AllAsciiDigits(p[2]) {
      DigitsByteLen(p[2]);
    }
  }

  // ------------------------------------------------------- month and date strings

  /** `parse_month_string`: a month component and no third piece. */
  function ParseMonthString(s: string): Result<(int, nat)>
  {
    match ParseMonthComponent(s)
    case Err => Err
    case Ok(v) => if |Split(s, {'-'})| > 2 then Err else Ok(v)
  }

  /** `is_valid_month_string`. */
  predicate IsValidMonthString(s: string)
  {
    ParseMonthString(s).Ok?
  }

  /** `parse_date_string`: a date component and no fourth piece. */
  function ParseDateString(s: string): Result<(int, nat, nat)>
  {
    match ParseDateComponent(s)
    case Err => Err
    case Ok(v) => if |Split(s, {'-'})| > 3 then Err else Ok(v)
  }

  /** `is_valid_date_string`. */
  predicate IsValidDateString(s: string)
  {
    ParseDateString(s).Ok?
  }

  /** `parse_month_string` as written, over `ParseMonthComponentAsWritten`. */
  function ParseMonthStringAsWritten(s: string): (r: Result<(int, nat)>)
    ensures r.Ok? ==> |Split(s, {'-'})| == 2 && ParseMonthComponentAsWritten(s) == r
    ensures ParseMonthString(s).Ok? ==> r == ParseMonthString(s)
  {
    match ParseMonthComponentAsWritten(s)
    case Err => Err
    case Ok(v) => if |Split(s, {'-'})| > 2 then Err else Ok(v)
  }

  /** `is_valid_month_string` as written. */
  predicate IsValidMonthStringAsWritten(s: string)
  {
    ParseMonthStringAsWritten(s).Ok?
  }

  /** `parse_date_string` as written, over `ParseDateComponentAsWritten`. */
  function ParseDateStringAsWritten(s: string): (r: Result<(int, nat, nat)>)
    ensures r.Ok? ==> |Split(s, {'-'})| == 3 && ParseDateComponentAsWritten(s) == r
    ensures ParseDateString(s).Ok? ==> r == ParseDateString(s)
  {
    match ParseDateComponentAsWritten(s)
    case Err => Err
    case Ok(v) => if |Split(s, {'-'})| > 3 then Err else Ok(v)
  }

  /** `is_valid_date_string` as written. */
  predicate IsValidDateStringAsWritten(s: string)
  {
    ParseDateStringAsWritten(s).Ok?
  }

  /** A parsed month string is its two fields around one '-', and its value is theirs. */
  lemma ParseMonthStringSound(s: string)
    ensures var p := Split(s, {'-'});
      ParseMonthString(s).Ok? ==>
        |p| == 2 && s == p[0] + "-" + p[1] && IsMonthFields(p[0], p[1])
        && ParseMonthString(s).value == (DigitsValue(p[0]), DigitsValue(p[1]))
  {
    var p := Split(s, {'-'});
    ParseMonthComponentIff(s);
    SplitDashRejoins(s);
    if |p| == 2 {
      assert p[1..] == [p[1]];
    }
  }

  /** Any two month fields around a '-' make a month string with their value. */
  lemma ParseMonthStringComplete(year: string, month: string)
    requires IsMonthFields(year, month)
    ensures ParseMonthString(year + "-" + month) == Ok((DigitsValue(year), DigitsValue(month)))
  {
    SplitAtDash(year, month);
    SplitNoDash(month);
    ParseMonthComponentIff(year + "-" + month);
  }

  /** `is_valid_month_string` holds exactly for the valid month strings of the HTML standard. */
  lemma IsValidMonthStringIff(s: string)
    ensures IsValidMonthString(s) <==>
      exists year, month :: IsMonthFields(year, month) && s == year + "-" + month
  {
    if IsValidMonthString(s) {
      ParseMonthStringSound(s);
      var p := Split(s, {'-'});
      assert IsMonthFields(p[0], p[1]) && s == p[0] + "-" + p[1];
    }
    if exists year, month :: IsMonthFields(year, month) && s == year + "-" + month {
      var year, month :| IsMonthFields(year, month) && s == year + "-" + month;
      ParseMonthStringComplete(year, month);
    }
  }

  /** A parsed date string is its three fields joined by '-', and its value is theirs. */
  lemma ParseDateStringSound(s: string)
    ensures var p := Split(s, {'-'});
      ParseDateString(s).Ok? ==>
        |p| == 3 && s == p[0] + "-" + p[1] + "-" + p[2] && IsDateFields(p[0], p[1], p[2])
        && ParseDateString(s).value == (DigitsValue(p[0]), DigitsValue(p[1]), DigitsValue(p[2]))
  {
    var p := Split(s, {'-'});
    ParseDateComponentIff(s);
    SplitDashRejoins(s);
    if |p| == 3 {
      assert p[1..][1..] == [p[2]];
      assert JoinDash(p[1..]) == p[1] + "-" + p[2];
      assert JoinDash(p) == p[0] + "-" + (p[1] + "-" + p[2]);
    }
  }

  /** Any three date fields joined by '-' make a date string with their value. */
  lemma ParseDateStringComplete(year: string, month: string, day: string)
    requires IsDateFields(year, month, day)
    ensures ParseDateString(year + "-" + month + "-" + day)
         == Ok((DigitsValue(year), DigitsValue(month), DigitsValue(day)))
  {
    var s := year + "-" + month + "-" + day;
    assert s == year + "-" + (month + "-" + day);
    SplitAtDash(year, month + "-" + day);
    SplitAtDash(month, day);
    SplitNoDash(day);
    ParseDateComponentIff(s);
  }

  /** `is_valid_date_string` holds exactly for the valid date strings of the HTML standard. */
  lemma IsValidDateStringIff(s: string)
    ensures IsValidDateString(s) <==>
      exists year, month, day :: IsDateFields(year, month, day) && s == year + "-" + month + "-" + day
  {
    if IsValidDateString(s) {
      ParseDateStringSound(s);
      var p := Split(s, {'-'});
      assert IsDateFields(p[0], p[1], p[2]) && s == p[0] + "-" + p[1] + "-" + p[2];
    }
    if exists year, month, day :: IsDateFields(year, month, day) && s == year + "-" + month + "-" + day {
      var year, month, day :| IsDateFields(year, month, day) && s == year + "-" + month + "-" + day;
      ParseDateStringComplete(year, month, day);
    }
  }

  /** Two digits for `n`, with a leading zero below ten. */
  function TwoDigits(n: nat): (r: string)
    requires n < 100
    ensures |r| == 2 && AllAsciiDigits(r) && DigitsValue(r) == n
  {
    var r := [DigitChar(n / 10), DigitChar(n % 10)];
    assert r[..1] == [DigitChar(n / 10)] && r[..1][..0] == [];
    assert DigitsValue(r[..1]) == n / 10;
    r
  }

  /** A year from 1000 and a month written out parse back to themselves. */
  lemma MonthStringRoundTrip(year: nat, month: nat)
    requires 1000 <= year <= I32Max && 1 <= month <= 12
    ensures ParseMonthString(Decimal(year) + "-" + TwoDigits(month)) == Ok((year, month))
  {
    DecimalValue(year);
    DecimalLength(year);
    ParseMonthStringComplete(Decimal(year), TwoDigits(month));
  }

  /** A date from year 1000 on written out parses back to itself. */
  lemma DateStringRoundTrip(year: nat, month: nat, day: nat)
    requires 1000 <= year <= I32Max && 1 <= month <= 12
    requires 1 <= day <= MaxDayInMonth(year, month).value
    ensures ParseDateString(Decimal(year) + "-" + TwoDigits(month) + "-" + TwoDigits(day)) == Ok((year, month, day))
  {
    DecimalValue(year);
    DecimalLength(year);
    ParseDateStringComplete(Decimal(year), TwoDigits(month), TwoDigits(day));
  }

  /** The pieces of the two example strings below. */
  lemma SplitExamples()
    ensures Split("2000-+1", {'-'}) == ["2000", "+1"]
    ensures Split("2000-01-+5", {'-'}) == ["2000", "01", "+5"]
  {
    assert NoDash("2000") && NoDash("01") && NoDash("+1") && NoDash("+5");
    assert "2000-+1" == "2000" + "-" + "+1";
    SplitAtDash("2000", "+1");
    SplitNoDash("+1");
    SplitDateExample();
  }

  lemma SplitDateExample()
    ensures Split("2000-01-+5", {'-'}) == ["2000", "01", "+5"]
  {
    assert NoDash("2000") && NoDash("01") && NoDash("+5");
    assert "2000-01-+5" == "2000" + "-" + ("01" + "-" + "+5");
    SplitAtDash("2000", "01" + "-" + "+5");
    SplitAtDash("01", "+5");
    SplitNoDash("+5");
  }

  /** What the fields of the two example strings read as. */
  lemma FieldExamples()
    ensures ParseField("2000", true, false) == Ok(2000) && ByteLen("2000") == 4
    ensures ParseField("01", false, false) == Ok(1) && ByteLen("01") == 2
    ensures ParseField("+1", false, false) == Ok(1) && ByteLen("+1") == 2
    ensures ParseField("+5", false, false) == Ok(5) && ByteLen("+5") == 2
    ensures ParseField("+1", false, true) == Err && ParseField("+5", false, true) == Err
  {
    ByteLenAscii("2000");
    ByteLenAscii("01");
    ByteLenAscii("+1");
    ByteLenAscii("+5");
    assert DigitsValue("2000") == 2000 by {
      assert "2000"[..3] == "200" && "200"[..2] == "20" && "20"[..1] == "2" && "2"[..0] == "";
    }
    assert DigitsValue("01") == 1 by {
      assert "01"[..1] == "0" && "0"[..0] == "";
    }
    assert "+1"[1..] == "1" && "+5"[1..] == "5";
    assert DigitsValue("1") == 1 by { assert "1"[..0] == ""; }
    assert DigitsValue("5") == 5 by { assert "5"[..0] == ""; }
    assert !IsAsciiDigit("+1"[0]) && !IsAsciiDigit("+5"[0]);
  }

  /**
   * `str::parse` takes a leading '+', so the month field as written accepts
   * "2000-+1" as January 2000; reading digits only rejects it.
   */
  lemma MonthFieldSignAccepted()
    ensures ParseMonthComponentAsWritten("2000-+1") == Ok((2000, 1))
    ensures ParseMonthComponent("2000-+1") == Err
  {
    SplitExamples();
    FieldExamples();
  }

  /** Likewise the day field as written accepts "2000-01-+5" as 5 January 2000. */
  lemma DayFieldSignAccepted()
    ensures ParseDateComponentAsWritten("2000-01-+5") == Ok((2000, 1, 5))
    ensures ParseDateComponent("2000-01-+5") == Err
  {
    DateExampleMonth();
    SplitDateExample();
    FieldExamples();
  }

  /** The year and month of "2000-01-+5", read either way. */
  lemma DateExampleMonth()
    ensures MonthComponentWith("2000-01-+5", false) == Ok((2000, 1))
    ensures MonthComponentWith("2000-01-+5", true) == Ok((2000, 1))
    ensures MaxDayInMonth(2000, 1) == Ok(31)
  {
    SplitDateExample();
    FieldExamples();
    assert AllAsciiDigits("2000") && AllAsciiDigits("01");
  }

  /**
   * The sign also gets past the four-byte year check: as written "+999-01" is
   * a month string for January of year 999; reading digits only rejects it.
   */
  lemma YearFieldSignAccepted()
    ensures ParseMonthStringAsWritten("+999-01") == Ok((999, 1))
    ensures ParseMonthString("+999-01") == Err
  {
    SignedYearExample();
    FieldExamples();
  }

  /** The pieces of "+999-01" and what its year field reads as. */
  lemma SignedYearExample()
    ensures Split("+999-01", {'-'}) == ["+999", "01"]
    ensures ParseField("+999", true, false) == Ok(999) && ByteLen("+999") == 4
    ensures ParseField("+999", true, true) == Err
  {
    assert NoDash("+999") && NoDash("01");
    assert "+999-01" == "+999" + "-" + "01";
    SplitAtDash("+999", "01");
    SplitNoDash("01");
    ByteLenAscii("+999");
    assert "+999"[1..] == "999";
    assert DigitsValue("999") == 999 by {
      assert "999"[..2] == "99" && "99"[..1] == "9" && "9"[..0] == "";
    }
    assert !IsAsciiDigit("+999"[0]);
  }

  /** The two sign examples at the level of whole month and date strings. */
  lemma StringSignsAccepted()
    ensures IsValidMonthStringAsWritten("2000-+1") && !IsValidMonthString("2000-+1")
    ensures IsValidDateStringAsWritten("2000-01-+5") && !IsValidDateString("2000-01-+5")
    ensures ParseDateStringAsWritten("2000-01-+5") == Ok((2000, 1, 5))
  {
    MonthFieldSignAccepted();
    DayFieldSignAccepted();
    SplitExamples();
  }
}
