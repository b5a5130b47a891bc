/** Calendar arithmetic of the audit log (crates/server/src/audit.rs). */
module Calendar {
  import opened Common

  const I32_LIMIT: int := 0x8000_0000
  const I64_LIMIT: int := 0x8000_0000_0000_0000

  datatype Date = Date(year: int, month: int, day: int)

  predicate IsLeapYear(year: int) {
    (year % 4 == 0 && year % 100 != 0) || year % 400 == 0
  }

  function DaysInYear(year: int): int {
    if IsLeapYear(year) then 366 else 365
  }

  /** Month lengths, January first. */
  function DaysInMonths(year: int): (lengths: seq<int>)
    ensures |lengths| == 12 && forall i :: 0 <= i < 12 ==> 28 <= lengths[i] <= 31
  {
    if IsLeapYear(year) then [31, 29, 31, 30, 31, 30, 31, 31, 30, 31, 30, 31]
    else [31, 28, 31, 30, 31, 30, 31, 31, 30, 31, 30, 31]
  }

  // ---------- The two loops of days_to_ymd ----------

  /** (year, days left in it) when counting on from `year`. */
  function YearLoop(year: int, remaining: int): (r: (int, int))
    ensures remaining >= 0 ==> year <= r.0 && 0 <= r.1 < DaysInYear(r.0)
    decreases remaining
  {
    if remaining < DaysInYear(year) then (year, remaining) else YearLoop(year + 1, remaining - DaysInYear(year))
  }

  /** (months passed, days left) when counting on from months[i]. */
  function MonthLoop(lengths: seq<int>, i: nat, remaining: int): (r: (nat, int))
    requires i <= |lengths|
    decreases |lengths| - i
  {
    if i == |lengths| || remaining < lengths[i] then (i, remaining)
    else MonthLoop(lengths, i + 1, remaining - lengths[i])
  }

  function DaysToYmd(days: int): Date {
    var (year, inYear) := YearLoop(1970, days);
    var (month, inMonth) := MonthLoop(DaysInMonths(year), 0, inYear);
    Date(year, month + 1, inMonth + 1)
  }

  // ---------- Reference: the Gregorian calendar by rule and formula ----------

  /** Days from 0001-01-01 to the first day of the year. */
  function DaysBeforeYear(year: int): int {
    365 * (year - 1) + Multiples(4, year - 1) - Multiples(100, year - 1) + Multiples(400, year - 1)
  }

  /** How many of 1..x are multiples of n. */
  function Multiples(n: int, x: int): int
    requires n > 0
  {
    x / n
  }

  /** What the other months leave of the year. */
  function February(year: int): int {
    DaysBeforeYear(year + 1) - DaysBeforeYear(year) - 337
  }

  /** April, June, September and November have 30 days, all others but February 31. */
  function MonthLength(year: int, month: int): int {
    if month == 2 then February(year) else if month == 4 || month == 6 || month == 9 || month == 11 then 30 else 31
  }

  predicate ValidDate(d: Date) {
    1 <= d.month <= 12 && 1 <= d.day <= MonthLength(d.year, d.month)
  }

  /** Days from the first day of the year to that of the month; from March on the lengths follow a
      pattern of five months with 153 days. */
  function DaysBeforeMonth(year: int, month: int): int {
    if month <= 2 then 31 * (month - 1) else 31 + February(year) + (153 * (month - 3) + 2) / 5
  }

  /** Days from 1970-01-01 to d. */
  function DayNumber(d: Date): int {
    DaysBeforeYear(d.year) - DaysBeforeYear(1970) + DaysBeforeMonth(d.year, d.month) + d.day - 1
  }

  predicate Before(a: Date, b: Date) {
    a.year < b.year || (a.year == b.year && (a.month < b.month || (a.month == b.month && a.day < b.day)))
  }

  // ---------- Correctness ----------

  function Sum(s: seq<int>): int {
    if s == [] then 0 else Sum(s[..|s| - 1]) + s[|s| - 1]
  }

  lemma MultiplesStep(n: int, x: int)
    requires n == 4 || n == 100 || n == 400
    ensures Multiples(n, x) - Multiples(n, x - 1) == if x % n == 0 then 1 else 0
  {
  }

  lemma CenturiesAreMultiples(x: int)
    ensures x % 400 == 0 ==> x % 100 == 0
    ensures x % 100 == 0 ==> x % 4 == 0
  {
    if x % 400 == 0 {
      var centuries := 4 * (x / 400);
      assert x == 100 * centuries;
      IsMultiple(centuries);
    }
    if x % 100 == 0 {
      var quarters := 25 * (x / 100);
      assert x == 4 * quarters;
      IsMultiple(quarters);
    }
  }

  lemma IsMultiple(k: int)
    ensures (100 * k) % 100 == 0 && (4 * k) % 4 == 0
  {
  }

  lemma YearLength(year: int)
    ensures DaysBeforeYear(year + 1) - DaysBeforeYear(year) == DaysInYear(year)
  {
    MultiplesStep(4, year);
    MultiplesStep(100, year);
    MultiplesStep(400, year);
    CenturiesAreMultiples(year);
  }

  lemma {:induction false} YearLoopExact(year: int, remaining: int)
    requires remaining >= 0
    ensures var (y, left) := YearLoop(year, remaining);
            DaysBeforeYear(y) + left == DaysBeforeYear(year) + remaining
    decreases remaining
  {
    if remaining >= DaysInYear(year) {
      YearLength(year);
      YearLoopExact(year + 1, remaining - DaysInYear(year));
    }
  }

  lemma {:induction false} MonthLoopExact(lengths: seq<int>, i: nat, remaining: int)
    requires i <= |lengths| && 0 <= remaining && Sum(lengths[..i]) + remaining < Sum(lengths)
    ensures var (m, left) := MonthLoop(lengths, i, remaining);
            && m < |lengths| && 0 <= left < lengths[m]
            && Sum(lengths[..m]) + left == Sum(lengths[..i]) + remaining
    decreases |lengths| - i
  {
    assert lengths[..|lengths|] == lengths;
    if i < |lengths| && remaining >= lengths[i] {
      assert lengths[..i + 1][..i] == lengths[..i];
      MonthLoopExact(lengths, i + 1, remaining - lengths[i]);
    }
  }

  lemma MonthPattern(year: int, month: int)
    requires 1 <= month <= 12
    ensures DaysBeforeMonth(year, month + 1) - DaysBeforeMonth(year, month) == MonthLength(year, month)
  {
    var m := month - 3;
    assert m >= 0 ==> m == 0 || m == 1 || m == 2 || m == 3 || m == 4 || m == 5 || m == 6 || m == 7 || m == 8 || m == 9;
  }

  /** The table of month lengths follows the rule. */
  lemma MonthTable(year: int, month: int)
    requires 1 <= month <= 12
    ensures DaysInMonths(year)[month - 1] == MonthLength(year, month)
  {
    YearLength(year);
  }

  lemma {:induction false} MonthSums(year: int, months: nat)
    requires months <= 12
    ensures Sum(DaysInMonths(year)[..months]) == DaysBeforeMonth(year, months + 1)
  {
    var lengths := DaysInMonths(year);
    if months > 0 {
      assert lengths[..months][..months - 1] == lengths[..months - 1];
      MonthSums(year, months - 1);
      MonthTable(year, months);
      MonthPattern(year, months);
    }
  }

  lemma MonthsFillYear(year: int)
    ensures Sum(DaysInMonths(year)) == DaysInYear(year)
  {
    assert DaysInMonths(year)[..12] == DaysInMonths(year);
    MonthSums(year, 12);
    YearLength(year);
  }

  /** days_to_ymd yields a valid date, and counting days up to it gives the argument back. */
  lemma DaysToYmdCorrect(days: int)
    requires days >= 0
    ensures ValidDate(DaysToYmd(days)) && DayNumber(DaysToYmd(days)) == days && DaysToYmd(days).year >= 1970
  {
    var (year, inYear) := YearLoop(1970, days);
    YearLoopExact(1970, days);
    MonthsFillYear(year);
    var lengths := DaysInMonths(year);
    assert lengths[..0] == [];
    MonthLoopExact(lengths, 0, inYear);
    var (month, inMonth) := MonthLoop(lengths, 0, inYear);
    MonthTable(year, month + 1);
    MonthSums(year, month);
    assert DaysToYmd(days) == Date(year, month + 1, inMonth + 1);
  }

  lemma {:induction false} YearsMonotone(a: int, b: int)
    requires a < b
    ensures DaysBeforeYear(a) + DaysInYear(a) <= DaysBeforeYear(b)
    decreases b - a
  {
    YearLength(a);
    if a + 1 < b {
      YearsMonotone(a + 1, b);
    }
  }

  lemma MonthAtLeast28(year: int, month: int)
    requires 1 <= month <= 12
    ensures 28 <= MonthLength(year, month)
  {
    YearLength(year);
  }

  lemma {:induction false} MonthsMonotone(year: int, a: int, b: int)
    requires 1 <= a < b <= 13
    ensures DaysBeforeMonth(year, a) + MonthLength(year, a) <= DaysBeforeMonth(year, b)
    decreases b
  {
    MonthPattern(year, b - 1);
    MonthAtLeast28(year, b - 1);
    if a < b - 1 {
      MonthsMonotone(year, a, b - 1);
    }
  }

  lemma DayWithinYear(d: Date)
    requires ValidDate(d)
    ensures 0 <= DaysBeforeMonth(d.year, d.month) + d.day - 1 < DaysInYear(d.year)
  {
    MonthsMonotone(d.year, d.month, 13);
    YearLength(d.year);
    if d.month > 1 {
      MonthsMonotone(d.year, 1, d.month);
      MonthAtLeast28(d.year, 1);
    }
  }

  /** The day count is strictly increasing in the order of dates. */
  lemma DayNumberIncreases(a: Date, b: Date)
    requires ValidDate(a) && ValidDate(b) && Before(a, b)
    ensures DayNumber(a) < DayNumber(b)
  {
    DayWithinYear(a);
    DayWithinYear(b);
    if a.year < b.year {
      YearsMonotone(a.year, b.year);
    } else if a.month < b.month {
      MonthsMonotone(a.year, a.month, b.month);
    }
  }

  /** Every valid date from 1970 on is what days_to_ymd returns for its day count, and only there. */
  lemma DaysToYmdInverse(d: Date, days: int)
    requires ValidDate(d) && d.year >= 1970 && days >= 0
    ensures DaysToYmd(days) == d <==> DayNumber(d) == days
  {
    DaysToYmdCorrect(days);
    var e := DaysToYmd(days);
    if e != d {
      if Before(d, e) {
        DayNumberIncreases(d, e);
      } else {
        DayNumberIncreases(e, d);
      }
    }
  }

  /** Later days have later dates. */
  lemma DaysToYmdIncreases(a: int, b: int)
    requires 0 <= a < b
    ensures Before(DaysToYmd(a), DaysToYmd(b))
  {
    DaysToYmdCorrect(a);
    DaysToYmdCorrect(b);
    var d, e := DaysToYmd(a), DaysToYmd(b);
    if !Before(d, e) && d != e {
      DayNumberIncreases(e, d);
    }
  }

  // ---------- The function as written, with its machine integers ----------

  /** The day whose year no longer fits in i32: 2147483648-01-01. */
  const FIRST_OVERFLOWING_DAY: int := DaysBeforeYear(I32_LIMIT) - DaysBeforeYear(1970)

  function AsI64(x: u64): int {
    if x < I64_LIMIT then x else x - U64_LIMIT
  }

  function AsU32(x: int): u32 {
    if 0 <= x < U32_LIMIT then x else x % U32_LIMIT
  }

  /** The year loop; None where `year += 1` overflows i32. */
  method AdvanceYears(days: u64) returns (r: Option<(int, int)>)
    ensures days < FIRST_OVERFLOWING_DAY ==> r == Some(YearLoop(1970, days))
    ensures FIRST_OVERFLOWING_DAY <= days < I64_LIMIT ==> r == None
    ensures days >= I64_LIMIT ==> r == Some((1970, days - U64_LIMIT))
  {
    var remainingDays := AsI64(days);
    var year := 1970;
    while true
      invariant 1970 <= year < I32_LIMIT
      invariant days < I64_LIMIT ==> remainingDays >= 0
      invariant days < I64_LIMIT ==> DaysBeforeYear(year) + remainingDays == DaysBeforeYear(1970) + days
      invariant days < I64_LIMIT ==> YearLoop(year, remainingDays) == YearLoop(1970, days)
      invariant days >= I64_LIMIT ==> year == 1970 && remainingDays == days - U64_LIMIT
      decreases remainingDays
    {
      var daysInYear := if IsLeapYear(year) then 366 else 365;
      YearLength(year);
      if remainingDays < daysInYear {
        if days < I64_LIMIT {
          YearsBelowLimit(days, year, remainingDays);
        }
        return Some((year, remainingDays));
      }
      if year + 1 == I32_LIMIT {
        return None;
      }
      remainingDays := remainingDays - daysInYear;
      year := year + 1;
    }
  }

  /** The month loop. */
  method AdvanceMonths(lengths: seq<int>, inYear: int) returns (month: int, inMonth: int)
    requires |lengths| == 12
    ensures (month - 1, inMonth) == MonthLoop(lengths, 0, inYear)
  {
    month, inMonth := 1, inYear;
    while month <= 12
      invariant 1 <= month <= 13
      invariant MonthLoop(lengths, month - 1, inMonth) == MonthLoop(lengths, 0, inYear)
    {
      if inMonth < lengths[month - 1] {
        break;
      }
      inMonth := inMonth - lengths[month - 1];
      month := month + 1;
    }
  }

  /** days_to_ymd; None where the year overflows.  The result is the right date exactly for the days
      before the first overflow. */
  method ComputeYmd(days: u64) returns (r: Option<Date>)
    ensures days < FIRST_OVERFLOWING_DAY ==> r == Some(DaysToYmd(days))
    ensures FIRST_OVERFLOWING_DAY <= days < I64_LIMIT ==> r == None
    ensures days >= I64_LIMIT ==> r == Some(Date(1970, 1, (days + 1) % 0x1_0000_0000))
    ensures (r.Some? && ValidDate(r.value) && DayNumber(r.value) == days) <==> days < FIRST_OVERFLOWING_DAY
  {
    var advanced := AdvanceYears(days);
    if advanced == None {
      return None;
    }
    var (year, inYear) := advanced.value;
    var month, inMonth := AdvanceMonths(DaysInMonths(year), inYear);
    var date := Date(year, month, AsU32(inMonth + 1));
    if days < FIRST_OVERFLOWING_DAY {
      assert Date(year, month, inMonth + 1) == DaysToYmd(days);
      DaysToYmdCorrect(days);
    } else {
      NoSuchDay(date, days);
    }
    r := Some(date);
  }

  lemma YearsBelowLimit(days: int, year: int, inYear: int)
    requires days >= 0 && YearLoop(1970, days) == (year, inYear) && year < I32_LIMIT
    ensures days < FIRST_OVERFLOWING_DAY
  {
    YearLoopExact(1970, days);
    YearsMonotone(year, I32_LIMIT);
  }

  lemma NoSuchDay(d: Date, days: u64)
    requires d.year == 1970 && d.month == 1 && days >= I64_LIMIT
    ensures ValidDate(d) ==> DayNumber(d) != days
  {
    if ValidDate(d) {
      DayWithinYear(d);
    }
  }
}
