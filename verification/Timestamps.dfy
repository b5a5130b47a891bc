/** The timestamps of audit entries, and how they sort (crates/server/src/audit.rs). */
module Timestamps {
  import opened Common
  import opened Decimal
  import opened Calendar

  /** One field of the timestamp: a number, its least width and the character behind it. */
  datatype Field = Field(value: nat, width: nat, mark: char)

  function Render(fields: seq<Field>): string {
    if fields == [] then ""
    else Pad(fields[0].value, fields[0].width) + [fields[0].mark] + Render(fields[1..])
  }

  /** Year, month, day, hours, minutes and seconds of a Unix time. */
  function FieldsOf(secs: nat): (fields: seq<Field>)
    ensures |fields| == 6
  {
    DaysToYmdCorrect(secs / 86400);
    var date := DaysToYmd(secs / 86400);
    var inDay := secs % 86400;
    [Field(date.year, 4, '-'), Field(date.month, 2, '-'), Field(date.day, 2, 'T'),
     Field(inDay / 3600, 2, ':'), Field(inDay % 3600 / 60, 2, ':'), Field(inDay % 3600 % 60, 2, 'Z')]
  }

  function TimeToIso8601(secs: nat): string {
    Render(FieldsOf(secs))
  }

  // ---------- Order of rendered fields ----------

  /** Same shape, every value within its width. */
  predicate Aligned(a: seq<Field>, b: seq<Field>) {
    && |a| == |b|
    && forall i :: 0 <= i < |a| ==>
         && a[i].width == b[i].width && a[i].mark == b[i].mark
         && a[i].value < Pow10(a[i].width) && b[i].value < Pow10(b[i].width)
  }

  predicate FieldsLess(a: seq<Field>, b: seq<Field>)
    requires |a| == |b|
  {
    a != [] && (a[0].value < b[0].value || (a[0].value == b[0].value && FieldsLess(a[1..], b[1..])))
  }

  lemma {:induction false} RenderOrder(a: seq<Field>, b: seq<Field>)
    requires Aligned(a, b)
    ensures Less(Render(a), Render(b)) <==> FieldsLess(a, b)
  {
    if a != [] {
      var x, y := Pad(a[0].value, a[0].width), Pad(b[0].value, b[0].width);
      PadWidth(a[0].value, a[0].width);
      PadWidth(b[0].value, b[0].width);
      PadOrder(a[0].value, b[0].value, a[0].width);
      RenderOrder(a[1..], b[1..]);
      LessConcat(x + [a[0].mark], y + [b[0].mark], Render(a[1..]), Render(b[1..]));
      LessConcat(x, y, [a[0].mark], [b[0].mark]);
      LessIrreflexive([a[0].mark]);
      assert x == (x + [a[0].mark])[..|x|] && y == (y + [b[0].mark])[..|y|];
    }
  }

  /** 10000-01-01T00:00:00Z */
  const FIRST_FIVE_DIGIT_SECOND: nat := 253_402_300_800

  lemma FourDigitYear(secs: nat)
    requires secs < FIRST_FIVE_DIGIT_SECOND
    ensures DaysToYmd(secs / 86400).year <= 9999
  {
    var days := secs / 86400;
    DaysToYmdCorrect(days);
    var d := DaysToYmd(days);
    assert DaysBeforeYear(9999) + DaysInYear(9999) - DaysBeforeYear(1970) == 2932897;
    DayWithinYear(d);
    if d.year > 9999 {
      YearsMonotone(9999, d.year);
    }
  }

  lemma FieldsAligned(s: nat, t: nat)
    requires s < FIRST_FIVE_DIGIT_SECOND && t < FIRST_FIVE_DIGIT_SECOND
    ensures Aligned(FieldsOf(s), FieldsOf(t))
  {
    FieldsFit(s);
    FieldsFit(t);
  }

  lemma FieldsFit(s: nat)
    requires s < FIRST_FIVE_DIGIT_SECOND
    ensures forall i :: 0 <= i < 6 ==> FieldsOf(s)[i].value < Pow10(FieldsOf(s)[i].width)
  {
    FourDigitYear(s);
    DaysToYmdCorrect(s / 86400);
    assert Pow10(2) == 100 && Pow10(4) == 10000;
  }

  lemma ClockFields(s: nat, t: nat)
    requires s < t < 86400
    ensures s / 3600 < t / 3600
            || (s / 3600 == t / 3600 && (s % 3600 / 60 < t % 3600 / 60
                                         || (s % 3600 / 60 == t % 3600 / 60 && s % 3600 % 60 < t % 3600 % 60)))
  {
  }

  lemma {:induction false} FieldsLessAt(a: seq<Field>, b: seq<Field>, i: nat)
    requires |a| == |b| && i < |a| && a[i].value < b[i].value
    requires forall j :: 0 <= j < i ==> a[j].value == b[j].value
    ensures FieldsLess(a, b)
  {
    if i > 0 {
      FieldsLessAt(a[1..], b[1..], i - 1);
    }
  }

  lemma FieldsIncrease(s: nat, t: nat)
    requires s < t
    ensures FieldsLess(FieldsOf(s), FieldsOf(t))
  {
    var a, b := FieldsOf(s), FieldsOf(t);
    if s / 86400 < t / 86400 {
      DaysToYmdIncreases(s / 86400, t / 86400);
      FieldsLessAt(a, b, if a[0].value < b[0].value then 0 else if a[1].value < b[1].value then 1 else 2);
    } else {
      assert s % 86400 < t % 86400;
      ClockFields(s % 86400, t % 86400);
      FieldsLessAt(a, b, if a[3].value < b[3].value then 3 else if a[4].value < b[4].value then 4 else 5);
    }
  }

  /** Timestamps of seconds before `bound` sort like the seconds. */
  ghost predicate SortsBelow(bound: nat) {
    forall s: nat, t: nat :: s < t < bound ==> Less(TimeToIso8601(s), TimeToIso8601(t))
  }

  lemma LastFourDigitYear()
    ensures DaysToYmd(2932896).year == 9999 && DaysToYmd(2932897).year == 10000
  {
    DaysToYmdCorrect(2932896);
    DaysToYmdCorrect(2932897);
    FourDigitYear(FIRST_FIVE_DIGIT_SECOND - 1);
    var d, e := DaysToYmd(2932896), DaysToYmd(2932897);
    DayWithinYear(d);
    DayWithinYear(e);
    assert DaysBeforeYear(9999) - DaysBeforeYear(1970) == 2932532;
    assert DaysBeforeYear(10000) - DaysBeforeYear(1970) == 2932897;
    assert DaysInYear(10000) == 366;
    if d.year < 9999 {
      YearsMonotone(d.year, 9999);
    }
    if e.year < 10000 {
      YearsMonotone(e.year, 10000);
    } else if e.year > 10000 {
      YearsMonotone(10000, e.year);
    }
  }

  lemma FirstDigits()
    ensures Pad(9999, 4)[0] == '9' && Pad(10000, 4)[0] == '1'
  {
    assert Pad(9, 1) == Pad(0, 0) + [Digit(9)] && Pad(99, 2) == Pad(9, 1) + [Digit(9)];
    assert Pad(999, 3) == Pad(99, 2) + [Digit(9)];
    assert Pad(1, 0) == Pad(0, 0) + [Digit(1)] && Pad(10, 1) == Pad(1, 0) + [Digit(0)];
    assert Pad(100, 2) == Pad(10, 1) + [Digit(0)] && Pad(1000, 3) == Pad(100, 2) + [Digit(0)];
  }

  /** "10000-..." sorts before "9999-...". */
  lemma YearTenThousandSortsFirst()
    ensures !Less(TimeToIso8601(FIRST_FIVE_DIGIT_SECOND - 1), TimeToIso8601(FIRST_FIVE_DIGIT_SECOND))
  {
    LastFourDigitYear();
    FirstDigits();
    var a, b := FieldsOf(FIRST_FIVE_DIGIT_SECOND - 1), FieldsOf(FIRST_FIVE_DIGIT_SECOND);
    assert (FIRST_FIVE_DIGIT_SECOND - 1) / 86400 == 2932896 && FIRST_FIVE_DIGIT_SECOND / 86400 == 2932897;
    assert a[0] == Field(9999, 4, '-') && b[0] == Field(10000, 4, '-');
    assert Render(a)[0] == Pad(9999, 4)[0] && Render(b)[0] == Pad(10000, 4)[0];
  }

  /** The order is right up to the end of the year 9999 and no further. */
  lemma SortsExact(bound: nat)
    ensures SortsBelow(bound) <==> bound <= FIRST_FIVE_DIGIT_SECOND
  {
    if bound <= FIRST_FIVE_DIGIT_SECOND {
      forall s: nat, t: nat | s < t < bound
        ensures Less(TimeToIso8601(s), TimeToIso8601(t))
      {
        FieldsAligned(s, t);
        FieldsIncrease(s, t);
        RenderOrder(FieldsOf(s), FieldsOf(t));
      }
    } else {
      YearTenThousandSortsFirst();
    }
  }

  // ---------- Reading a timestamp back ----------

  /** The string looks like dddd-dd-ddTdd:dd:ddZ, with a digit for every d. */
  predicate HasTimestampForm(s: string) {
    && |s| == 20
    && Digits(s[..4]) && Digits(s[5..7]) && Digits(s[8..10])
    && Digits(s[11..13]) && Digits(s[14..16]) && Digits(s[17..19])
    && s[4] == '-' && s[7] == '-' && s[10] == 'T' && s[13] == ':' && s[16] == ':' && s[19] == 'Z'
  }

  /** The six numbers of a string of that form. */
  function ReadNumbers(s: string): (n: Option<seq<nat>>)
    ensures n.Some? ==> |n.value| == 6
  {
    if HasTimestampForm(s) then
      Some([Value(s[..4]), Value(s[5..7]), Value(s[8..10]), Value(s[11..13]), Value(s[14..16]), Value(s[17..19])])
    else None
  }

  /** The Unix time of a string of that form that names a valid date. */
  function ReadTime(s: string): Option<int> {
    match ReadNumbers(s)
    case None => None
    case Some(n) =>
      var date := Date(n[0], n[1], n[2]);
      if ValidDate(date) then Some(86400 * DayNumber(date) + 3600 * n[3] + 60 * n[4] + n[5]) else None
  }

  lemma ClockAddsUp(secs: nat)
    ensures var inDay := secs % 86400;
            secs == 86400 * (secs / 86400) + 3600 * (inDay / 3600) + 60 * (inDay % 3600 / 60) + inDay % 3600 % 60
  {
  }

  lemma RenderedFields(f: seq<Field>)
    requires |f| == 6
    ensures Render(f)
            == Pad(f[0].value, f[0].width) + [f[0].mark] + (Pad(f[1].value, f[1].width) + [f[1].mark]
               + (Pad(f[2].value, f[2].width) + [f[2].mark] + (Pad(f[3].value, f[3].width) + [f[3].mark]
               + (Pad(f[4].value, f[4].width) + [f[4].mark] + (Pad(f[5].value, f[5].width) + [f[5].mark])))))
  {
    RenderOne(f);
    RenderOne(f[1..]);
    RenderOne(f[2..]);
    RenderOne(f[3..]);
    RenderOne(f[4..]);
    RenderOne(f[5..]);
    assert f[1..][1..] == f[2..] && f[2..][1..] == f[3..] && f[3..][1..] == f[4..] && f[4..][1..] == f[5..];
    assert f[5..][1..] == [];
  }

  lemma RenderOne(f: seq<Field>)
    requires f != []
    ensures Render(f) == Pad(f[0].value, f[0].width) + [f[0].mark] + Render(f[1..])
    ensures Render([]) == ""
  {
  }

  lemma Split(text: string, from: nat, a: string, mark: char, rest: string)
    requires from <= |text| && text[from..] == a + [mark] + rest
    ensures from + |a| < |text| && text[from..from + |a|] == a && text[from + |a|] == mark
    ensures text[from + |a| + 1..] == rest
  {
    var tail := text[from..];
    assert text[from..from + |a|] == tail[..|a|] && text[from + |a|] == tail[|a|];
    assert text[from + |a| + 1..] == tail[|a| + 1..];
  }

  lemma Slices(y: string, mo: string, d: string, h: string, mi: string, s: string, text: string)
    requires |y| == 4 && |mo| == |d| == |h| == |mi| == |s| == 2
    requires text == y + ['-'] + (mo + ['-'] + (d + ['T'] + (h + [':'] + (mi + [':'] + (s + ['Z'])))))
    ensures |text| == 20
    ensures text[..4] == y && text[5..7] == mo && text[8..10] == d
    ensures text[11..13] == h && text[14..16] == mi && text[17..19] == s
    ensures text[4] == '-' && text[7] == '-' && text[10] == 'T' && text[13] == ':' && text[16] == ':' && text[19] == 'Z'
  {
    assert text[0..] == text;
    Split(text, 0, y, '-', mo + ['-'] + (d + ['T'] + (h + [':'] + (mi + [':'] + (s + ['Z'])))));
    Split(text, 5, mo, '-', d + ['T'] + (h + [':'] + (mi + [':'] + (s + ['Z']))));
    Split(text, 8, d, 'T', h + [':'] + (mi + [':'] + (s + ['Z'])));
    Split(text, 11, h, ':', mi + [':'] + (s + ['Z']));
    Split(text, 14, mi, ':', s + ['Z']);
    assert s + ['Z'] + "" == s + ['Z'];
    Split(text, 17, s, 'Z', "");
  }

  /** The shape of timestamp fields, each as wide as it should be. */
  predicate TimestampShape(f: seq<Field>) {
    && |f| == 6
    && f[0].width == 4 && (forall i :: 1 <= i < 6 ==> f[i].width == 2)
    && f[0].mark == f[1].mark == '-' && f[2].mark == 'T' && f[3].mark == f[4].mark == ':' && f[5].mark == 'Z'
    && (forall i :: 0 <= i < 6 ==> f[i].value < Pow10(f[i].width))
  }

  lemma FieldText(f: Field)
    requires f.value < Pow10(f.width)
    ensures |Pad(f.value, f.width)| == f.width && Value(Pad(f.value, f.width)) == f.value
  {
    PadWidth(f.value, f.width);
    PadValue(f.value, f.width);
  }

  lemma ReadSlices(text: string, y: string, mo: string, d: string, h: string, mi: string, s: string)
    requires |text| == 20
    requires text[..4] == y && text[5..7] == mo && text[8..10] == d
    requires text[11..13] == h && text[14..16] == mi && text[17..19] == s
    requires text[4] == text[7] == '-' && text[10] == 'T' && text[13] == text[16] == ':' && text[19] == 'Z'
    requires Digits(y) && Digits(mo) && Digits(d) && Digits(h) && Digits(mi) && Digits(s)
    ensures ReadNumbers(text) == Some([Value(y), Value(mo), Value(d), Value(h), Value(mi), Value(s)])
  {
    assert HasTimestampForm(text);
  }

  lemma ReadRendered(f: seq<Field>)
    requires TimestampShape(f)
    ensures ReadNumbers(Render(f)) == Some([f[0].value, f[1].value, f[2].value, f[3].value, f[4].value, f[5].value])
  {
    var y, mo, d := Pad(f[0].value, 4), Pad(f[1].value, 2), Pad(f[2].value, 2);
    var h, mi, s := Pad(f[3].value, 2), Pad(f[4].value, 2), Pad(f[5].value, 2);
    assert Render(f) == y + ['-'] + (mo + ['-'] + (d + ['T'] + (h + [':'] + (mi + [':'] + (s + ['Z']))))) by {
      RenderedFields(f);
    }
    FieldText(f[0]);
    FieldText(f[1]);
    FieldText(f[2]);
    FieldText(f[3]);
    FieldText(f[4]);
    FieldText(f[5]);
    Slices(y, mo, d, h, mi, s, Render(f));
    ReadSlices(Render(f), y, mo, d, h, mi, s);
  }

  /** Through the year 9999 a timestamp reads back as the second it was made from. */
  lemma TimestampRoundTrip(secs: nat)
    requires secs < FIRST_FIVE_DIGIT_SECOND
    ensures ReadTime(TimeToIso8601(secs)) == Some(secs)
  {
    var f := FieldsOf(secs);
    FieldsFit(secs);
    DaysToYmdCorrect(secs / 86400);
    assert Date(f[0].value, f[1].value, f[2].value) == DaysToYmd(secs / 86400);
    assert secs == 86400 * (secs / 86400) + 3600 * f[3].value + 60 * f[4].value + f[5].value by {
      ClockAddsUp(secs);
    }
    ReadRendered(f);
  }
}
