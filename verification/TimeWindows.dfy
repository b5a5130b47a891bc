/** Daily time windows and their expiry (crates/server/src/policy.rs).  Windows are given as parsed;
    times are Unix seconds. */
module TimeWindows {
  import opened Common

  const DAY: int := 86400

  /** Hours and minutes. */
  datatype Clock = Clock(hours: int, minutes: int) {
    predicate Valid() {
      0 <= hours <= 23 && 0 <= minutes <= 59
    }

    function Minutes(): int {
      hours * 60 + minutes
    }
  }

  datatype Window = Window(start: Clock, end: Clock) {
    predicate Valid() {
      start.Valid() && end.Valid()
    }
  }

  /** rem_euclid: seconds since local midnight. */
  function SecondOfDay(secs: int, offsetHours: int): int {
    (secs + offsetHours * 3600) % DAY
  }

  /** get_current_time_with_offset */
  function ClockAt(secs: int, offsetHours: int): (c: Clock)
    ensures c.Valid()
  {
    var today := SecondOfDay(secs, offsetHours);
    Clock(today / 3600, today % 3600 / 60)
  }

  predicate TimeInRange(time: Clock, start: Clock, end: Clock) {
    if start.Minutes() <= end.Minutes() then start.Minutes() <= time.Minutes() < end.Minutes()
    else time.Minutes() >= start.Minutes() || time.Minutes() < end.Minutes()
  }

  predicate Open(w: Window, secs: int, offsetHours: int) {
    TimeInRange(ClockAt(secs, offsetHours), w.start, w.end)
  }

  function MinutesUntilEnd(now: Clock, end: Clock): int {
    if end.Minutes() > now.Minutes() then end.Minutes() - now.Minutes() else 24 * 60 - now.Minutes() + end.Minutes()
  }

  /** calculate_window_expiry from the window at index i on: the instant when the first open window
      is taken to end. */
  function ExpiryFrom(windows: seq<Window>, i: nat, secs: int, offsetHours: int): Option<int>
    requires i <= |windows|
    decreases |windows| - i
  {
    if i == |windows| then None
    else if Open(windows[i], secs, offsetHours) then
      Some(secs + MinutesUntilEnd(ClockAt(secs, offsetHours), windows[i].end) * 60)
    else ExpiryFrom(windows, i + 1, secs, offsetHours)
  }

  // ---------- The end of a window ----------

  lemma ClockMinutes(secs: int, offsetHours: int)
    ensures ClockAt(secs, offsetHours).Minutes() == SecondOfDay(secs, offsetHours) / 60
  {
    var today := SecondOfDay(secs, offsetHours);
    assert today == 3600 * (today / 3600) + 60 * (today % 3600 / 60) + today % 60;
  }

  /** The minute of the local day. */
  function MinuteAt(secs: int, offsetHours: int): int {
    (secs + 3600 * offsetHours) / 60 % 1440
  }

  lemma WholeMinutes(minutes: int, seconds: int)
    requires 0 <= seconds < 60
    ensures (60 * minutes + seconds) / 60 == minutes
  {
  }

  lemma MinuteInDay(days: int, minute: int)
    requires 0 <= minute < 1440
    ensures (1440 * days + minute) % 1440 == minute
  {
  }

  lemma MinuteOfDay(secs: int, offsetHours: int)
    ensures MinuteAt(secs, offsetHours) == ClockAt(secs, offsetHours).Minutes()
  {
    ClockMinutes(secs, offsetHours);
    var local := secs + 3600 * offsetHours;
    var days, today := local / 86400, local % 86400;
    var minute, rest := today / 60, today % 60;
    assert today == SecondOfDay(secs, offsetHours) && 0 <= minute < 1440;
    assert local == 60 * (1440 * days + minute) + rest;
    WholeMinutes(1440 * days + minute, rest);
    MinuteInDay(days, minute);
  }

  lemma SmallModulo(x: int)
    requires -1440 < x < 1440
    ensures x % 1440 == if x >= 0 then x else x + 1440
  {
  }

  /** On the circle of the day's minutes a window is the arc from its start to its end: open exactly when
      the minute is not as far from the start as the end is.  So equal start and end are never open. */
  lemma OpenExact(w: Window, secs: int, offsetHours: int)
    requires w.Valid()
    ensures Open(w, secs, offsetHours)
            <==> (MinuteAt(secs, offsetHours) - (60 * w.start.hours + w.start.minutes)) % 1440
                 < (60 * w.end.hours + w.end.minutes - (60 * w.start.hours + w.start.minutes)) % 1440
  {
    MinuteOfDay(secs, offsetHours);
    SmallModulo(MinuteAt(secs, offsetHours) - w.start.Minutes());
    SmallModulo(w.end.Minutes() - w.start.Minutes());
  }

  lemma SecondLater(secs: int, offsetHours: int, delay: int)
    requires 0 <= delay <= DAY
    ensures var s := SecondOfDay(secs, offsetHours) + delay;
            SecondOfDay(secs + delay, offsetHours) == if s < DAY then s else s - DAY
  {
    var local := secs + offsetHours * 3600;
    assert local == DAY * (local / DAY) + local % DAY;
    assert (local + delay) % DAY == (local % DAY + delay) % DAY;
  }

  /** The first second from `secs` on at which the window is closed. */
  ghost predicate FirstClosed(w: Window, secs: int, offsetHours: int, end: int) {
    && secs < end && !Open(w, end, offsetHours)
    && forall t :: secs <= t < end ==> Open(w, t, offsetHours)
  }

  /** The exact end of the window that is open at `secs`: the expiry without the seconds that have
      passed of the current minute. */
  function EndOf(w: Window, secs: int, offsetHours: int): int {
    secs - SecondOfDay(secs, offsetHours) % 60 + MinutesUntilEnd(ClockAt(secs, offsetHours), w.end) * 60
  }

  lemma OpenUntilEnd(w: Window, secs: int, offsetHours: int, t: int)
    requires w.Valid() && Open(w, secs, offsetHours) && secs <= t <= EndOf(w, secs, offsetHours)
    ensures Open(w, t, offsetHours) <==> t < EndOf(w, secs, offsetHours)
  {
    ClockMinutes(secs, offsetHours);
    ClockMinutes(t, offsetHours);
    SecondLater(secs, offsetHours, t - secs);
  }

  lemma EndIsFirstClosed(w: Window, secs: int, offsetHours: int)
    requires w.Valid() && Open(w, secs, offsetHours)
    ensures FirstClosed(w, secs, offsetHours, EndOf(w, secs, offsetHours))
  {
    ClockMinutes(secs, offsetHours);
    var end := EndOf(w, secs, offsetHours);
    forall t | secs <= t <= end
      ensures Open(w, t, offsetHours) <==> t < end
    {
      OpenUntilEnd(w, secs, offsetHours, t);
    }
  }

  // ---------- The expiry ----------

  /** windows[j] is the first open window from index i on. */
  predicate FirstOpen(windows: seq<Window>, i: nat, j: nat, secs: int, offsetHours: int) {
    && i <= j < |windows| && Open(windows[j], secs, offsetHours)
    && forall k :: i <= k < j ==> !Open(windows[k], secs, offsetHours)
  }

  lemma {:induction false} ExpiryFromExact(windows: seq<Window>, i: nat, secs: int, offsetHours: int) returns (j: nat)
    requires i <= |windows|
    ensures var r := ExpiryFrom(windows, i, secs, offsetHours);
            if r.Some? then FirstOpen(windows, i, j, secs, offsetHours)
                            && r.value == EndOf(windows[j], secs, offsetHours) + SecondOfDay(secs, offsetHours) % 60
            else forall k :: i <= k < |windows| ==> !Open(windows[k], secs, offsetHours)
    decreases |windows| - i
  {
    j := i;
    if i < |windows| && !Open(windows[i], secs, offsetHours) {
      j := ExpiryFromExact(windows, i + 1, secs, offsetHours);
    }
  }

  /** An expiry is computed exactly when some window is open.  It belongs to the first open window in
      the list: it is at or after the first second that window is closed, and less than a minute after. */
  lemma ExpiryExact(windows: seq<Window>, secs: int, offsetHours: int) returns (j: nat, end: int)
    requires forall k :: 0 <= k < |windows| ==> windows[k].Valid()
    ensures var r := ExpiryFrom(windows, 0, secs, offsetHours);
            && (r.Some? <==> exists k :: 0 <= k < |windows| && Open(windows[k], secs, offsetHours))
            && (r.Some? ==>
                  FirstOpen(windows, 0, j, secs, offsetHours)
                  && FirstClosed(windows[j], secs, offsetHours, end) && end <= r.value < end + 60)
  {
    j := ExpiryFromExact(windows, 0, secs, offsetHours);
    end := secs;
    if ExpiryFrom(windows, 0, secs, offsetHours).Some? {
      end := EndOf(windows[j], secs, offsetHours);
      EndIsFirstClosed(windows[j], secs, offsetHours);
    }
  }

  lemma FirstClosedUnique(w: Window, secs: int, offsetHours: int, a: int, b: int)
    requires FirstClosed(w, secs, offsetHours, a)
    ensures FirstClosed(w, secs, offsetHours, b) <==> a == b
  {
  }

  lemma SecondsOfMinute(secs: int, offsetHours: int)
    ensures SecondOfDay(secs, offsetHours) % 60 == secs % 60
  {
    var local := secs + offsetHours * 3600;
    assert local == 60 * (1440 * (local / DAY)) + local % DAY;
    assert local % DAY == secs + 60 * (60 * offsetHours - 1440 * (local / DAY));
  }

  /** The expiry is the exact end precisely on full minutes. */
  lemma ExpiryOnFullMinute(w: Window, secs: int, offsetHours: int)
    requires w.Valid() && Open(w, secs, offsetHours)
    ensures ExpiryFrom([w], 0, secs, offsetHours).Some?
    ensures FirstClosed(w, secs, offsetHours, ExpiryFrom([w], 0, secs, offsetHours).value) <==> secs % 60 == 0
  {
    EndIsFirstClosed(w, secs, offsetHours);
    SecondsOfMinute(secs, offsetHours);
    var j := ExpiryFromExact([w], 0, secs, offsetHours);
    FirstClosedUnique(w, secs, offsetHours, EndOf(w, secs, offsetHours), ExpiryFrom([w], 0, secs, offsetHours).value);
  }

  /** The search loop of calculate_window_expiry. */
  method CalculateExpiry(windows: seq<Window>, secs: int, offsetHours: int) returns (r: Option<int>)
    ensures r == ExpiryFrom(windows, 0, secs, offsetHours)
  {
    var now := ClockAt(secs, offsetHours);
    for i := 0 to |windows|
      invariant ExpiryFrom(windows, i, secs, offsetHours) == ExpiryFrom(windows, 0, secs, offsetHours)
    {
      if TimeInRange(now, windows[i].start, windows[i].end) {
        var nowMins := now.Minutes();
        var endMins := windows[i].end.Minutes();
        var minsUntilEnd := if endMins > nowMins then endMins - nowMins else 24 * 60 - nowMins + endMins;
        return Some(secs + minsUntilEnd * 60);
      }
    }
    r := None;
  }
}
