/** The next daily occurrence of a wall-clock minute, in a zone of which nothing but its offsets is known. */
module Schedule {
  import opened ByteStrings

  const MINUTE := 60 * 1000000000
  const MINUTES_PER_DAY := 1440
  const DAY := MINUTES_PER_DAY * MINUTE
  const SEARCHED_DATES := 370

  /** The offset from UTC in minutes, at each instant in nanoseconds: less than a day either way. */
  type Offsets = int -> int

  ghost predicate IsZone(zone: Offsets) { forall t: int :: -MINUTES_PER_DAY < zone(t) < MINUTES_PER_DAY }

  type Zone = zone: Offsets | IsZone(zone) witness (t: int) => 0

  function Local(zone: Zone, t: int): int { t + zone(t) * MINUTE }

  /** The number of the local date. */
  function DateOf(zone: Zone, t: int): int { Local(zone, t) / DAY }

  function MinuteOf(zone: Zone, t: int): int { Local(zone, t) % DAY / MINUTE }

  predicate IsMinute(t: int) { t % MINUTE == 0 }

  /** A UTC minute of the local date at or past the target. */
  predicate Reaches(zone: Zone, date: int, target: int, t: int) {
    IsMinute(t) && DateOf(zone, t) == date && MinuteOf(zone, t) >= target
  }

  /** The first of them. */
  ghost predicate IsFirst(zone: Zone, date: int, target: int, t: int) {
    Reaches(zone, date, target, t) && forall u :: u < t ==> !Reaches(zone, date, target, u)
  }

  lemma FirstsDiffer(zone: Zone, target: int, t: int, u: int)
    requires IsFirst(zone, DateOf(zone, t), target, t) && IsFirst(zone, DateOf(zone, u), target, u) && t != u
    ensures DateOf(zone, t) != DateOf(zone, u)
  {
    hide DateOf;
  }

  /** Every instant of a local date lies within a day of the UTC date, on either side. */
  lemma DateWindow(zone: Zone, date: int, t: int)
    requires DateOf(zone, t) == date
    ensures date * DAY - DAY < t < date * DAY + 2 * DAY
  {
    assert IsZone(zone);
    var l := Local(zone, t);
    assert date * DAY <= l < date * DAY + DAY;
    OffsetBounds(zone(t));
  }

  lemma OffsetBounds(o: int)
    requires -MINUTES_PER_DAY < o < MINUTES_PER_DAY
    ensures -DAY < o * MINUTE < DAY
  {
  }

  lemma MinutesApart(t: int, u: int)
    requires IsMinute(t) && IsMinute(u) && t < u
    ensures t + MINUTE <= u
  {
  }

  lemma LocalWhole(zone: Zone, t: int)
    requires IsMinute(t)
    ensures Local(zone, t) % MINUTE == 0
  {
  }

  method OccurrenceOnDate(zone: Zone, date: int, target: int) returns (r: Option<int>)
    ensures r.Some? ==> IsFirst(zone, date, target, r.value)
    ensures r.None? ==> forall t :: !Reaches(zone, date, target, t)
  {
    hide DateOf, MinuteOf;
    var start := date * DAY - DAY;
    var end := start + 3 * DAY;
    var instant := start;
    assert IsMinute(start) by { StartIsMinute(date); }
    while instant < end
      invariant IsMinute(instant) && start <= instant
      invariant forall t :: start <= t < instant ==> !Reaches(zone, date, target, t)
      decreases end - instant
    {
      if DateOf(zone, instant) == date && Local(zone, instant) % MINUTE == 0 && MinuteOf(zone, instant) >= target {
        forall u | u < instant ensures !Reaches(zone, date, target, u) {
          if Reaches(zone, date, target, u) {
            DateWindow(zone, date, u);
          }
        }
        return Some(instant);
      }
      LocalWhole(zone, instant);
      forall t | instant <= t < instant + MINUTE ensures !Reaches(zone, date, target, t) {
        if IsMinute(t) && t != instant {
          MinutesApart(instant, t);
        }
      }
      NextMinute(instant);
      instant := instant + MINUTE;
    }
    forall t ensures !Reaches(zone, date, target, t) {
      if Reaches(zone, date, target, t) {
        DateWindow(zone, date, t);
      }
    }
    return None;
  }

  lemma StartIsMinute(date: int)
    ensures IsMinute(date * DAY - DAY)
  {
  }

  lemma NextMinute(t: int)
    requires IsMinute(t)
    ensures IsMinute(t + MINUTE)
  {
  }

  datatype Result = Occurrence(at: int) | NoOccurrence(date: int) | Exhausted | Invalid

  /** The occurrence of some date from the first on, none of the earlier ones lying behind the instant. */
  ghost predicate IsNext(zone: Zone, after: int, target: int, r: Result) {
    match r
    case Occurrence(at) =>
      && after < at && DateOf(zone, after) <= DateOf(zone, at) < DateOf(zone, after) + SEARCHED_DATES
      && IsFirst(zone, DateOf(zone, at), target, at)
      && forall d :: DateOf(zone, after) <= d < DateOf(zone, at) ==> PastOccurrence(zone, d, target, after)
    case NoOccurrence(date) =>
      && DateOf(zone, after) <= date && (forall t :: !Reaches(zone, date, target, t))
      && forall d :: DateOf(zone, after) <= d < date ==> PastOccurrence(zone, d, target, after)
    case Exhausted => forall d :: DateOf(zone, after) <= d < DateOf(zone, after) + SEARCHED_DATES ==> PastOccurrence(zone, d, target, after)
    case Invalid => !(0 <= target < MINUTES_PER_DAY)
  }

  /** The date has an occurrence, and it is not behind the instant. */
  ghost predicate PastOccurrence(zone: Zone, date: int, target: int, after: int) {
    exists t :: IsFirst(zone, date, target, t) && t <= after
  }

  method NextOccurrence(zone: Zone, after: int, target: int) returns (r: Result)
    ensures IsNext(zone, after, target, r)
    ensures r.Invalid? <==> !(0 <= target < MINUTES_PER_DAY)
  {
    if target < 0 || target >= MINUTES_PER_DAY {
      return Invalid;
    }
    hide DateOf, Reaches, IsFirst;
    var date := DateOf(zone, after);
    for offset := 0 to SEARCHED_DATES
      invariant forall d :: date <= d < date + offset ==> PastOccurrence(zone, d, target, after)
    {
      var candidate := OccurrenceOnDate(zone, date + offset, target);
      if candidate.None? {
        return NoOccurrence(date + offset);
      }
      if candidate.value > after {
        FirstHasDate(zone, date + offset, target, candidate.value);
        return Occurrence(candidate.value);
      }
      assert PastOccurrence(zone, date + offset, target, after);
    }
    return Exhausted;
  }

  lemma FirstHasDate(zone: Zone, date: int, target: int, t: int)
    requires IsFirst(zone, date, target, t)
    ensures DateOf(zone, t) == date
  {
  }

  // ---------- what it promises ----------

  /** The occurrence after an occurrence is on a later local date, so no date fires twice. */
  lemma DatesAdvance(zone: Zone, after: int, target: int, first: Result, second: Result)
    requires IsNext(zone, after, target, first) && first.Occurrence?
    requires IsNext(zone, first.at, target, second) && second.Occurrence?
    ensures after < first.at < second.at
    ensures DateOf(zone, first.at) < DateOf(zone, second.at)
  {
    hide DateOf, Reaches, IsFirst;
    FirstsDiffer(zone, target, first.at, second.at);
  }

  /** The instant from which the occurrence i was searched. */
  function Since(start: int, occurrences: seq<int>, i: nat): int
    requires i < |occurrences|
  {
    if i == 0 then start else occurrences[i - 1]
  }

  /** The calls of a scheduler that feeds each occurrence back. */
  ghost predicate Chain(zone: Zone, target: int, start: int, occurrences: seq<int>) {
    forall i :: 0 <= i < |occurrences| ==>
      IsNext(zone, Since(start, occurrences, i), target, Occurrence(occurrences[i]))
  }

  lemma {:induction false} ChainAdvances(zone: Zone, target: int, start: int, occurrences: seq<int>, i: nat, j: nat)
    requires Chain(zone, target, start, occurrences) && i < j < |occurrences|
    ensures occurrences[i] < occurrences[j] && DateOf(zone, occurrences[i]) < DateOf(zone, occurrences[j])
    decreases j
  {
    hide DateOf, IsNext;
    assert Since(start, occurrences, j) == occurrences[j - 1];
    DatesAdvance(zone, Since(start, occurrences, j - 1), target, Occurrence(occurrences[j - 1]), Occurrence(occurrences[j]));
    if i < j - 1 {
      ChainAdvances(zone, target, start, occurrences, i, j - 1);
    }
  }

  /** The search never runs out: an occurrence three dates on is always behind the instant. */
  lemma NeverExhausted(zone: Zone, after: int, target: int, r: Result)
    requires IsNext(zone, after, target, r) && 0 <= target < MINUTES_PER_DAY
    ensures !r.Exhausted?
    ensures r.Occurrence? ==> DateOf(zone, r.at) <= DateOf(zone, after) + 3
    ensures r.NoOccurrence? ==> r.date <= DateOf(zone, after) + 3
  {
    hide DateOf;
    var d := DateOf(zone, after) + 3;
    if PastOccurrence(zone, d, target, after) {
      var t :| IsFirst(zone, d, target, t) && t <= after;
      DateWindow(zone, d, t);
      DateWindow(zone, d - 3, after);
    }
  }

  ghost predicate HasOccurrence(zone: Zone, date: int, target: int) { exists t :: Reaches(zone, date, target, t) }

  /** With an occurrence on each of the searched dates, there is a next one. */
  lemma FoundWhenPresent(zone: Zone, after: int, target: int, r: Result)
    requires IsNext(zone, after, target, r) && 0 <= target < MINUTES_PER_DAY
    requires forall d :: DateOf(zone, after) <= d <= DateOf(zone, after) + 3 ==> HasOccurrence(zone, d, target)
    ensures r.Occurrence?
  {
    NeverExhausted(zone, after, target, r);
    NothingPresent(zone, after, target, r);
  }

  lemma NothingPresent(zone: Zone, after: int, target: int, r: Result)
    requires IsNext(zone, after, target, r)
    ensures r.NoOccurrence? ==> !HasOccurrence(zone, r.date, target)
  {
    hide DateOf;
  }

  // ---------- the wall clock ----------

  /** The occurrence of a date shows the target on the wall clock to the minute, unless the clock has just been set. */
  lemma ShowsTarget(zone: Zone, date: int, target: int, t: int)
    requires IsFirst(zone, date, target, t) && 0 <= target < MINUTES_PER_DAY
    ensures Local(zone, t) % MINUTE == 0
    ensures zone(t) == zone(t - MINUTE) ==> Local(zone, t) == date * DAY + target * MINUTE
  {
    LocalWhole(zone, t);
    PreviousMinute(t);
    if zone(t) == zone(t - MINUTE) {
      assert Local(zone, t - MINUTE) == Local(zone, t) - MINUTE;
      hide Local, IsMinute;
      assert !Reaches(zone, date, target, t - MINUTE);
      MinuteBefore(Local(zone, t), date, target);
    }
  }

  lemma PreviousMinute(t: int)
    requires IsMinute(t)
    ensures IsMinute(t - MINUTE)
  {
  }

  /** On the minute, and on the date at or past the target, while a minute before was not: exactly at the target. */
  lemma MinuteBefore(l: int, date: int, target: int)
    requires l % MINUTE == 0 && l / DAY == date && l % DAY / MINUTE >= target && 0 <= target < MINUTES_PER_DAY
    requires !((l - MINUTE) / DAY == date && (l - MINUTE) % DAY / MINUTE >= target)
    ensures l == date * DAY + target * MINUTE
  {
    var m := l % DAY / MINUTE;
    assert l == date * DAY + l % DAY;
    DayMinutes(l);
    assert l % DAY == m * MINUTE;
    assert l - MINUTE == date * DAY + (m - 1) * MINUTE;
    if m >= 1 {
      OnDate(date, m - 1);
    }
  }

  lemma DayMinutes(l: int)
    requires l % MINUTE == 0
    ensures l % DAY % MINUTE == 0
  {
    assert l == l / DAY * DAY + l % DAY && DAY == MINUTES_PER_DAY * MINUTE;
  }

  lemma OnDate(date: int, minute: int)
    requires 0 <= minute < MINUTES_PER_DAY
    ensures (date * DAY + minute * MINUTE) / DAY == date && (date * DAY + minute * MINUTE) % DAY / MINUTE == minute
  {
    assert 0 <= minute * MINUTE < DAY;
  }

  ghost predicate Steady(zone: Zone, offset: int) { forall t: int :: zone(t) == offset }

  lemma SteadyFirst(zone: Zone, offset: int, target: int, date: int)
    requires Steady(zone, offset) && 0 <= target < MINUTES_PER_DAY
    ensures IsFirst(zone, date, target, date * DAY + target * MINUTE - offset * MINUTE)
  {
    var t := date * DAY + target * MINUTE - offset * MINUTE;
    assert zone(t) == offset && Local(zone, t) == date * DAY + target * MINUTE;
    OnDate(date, target);
    assert IsMinute(t);
    forall u | u < t ensures !Reaches(zone, date, target, u) {
      assert zone(u) == offset;
      EarlierMinute(Local(zone, u), date, target);
    }
  }

  lemma EarlierMinute(l: int, date: int, target: int)
    requires l < date * DAY + target * MINUTE
    ensures l / DAY == date ==> l % DAY / MINUTE < target
  {
    assert l == l / DAY * DAY + l % DAY;
  }

  /** Where the clock is never set, the next occurrence is the one wall-clock time a day that is due within a day. */
  lemma SteadyNext(zone: Zone, offset: int, after: int, target: int, r: Result)
    requires Steady(zone, offset) && 0 <= target < MINUTES_PER_DAY && IsNext(zone, after, target, r)
    ensures r.Occurrence? && after < r.at <= after + DAY && Local(zone, r.at) % DAY == target * MINUTE
  {
    hide IsFirst, Local, DateOf;
    forall d | DateOf(zone, after) <= d <= DateOf(zone, after) + 3 ensures HasOccurrence(zone, d, target) {
      SteadyFirst(zone, offset, target, d);
      FirstReaches(zone, d, target, d * DAY + target * MINUTE - offset * MINUTE);
    }
    FoundWhenPresent(zone, after, target, r);
    var date := DateOf(zone, r.at);
    SteadyFirst(zone, offset, target, date);
    FirstIsOne(zone, date, target, r.at, date * DAY + target * MINUTE - offset * MINUTE);
    SteadyLocal(zone, offset, r.at);
    OnDate(date, target);
    if DateOf(zone, after) < date {
      assert PastOccurrence(zone, date - 1, target, after);
      var t :| IsFirst(zone, date - 1, target, t) && t <= after;
      SteadyFirst(zone, offset, target, date - 1);
      FirstIsOne(zone, date - 1, target, t, (date - 1) * DAY + target * MINUTE - offset * MINUTE);
    } else {
      SteadyLocal(zone, offset, after);
    }
  }

  lemma FirstReaches(zone: Zone, date: int, target: int, t: int)
    requires IsFirst(zone, date, target, t)
    ensures HasOccurrence(zone, date, target)
  {
    assert Reaches(zone, date, target, t);
  }

  lemma FirstIsOne(zone: Zone, date: int, target: int, t: int, u: int)
    requires IsFirst(zone, date, target, t) && IsFirst(zone, date, target, u)
    ensures t == u
  {
    hide Reaches;
  }

  lemma SteadyLocal(zone: Zone, offset: int, t: int)
    requires Steady(zone, offset)
    ensures Local(zone, t) == t + offset * MINUTE && DateOf(zone, t) * DAY <= t + offset * MINUTE < DateOf(zone, t) * DAY + DAY
  {
  }
}
