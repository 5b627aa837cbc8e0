/** The reporting period and the windows it cuts the date range into
    (docugit.py:15-31 for the configuration, docugit.py:196-202 and 282 for the loop).
    Timestamps are integer microseconds on a naive, zone-less timeline, so a day is
    always `Day` long. Calendar arithmetic (`relativedelta`) is not part of this model:
    adding a period is a parameter `advance`, required only to move strictly forward. */
module Periods {
  import opened Wrappers

  /** Microseconds in one day. */
  const Day: int := 86_400_000_000

  /** The period name used when the configuration names none. */
  const DefaultPeriod: string := "monthly"

  /** The message of the `ValueError` raised for an unknown period name. */
  const InvalidPeriodMessage: string :=
    "Invalid period specified. Please choose from 'weekly', 'bi-weekly', 'monthly', 'quarterly', or 'yearly'."

  /** A `relativedelta` as the tool builds it: a number of weeks, months and years. */
  datatype Delta = Delta(weeks: nat, months: nat, years: nat)

  /** A delta that moves time forward. */
  predicate Positive(d: Delta)
  {
    d.weeks + d.months + d.years > 0
  }

  /** `config.get('period', 'monthly')` */
  function PeriodName(configured: Option<string>): string
  {
    match configured
    case Some(name) => name
    case None => DefaultPeriod
  }

  /** The period name chosen in the configuration, turned into the delta that separates windows. */
  function ParsePeriod(name: string): (r: Result<Delta, string>)
    ensures r.Success? ==> Positive(r.value)
    ensures r.Failure? ==> r.error == InvalidPeriodMessage
  {
    if name == "weekly" then Success(Delta(1, 0, 0))
    else if name == "bi-weekly" then Success(Delta(2, 0, 0))
    else if name == "monthly" then Success(Delta(0, 1, 0))
    else if name == "quarterly" then Success(Delta(0, 3, 0))
    else if name == "yearly" then Success(Delta(0, 0, 1))
    else Failure(InvalidPeriodMessage)
  }

  /** The name under which a delta is configured, if any. */
  function NameOf(d: Delta): Option<string>
  {
    if d == Delta(1, 0, 0) then Some("weekly")
    else if d == Delta(2, 0, 0) then Some("bi-weekly")
    else if d == Delta(0, 1, 0) then Some("monthly")
    else if d == Delta(0, 3, 0) then Some("quarterly")
    else if d == Delta(0, 0, 1) then Some("yearly")
    else None
  }

  /** Exactly the five names are accepted; each is turned into a different delta, the
      one it names, and the name can be read back from it. */
  lemma ParsePeriodRoundTrip(name: string)
    ensures ParsePeriod(name).Success? <==> name in {"weekly", "bi-weekly", "monthly", "quarterly", "yearly"}
    ensures ParsePeriod(name).Success? ==> NameOf(ParsePeriod(name).value) == Some(name)
  {
  }

  /** The reverse round trip: a delta with a name is what that name parses to. */
  lemma NameOfRoundTrip(d: Delta)
    ensures NameOf(d).Some? ==> ParsePeriod(NameOf(d).value) == Success(d)
  {
  }

  /** `start_date.replace(hour=0, minute=0, second=0, microsecond=0)` */
  function Midnight(t: int): (m: int)
    ensures m % Day == 0
    ensures m <= t < m + Day
  {
    t - t % Day
  }

  /** Midnight is the start of the day: it is its own midnight. */
  lemma MidnightIdempotent(t: int)
    ensures Midnight(Midnight(t)) == Midnight(t)
  {
  }

  /** One reporting window: the half-open stretch of time `[start, end)`, `end` being `start` plus the period. */
  datatype Window = Window(start: int, end: int)

  /** `advance` moves every timestamp strictly forward for every positive delta. */
  ghost predicate MovesForward(advance: (Delta, int) -> int)
  {
    forall d, t :: Positive(d) ==> advance(d, t) > t
  }

  /** The windows visited by the `while current_start_date < end_date` loop, from `start`. */
  function Windows(advance: (Delta, int) -> int, d: Delta, start: int, end: int): seq<Window>
    requires Positive(d) && MovesForward(advance)
    decreases end - start
  {
    if start >= end then []
    else
      var next := advance(d, start);
      [Window(start, next)] + Windows(advance, d, next, end)
  }

  /** The windows are visited as the loop promises: they start at `start`, each begins
      before the end date and ends later than it begins, each next one starts where the
      previous ended, and the last one reaches the end date. There are none when `start`
      is not before the end date. */
  ghost predicate Tiles(ws: seq<Window>, start: int, end: int)
  {
    && (ws == [] <==> start >= end)
    && (ws != [] ==> ws[0].start == start && ws[|ws| - 1].end >= end)
    && (forall i :: 0 <= i < |ws| ==> ws[i].start < ws[i].end && ws[i].start < end)
    && (forall i :: 0 <= i < |ws| - 1 ==> ws[i].end == ws[i + 1].start)
  }

  lemma {:induction false} WindowsTile(advance: (Delta, int) -> int, d: Delta, start: int, end: int)
    requires Positive(d) && MovesForward(advance)
    ensures Tiles(Windows(advance, d, start, end), start, end)
    decreases end - start
  {
    if start < end {
      var next := advance(d, start);
      var rest := Windows(advance, d, next, end);
      WindowsTile(advance, d, next, end);
      var ws := [Window(start, next)] + rest;
      assert forall i :: 0 < i < |ws| ==> ws[i] == rest[i - 1];
    }
  }

  /** The loop runs at most once per microsecond of the range: it terminates. */
  lemma {:induction false} WindowsFinite(advance: (Delta, int) -> int, d: Delta, start: int, end: int)
    requires Positive(d) && MovesForward(advance)
    ensures |Windows(advance, d, start, end)| <= if start < end then end - start else 0
    decreases end - start
  {
    if start < end {
      WindowsFinite(advance, d, advance(d, start), end);
    }
  }

  /** Contiguous windows with increasing starts cover each instant of the range exactly once. */
  lemma WindowsCover(ws: seq<Window>, start: int, end: int, t: int)
    requires Tiles(ws, start, end)
    requires start <= t < end
    ensures exists i :: 0 <= i < |ws| && ws[i].start <= t < ws[i].end
    ensures forall i, j :: 0 <= i < |ws| && 0 <= j < |ws| && ws[i].start <= t < ws[i].end && ws[j].start <= t < ws[j].end ==> i == j
  {
    StartsIncrease(ws, start, end);
    var k := 0;
    while k < |ws| - 1 && ws[k].end <= t
      invariant 0 <= k < |ws|
      invariant ws[k].start <= t
    {
      k := k + 1;
    }
    assert ws[k].start <= t < ws[k].end;
  }

  /** Later windows start at or after the end of earlier ones. */
  lemma StartsIncrease(ws: seq<Window>, start: int, end: int)
    requires Tiles(ws, start, end)
    ensures forall i, j :: 0 <= i < j < |ws| ==> ws[i].end <= ws[j].start
  {
    forall i, j | 0 <= i < j < |ws|
      ensures ws[i].end <= ws[j].start
    {
      var k := i + 1;
      while k < j
        invariant i < k <= j
        invariant ws[i].end <= ws[k].start
      {
        k := k + 1;
      }
    }
  }

  /** With a fixed step, as for weeks, the windows are the fewest steps that reach the
      end date from the start. */
  lemma {:induction false} FixedStepCount(advance: (Delta, int) -> int, d: Delta, step: int, start: int, end: int)
    requires Positive(d) && MovesForward(advance)
    requires step > 0 && (forall t :: advance(d, t) == t + step)
    ensures start >= end ==> |Windows(advance, d, start, end)| == 0
    ensures start < end ==>
      var k := |Windows(advance, d, start, end)|;
      (k - 1) * step < end - start <= k * step
    decreases end - start
  {
    if start < end {
      FixedStepCount(advance, d, step, start + step, end);
      var rest := Windows(advance, d, start + step, end);
      assert Windows(advance, d, start, end) == [Window(start, start + step)] + rest;
      assert (|rest| + 1) * step == |rest| * step + step;
    }
  }

  /** `relativedelta(weeks=n)` adds exactly `n` weeks: on a zone-less timeline a week
      is seven days of `Day` each, without calendar rules. */
  ghost predicate WeeksExact(advance: (Delta, int) -> int)
  {
    forall n: nat, t :: n > 0 ==> advance(Delta(n, 0, 0), t) == t + n * 7 * Day
  }

  /** Every window starts at midnight and lasts exactly `n` weeks. */
  ghost predicate MidnightWeeks(ws: seq<Window>, n: nat)
  {
    forall i :: 0 <= i < |ws| ==> ws[i].start % Day == 0 && ws[i].end == ws[i].start + n * 7 * Day
  }

  /** Weekly and bi-weekly windows from a midnight start all start at midnight and last
      exactly their number of weeks, and there are as many as the range needs, rounded up. */
  lemma WeeklyWindows(advance: (Delta, int) -> int, n: nat, start: int, end: int)
    requires MovesForward(advance) && WeeksExact(advance) && n > 0
    ensures var ws := Windows(advance, Delta(n, 0, 0), Midnight(start), end);
      && MidnightWeeks(ws, n)
      && (Midnight(start) < end ==> (|ws| - 1) * (n * 7 * Day) < end - Midnight(start) <= |ws| * (n * 7 * Day))
  {
    WeeklyShape(advance, n, Midnight(start), end);
    FixedStepCount(advance, Delta(n, 0, 0), n * 7 * Day, Midnight(start), end);
  }

  lemma {:induction false} WeeklyShape(advance: (Delta, int) -> int, n: nat, m: int, end: int)
    requires MovesForward(advance) && WeeksExact(advance) && n > 0
    requires m % Day == 0
    ensures MidnightWeeks(Windows(advance, Delta(n, 0, 0), m, end), n)
    decreases end - m
  {
    if m < end {
      var next := m + n * 7 * Day;
      assert advance(Delta(n, 0, 0), m) == next;
      assert next % Day == 0;
      WeeklyShape(advance, n, next, end);
      var rest := Windows(advance, Delta(n, 0, 0), next, end);
      var ws := [Window(m, next)] + rest;
      assert Windows(advance, Delta(n, 0, 0), m, end) == ws;
      assert ws[0].start % Day == 0 && ws[0].end == ws[0].start + n * 7 * Day;
      forall i | 0 < i < |ws|
        ensures ws[i].start % Day == 0 && ws[i].end == ws[i].start + n * 7 * Day
      {
        assert ws[i] == rest[i - 1];
        assert rest[i - 1].start % Day == 0;
      }
    }
  }
}
