/** Picking the two commits a window's report compares (docugit.py:209-225) and the
    loop over the windows that produces one report per window holding commits
    (docugit.py:196-225, 282). The commit queries `iter_commits` answers are parameters:
    `between(start, end)` for the commits of a window, `until(start)` for the commits
    up to its start. */
module CommitSelection {
  import opened Wrappers
  import opened Periods

  /** What the selection reads of a commit: its id and its `committed_date`, which is
      GitPython's epoch seconds. Only these dates are compared with each other; how git
      reads the `since`/`until` bounds, which are naive local date strings, is not modelled. */
  datatype Commit = Commit(sha: string, committedDate: int)

  // ---------------------------------------------------------------------------
  // `commits.sort(key=attrgetter('committed_date'))` followed by `commits[-1]`.

  /** Dates never decrease along `s`. */
  ghost predicate SortedByDate(s: seq<Commit>)
  {
    forall i, j :: 0 <= i < j < |s| ==> s[i].committedDate <= s[j].committedDate
  }

  /** Inserts `x` after every leading commit not later than it: for a sorted `s`, after
      all commits of its date, which keeps the sort stable when `x` comes last in the input. */
  function InsertByDate(s: seq<Commit>, x: Commit): seq<Commit>
  {
    if s == [] then [x]
    else if x.committedDate < s[0].committedDate then [x] + s
    else [s[0]] + InsertByDate(s[1..], x)
  }

  /** A stable sort on `committed_date`, as Python's `list.sort` is. */
  function SortByDate(cs: seq<Commit>): seq<Commit>
  {
    if cs == [] then [] else InsertByDate(SortByDate(cs[..|cs| - 1]), cs[|cs| - 1])
  }

  /** No commit of `s` is dated before `d`. */
  ghost predicate NotBefore(s: seq<Commit>, d: int)
  {
    forall i :: 0 <= i < |s| ==> d <= s[i].committedDate
  }

  lemma {:induction false} InsertByDateNotBefore(s: seq<Commit>, x: Commit, d: int)
    requires NotBefore(s, d) && d <= x.committedDate
    ensures NotBefore(InsertByDate(s, x), d)
  {
    if s != [] && x.committedDate >= s[0].committedDate {
      var tail := s[1..];
      assert forall i :: 0 <= i < |tail| ==> tail[i] == s[i + 1];
      InsertByDateNotBefore(tail, x, d);
      var t := InsertByDate(tail, x);
      assert forall i :: 0 < i < |[s[0]] + t| ==> ([s[0]] + t)[i] == t[i - 1];
    }
  }

  lemma {:induction false} InsertByDateCount(s: seq<Commit>, x: Commit)
    ensures multiset(InsertByDate(s, x)) == multiset(s) + multiset{x}
  {
    if s != [] && x.committedDate >= s[0].committedDate {
      InsertByDateCount(s[1..], x);
      assert s == [s[0]] + s[1..];
    }
  }

  lemma {:induction false} InsertByDateSorted(s: seq<Commit>, x: Commit)
    requires SortedByDate(s)
    ensures SortedByDate(InsertByDate(s, x))
    ensures multiset(InsertByDate(s, x)) == multiset(s) + multiset{x}
  {
    InsertByDateCount(s, x);
    if s == [] {
    } else if x.committedDate < s[0].committedDate {
      ConsSorted(x, s);
    } else {
      var tail := s[1..];
      assert forall i :: 0 <= i < |tail| ==> tail[i] == s[i + 1];
      InsertByDateSorted(tail, x);
      InsertByDateNotBefore(tail, x, s[0].committedDate);
      ConsSorted(s[0], InsertByDate(tail, x));
    }
  }

  /** A commit dated no later than the first of a sorted list can go in front of it. */
  lemma ConsSorted(c: Commit, s: seq<Commit>)
    requires SortedByDate(s) && (s == [] || c.committedDate <= s[0].committedDate)
    ensures SortedByDate([c] + s)
  {
    forall i, j | 0 <= i < j < |[c] + s|
      ensures ([c] + s)[i].committedDate <= ([c] + s)[j].committedDate
    {
      assert ([c] + s)[j] == s[j - 1];
      if i > 0 {
        assert ([c] + s)[i] == s[i - 1];
      } else {
        assert s[0].committedDate <= s[j - 1].committedDate || j - 1 == 0;
      }
    }
  }

  /** The sort keeps the commits and orders them by date. */
  lemma {:induction false} SortByDateSorted(cs: seq<Commit>)
    ensures SortedByDate(SortByDate(cs))
    ensures multiset(SortByDate(cs)) == multiset(cs)
  {
    if cs != [] {
      var init := cs[..|cs| - 1];
      SortByDateSorted(init);
      InsertByDateSorted(SortByDate(init), cs[|cs| - 1]);
      assert cs == init + [cs[|cs| - 1]];
    }
  }

  /** `c` is dated no earlier than any commit of `cs`. */
  ghost predicate IsLatest(c: Commit, cs: seq<Commit>)
  {
    forall e :: e in cs ==> e.committedDate <= c.committedDate
  }

  /** The index of the commit a stable sort puts last: the latest one, and among
      commits sharing the latest date, the one listed last. */
  function LatestIndex(cs: seq<Commit>): (k: nat)
    requires cs != []
    ensures k < |cs|
    ensures forall j :: 0 <= j < |cs| ==> cs[j].committedDate <= cs[k].committedDate
    ensures forall j :: k < j < |cs| ==> cs[j].committedDate < cs[k].committedDate
  {
    if |cs| == 1 then 0
    else
      var k := LatestIndex(cs[..|cs| - 1]);
      if cs[|cs| - 1].committedDate >= cs[k].committedDate then |cs| - 1 else k
  }

  /** The two conditions of `LatestIndex` leave no choice. */
  lemma LatestIndexUnique(cs: seq<Commit>, k: nat)
    requires k < |cs|
    requires forall j :: 0 <= j < |cs| ==> cs[j].committedDate <= cs[k].committedDate
    requires forall j :: k < j < |cs| ==> cs[j].committedDate < cs[k].committedDate
    ensures k == LatestIndex(cs)
  {
  }

  lemma {:induction false} InsertByDateLast(s: seq<Commit>, x: Commit)
    requires SortedByDate(s)
    ensures s == [] || x.committedDate >= s[|s| - 1].committedDate ==> InsertByDate(s, x) == s + [x]
    ensures s != [] && x.committedDate < s[|s| - 1].committedDate ==>
      var r := InsertByDate(s, x); r[|r| - 1] == s[|s| - 1]
  {
    if s != [] && x.committedDate >= s[0].committedDate {
      InsertByDateLast(s[1..], x);
      assert s == [s[0]] + s[1..];
      if |s| > 1 {
        assert s[1..][|s| - 2] == s[|s| - 1];
      }
    }
  }

  lemma {:induction false} SortByDateLength(cs: seq<Commit>)
    ensures |SortByDate(cs)| == |cs|
  {
    SortByDateSorted(cs);
    assert |SortByDate(cs)| == |multiset(SortByDate(cs))| == |multiset(cs)|;
  }

  /** After the stable sort, the last commit is the one `LatestIndex` picks. */
  lemma {:induction false} SortByDateLast(cs: seq<Commit>)
    requires cs != []
    ensures |SortByDate(cs)| == |cs|
    ensures SortByDate(cs)[|cs| - 1] == cs[LatestIndex(cs)]
  {
    SortByDateLength(cs);
    var init := cs[..|cs| - 1];
    var x := cs[|cs| - 1];
    var s := SortByDate(init);
    assert SortByDate(cs) == InsertByDate(s, x);
    if init == [] {
      assert SortByDate(cs) == [x];
    } else {
      SortByDateLast(init);
      SortByDateSorted(init);
      InsertByDateLast(s, x);
      var k := LatestIndex(init);
      assert init[k] == cs[k];
      assert s[|s| - 1] == cs[k];
    }
  }

  /** `commits[-1]` after the sort: the latest commit of `cs`. */
  function LastAfterSort(cs: seq<Commit>): (c: Commit)
    requires cs != []
    ensures c in cs && IsLatest(c, cs)
  {
    SortByDateLast(cs);
    var sorted := SortByDate(cs);
    sorted[|sorted| - 1]
  }

  // ---------------------------------------------------------------------------
  // The pair of commits of one window.

  /** The commits a window's report compares: `initial` is diffed against `last`; when
      no commit precedes the window, `initial` is `last` and the report diffs `last`
      against the empty tree. */
  datatype Selection = Selection(last: Commit, initial: Commit, initialCommitEmpty: bool)

  /** The selection for a window whose commits are `inPeriod` and whose preceding
      commits are `previous`; none when the window has no commit. */
  function SelectCommits(inPeriod: seq<Commit>, previous: seq<Commit>): (r: Option<Selection>)
    ensures r.None? <==> inPeriod == []
    ensures r.Some? ==> r.value.last in inPeriod && IsLatest(r.value.last, inPeriod)
    ensures r.Some? ==> (r.value.initialCommitEmpty <==> previous == [])
    ensures r.Some? && previous == [] ==> r.value.initial == r.value.last
    ensures r.Some? && previous != [] ==> r.value.initial in previous && IsLatest(r.value.initial, previous)
  {
    if inPeriod == [] then None
    else
      var last := LastAfterSort(inPeriod);
      if previous != [] then Some(Selection(last, LastAfterSort(previous), false))
      else Some(Selection(last, last, true))
  }

  /** When the queries keep to their bounds, the report never goes back in time: the
      initial commit is not later than the last one. `startSeconds` is the window start
      as git reads the query bound, in the epoch seconds of `committed_date`. */
  lemma InitialNotAfterLast(inPeriod: seq<Commit>, previous: seq<Commit>, startSeconds: int)
    requires inPeriod != []
    requires forall c :: c in inPeriod ==> c.committedDate >= startSeconds
    requires forall c :: c in previous ==> c.committedDate <= startSeconds
    ensures SelectCommits(inPeriod, previous).value.initial.committedDate
         <= SelectCommits(inPeriod, previous).value.last.committedDate
  {
  }

  // ---------------------------------------------------------------------------
  // The loop over the windows.

  /** One window's report: the window and the commits compared in it. */
  datatype WindowReport = WindowReport(window: Window, selection: Selection)

  /** The report of one window, if it holds a commit. */
  function ReportOf(w: Window, between: (int, int) -> seq<Commit>, until: int -> seq<Commit>): (r: seq<WindowReport>)
    ensures |r| <= 1
    ensures r == [] <==> between(w.start, w.end) == []
    ensures r != [] ==> r[0].window == w
    ensures r != [] ==> Some(r[0].selection) == SelectCommits(between(w.start, w.end), until(w.start))
  {
    match SelectCommits(between(w.start, w.end), until(w.start))
    case None => []
    case Some(s) => [WindowReport(w, s)]
  }

  /** The reports of windows `ws`, in order: windows without commits are skipped. */
  function ReportsFor(ws: seq<Window>, between: (int, int) -> seq<Commit>, until: int -> seq<Commit>): seq<WindowReport>
  {
    if ws == [] then [] else ReportOf(ws[0], between, until) + ReportsFor(ws[1..], between, until)
  }

  lemma {:induction false} ReportsForAppend(a: seq<Window>, b: seq<Window>, between: (int, int) -> seq<Commit>, until: int -> seq<Commit>)
    ensures ReportsFor(a + b, between, until) == ReportsFor(a, between, until) + ReportsFor(b, between, until)
  {
    if a == [] {
      assert a + b == b;
    } else {
      assert (a + b)[1..] == a[1..] + b;
      ReportsForAppend(a[1..], b, between, until);
    }
  }

  lemma ReportsForSnoc(ws: seq<Window>, w: Window, between: (int, int) -> seq<Commit>, until: int -> seq<Commit>)
    ensures ReportsFor(ws + [w], between, until) == ReportsFor(ws, between, until) + ReportOf(w, between, until)
  {
    ReportsForAppend(ws, [w], between, until);
    assert ReportsFor([w], between, until) == ReportOf(w, between, until) + ReportsFor([], between, until);
  }

  /** A window is reported exactly when it holds a commit, and then with the selection
      for its commits; reports follow the order of the windows. */
  lemma {:induction false} ReportsForContents(ws: seq<Window>, between: (int, int) -> seq<Commit>, until: int -> seq<Commit>)
    ensures forall r :: r in ReportsFor(ws, between, until) ==>
      && r.window in ws
      && Some(r.selection) == SelectCommits(between(r.window.start, r.window.end), until(r.window.start))
    ensures forall w :: w in ws && between(w.start, w.end) != [] ==>
      exists r :: r in ReportsFor(ws, between, until) && r.window == w
  {
    if ws != [] {
      ReportsForContents(ws[1..], between, until);
      var w := ws[0];
      assert forall v :: v in ws[1..] ==> v in ws;
      assert forall v :: v in ws ==> v == w || v in ws[1..];
      if between(w.start, w.end) != [] {
        var s := SelectCommits(between(w.start, w.end), until(w.start)).value;
        assert WindowReport(w, s) in ReportsFor(ws, between, until);
      }
    }
  }

  /** Every report's window starts in `[lo, hi)`. */
  ghost predicate ReportsWithin(rs: seq<WindowReport>, lo: int, hi: int)
  {
    forall i :: 0 <= i < |rs| ==> lo <= rs[i].window.start < hi
  }

  /** Each report's window ends no later than the next report's window starts. */
  ghost predicate ReportsOrdered(rs: seq<WindowReport>)
  {
    forall i, j :: 0 <= i < j < |rs| ==> rs[i].window.end <= rs[j].window.start
  }

  /** Windows starting in `[lo, hi)` give reports starting in `[lo, hi)`. */
  lemma {:induction false} ReportsForWithin(ws: seq<Window>, lo: int, hi: int, between: (int, int) -> seq<Commit>, until: int -> seq<Commit>)
    requires forall i :: 0 <= i < |ws| ==> lo <= ws[i].start < hi
    ensures ReportsWithin(ReportsFor(ws, between, until), lo, hi)
  {
    if ws != [] {
      var tail := ws[1..];
      assert forall i :: 0 <= i < |tail| ==> tail[i] == ws[i + 1];
      ReportsForWithin(tail, lo, hi, between, until);
      WithinCons(ReportOf(ws[0], between, until), ReportsFor(tail, between, until), lo, hi);
    }
  }

  /** Reports follow the order of their windows: one never overlaps the next. */
  lemma {:induction false} ReportsForOrdered(ws: seq<Window>, hi: int, between: (int, int) -> seq<Commit>, until: int -> seq<Commit>)
    requires forall i, j :: 0 <= i < j < |ws| ==> ws[i].end <= ws[j].start
    requires forall i :: 0 <= i < |ws| ==> ws[i].start < hi
    ensures ReportsOrdered(ReportsFor(ws, between, until))
  {
    if ws != [] {
      var tail := ws[1..];
      assert forall i :: 0 <= i < |tail| ==> tail[i] == ws[i + 1];
      ReportsForOrdered(tail, hi, between, until);
      ReportsForWithin(tail, ws[0].end, hi, between, until);
      var here := ReportOf(ws[0], between, until);
      OrderedCons(here, ReportsFor(tail, between, until), hi);
    }
  }

  lemma WithinCons(here: seq<WindowReport>, rest: seq<WindowReport>, lo: int, hi: int)
    requires ReportsWithin(here, lo, hi) && ReportsWithin(rest, lo, hi)
    ensures ReportsWithin(here + rest, lo, hi)
  {
    var rs := here + rest;
    forall i | 0 <= i < |rs|
      ensures lo <= rs[i].window.start < hi
    {
      if i < |here| {
        assert rs[i] == here[i];
      } else {
        assert rs[i] == rest[i - |here|];
      }
    }
  }

  /** At most one report in front of ordered reports that all start after it ends keeps them ordered. */
  lemma OrderedCons(here: seq<WindowReport>, rest: seq<WindowReport>, hi: int)
    requires |here| <= 1 && ReportsOrdered(rest)
    requires here != [] ==> ReportsWithin(rest, here[0].window.end, hi)
    ensures ReportsOrdered(here + rest)
  {
    var rs := here + rest;
    forall i, j | 0 <= i < j < |rs|
      ensures rs[i].window.end <= rs[j].window.start
    {
      assert rs[j] == rest[j - |here|];
      if i >= |here| {
        assert rs[i] == rest[i - |here|];
      }
    }
  }

  /** The whole run for one repository: the period is read from the configuration, the
      windows start at midnight of the start date, and every window holding commits is
      reported. An unknown period name stops the run with the `ValueError` message. */
  function Run(period: Option<string>, startDate: int, endDate: int, advance: (Delta, int) -> int,
               between: (int, int) -> seq<Commit>, until: int -> seq<Commit>): (r: Result<seq<WindowReport>, string>)
    requires MovesForward(advance)
    ensures r.Failure? <==> ParsePeriod(PeriodName(period)).Failure?
    ensures r.Failure? ==> r.error == InvalidPeriodMessage
  {
    match ParsePeriod(PeriodName(period))
    case Failure(e) => Failure(e)
    case Success(d) => Success(ReportsFor(Windows(advance, d, Midnight(startDate), endDate), between, until))
  }

  /** The run's reports start at or after midnight of the start date and before the
      end date, and come in time order without overlapping. */
  lemma RunReports(period: Option<string>, startDate: int, endDate: int, advance: (Delta, int) -> int,
                   between: (int, int) -> seq<Commit>, until: int -> seq<Commit>)
    requires MovesForward(advance)
    requires Run(period, startDate, endDate, advance, between, until).Success?
    ensures ReportsWithin(Run(period, startDate, endDate, advance, between, until).value, Midnight(startDate), endDate)
    ensures ReportsOrdered(Run(period, startDate, endDate, advance, between, until).value)
  {
    var d := ParsePeriod(PeriodName(period)).value;
    var m := Midnight(startDate);
    var ws := Windows(advance, d, m, endDate);
    WindowsTile(advance, d, m, endDate);
    StartsIncrease(ws, m, endDate);
    forall i | 0 <= i < |ws|
      ensures m <= ws[i].start < endDate
    {
      if i > 0 {
        assert ws[0].end <= ws[i].start;
      }
    }
    ReportsForWithin(ws, m, endDate, between, until);
    ReportsForOrdered(ws, endDate, between, until);
  }

  /** One turn of the loop visits the window at `start` and moves on to its end. */
  lemma WindowsStep(advance: (Delta, int) -> int, d: Delta, start: int, end: int, visited: seq<Window>)
    requires Positive(d) && MovesForward(advance)
    requires start < end
    ensures visited + Windows(advance, d, start, end)
         == (visited + [Window(start, advance(d, start))]) + Windows(advance, d, advance(d, start), end)
  {
    assert Windows(advance, d, start, end) == [Window(start, advance(d, start))] + Windows(advance, d, advance(d, start), end);
  }

  lemma ReportOfCases(w: Window, between: (int, int) -> seq<Commit>, until: int -> seq<Commit>)
    ensures between(w.start, w.end) == [] ==> ReportOf(w, between, until) == []
    ensures between(w.start, w.end) != [] ==>
      ReportOf(w, between, until) == [WindowReport(w, SelectCommits(between(w.start, w.end), until(w.start)).value)]
  {
  }

  /** The loop as written: `current_start_date` moves from window to window; a window
      without commits only moves it on. */
  method RunLoop(d: Delta, startDate: int, endDate: int, advance: (Delta, int) -> int,
                 between: (int, int) -> seq<Commit>, until: int -> seq<Commit>) returns (reports: seq<WindowReport>)
    requires Positive(d) && MovesForward(advance)
    ensures reports == ReportsFor(Windows(advance, d, Midnight(startDate), endDate), between, until)
  {
    var currentStart := Midnight(startDate);
    ghost var visited: seq<Window> := [];
    reports := [];
    while currentStart < endDate
      invariant visited + Windows(advance, d, currentStart, endDate) == Windows(advance, d, Midnight(startDate), endDate)
      invariant reports == ReportsFor(visited, between, until)
      decreases endDate - currentStart
    {
      var currentEnd := advance(d, currentStart);
      var w := Window(currentStart, currentEnd);
      var inPeriod := between(currentStart, currentEnd);
      WindowsStep(advance, d, currentStart, endDate, visited);
      ReportsForSnoc(visited, w, between, until);
      ReportOfCases(w, between, until);
      if |inPeriod| < 1 {
      } else {
        var selection := SelectCommits(inPeriod, until(currentStart)).value;
        reports := reports + [WindowReport(w, selection)];
      }
      currentStart := currentEnd;
      visited := visited + [w];
    }
    assert visited + [] == visited;
  }
}
