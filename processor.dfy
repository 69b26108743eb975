/**
 * Timeline inference (src/processor.ts): decides for every issue when work on it started,
 * turns the started ones into chart bars and sorts the bars by start day.
 */
module Processor {
  import opened Wrappers
  import opened Seqs
  import opened Text
  import opened Sorting
  import opened Records

  /** A chart bar. `start` and `end` are day numbers (see `DayOf`). */
  datatype GanttTask = GanttTask(
    id: string,
    name: string,
    start: int,
    end: int,
    progress: int,
    dependencies: string,
    customClass: string)

  /** What `processIssues` returns. */
  datatype ProcessedIssues = ProcessedIssues(ganttTasks: seq<GanttTask>, unstartedIssues: seq<Issue>)

  // ---------------------------------------------------------------------------
  // Days

  const MsPerDay: int := 86400000

  /**
   * `formatDate(new Date(ts))`: the UTC calendar day holding the instant `ts`, as the
   * number of days since 1970-01-01 (the 'YYYY-MM-DD' text names this day).
   */
  function DayOf(ts: int): int
  {
    ts / MsPerDay
  }

  /** The day of `ts` is the one whose midnight-to-midnight span contains `ts`. */
  lemma {:induction false} DayOfContains(ts: int)
    ensures DayOf(ts) * MsPerDay <= ts < DayOf(ts) * MsPerDay + MsPerDay
  {
  }

  /** Later instants never fall on earlier days. */
  lemma {:induction false} DayOfMonotone(a: int, b: int)
    requires a <= b
    ensures DayOf(a) <= DayOf(b)
  {
    DayOfContains(a);
    DayOfContains(b);
  }

  // ---------------------------------------------------------------------------
  // The status vocabulary

  /** `IN_PROGRESS_STATUSES`. */
  const InProgressStatuses: seq<string> := ["in progress", "doing", "wip"]

  /** `IN_PROGRESS_STATUSES.includes(name.toLowerCase())`. */
  predicate IsInProgressStatus(name: string)
  {
    ToLower(name) in InProgressStatuses
  }

  /** The status test is a case-insensitive comparison with the three words of the vocabulary. */
  lemma {:induction false} InProgressIgnoresCase(name: string)
    ensures IsInProgressStatus(name) <==> exists w :: w in InProgressStatuses && SameIgnoringCase(name, w)
  {
    forall w | w in InProgressStatuses ensures ToLower(name) == w <==> SameIgnoringCase(name, w) {
      assert IsLowerCase(w);
      ToLowerEqualsIff(name, w);
    }
  }

  /** Any capitalisation of a vocabulary word qualifies. */
  lemma {:induction false} InProgressSpellings()
    ensures IsInProgressStatus("Doing") && IsInProgressStatus("doing")
    ensures IsInProgressStatus("WIP") && IsInProgressStatus("Wip")
  {
    assert ToLower("Doing") == InProgressStatuses[1];
    assert ToLower("WIP") == InProgressStatuses[2];
    assert ToLower("Wip") == InProgressStatuses[2];
  }

  /** A qualifying status has the length of a vocabulary word, and the long one keeps its space. */
  lemma {:induction false} InProgressShape(name: string)
    requires IsInProgressStatus(name)
    ensures (|name| == 11 && name[2] == ' ') || |name| == 5 || |name| == 3
  {
    var lower := ToLower(name);
    if lower == InProgressStatuses[0] {
      assert LowerChar(name[2]) == lower[2] == ' ';
    } else {
      assert lower == InProgressStatuses[1] || lower == InProgressStatuses[2];
    }
  }

  /** A word outside the vocabulary does not qualify, however close. */
  lemma {:induction false} NotInProgressSpellings()
    ensures !IsInProgressStatus("in-progress") && !IsInProgressStatus("done")
  {
    if IsInProgressStatus("in-progress") {
      InProgressShape("in-progress");
    }
    if IsInProgressStatus("done") {
      InProgressShape("done");
    }
  }

  // ---------------------------------------------------------------------------
  // The start of work on one issue

  /**
   * An event that shows work started: a `labeled` event whose label is a status of the
   * vocabulary, or a `moved_columns_in_project` event into such a column.
   */
  predicate Qualifies(e: Event)
  {
    || (e.kind == "labeled" && e.labelName.Some? && IsInProgressStatus(e.labelName.value))
    || (e.kind == "moved_columns_in_project" && e.columnName.Some? && IsInProgressStatus(e.columnName.value))
  }

  /** Only the two recognised kinds of event can qualify, and each only through its own payload. */
  lemma {:induction false} QualifyingKinds(e: Event)
    ensures Qualifies(e) <==>
      (e.kind == "labeled" && e.labelName.Some? && IsInProgressStatus(e.labelName.value)) ||
      (e.kind == "moved_columns_in_project" && e.columnName.Some? && IsInProgressStatus(e.columnName.value))
    ensures e.kind != "labeled" && e.kind != "moved_columns_in_project" ==> !Qualifies(e)
  {
  }

  /** The sort key of events: `new Date(created_at).getTime()`. */
  function EventTime(e: Event): int
  {
    e.createdAt
  }

  /** The position of the first qualifying event of `s`, if any. */
  function FirstQualifying(s: seq<Event>): (r: Option<nat>)
    ensures r.Some? ==> r.value < |s| && Qualifies(s[r.value])
    ensures r.Some? ==> forall k :: 0 <= k < r.value ==> !Qualifies(s[k])
    ensures r.None? ==> forall k :: 0 <= k < |s| ==> !Qualifies(s[k])
  {
    if s == [] then None
    else if Qualifies(s[0]) then Some(0)
    else match FirstQualifying(s[1..])
      case None => None
      case Some(j) => Some(j + 1)
  }

  /** The start day read off events already in time order, with the closed-issue fallback. */
  function StartFromSorted(issue: Issue, sorted: seq<Event>): Option<int>
  {
    match FirstQualifying(sorted)
    case Some(j) => Some(DayOf(sorted[j].createdAt))
    case None => if issue.state == Closed then Some(DayOf(issue.createdAt)) else None
  }

  /** `findStartDate(issue, events)` as a value: the events are sorted by time, then scanned. */
  function InferredStart(issue: Issue, events: seq<Event>): Option<int>
  {
    StartFromSorted(issue, Sort(events, EventTime))
  }

  /** Some event of `events` qualifies. */
  ghost predicate HasQualifying(events: seq<Event>)
  {
    exists i :: 0 <= i < |events| && Qualifies(events[i])
  }

  /** `t` is the earliest time at which an event of `events` qualifies. */
  ghost predicate EarliestQualifying(events: seq<Event>, t: int)
  {
    && (exists i :: 0 <= i < |events| && Qualifies(events[i]) && events[i].createdAt == t)
    && (forall i :: 0 <= i < |events| && Qualifies(events[i]) ==> t <= events[i].createdAt)
  }

  /**
   * `findStartDate` sorts the caller's `events` array in place by `created_at`, then returns the
   * day of the first qualifying event, else the creation day of a closed issue, else nothing.
   */
  method FindStartDate(issue: Issue, events: array<Event>) returns (start: Option<int>)
    modifies events
    ensures events[..] == Sort(old(events[..]), EventTime)
    ensures start == InferredStart(issue, old(events[..]))
  {
    SortInPlace(events, EventTime);
    for i := 0 to events.Length
      invariant forall k :: 0 <= k < i ==> !Qualifies(events[k])
    {
      var event := events[i];
      if event.kind == "labeled" && event.labelName.Some? && IsInProgressStatus(event.labelName.value) {
        ScanStops(issue, events[..], i);
        return Some(DayOf(event.createdAt));
      }
      if event.kind == "moved_columns_in_project" && event.columnName.Some?
         && IsInProgressStatus(event.columnName.value)
      {
        ScanStops(issue, events[..], i);
        return Some(DayOf(event.createdAt));
      }
    }
    ScanEnds(issue, events[..]);
    if issue.state == Closed {
      return Some(DayOf(issue.createdAt));
    }
    return None;
  }

  /** The scan stops at the first qualifying event. */
  lemma {:induction false} ScanStops(issue: Issue, sorted: seq<Event>, i: nat)
    requires i < |sorted| && Qualifies(sorted[i]) && forall k :: 0 <= k < i ==> !Qualifies(sorted[k])
    ensures StartFromSorted(issue, sorted) == Some(DayOf(sorted[i].createdAt))
  {
  }

  /** A scan that finds no qualifying event falls back on the closed issue's creation day. */
  lemma {:induction false} ScanEnds(issue: Issue, sorted: seq<Event>)
    requires forall k :: 0 <= k < |sorted| ==> !Qualifies(sorted[k])
    ensures StartFromSorted(issue, sorted) == if issue.state == Closed then Some(DayOf(issue.createdAt)) else None
  {
  }

  /**
   * The inferred start is the day of the earliest qualifying event, whatever order the events
   * arrive in; without one, a closed issue starts on its creation day and an open one not at all.
   */
  lemma {:induction false} StartIsEarliestQualifying(issue: Issue, events: seq<Event>)
    ensures HasQualifying(events) ==>
      exists t :: EarliestQualifying(events, t) && InferredStart(issue, events) == Some(DayOf(t))
    ensures !HasQualifying(events) ==>
      InferredStart(issue, events) == if issue.state == Closed then Some(DayOf(issue.createdAt)) else None
  {
    var sorted := Sort(events, EventTime);
    SortPermutes(events, EventTime);
    SortIsSorted(events, EventTime);
    match FirstQualifying(sorted)
    case Some(j) =>
      var e := sorted[j];
      assert e in multiset(events);
      var i :| 0 <= i < |events| && events[i] == e;
      SortedFirstIsLeast(sorted, events, EventTime, Qualifies, j);
      assert EarliestQualifying(events, e.createdAt);
    case None =>
      forall m | 0 <= m < |events| ensures !Qualifies(events[m]) {
        assert events[m] in multiset(sorted);
      }
  }

  /** Sorting the events first changes nothing: the scan already works on sorted events. */
  lemma {:induction false} InferredStartOfSorted(issue: Issue, events: seq<Event>)
    ensures InferredStart(issue, Sort(events, EventTime)) == InferredStart(issue, events)
  {
    SortIdempotent(events, EventTime);
  }

  /** A later event, qualifying or not, never changes an established start day. */
  lemma {:induction false} LaterEventKeepsStart(issue: Issue, events: seq<Event>, e: Event)
    requires exists i :: 0 <= i < |events| && Qualifies(events[i]) && events[i].createdAt <= e.createdAt
    ensures InferredStart(issue, events + [e]) == InferredStart(issue, events)
  {
    var events' := events + [e];
    StartIsEarliestQualifying(issue, events);
    StartIsEarliestQualifying(issue, events');
    var t :| EarliestQualifying(events, t) && InferredStart(issue, events) == Some(DayOf(t));
    var i :| 0 <= i < |events| && Qualifies(events[i]) && events[i].createdAt <= e.createdAt;
    assert events'[i] == events[i];
    var t' :| EarliestQualifying(events', t') && InferredStart(issue, events') == Some(DayOf(t'));
    var m :| 0 <= m < |events'| && Qualifies(events'[m]) && events'[m].createdAt == t';
    if m < |events| {
      assert events'[m] == events[m];
    }
    var n :| 0 <= n < |events| && Qualifies(events[n]) && events[n].createdAt == t;
    assert events'[n] == events[n];
    assert t == t';
  }

  // ---------------------------------------------------------------------------
  // Processing all issues

  /** `eventsByIssue.get(number) || []`: an issue without an entry has no events. */
  function EventsOf(eventsByIssue: map<int, seq<Event>>, number: int): seq<Event>
  {
    if number in eventsByIssue then eventsByIssue[number] else []
  }

  /** The start day inferred for `issue` from its entry in `eventsByIssue`. */
  function StartOf(issue: Issue, eventsByIssue: map<int, seq<Event>>): Option<int>
  {
    InferredStart(issue, EventsOf(eventsByIssue, issue.number))
  }

  /** The bar pushed for an issue that started on day `start`. */
  function TaskFor(issue: Issue, start: int, today: int): GanttTask
  {
    GanttTask(
      DecimalString(issue.number),
      issue.title,
      start,
      if issue.closedAt.Some? then DayOf(issue.closedAt.value) else today,
      if issue.state == Closed then 100 else 0,
      "",
      if issue.state == Closed then "bar-closed" else "bar-open")
  }

  /** The loop of `processIssues`: bars and unstarted issues, both still in input order. */
  function Classify(issues: seq<Issue>, eventsByIssue: map<int, seq<Event>>, today: int): ProcessedIssues
  {
    if issues == [] then ProcessedIssues([], [])
    else
      var done := Classify(issues[..|issues| - 1], eventsByIssue, today);
      var issue := issues[|issues| - 1];
      match StartOf(issue, eventsByIssue)
      case Some(start) => ProcessedIssues(done.ganttTasks + [TaskFor(issue, start, today)], done.unstartedIssues)
      case None => ProcessedIssues(done.ganttTasks, done.unstartedIssues + [issue])
  }

  /** The sort key of bars: `new Date(task.start).getTime()`, which orders as the start day. */
  function TaskStart(t: GanttTask): int
  {
    t.start
  }

  /** `processIssues(issues, eventsByIssue)` as a value, with `today` given. */
  function Process(issues: seq<Issue>, eventsByIssue: map<int, seq<Event>>, today: int): ProcessedIssues
  {
    var built := Classify(issues, eventsByIssue, today);
    ProcessedIssues(Sort(built.ganttTasks, TaskStart), built.unstartedIssues)
  }

  /** The contents of every events array of the map, in the current state. */
  function Snapshot(eventsByIssue: map<int, array<Event>>): map<int, seq<Event>>
    reads eventsByIssue.Values
  {
    map k | k in eventsByIssue :: eventsByIssue[k][..]
  }

  /** Some issue of `issues` finds array `a` under its number. */
  ghost predicate LookedUp(issues: seq<Issue>, eventsByIssue: map<int, array<Event>>, a: array<Event>)
  {
    exists j :: 0 <= j < |issues| && issues[j].number in eventsByIssue && eventsByIssue[issues[j].number] == a
  }

  /**
   * The arrays of the map hold `before`'s contents, sorted for exactly the arrays that an
   * issue of `done` has looked up.
   */
  ghost predicate ArraysAfter(done: seq<Issue>, eventsByIssue: map<int, array<Event>>, before: map<int, seq<Event>>)
    reads eventsByIssue.Values
  {
    forall k :: k in eventsByIssue ==>
      && k in before
      && eventsByIssue[k][..] == (if LookedUp(done, eventsByIssue, eventsByIssue[k])
        then Sort(before[k], EventTime) else before[k])
  }

  /** `before` gives one contents to each array, however many numbers share it. */
  ghost predicate Coherent(eventsByIssue: map<int, array<Event>>, before: map<int, seq<Event>>)
  {
    forall k1, k2 ::
      (k1 in eventsByIssue && k2 in eventsByIssue && k1 in before && k2 in before
       && eventsByIssue[k1] == eventsByIssue[k2]) ==> before[k1] == before[k2]
  }

  /**
   * The start of the loop body of `processIssues` for `issues[i]`: look up its events
   * (`|| []` when missing) and let `FindStartDate` sort and scan them.
   */
  method ScanIssue(issues: seq<Issue>, i: nat, eventsByIssue: map<int, array<Event>>, ghost before: map<int, seq<Event>>)
    returns (startDate: Option<int>)
    requires i < |issues|
    requires before.Keys == eventsByIssue.Keys && Coherent(eventsByIssue, before)
    requires ArraysAfter(issues[..i], eventsByIssue, before)
    modifies eventsByIssue.Values
    ensures ArraysAfter(issues[..i + 1], eventsByIssue, before)
    ensures startDate == StartOf(issues[i], before)
  {
    var issue := issues[i];
    var events: array<Event>;
    if issue.number in eventsByIssue {
      events := eventsByIssue[issue.number];
    } else {
      events := new Event[0];
    }
    label Scan:
    startDate := FindStartDate(issue, events);
    if issue.number in eventsByIssue {
      InferredStartOfSorted(issue, before[issue.number]);
    }
    forall k | k in eventsByIssue
      ensures eventsByIssue[k][..] == (if LookedUp(issues[..i + 1], eventsByIssue, eventsByIssue[k])
        then Sort(before[k], EventTime) else before[k])
    {
      var a := eventsByIssue[k];
      assert old@Scan(a[..]) ==
        if LookedUp(issues[..i], eventsByIssue, a) then Sort(before[k], EventTime) else before[k];
      if a == events {
        LookedUpNext(issues, i, eventsByIssue, a);
        SortIdempotent(before[k], EventTime);
      } else {
        LookedUpNext(issues, i, eventsByIssue, a);
      }
    }
  }

  /** Looking up one more issue adds exactly the array found under its number. */
  lemma {:induction false} LookedUpNext(issues: seq<Issue>, i: nat, eventsByIssue: map<int, array<Event>>, a: array<Event>)
    requires i < |issues|
    ensures LookedUp(issues[..i + 1], eventsByIssue, a) <==>
      LookedUp(issues[..i], eventsByIssue, a) ||
      (issues[i].number in eventsByIssue && eventsByIssue[issues[i].number] == a)
  {
    var done, done' := issues[..i], issues[..i + 1];
    if LookedUp(done', eventsByIssue, a) && !LookedUp(done, eventsByIssue, a) {
      var j :| 0 <= j < i + 1 && done'[j].number in eventsByIssue && eventsByIssue[done'[j].number] == a;
    }
    if LookedUp(done, eventsByIssue, a) {
      var j :| 0 <= j < i && done[j].number in eventsByIssue && eventsByIssue[done[j].number] == a;
      assert done'[j] == done[j];
    }
    if issues[i].number in eventsByIssue && eventsByIssue[issues[i].number] == a {
      assert done'[i] == issues[i];
    }
  }

  /**
   * `processIssues`: every issue is classified with `FindStartDate`, which sorts the events
   * array it finds in the caller's map in place; the bars are then sorted by start day.
   */
  method ProcessIssues(issues: seq<Issue>, eventsByIssue: map<int, array<Event>>, today: int)
    returns (result: ProcessedIssues)
    modifies eventsByIssue.Values
    ensures result == Process(issues, old(Snapshot(eventsByIssue)), today)
    ensures forall k :: k in eventsByIssue ==>
      eventsByIssue[k][..] == (if LookedUp(issues, eventsByIssue, eventsByIssue[k])
        then Sort(old(eventsByIssue[k][..]), EventTime) else old(eventsByIssue[k][..]))
  {
    ghost var before := Snapshot(eventsByIssue);
    var ganttTasks: seq<GanttTask> := [];
    var unstartedIssues: seq<Issue> := [];
    for i := 0 to |issues|
      invariant Classify(issues[..i], before, today) == ProcessedIssues(ganttTasks, unstartedIssues)
      invariant ArraysAfter(issues[..i], eventsByIssue, before)
    {
      var issue := issues[i];
      var startDate := ScanIssue(issues, i, eventsByIssue, before);
      assert issues[..i + 1][..i] == issues[..i];
      match startDate {
        case Some(start) =>
          var endDate := if issue.closedAt.Some? then DayOf(issue.closedAt.value) else today;
          var progress := if issue.state == Closed then 100 else 0;
          var customClass := if issue.state == Closed then "bar-closed" else "bar-open";
          ganttTasks := ganttTasks + [GanttTask(DecimalString(issue.number), issue.title, start, endDate, progress, "", customClass)];
        case None =>
          unstartedIssues := unstartedIssues + [issue];
      }
    }
    assert issues[..|issues|] == issues;
    var sorted := new GanttTask[|ganttTasks|](j requires 0 <= j < |ganttTasks| => ganttTasks[j]);
    assert sorted[..] == ganttTasks;
    SortInPlace(sorted, TaskStart);
    result := ProcessedIssues(sorted[..], unstartedIssues);
  }

  // ---------------------------------------------------------------------------
  // What processIssues promises

  /** The issues that get a bar. */
  function Started(eventsByIssue: map<int, seq<Event>>): Issue -> bool
  {
    issue => StartOf(issue, eventsByIssue).Some?
  }

  /** The issues that do not. */
  function NotStarted(eventsByIssue: map<int, seq<Event>>): Issue -> bool
  {
    issue => StartOf(issue, eventsByIssue).None?
  }

  /** The loop sends every issue to exactly one side, each side in input order. */
  lemma {:induction false} ClassifyPartitions(issues: seq<Issue>, eventsByIssue: map<int, seq<Event>>, today: int)
    ensures var built := Classify(issues, eventsByIssue, today);
      var started := Filter(issues, Started(eventsByIssue));
      && built.unstartedIssues == Filter(issues, NotStarted(eventsByIssue))
      && |built.ganttTasks| == |started|
      && forall j :: 0 <= j < |started| ==>
           StartOf(started[j], eventsByIssue).Some? &&
           built.ganttTasks[j] == TaskFor(started[j], StartOf(started[j], eventsByIssue).value, today)
  {
    if issues != [] {
      var issues' := issues[..|issues| - 1];
      ClassifyPartitions(issues', eventsByIssue, today);
    }
  }

  /** Every issue lands on exactly one side: a bar or the unstarted list. */
  lemma {:induction false} SidesAddUp(issues: seq<Issue>, eventsByIssue: map<int, seq<Event>>)
    ensures |Filter(issues, Started(eventsByIssue))| + |Filter(issues, NotStarted(eventsByIssue))| == |issues|
  {
    if issues != [] {
      SidesAddUp(issues[..|issues| - 1], eventsByIssue);
    }
  }

  /**
   * `processIssues` splits the input: the unstarted issues keep input order, the bars are
   * the loop's bars sorted (stably) by start day, and the two sides together count every issue once.
   */
  lemma {:induction false} ProcessPartitions(issues: seq<Issue>, eventsByIssue: map<int, seq<Event>>, today: int)
    ensures var result := Process(issues, eventsByIssue, today);
      && result.unstartedIssues == Filter(issues, NotStarted(eventsByIssue))
      && |result.ganttTasks| + |result.unstartedIssues| == |issues|
      && SortedBy(result.ganttTasks, TaskStart)
      && multiset(result.ganttTasks) == multiset(Classify(issues, eventsByIssue, today).ganttTasks)
  {
    var built := Classify(issues, eventsByIssue, today);
    var result := Process(issues, eventsByIssue, today);
    assert result.ganttTasks == Sort(built.ganttTasks, TaskStart);
    assert result.unstartedIssues == built.unstartedIssues;
    ClassifyPartitions(issues, eventsByIssue, today);
    SidesAddUp(issues, eventsByIssue);
    SortIsSorted(built.ganttTasks, TaskStart);
    SortPermutes(built.ganttTasks, TaskStart);
    assert |result.ganttTasks| == |multiset(result.ganttTasks)| == |built.ganttTasks|;
  }

  /** An issue left unstarted is open and none of its events shows work starting. */
  lemma {:induction false} UnstartedAreOpenAndIdle(issues: seq<Issue>, eventsByIssue: map<int, seq<Event>>, today: int, u: Issue)
    requires u in Process(issues, eventsByIssue, today).unstartedIssues
    ensures u in issues && u.state == Open && !HasQualifying(EventsOf(eventsByIssue, u.number))
  {
    ClassifyPartitions(issues, eventsByIssue, today);
    FilterMembers(issues, NotStarted(eventsByIssue), u);
    StartIsEarliestQualifying(u, EventsOf(eventsByIssue, u.number));
  }

  /**
   * Each bar comes from one input issue that started: its id is the issue number as text,
   * its end is the closing day or `today`, its progress and style follow the state and it has
   * no dependencies. Conversely every issue that started has its bar.
   */
  lemma {:induction false} TasksOfProcess(issues: seq<Issue>, eventsByIssue: map<int, seq<Event>>, today: int)
    ensures forall t :: t in Process(issues, eventsByIssue, today).ganttTasks ==>
      exists issue :: issue in issues && IsTaskOf(t, issue, eventsByIssue, today)
    ensures forall i :: 0 <= i < |issues| && StartOf(issues[i], eventsByIssue).Some? ==>
      TaskFor(issues[i], StartOf(issues[i], eventsByIssue).value, today) in Process(issues, eventsByIssue, today).ganttTasks
  {
    var started, bar := Started(eventsByIssue), BarOf(eventsByIssue, today);
    var tasks := Process(issues, eventsByIssue, today).ganttTasks;
    var bars := Map(Filter(issues, started), bar);
    assert multiset(tasks) == multiset(bars) by {
      ProcessPartitions(issues, eventsByIssue, today);
      ClassifyBars(issues, eventsByIssue, today);
    }
    forall t | t in tasks ensures exists issue :: issue in issues && IsTaskOf(t, issue, eventsByIssue, today) {
      assert t in multiset(bars);
      MapFilterFrom(issues, started, bar, t);
      var issue :| issue in issues && started(issue) && t == bar(issue);
      TaskForIsTaskOf(issue, StartOf(issue, eventsByIssue).value, eventsByIssue, today);
    }
    forall i | 0 <= i < |issues| && StartOf(issues[i], eventsByIssue).Some?
      ensures TaskFor(issues[i], StartOf(issues[i], eventsByIssue).value, today) in tasks
    {
      MapFilterHas(issues, started, bar, issues[i]);
      assert bar(issues[i]) in multiset(tasks);
    }
  }

  /** The bar built for an issue that started is that issue's bar. */
  lemma {:induction false} TaskForIsTaskOf(issue: Issue, start: int, eventsByIssue: map<int, seq<Event>>, today: int)
    requires StartOf(issue, eventsByIssue) == Some(start)
    ensures IsTaskOf(TaskFor(issue, start, today), issue, eventsByIssue, today)
  {
    DecimalRoundTrip(issue.number);
  }

  /** `t` is the bar the source builds for `issue`, field by field. */
  ghost predicate IsTaskOf(t: GanttTask, issue: Issue, eventsByIssue: map<int, seq<Event>>, today: int)
  {
    && StartOf(issue, eventsByIssue) == Some(t.start)
    && t.id == DecimalString(issue.number) && ParseDecimal(t.id) == Some(issue.number)
    && t.name == issue.title
    && t.end == (if issue.closedAt.Some? then DayOf(issue.closedAt.value) else today)
    && (t.progress == 100 <==> issue.state == Closed)
    && (t.progress == 0 <==> issue.state == Open)
    && (t.customClass == "bar-closed" <==> issue.state == Closed)
    && (t.customClass == "bar-open" <==> issue.state == Open)
    && t.dependencies == ""
  }

  /** The loop handles each issue on its own: classifying a concatenation concatenates the results. */
  lemma {:induction false} ClassifyConcat(a: seq<Issue>, b: seq<Issue>, eventsByIssue: map<int, seq<Event>>, today: int)
    ensures var ca, cb := Classify(a, eventsByIssue, today), Classify(b, eventsByIssue, today);
      Classify(a + b, eventsByIssue, today) ==
        ProcessedIssues(ca.ganttTasks + cb.ganttTasks, ca.unstartedIssues + cb.unstartedIssues)
  {
    if b == [] {
      assert a + b == a;
    } else {
      var b' := b[..|b| - 1];
      assert (a + b)[..|a + b| - 1] == a + b';
      ClassifyConcat(a, b', eventsByIssue, today);
    }
  }

  /** The bar of an issue that started, as the loop builds it. */
  function BarOf(eventsByIssue: map<int, seq<Event>>, today: int): Issue -> GanttTask
  {
    issue => TaskFor(issue, if StartOf(issue, eventsByIssue).Some? then StartOf(issue, eventsByIssue).value else 0, today)
  }

  /** The loop's bars are the bars of the issues that started, in input order. */
  lemma {:induction false} ClassifyBars(issues: seq<Issue>, eventsByIssue: map<int, seq<Event>>, today: int)
    ensures Classify(issues, eventsByIssue, today).ganttTasks == Map(Filter(issues, Started(eventsByIssue)), BarOf(eventsByIssue, today))
  {
    ClassifyPartitions(issues, eventsByIssue, today);
  }

  /** Reordering the input issues changes neither side's contents, only their order. */
  lemma {:induction false} ClassifyIgnoresOrder(a: seq<Issue>, b: seq<Issue>, eventsByIssue: map<int, seq<Event>>, today: int)
    requires multiset(a) == multiset(b)
    ensures multiset(Classify(a, eventsByIssue, today).ganttTasks) == multiset(Classify(b, eventsByIssue, today).ganttTasks)
    ensures multiset(Classify(a, eventsByIssue, today).unstartedIssues) == multiset(Classify(b, eventsByIssue, today).unstartedIssues)
  {
    var started, idle := Started(eventsByIssue), NotStarted(eventsByIssue);
    ClassifyBars(a, eventsByIssue, today);
    ClassifyBars(b, eventsByIssue, today);
    FilterPermutes(a, b, started);
    MapPermutes(Filter(a, started), Filter(b, started), BarOf(eventsByIssue, today));
    ClassifyPartitions(a, eventsByIssue, today);
    ClassifyPartitions(b, eventsByIssue, today);
    FilterPermutes(a, b, idle);
  }

  /**
   * Reordering the input issues leaves the bars the same up to the order of bars that start
   * on the same day: both results are sorted by start day and hold the same bars.
   */
  lemma {:induction false} ProcessIgnoresOrder(a: seq<Issue>, b: seq<Issue>, eventsByIssue: map<int, seq<Event>>, today: int)
    requires multiset(a) == multiset(b)
    ensures multiset(Process(a, eventsByIssue, today).ganttTasks) == multiset(Process(b, eventsByIssue, today).ganttTasks)
    ensures multiset(Process(a, eventsByIssue, today).unstartedIssues) == multiset(Process(b, eventsByIssue, today).unstartedIssues)
    ensures SortedBy(Process(a, eventsByIssue, today).ganttTasks, TaskStart)
    ensures SortedBy(Process(b, eventsByIssue, today).ganttTasks, TaskStart)
  {
    ClassifyIgnoresOrder(a, b, eventsByIssue, today);
    ProcessPartitions(a, eventsByIssue, today);
    ProcessPartitions(b, eventsByIssue, today);
  }

  /** An issue absent from `eventsByIssue` is treated exactly as one with an empty event list. */
  lemma {:induction false} MissingEntryIsEmpty(issues: seq<Issue>, eventsByIssue: map<int, seq<Event>>, number: int, today: int)
    requires number !in eventsByIssue
    ensures Classify(issues, eventsByIssue[number := []], today) == Classify(issues, eventsByIssue, today)
  {
    if issues != [] {
      MissingEntryIsEmpty(issues[..|issues| - 1], eventsByIssue, number, today);
      var issue := issues[|issues| - 1];
      assert EventsOf(eventsByIssue[number := []], issue.number) == EventsOf(eventsByIssue, issue.number);
    }
  }
}
