/** The task-list view of `static/js/modules/tasks.js`: the filter and sort
    pipeline of `renderTasks`, the day window, the completion percentage,
    the quick-add split and the view state (archive toggle, active
    category, days filter) that the buttons change. */
module TaskList {
  import opened Common
  import StableSort
  import opened TaskModel

  /** Milliseconds in a day (`1000 * 60 * 60 * 24`). */
  const DayMs: int := 86400000

  // ---------------------------------------------------------------------
  // The day window
  // ---------------------------------------------------------------------

  /** `Math.ceil((taskDate - now) / DayMs)`: whole days until `t`,
      rounded up. */
  function DaysUntil(t: int, now: int): int
  {
    -((now - t) / DayMs)
  }

  /** The rounding is a ceiling: `t - now` lies in the day that ends at
      `DaysUntil(t, now) * DayMs`. */
  lemma {:induction false} DaysUntilIsCeiling(t: int, now: int)
    ensures (DaysUntil(t, now) - 1) * DayMs < t - now <= DaysUntil(t, now) * DayMs
  {
    var q := (now - t) / DayMs;
    var r := (now - t) % DayMs;
    assert now - t == q * DayMs + r && 0 <= r < DayMs;
  }

  /** `diffDays <= N && diffDays >= -N`. */
  predicate InDayWindow(t: int, now: int, n: int)
  {
    -n <= DaysUntil(t, now) <= n
  }

  /** For N >= 0 a dated task is in the window exactly when it falls after
      N + 1 days ago and no later than N days ahead; for negative N nothing
      is. */
  lemma {:induction false} DayWindowSpec(t: int, now: int, n: int)
    ensures n >= 0 ==> (InDayWindow(t, now, n) <==> now - (n + 1) * DayMs < t <= now + n * DayMs)
    ensures n < 0 ==> !InDayWindow(t, now, n)
  {
    DaysUntilIsCeiling(t, now);
    var q := DaysUntil(t, now);
    if n >= 0 {
      if now - (n + 1) * DayMs < t <= now + n * DayMs {
        assert (q - 1) * DayMs < n * DayMs;
        assert -(n + 1) * DayMs < q * DayMs;
      }
    }
  }

  /** `parseInt(input) || 0`: NaN and 0 both give 0. */
  function DaysValue(parsed: Option<int>): int
  {
    match parsed
    case None => 0
    case Some(v) => v
  }

  /** The days-filter callback: undated tasks always pass, a value of 0
      passes everything, otherwise the task must be in the window. */
  predicate KeepByDays(t: Task, n: int, now: int)
  {
    t.datetime.None? || n == 0 || InDayWindow(t.datetime.value, now, n)
  }

  // ---------------------------------------------------------------------
  // The pipeline of renderTasks
  // ---------------------------------------------------------------------

  /** `showArchive ? archived_tasks : tasks`. */
  function Source(active: seq<Task>, archived: seq<Task>, showArchive: bool): seq<Task>
  {
    if showArchive then archived else active
  }

  /** The category step: applied whenever a category is active, in both
      modes. */
  function ByCategory(s: seq<Task>, category: Option<string>): seq<Task>
  {
    if Truthy(category) then Filter(s, (t: Task) => t.category == category) else s
  }

  /** The days step: only for the active list. */
  function ByDays(s: seq<Task>, showArchive: bool, n: int, now: int): seq<Task>
  {
    if showArchive then s else Filter(s, (t: Task) => KeepByDays(t, n, now))
  }

  /** The tasks the view shows, before sorting. */
  function Visible(active: seq<Task>, archived: seq<Task>, showArchive: bool,
                   category: Option<string>, n: int, now: int): seq<Task>
  {
    ByDays(ByCategory(Source(active, archived, showArchive), category), showArchive, n, now)
  }

  /** Every shown task comes from the selected list: the archive in archive
      mode, the active list otherwise; the two are never merged. Without an
      active category, and with the days step off (archive mode or N = 0),
      the selected list is shown whole. */
  lemma {:induction false} VisibleSource(active: seq<Task>, archived: seq<Task>, showArchive: bool,
                      category: Option<string>, n: int, now: int)
    ensures var v := Visible(active, archived, showArchive, category, n, now);
      forall k :: 0 <= k < |v| ==> v[k] in (if showArchive then archived else active)
    ensures !Truthy(category) && (showArchive || n == 0) ==>
      Visible(active, archived, showArchive, category, n, now) == Source(active, archived, showArchive)
  {
    var src := Source(active, archived, showArchive);
    var c := ByCategory(src, category);
    assert forall k :: 0 <= k < |c| ==> c[k] in src;
    if !Truthy(category) && !showArchive && n == 0 {
      FilterAll(src, (t: Task) => KeepByDays(t, n, now));
    }
  }

  /** With an active category every shown task has exactly that category,
      and every task of the selected list with that category that passes
      the days step is shown. */
  lemma {:induction false} VisibleCategory(active: seq<Task>, archived: seq<Task>, showArchive: bool,
                        category: Option<string>, n: int, now: int)
    requires Truthy(category)
    ensures var v := Visible(active, archived, showArchive, category, n, now);
      forall k :: 0 <= k < |v| ==> v[k].category == category
    ensures var v := Visible(active, archived, showArchive, category, n, now);
      var src := Source(active, archived, showArchive);
      forall k :: 0 <= k < |src| && src[k].category == category && (showArchive || KeepByDays(src[k], n, now))
        ==> src[k] in v
  {
    var src := Source(active, archived, showArchive);
    var c := Filter(src, (t: Task) => t.category == category);
    assert ByCategory(src, category) == c;
    var v := ByDays(c, showArchive, n, now);
    assert Visible(active, archived, showArchive, category, n, now) == v;
    forall k | 0 <= k < |v|
      ensures v[k].category == category
    {
      assert v[k] in c;
    }
    forall k | 0 <= k < |src| && src[k].category == category && (showArchive || KeepByDays(src[k], n, now))
      ensures src[k] in v
    {
      var m :| 0 <= m < |c| && c[m] == src[k];
      if !showArchive {
        assert KeepByDays(c[m], n, now);
      }
    }
  }

  /** The days step keeps undated tasks and, in archive mode, everything;
      a dated active task survives only inside the window (or with N = 0). */
  lemma {:induction false} VisibleDays(active: seq<Task>, archived: seq<Task>, showArchive: bool,
                    category: Option<string>, n: int, now: int)
    ensures var v := Visible(active, archived, showArchive, category, n, now);
      var c := ByCategory(Source(active, archived, showArchive), category);
      && (showArchive ==> v == c)
      && (forall k :: 0 <= k < |c| && c[k].datetime.None? ==> c[k] in v)
      && (!showArchive ==> forall k :: 0 <= k < |v| && v[k].datetime.Some? ==>
            n == 0 || InDayWindow(v[k].datetime.value, now, n))
      && (!showArchive && n == 0 ==> v == c)
  {
    var c := ByCategory(Source(active, archived, showArchive), category);
    if !showArchive && n == 0 {
      FilterAll(c, (t: Task) => KeepByDays(t, n, now));
    }
  }

  // ---------------------------------------------------------------------
  // Statistics, quick add and the add form
  // ---------------------------------------------------------------------

  /** `total > 0 ? Math.round(completed / total * 100) : 0`, with exact
      rational rounding (half up). */
  function Percent(completed: int, total: int): int
  {
    if total > 0 then (200 * completed + total) / (2 * total) else 0
  }

  /** The percentage is the nearest integer to 100 * completed / total
      (halves round up), so it lies in 0..100 when 0 <= completed <= total;
      no tasks give 0. */
  lemma {:induction false} PercentSpec(completed: int, total: int)
    ensures total <= 0 ==> Percent(completed, total) == 0
    ensures total > 0 ==>
      2 * total * Percent(completed, total) - total <= 200 * completed < 2 * total * Percent(completed, total) + total
    ensures 0 <= completed <= total ==> 0 <= Percent(completed, total) <= 100
    ensures total > 0 && completed == total ==> Percent(completed, total) == 100
  {
    if total > 0 {
      var d := 2 * total;
      var p := Percent(completed, total);
      var r := (200 * completed + total) % d;
      assert 200 * completed + total == d * p + r && 0 <= r < d;
      if 0 <= completed <= total {
        ScaleCompare(d, 101, p);
        ScaleCompare(d, p, -1);
      }
      if completed == total {
        ScaleCompare(d, p, 99);
      }
    }
  }

  /** Multiplying by a positive number keeps the order. */
  lemma {:induction false} ScaleCompare(d: int, x: int, y: int)
    requires d > 0
    ensures x <= y <==> d * x <= d * y
  {
    if x <= y {
      assert d * y - d * x == d * (y - x);
    } else {
      assert d * x - d * y == d * (x - y);
    }
  }

  /** The lines `addMultipleTasks` sends: `None` when the trimmed text is
      empty (nothing is sent), otherwise the non-blank lines of the trimmed
      text, each sent as written. */
  function QuickAddLines(text: string): Option<seq<string>>
  {
    var trimmed := JsTrim(text);
    if trimmed == "" then None
    else Some(Filter(Split(trimmed, '\n'), (line: string) => JsTrim(line) != ""))
  }

  /** Nothing is sent exactly for blank text. Every line sent is free of
      line breaks and not blank, every non-blank line of the trimmed text is
      sent, and with no blank lines joining the lines gives back the trimmed
      text. */
  lemma {:induction false} QuickAddLinesSpec(text: string)
    ensures QuickAddLines(text).None? <==> AllOf(text, IsJsSpace)
    ensures QuickAddLines(text).Some? ==>
      var lines := QuickAddLines(text).value;
      var pieces := Split(JsTrim(text), '\n');
      && (forall k :: 0 <= k < |lines| ==> '\n' !in lines[k] && !AllOf(lines[k], IsJsSpace))
      && (forall k :: 0 <= k < |pieces| && !AllOf(pieces[k], IsJsSpace) ==> pieces[k] in lines)
      && ((forall k :: 0 <= k < |pieces| ==> !AllOf(pieces[k], IsJsSpace)) ==> Join(lines, "\n") == JsTrim(text))
  {
    StripEmptyIffBlank(text, IsJsSpace);
    if QuickAddLines(text).Some? {
      var trimmed := JsTrim(text);
      var pieces := Split(trimmed, '\n');
      var keep := (line: string) => JsTrim(line) != "";
      var lines := Filter(pieces, keep);
      forall k | 0 <= k < |lines|
        ensures '\n' !in lines[k] && !AllOf(lines[k], IsJsSpace)
      {
        StripEmptyIffBlank(lines[k], IsJsSpace);
      }
      forall k | 0 <= k < |pieces| && !AllOf(pieces[k], IsJsSpace)
        ensures pieces[k] in lines
      {
        StripEmptyIffBlank(pieces[k], IsJsSpace);
      }
      if forall k :: 0 <= k < |pieces| ==> !AllOf(pieces[k], IsJsSpace) {
        forall k | 0 <= k < |pieces|
          ensures keep(pieces[k])
        {
          StripEmptyIffBlank(pieces[k], IsJsSpace);
        }
        FilterAll(pieces, keep);
        JoinSplit(trimmed, '\n');
      }
    }
  }

  /** How many of the first `n` requests the server accepted. */
  function CountAccepted(n: nat, accepted: nat -> bool): (c: nat)
    ensures c <= n
  {
    if n == 0 then 0 else CountAccepted(n - 1, accepted) + (if accepted(n - 1) then 1 else 0)
  }

  /** All requests succeed exactly when the count reaches the number sent. */
  lemma {:induction false} CountAcceptedAll(n: nat, accepted: nat -> bool)
    ensures CountAccepted(n, accepted) == n <==> forall i :: 0 <= i < n ==> accepted(i)
  {
    if n > 0 {
      CountAcceptedAll(n - 1, accepted);
    }
  }

  /** The loop of `addMultipleTasks`: one request per line, in order,
      counting the accepted ones. `accepted(i)` is the server's answer to
      request i. */
  method SendLines(lines: seq<string>, accepted: nat -> bool) returns (sent: seq<string>, successCount: nat)
    ensures sent == lines
    ensures successCount == CountAccepted(|lines|, accepted)
  {
    sent, successCount := [], 0;
    var i := 0;
    while i < |lines|
      invariant 0 <= i <= |lines|
      invariant sent == lines[..i]
      invariant successCount == CountAccepted(i, accepted)
    {
      sent := sent + [lines[i]];
      if accepted(i) {
        successCount := successCount + 1;
      }
      i := i + 1;
    }
    assert lines[..i] == lines;
  }

  /** `addMultipleTasks`: nothing is sent for blank text; otherwise every
      quick-add line is sent and the list is refreshed only when at least
      one request was accepted. */
  method AddMultipleTasks(text: string, accepted: nat -> bool)
    returns (sent: seq<string>, successCount: nat, refresh: bool)
    ensures QuickAddLines(text).None? ==> sent == [] && successCount == 0 && !refresh
    ensures QuickAddLines(text).Some? ==> sent == QuickAddLines(text).value
    ensures successCount == CountAccepted(|sent|, accepted) <= |sent|
    ensures refresh <==> successCount > 0
  {
    var lines := QuickAddLines(text);
    if lines.None? {
      return [], 0, false;
    }
    sent, successCount := SendLines(lines.value, accepted);
    refresh := successCount > 0;
  }

  /** The JSON body `addTask` posts. */
  datatype NewTaskBody = NewTaskBody(text: string, datetime: Option<string>,
                                     category: Option<string>, description: string)

  /** `value || null` for a form field. */
  function OrNull(value: string): Option<string>
  {
    if value == "" then None else Some(value)
  }

  /** `addTask`: the text is trimmed and required; the date and category
      fields become null when empty; the description is sent as typed. */
  function AddTaskBody(textInput: string, datetimeInput: string, categoryInput: string,
                       descriptionInput: string): Option<NewTaskBody>
  {
    var text := JsTrim(textInput);
    if text == "" then None
    else Some(NewTaskBody(text, OrNull(datetimeInput), OrNull(categoryInput), descriptionInput))
  }

  /** No request for a blank text; otherwise the text sent is the input
      without the whitespace around it, non-empty, the date and the category are null
      exactly when their field is empty and as typed otherwise, and the
      description is as typed. */
  lemma {:induction false} AddTaskBodySpec(textInput: string, datetimeInput: string, categoryInput: string,
                        descriptionInput: string)
    ensures var b := AddTaskBody(textInput, datetimeInput, categoryInput, descriptionInput);
      && (b.None? <==> AllOf(textInput, IsJsSpace))
      && (b.Some? ==> b.value.text == JsTrim(textInput))
      && (b.Some? ==>
            b.value.text != "" && !IsJsSpace(b.value.text[0]) && !IsJsSpace(b.value.text[|b.value.text| - 1]))
      && (b.Some? ==> exists i, j :: 0 <= i <= j <= |textInput| && b.value.text == textInput[i..j]
                        && AllOf(textInput[..i], IsJsSpace) && AllOf(textInput[j..], IsJsSpace))
      && (b.Some? ==> b.value.description == descriptionInput)
      && (b.Some? ==> (b.value.datetime.None? <==> datetimeInput == ""))
      && (b.Some? && b.value.datetime.Some? ==> b.value.datetime.value == datetimeInput)
      && (b.Some? ==> (b.value.category.None? <==> categoryInput == ""))
      && (b.Some? && b.value.category.Some? ==> b.value.category.value == categoryInput)
  {
    StripEmptyIffBlank(textInput, IsJsSpace);
    StripSlice(textInput, IsJsSpace);
  }

  // ---------------------------------------------------------------------
  // The view state
  // ---------------------------------------------------------------------

  /** The state `renderTasks` reads: the module's `showArchive`, the shared
      `window.currentCategory` and `window.daysFilter`, and the parsed value
      of the days input (`None` when it does not parse). */
  class TaskView {
    var showArchive: bool
    var currentCategory: Option<string>
    var daysFilter: int
    var daysInput: Option<int>

    /** `initializeTasks`: `daysFilter` 0 while the input shows 7. */
    constructor(category: Option<string>)
      ensures !showArchive && currentCategory == category
      ensures daysFilter == 0 && daysInput == Some(7)
    {
      showArchive := false;
      currentCategory := category;
      daysFilter := 0;
      daysInput := Some(7);
    }

    method ToggleArchive()
      modifies this
      ensures showArchive == !old(showArchive)
      ensures currentCategory == old(currentCategory) && daysFilter == old(daysFilter)
      ensures daysInput == old(daysInput)
    {
      showArchive := !showArchive;
    }

    /** `applyDaysFilter`: a value that parses becomes the filter. */
    method ApplyDaysFilter()
      modifies this
      ensures daysInput.Some? ==> daysFilter == daysInput.value
      ensures daysInput.None? ==> daysFilter == old(daysFilter)
      ensures showArchive == old(showArchive) && currentCategory == old(currentCategory)
      ensures daysInput == old(daysInput)
    {
      if daysInput.Some? {
        daysFilter := daysInput.value;
      }
    }

    /** `resetFilters`: no category, and 0 days both in the state and in
      the input. */
    method ResetFilters()
      modifies this
      ensures currentCategory.None? && daysFilter == 0 && daysInput == Some(0)
      ensures showArchive == old(showArchive)
    {
      currentCategory := None;
      daysFilter := 0;
      daysInput := Some(0);
    }

    /** The list `renderTasks` shows: the pipeline, then the in-place sort.
      The days value is read from the input, not from `daysFilter`. */
    method Render(active: seq<Task>, archived: seq<Task>, now: int) returns (shown: seq<Task>)
      ensures shown == StableSort.Sort(Visible(active, archived, showArchive, currentCategory,
                                               DaysValue(daysInput), now), TaskCompare)
      ensures multiset(shown) == multiset(Visible(active, archived, showArchive, currentCategory,
                                                  DaysValue(daysInput), now))
      ensures StableSort.SortedBy(shown, TaskCompare)
    {
      var category := currentCategory;
      var n := DaysValue(daysInput);
      var filtered := if showArchive then archived else active;
      if Truthy(category) {
        filtered := Filter(filtered, (t: Task) => t.category == category);
      }
      if !showArchive {
        filtered := Filter(filtered, (t: Task) => KeepByDays(t, n, now));
      }
      var a := new Task[|filtered|](k requires 0 <= k < |filtered| => filtered[k]);
      assert a[..] == filtered;
      StableSort.InsertionSort(a, TaskCompare);
      shown := a[..];
      SortTasksSpec(filtered);
    }
  }

  /** After a reset the view shows the whole active list (sorted), or the
      whole archive. */
  lemma {:induction false} ResetShowsAll(active: seq<Task>, archived: seq<Task>, showArchive: bool, now: int)
    ensures Visible(active, archived, showArchive, None, DaysValue(Some(0)), now)
      == (if showArchive then archived else active)
  {
    VisibleSource(active, archived, showArchive, None, 0, now);
  }
}
