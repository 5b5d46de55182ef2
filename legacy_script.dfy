/** The older single-file front end `static/script.js`: categories are plain
    strings, the category filter is skipped in archive mode, there is no
    days filter, and categories can be reordered by drag and drop. */
module LegacyScript {
  import opened Common
  import StableSort
  import opened TaskModel

  // ---------------------------------------------------------------------
  // The task list
  // ---------------------------------------------------------------------

  /** The tasks `renderTasks` shows before sorting: the archive as it is,
      or the active list narrowed to the active category. */
  function LegacyVisible(active: seq<Task>, archived: seq<Task>, showArchive: bool,
                         category: Option<string>): seq<Task>
  {
    var src := if showArchive then archived else active;
    if !showArchive && Truthy(category) then Filter(src, (t: Task) => t.category == category)
    else src
  }

  /** In archive mode the category is ignored and the whole archive shown;
      in active mode an active category keeps exactly its tasks, in order,
      and no category shows the whole active list. */
  lemma {:induction false} LegacyVisibleSpec(active: seq<Task>, archived: seq<Task>, showArchive: bool,
                          category: Option<string>)
    ensures showArchive ==> LegacyVisible(active, archived, showArchive, category) == archived
    ensures !showArchive && !Truthy(category) ==> LegacyVisible(active, archived, showArchive, category) == active
    ensures var v := LegacyVisible(active, archived, showArchive, category);
      !showArchive && Truthy(category) ==>
        && (forall k :: 0 <= k < |v| ==> v[k] in active && v[k].category == category)
        && (forall k :: 0 <= k < |active| && active[k].category == category ==> active[k] in v)
  {
  }

  /** The new-task body the add button posts; `files` lists the names of
      attached files. */
  datatype LegacyTaskBody = LegacyTaskBody(text: string, category: string, datetime: Option<string>,
                                           description: string, completed: bool, dependencies: seq<int>,
                                           files: seq<string>)

  /** The add button: nothing is sent for a blank text or when there is no
      category yet; the category is the active one, or else the first. */
  function AddTaskBody(textInput: string, datetimeInput: string, categories: seq<string>,
                       currentCategory: Option<string>): Option<LegacyTaskBody>
  {
    var text := JsTrim(textInput);
    if text == "" || |categories| == 0 then None
    else
      var category := if Truthy(currentCategory) then currentCategory.value else categories[0];
      var datetime := if datetimeInput == "" then None else Some(datetimeInput);
      Some(LegacyTaskBody(text, category, datetime, "", false, [], []))
  }

  /** Nothing is sent exactly when the text is blank or there are no
      categories; a task that is sent carries the input without the
      whitespace around it, the date as typed or null for an empty field,
      is incomplete, undescribed, without dependencies or files, and filed under the
      active category or the first one. */
  lemma {:induction false} AddTaskBodySpec(textInput: string, datetimeInput: string, categories: seq<string>,
                        currentCategory: Option<string>)
    ensures var b := AddTaskBody(textInput, datetimeInput, categories, currentCategory);
      && (b.None? <==> AllOf(textInput, IsJsSpace) || categories == [])
      && (b.Some? ==> b.value.text == JsTrim(textInput))
      && (b.Some? ==> exists i, j :: 0 <= i <= j <= |textInput| && b.value.text == textInput[i..j]
                        && AllOf(textInput[..i], IsJsSpace) && AllOf(textInput[j..], IsJsSpace))
      && (b.Some? ==>
            b.value.text != "" && !b.value.completed && b.value.description == "" && b.value.dependencies == []
            && b.value.files == [])
      && (b.Some? ==> (b.value.datetime.None? <==> datetimeInput == ""))
      && (b.Some? && b.value.datetime.Some? ==> b.value.datetime.value == datetimeInput)
      && (b.Some? && Truthy(currentCategory) ==> b.value.category == currentCategory.value)
      && (b.Some? && !Truthy(currentCategory) ==> b.value.category == categories[0])
  {
    StripEmptyIffBlank(textInput, IsJsSpace);
    StripSlice(textInput, IsJsSpace);
  }

  // ---------------------------------------------------------------------
  // Category reorder (Array.prototype.indexOf / splice)
  // ---------------------------------------------------------------------

  /** Where `splice(start, ...)` starts on a list of length `len`: a
      negative start counts from the end and is clamped at 0, a start past
      the end is clamped to the end. */
  function SpliceIndex(len: nat, start: int): (k: nat)
    ensures k <= len
    ensures 0 <= start <= len ==> k == start
  {
    if start < 0 then (if len + start < 0 then 0 else len + start)
    else if start > len then len else start
  }

  /** The drop handler's copy-and-splice as written: remove at
      `indexOf(dragged)`, insert at `indexOf(target)`. The target is one of
      the rendered items, so it is in the list. */
  function ReorderAsWritten(categories: seq<string>, dragged: string, target: string): (r: seq<string>)
    requires target in categories
    ensures |r| == |categories|
  {
    var from := SpliceIndex(|categories|, IndexOf(categories, dragged));
    assert from < |categories|;
    var moved := categories[from];
    var rest := categories[..from] + categories[from + 1..];
    var to := SpliceIndex(|rest|, IndexOf(categories, target));
    rest[..to] + [moved] + rest[to..]
  }

  /** The reorder as intended: a dragged text that names no category
      changes nothing. */
  function Reorder(categories: seq<string>, dragged: string, target: string): seq<string>
    requires target in categories
  {
    if dragged in categories then Move(categories, IndexOf(categories, dragged), IndexOf(categories, target))
    else categories
  }

  /** Removing the element at `from` and reinserting it at `to`. */
  function Move<T>(s: seq<T>, from: int, to: int): (r: seq<T>)
    requires 0 <= from < |s| && 0 <= to < |s|
    ensures |r| == |s|
  {
    var rest := s[..from] + s[from + 1..];
    rest[..to] + [s[from]] + rest[to..]
  }

  /** A move is a permutation that puts the element at `to` and keeps the
      others in order. */
  lemma {:induction false} MoveSpec<T>(s: seq<T>, from: int, to: int)
    requires 0 <= from < |s| && 0 <= to < |s|
    ensures |Move(s, from, to)| == |s|
    ensures multiset(Move(s, from, to)) == multiset(s)
    ensures Move(s, from, to)[to] == s[from]
    ensures Move(s, from, to)[..to] + Move(s, from, to)[to + 1..] == s[..from] + s[from + 1..]
  {
    var rest := s[..from] + s[from + 1..];
    var r := Move(s, from, to);
    assert s == s[..from] + [s[from]] + s[from + 1..];
    assert multiset(s) == multiset(rest) + multiset{s[from]};
    assert rest == rest[..to] + rest[to..];
    assert multiset(r) == multiset(rest[..to]) + multiset{s[from]} + multiset(rest[to..]);
    assert r[..to] == rest[..to];
    assert r[to + 1..] == rest[to..];
  }

  /** The reorder is a permutation of the same length that puts the dragged
      category at the target's old index and keeps every other category in
      its original relative order. */
  lemma {:induction false} ReorderSpec(categories: seq<string>, dragged: string, target: string)
    requires target in categories
    ensures var r := Reorder(categories, dragged, target);
      && |r| == |categories|
      && multiset(r) == multiset(categories)
      && (dragged !in categories ==> r == categories)
      && (dragged in categories ==>
            var from := IndexOf(categories, dragged);
            var to := IndexOf(categories, target);
            && r[to] == dragged
            && r[..to] + r[to + 1..] == categories[..from] + categories[from + 1..])
  {
    ReorderKeeps(categories, dragged, target);
    if dragged in categories {
      ReorderMoves(categories, dragged, target);
    }
  }

  lemma {:induction false} ReorderKeeps(categories: seq<string>, dragged: string, target: string)
    requires target in categories
    ensures var r := Reorder(categories, dragged, target);
      |r| == |categories| && multiset(r) == multiset(categories) && (dragged !in categories ==> r == categories)
  {
    if dragged in categories {
      MoveSpec(categories, IndexOf(categories, dragged), IndexOf(categories, target));
    }
  }

  lemma {:induction false} ReorderMoves(categories: seq<string>, dragged: string, target: string)
    requires target in categories && dragged in categories
    ensures var r := Reorder(categories, dragged, target);
      var from := IndexOf(categories, dragged);
      var to := IndexOf(categories, target);
      r[to] == dragged && r[..to] + r[to + 1..] == categories[..from] + categories[from + 1..]
  {
    MoveSpec(categories, IndexOf(categories, dragged), IndexOf(categories, target));
  }

  /** The copy-and-splice is a `Move` between the clamped indices. */
  lemma {:induction false} AsWrittenIsMove(categories: seq<string>, dragged: string, target: string)
    requires target in categories
    ensures var from := SpliceIndex(|categories|, IndexOf(categories, dragged));
      var to := SpliceIndex(|categories| - 1, IndexOf(categories, target));
      && from < |categories| && to < |categories|
      && ReorderAsWritten(categories, dragged, target) == Move(categories, from, to)
  {
  }

  /** As written the drop is always a move of one category: the list keeps
      its elements, and for a dragged category of the list it is the
      intended reorder. */
  lemma {:induction false} ReorderAsWrittenPermutes(categories: seq<string>, dragged: string, target: string)
    requires target in categories
    ensures multiset(ReorderAsWritten(categories, dragged, target)) == multiset(categories)
    ensures dragged in categories ==> ReorderAsWritten(categories, dragged, target) == Reorder(categories, dragged, target)
  {
    var from := SpliceIndex(|categories|, IndexOf(categories, dragged));
    var to := SpliceIndex(|categories| - 1, IndexOf(categories, target));
    AsWrittenIsMove(categories, dragged, target);
    MoveSpec(categories, from, to);
  }

  /** As written, a dragged text that names no category (`indexOf` gives
      -1) removes the LAST category and reinserts it at the target. */
  lemma {:induction false} ReorderAsWrittenMovesLast(categories: seq<string>, dragged: string, target: string)
    requires target in categories && dragged !in categories
    ensures ReorderAsWritten(categories, dragged, target)[IndexOf(categories, target)]
      == categories[|categories| - 1]
  {
  }

  /** A concrete case: dropping the text "x" onto "a" in [a, b, c]. */
  lemma {:induction false} ReorderAsWrittenExample()
    ensures ReorderAsWritten(["a", "b", "c"], "x", "a") == ["c", "a", "b"]
    ensures Reorder(["a", "b", "c"], "x", "a") == ["a", "b", "c"]
  {
    var cats := ["a", "b", "c"];
    assert IndexOf(cats, "x") == -1 by {
      assert "x" !in cats;
    }
    assert IndexOf(cats, "a") == 0;
  }

  // ---------------------------------------------------------------------
  // The view state
  // ---------------------------------------------------------------------

  /** The module-level `currentCategory`, `showArchive` and `categories`. */
  class LegacyView {
    var currentCategory: Option<string>
    var showArchive: bool
    var categories: seq<string>

    constructor(categories0: seq<string>)
      ensures currentCategory.None? && !showArchive && categories == categories0
    {
      currentCategory := None;
      showArchive := false;
      categories := categories0;
    }

    /** A click on a category item makes it active. */
    method SelectCategory(name: string)
      modifies this
      ensures currentCategory == Some(name)
      ensures showArchive == old(showArchive) && categories == old(categories)
    {
      currentCategory := Some(name);
    }

    /** "Show all" clears the active category. */
    method ShowAll()
      modifies this
      ensures currentCategory.None?
      ensures showArchive == old(showArchive) && categories == old(categories)
    {
      currentCategory := None;
    }

    method ToggleArchive()
      modifies this
      ensures showArchive == !old(showArchive)
      ensures currentCategory == old(currentCategory) && categories == old(categories)
    {
      showArchive := !showArchive;
    }

    /** A category delete answered without an error resets the filter if
      it was the active category and then reloads the list: `loaded` is
      what `fetchCategories` reads back, `None` when that load fails and
      leaves the list as it was. An error changes nothing. */
    method DeleteCategory(category: string, serverError: bool, loaded: Option<seq<string>>)
      modifies this
      ensures !serverError && old(currentCategory) == Some(category) ==> currentCategory.None?
      ensures serverError || old(currentCategory) != Some(category) ==> currentCategory == old(currentCategory)
      ensures serverError ==> categories == old(categories)
      ensures !serverError ==> categories == if loaded.Some? then loaded.value else old(categories)
      ensures showArchive == old(showArchive)
    {
      if serverError {
        return;
      }
      if currentCategory == Some(category) {
        currentCategory := None;
      }
      if loaded.Some? {
        categories := loaded.value;
      }
    }

    /** The drop handler. Dropping with no drag data, onto an item without a
      name, or onto itself does nothing; otherwise the reordered list is
      posted and adopted only if the server accepts it. */
    method DropCategory(dragged: string, target: string, serverOk: bool)
      requires target in categories
      modifies this
      ensures dragged == "" || target == "" || dragged == target || !serverOk ==>
        categories == old(categories)
      ensures dragged != "" && target != "" && dragged != target && serverOk ==>
        categories == ReorderAsWritten(old(categories), dragged, target)
      ensures currentCategory == old(currentCategory) && showArchive == old(showArchive)
    {
      if dragged != "" && target != "" && dragged != target {
        var newCategories := ReorderAsWritten(categories, dragged, target);
        if serverOk {
          categories := newCategories;
        }
      }
    }

    /** The list `renderTasks` shows: the filter, then the in-place sort
      with the shared comparator. */
    method Render(active: seq<Task>, archived: seq<Task>) returns (shown: seq<Task>)
      ensures shown == StableSort.Sort(LegacyVisible(active, archived, showArchive, currentCategory), TaskCompare)
      ensures multiset(shown) == multiset(LegacyVisible(active, archived, showArchive, currentCategory))
      ensures StableSort.SortedBy(shown, TaskCompare)
    {
      var category := currentCategory;
      var filtered := if showArchive then archived else active;
      if !showArchive && Truthy(category) {
        filtered := Filter(filtered, (t: Task) => t.category == category);
      }
      var a := new Task[|filtered|](k requires 0 <= k < |filtered| => filtered[k]);
      assert a[..] == filtered;
      StableSort.InsertionSort(a, TaskCompare);
      shown := a[..];
      SortTasksSpec(filtered);
    }
  }
}
