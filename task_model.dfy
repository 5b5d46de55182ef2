/** A task as the browser views see it after `fetch('/api/tasks')`, and the
    pure pieces of `renderTasks` that both views (`modules/tasks.js` and the
    older `script.js`) share: the three-key sort comparator, child lookup,
    dependency labels and the rendered task tree. Timestamps are integer
    milliseconds; `None` stands for a missing, null or empty `datetime`. */
module TaskModel {
  import opened Common
  import StableSort

  datatype Task = Task(
    id: int,
    text: string,
    completed: bool,
    category: Option<string>,
    datetime: Option<int>,
    parentId: Option<IdRef>,
    dependencies: seq<int>)

  // ---------------------------------------------------------------------
  // The sort comparator
  // ---------------------------------------------------------------------

  /** Incomplete tasks first, then dated before undated, then earlier
      before later; two undated tasks of the same completion tie. */
  function TaskCompare(a: Task, b: Task): int
  {
    if a.completed != b.completed then (if a.completed then 1 else -1)
    else if a.datetime.None? && b.datetime.None? then 0
    else if a.datetime.None? then 1
    else if b.datetime.None? then -1
    else a.datetime.value - b.datetime.value
  }

  /** The comparator is a valid `Array.prototype.sort` comparator: its signs
      are consistent and "not after" is transitive. */
  lemma {:induction false} TaskCompareIsComparator()
    ensures StableSort.IsComparator(TaskCompare)
  {
    forall a: Task, b: Task, c: Task | TaskCompare(a, b) <= 0 && TaskCompare(b, c) <= 0
      ensures TaskCompare(a, c) <= 0
    {
    }
  }

  /** What a list sorted by the comparator looks like: no completed task
      before an incomplete one; among tasks of equal completion no undated
      task before a dated one, and dated tasks in ascending time. */
  lemma {:induction false} SortedTaskOrder(s: seq<Task>, i: int, j: int)
    requires StableSort.SortedBy(s, TaskCompare)
    requires 0 <= i < j < |s|
    ensures s[i].completed ==> s[j].completed
    ensures s[i].completed == s[j].completed && s[i].datetime.None? ==> s[j].datetime.None?
    ensures s[i].completed == s[j].completed && s[i].datetime.Some? && s[j].datetime.Some?
      ==> s[i].datetime.value <= s[j].datetime.value
  {
    assert TaskCompare(s[i], s[j]) <= 0;
  }

  /** Sorting the shown list: a permutation of it, ordered as above. */
  lemma {:induction false} SortTasksSpec(s: seq<Task>)
    ensures multiset(StableSort.Sort(s, TaskCompare)) == multiset(s)
    ensures StableSort.SortedBy(StableSort.Sort(s, TaskCompare), TaskCompare)
  {
    StableSort.SortPermutes(s, TaskCompare);
    TaskCompareIsComparator();
    StableSort.SortIsSorted(s, TaskCompare);
  }

  // ---------------------------------------------------------------------
  // Children, dependency labels, parent candidates
  // ---------------------------------------------------------------------

  /** `t.parent_id === task.id`: only a numeric parent id equal to the id
      matches; the same id as text does not. */
  predicate IsChildOf(t: Task, id: int)
  {
    t.parentId == Some(NumId(id))
  }

  /** `tasks.filter(t => t.parent_id === task.id)` over the active list. */
  function Children(all: seq<Task>, id: int): (r: seq<Task>)
    ensures forall k :: 0 <= k < |r| ==> r[k] in all && r[k].parentId == Some(NumId(id))
    ensures forall k :: 0 <= k < |all| && all[k].parentId == Some(NumId(id)) ==> all[k] in r
  {
    Filter(all, (t: Task) => IsChildOf(t, id))
  }

  /** `tasks.find(t => t.id === id)`: the first task with the id. */
  function Find(all: seq<Task>, id: int): (r: Option<Task>)
    ensures r.Some? <==> exists k :: 0 <= k < |all| && all[k].id == id
    ensures r.Some? ==> r.value in all && r.value.id == id
  {
    if all == [] then None
    else if all[0].id == id then Some(all[0])
    else
      var rest := Find(all[1..], id);
      assert forall k :: 1 <= k < |all| ==> all[k] == all[1..][k - 1];
      rest
  }

  /** The label shown for one dependency id. */
  function DependencyName(all: seq<Task>, depId: int): string
  {
    match Find(all, depId)
    case Some(t) => t.text
    case None => "ID " + IntToString(depId)
  }

  function DependencyNames(all: seq<Task>, deps: seq<int>): (r: seq<string>)
    ensures |r| == |deps|
    ensures forall k :: 0 <= k < |deps| ==> r[k] == DependencyName(all, deps[k])
  {
    if deps == [] then [] else [DependencyName(all, deps[0])] + DependencyNames(all, deps[1..])
  }

  /** The "Зависит от" line: the names joined by ", ". */
  function DependencyLabel(all: seq<Task>, deps: seq<int>): string
  {
    Join(DependencyNames(all, deps), ", ")
  }

  /** No dependencies give an empty label; one dependency gives its name
      alone; otherwise the first name, ", " and the label of the rest.
      A dependency id no active task has is labelled `ID <id>`. */
  lemma {:induction false} DependencyLabelSpec(all: seq<Task>, deps: seq<int>)
    ensures deps == [] ==> DependencyLabel(all, deps) == ""
    ensures |deps| == 1 ==> DependencyLabel(all, deps) == DependencyName(all, deps[0])
    ensures |deps| > 1 ==>
      DependencyLabel(all, deps) == DependencyName(all, deps[0]) + ", " + DependencyLabel(all, deps[1..])
    ensures forall d :: (forall k :: 0 <= k < |all| ==> all[k].id != d) ==>
      DependencyName(all, d) == "ID " + IntToString(d)
    ensures forall d, k ::
      0 <= k < |all| && all[k].id == d && (forall m :: 0 <= m < k ==> all[m].id != d) ==>
        DependencyName(all, d) == all[k].text
  {
    forall d, k | 0 <= k < |all| && all[k].id == d && (forall m :: 0 <= m < k ==> all[m].id != d)
      ensures DependencyName(all, d) == all[k].text
    {
      FindFirst(all, d, k);
    }
  }

  /** `Find` returns the first task carrying the id. */
  lemma {:induction false} FindFirst(all: seq<Task>, id: int, k: int)
    requires 0 <= k < |all| && all[k].id == id
    requires forall m :: 0 <= m < k ==> all[m].id != id
    ensures Find(all, id) == Some(all[k])
  {
    if k > 0 {
      FindFirst(all[1..], id, k - 1);
    }
  }

  /** The tasks offered as a parent in the edit dialog: top-level tasks
      other than the one being edited, in list order. */
  function ParentCandidates(all: seq<Task>, editedId: int): (r: seq<Task>)
    ensures forall k :: 0 <= k < |r| ==> r[k] in all && r[k].parentId.None? && r[k].id != editedId
    ensures forall k :: 0 <= k < |all| && all[k].parentId.None? && all[k].id != editedId ==> all[k] in r
  {
    Filter(all, (t: Task) => t.parentId.None? && t.id != editedId)
  }

  /** `t.id === task.parent_id`: the option of `candidate` is marked
      `selected` in the edit dialog of `edited`. */
  predicate ParentSelected(candidate: Task, edited: Task)
  {
    edited.parentId == Some(NumId(candidate.id))
  }

  // ---------------------------------------------------------------------
  // Parent ids sent as text
  // ---------------------------------------------------------------------

  /** As written, a parent id held as text never matches. Both ways the
      modular view sets a parent send text: the edit dialog posts the
      `<select>` value (`static/js/modules/tasks.js:114`) and the subtask
      form posts `dataset.id` (`static/js/modules/subtasks.js:255`). Such a
      task is not rendered under its parent, and its parent is not
      preselected when it is edited again. */
  lemma TextParentNotNested(all: seq<Task>, parent: Task, child: Task)
    requires child.parentId == Some(TextId(IntToString(parent.id)))
    ensures child !in Children(all, parent.id)
    ensures !ParentSelected(parent, child)
  {
  }

  /** A parent id names task `id` when it is the number or its decimal text. */
  predicate RefersTo(r: IdRef, id: int)
  {
    r == NumId(id) || r == TextId(IntToString(id))
  }

  predicate IsChildOfIntended(t: Task, id: int)
  {
    t.parentId.Some? && RefersTo(t.parentId.value, id)
  }

  /** The children as evidently intended: every task whose parent id names
      `id`, as a number or as text, in list order. */
  function ChildrenIntended(all: seq<Task>, id: int): (r: seq<Task>)
    ensures forall k :: 0 <= k < |r| ==> r[k] in all && IsChildOfIntended(r[k], id)
    ensures forall k :: 0 <= k < |all| && IsChildOfIntended(all[k], id) ==> all[k] in r
  {
    Filter(all, (t: Task) => IsChildOfIntended(t, id))
  }

  /** A parent id names at most one task id, so a task nests under one
      parent only. */
  lemma {:induction false} OneParent(t: Task, a: int, b: int)
    requires IsChildOfIntended(t, a) && IsChildOfIntended(t, b)
    ensures a == b
  {
    if t.parentId.value.TextId? {
      IntToStringInjective(a, b);
    }
  }

  /** The intended children keep every child the strict comparison finds,
      add the ones whose parent id is text, and are the same list when
      every parent id is a number. */
  lemma {:induction false} ChildrenIntendedSpec(all: seq<Task>, id: int)
    ensures forall k :: 0 <= k < |Children(all, id)| ==> Children(all, id)[k] in ChildrenIntended(all, id)
    ensures forall k :: 0 <= k < |all| && all[k].parentId == Some(TextId(IntToString(id))) ==>
      all[k] in ChildrenIntended(all, id)
    ensures (forall k :: 0 <= k < |all| ==> all[k].parentId.None? || all[k].parentId.value.NumId?) ==>
      ChildrenIntended(all, id) == Children(all, id)
  {
    if forall k :: 0 <= k < |all| ==> all[k].parentId.None? || all[k].parentId.value.NumId? {
      FilterSame(all, (t: Task) => IsChildOfIntended(t, id), (t: Task) => IsChildOf(t, id));
    }
  }

  /** Task 4 saved with parent id "3" under task 3: the strict comparison
      leaves task 3 without children, the intended one nests task 4. */
  lemma TextParentExample()
    ensures var parent := Task(3, "a", false, None, None, None, []);
      var child := Task(4, "b", false, None, None, Some(TextId("3")), []);
      Children([parent, child], 3) == [] && ChildrenIntended([parent, child], 3) == [child]
  {
    var parent := Task(3, "a", false, None, None, None, []);
    var child := Task(4, "b", false, None, None, Some(TextId("3")), []);
    assert IntToString(3) == "3";
    FilterCons(parent, [child], (t: Task) => IsChildOf(t, 3));
    FilterCons(parent, [child], (t: Task) => IsChildOfIntended(t, 3));
    assert [parent, child] == [parent] + [child];
  }

  // ---------------------------------------------------------------------
  // The rendered tree
  // ---------------------------------------------------------------------

  /** One rendered `<li>`: the task, its nesting level (the left margin is
      `level * 20` px), its dependency label and its rendered children. */
  datatype Node = Node(task: Task, level: nat, dependsOn: string, subtasks: seq<Node>)

  /** `renderTask(task, level)`. The source has no cycle guard; `fuel`
      bounds the depth of the recursion. */
  function RenderTask(all: seq<Task>, t: Task, level: nat, fuel: nat): (n: Node)
    ensures n.task == t && n.level == level
    ensures n.dependsOn == DependencyLabel(all, t.dependencies)
    ensures fuel > 0 ==> |n.subtasks| == |Children(all, t.id)|
    ensures fuel > 0 ==> forall k :: 0 <= k < |n.subtasks| ==>
      n.subtasks[k].task == Children(all, t.id)[k] && n.subtasks[k].level == level + 1
    decreases fuel
  {
    if fuel == 0 then Node(t, level, DependencyLabel(all, t.dependencies), [])
    else
      var kids := Children(all, t.id);
      Node(t, level, DependencyLabel(all, t.dependencies),
           seq(|kids|, k requires 0 <= k < |kids| => RenderTask(all, kids[k], level + 1, fuel - 1)))
  }

  /** `filteredTasks.map(task => renderTask(task))`: every shown task is a
      top-level item, whether or not it also appears as somebody's child. */
  function RenderList(all: seq<Task>, shown: seq<Task>): (r: seq<Node>)
    ensures |r| == |shown|
    ensures forall k :: 0 <= k < |r| ==> r[k].task == shown[k] && r[k].level == 0
  {
    seq(|shown|, k requires 0 <= k < |shown| => RenderTask(all, shown[k], 0, |all|))
  }

  /** A task that is shown and is also a child of a shown task appears
      twice: once at level 0 and once one level below its parent. */
  lemma {:induction false} ChildShownTwice(all: seq<Task>, shown: seq<Task>, p: int, c: int)
    requires |all| > 0
    requires 0 <= p < |shown| && 0 <= c < |shown|
    requires shown[c] in all && shown[c].parentId == Some(NumId(shown[p].id))
    ensures var r := RenderList(all, shown);
      r[c].task == shown[c] && r[c].level == 0
      && exists k :: 0 <= k < |r[p].subtasks| && r[p].subtasks[k].task == shown[c] && r[p].subtasks[k].level == 1
  {
    var r := RenderList(all, shown);
    var kids := Children(all, shown[p].id);
    var m :| 0 <= m < |all| && all[m] == shown[c];
    assert shown[c] in kids;
    var k :| 0 <= k < |kids| && kids[k] == shown[c];
    assert r[p].subtasks[k].task == shown[c];
  }
}
