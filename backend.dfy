/** The Flask backend `app.py`: three module-level lists (`tasks`,
    `archived_tasks`, `categories`) that the route handlers change in place.
    Persistence to the JSON files is not modelled; each handler's reply is
    its HTTP status. */
module Backend {
  import opened Common

  /** A stored task. `category` is null when a client sent null; the
      backend never interprets `datetime`, so it stays a string.
      `parentId` is the `parent_id` key the views send: the backend stores
      it as given (absent, null, a number or the id as text) without
      reading it. */
  datatype Task = Task(id: int, text: string, completed: bool, description: string,
                       category: Option<string>, datetime: Option<string>,
                       parentId: Field<Option<IdRef>>)

  datatype Status = Ok | Created | BadRequest | NotFound

  /** The category given when there are no categories at all. */
  const NoCategory: string := "Без категории"

  // ---------------------------------------------------------------------
  // Fresh ids
  // ---------------------------------------------------------------------

  /** `max([t['id'] for t in tasks], default=0)`. */
  function MaxId(tasks: seq<Task>): int
  {
    if tasks == [] then 0
    else if |tasks| == 1 then tasks[0].id
    else
      var m := MaxId(tasks[1..]);
      if tasks[0].id > m then tasks[0].id else m
  }

  /** The id `add_task` assigns. */
  function NextId(tasks: seq<Task>): int
  {
    MaxId(tasks) + 1
  }

  /** The new id is larger than every existing id; it is 1 for an empty
      list and otherwise one more than an existing id. */
  lemma {:induction false} NextIdFresh(tasks: seq<Task>)
    ensures forall k :: 0 <= k < |tasks| ==> tasks[k].id < NextId(tasks)
    ensures tasks == [] ==> NextId(tasks) == 1
    ensures tasks != [] ==> exists k :: 0 <= k < |tasks| && tasks[k].id + 1 == NextId(tasks)
  {
    if |tasks| == 1 {
      assert tasks[0].id + 1 == NextId(tasks);
    } else if |tasks| > 1 {
      NextIdFresh(tasks[1..]);
      var m := MaxId(tasks[1..]);
      var j :| 0 <= j < |tasks[1..]| && tasks[1..][j].id + 1 == m + 1;
      assert tasks[j + 1].id == m;
      forall k | 1 <= k < |tasks|
        ensures tasks[k].id < NextId(tasks)
      {
        assert tasks[k] == tasks[1..][k - 1];
      }
      if tasks[0].id > m {
        assert tasks[0].id + 1 == NextId(tasks);
      } else {
        assert tasks[j + 1].id + 1 == NextId(tasks);
      }
    }
  }

  // ---------------------------------------------------------------------
  // Adding and updating tasks
  // ---------------------------------------------------------------------

  /** The JSON body of `POST /api/tasks`; `Absent` is a missing key. */
  datatype NewTaskRequest = NewTaskRequest(
    text: Field<string>,
    completed: Field<bool>,
    description: Field<string>,
    category: Field<Option<string>>,
    datetime: Field<Option<string>>,
    parentId: Field<Option<IdRef>>)

  /** `not task or not task.get('text')`: a missing body or an absent or
      empty text is refused. */
  predicate Refused(body: Option<NewTaskRequest>)
  {
    body.None? || body.value.text.Absent? || body.value.text.value == ""
  }

  /** `add_task`'s `setdefault` calls, stated per key: the fresh id; the text
      as given; not completed, no description and no date unless given;
      the category as given (even null) or the first category, and
      'Без категории' whenever there are no categories; the parent id kept
      exactly as sent. */
  predicate NewTaskDefaults(req: NewTaskRequest, t: Task, id: int, categories: seq<string>)
  {
    && t.id == id
    && (req.text.Present? ==> t.text == req.text.value)
    && (if req.completed.Present? then t.completed == req.completed.value else !t.completed)
    && (if req.description.Present? then t.description == req.description.value else t.description == "")
    && (if req.datetime.Present? then t.datetime == req.datetime.value else t.datetime.None?)
    && (categories == [] ==> t.category == Some(NoCategory))
    && (categories != [] && req.category.Absent? ==> t.category == Some(categories[0]))
    && (categories != [] && req.category.Present? ==> t.category == req.category.value)
    && t.parentId == req.parentId
  }

  /** The stored task: the request with its defaults filled in. */
  function NewTask(req: NewTaskRequest, id: int, categories: seq<string>): Task
  {
    Task(id,
         Get(req.text, ""),
         Get(req.completed, false),
         Get(req.description, ""),
         if categories != [] then Get(req.category, Some(categories[0])) else Some(NoCategory),
         Get(req.datetime, None),
         req.parentId)
  }

  /** The body of `PUT /api/tasks/<id>`: the keys it carries overwrite the
      task's (`dict.update`), including `id`. */
  datatype Patch = Patch(
    id: Field<int>,
    text: Field<string>,
    completed: Field<bool>,
    description: Field<string>,
    category: Field<Option<string>>,
    datetime: Field<Option<string>>,
    parentId: Field<Option<IdRef>>)

  function Merge(t: Task, p: Patch): Task
  {
    Task(Get(p.id, t.id), Get(p.text, t.text), Get(p.completed, t.completed),
         Get(p.description, t.description), Get(p.category, t.category), Get(p.datetime, t.datetime),
         if p.parentId.Present? then p.parentId else t.parentId)
  }

  /** Merging the same payload twice is merging it once, and an empty
      payload changes nothing. */
  lemma {:induction false} MergeIdempotent(t: Task, p: Patch)
    ensures Merge(Merge(t, p), p) == Merge(t, p)
    ensures Merge(t, Patch(Absent, Absent, Absent, Absent, Absent, Absent, Absent)) == t
  {
  }

  /** The index of the first task with the id, or -1. */
  function IndexOfId(tasks: seq<Task>, id: int): (i: int)
    ensures -1 <= i < |tasks|
    ensures i == -1 <==> forall k :: 0 <= k < |tasks| ==> tasks[k].id != id
    ensures i >= 0 ==> tasks[i].id == id && forall k :: 0 <= k < i ==> tasks[k].id != id
  {
    if tasks == [] then -1
    else if tasks[0].id == id then 0
    else
      var j := IndexOfId(tasks[1..], id);
      assert forall k :: 1 <= k < |tasks| ==> tasks[k] == tasks[1..][k - 1];
      if j == -1 then -1 else j + 1
  }

  // ---------------------------------------------------------------------
  // Filters used by delete and archive
  // ---------------------------------------------------------------------

  /** `[t for t in tasks if t['id'] != task_id]`. */
  function WithoutId(tasks: seq<Task>, id: int): (r: seq<Task>)
    ensures forall k :: 0 <= k < |r| ==> r[k] in tasks && r[k].id != id
    ensures forall k :: 0 <= k < |tasks| && tasks[k].id != id ==> tasks[k] in r
  {
    Filter(tasks, (t: Task) => t.id != id)
  }

  /** Deleting is idempotent, and deleting an id nobody has changes
      nothing. */
  lemma {:induction false} WithoutIdSpec(tasks: seq<Task>, id: int)
    ensures WithoutId(WithoutId(tasks, id), id) == WithoutId(tasks, id)
    ensures (forall k :: 0 <= k < |tasks| ==> tasks[k].id != id) ==> WithoutId(tasks, id) == tasks
  {
    FilterAll(WithoutId(tasks, id), (t: Task) => t.id != id);
    if forall k :: 0 <= k < |tasks| ==> tasks[k].id != id {
      FilterAll(tasks, (t: Task) => t.id != id);
    }
  }

  function Completed(tasks: seq<Task>): (r: seq<Task>)
    ensures forall k :: 0 <= k < |r| ==> r[k] in tasks && r[k].completed
  {
    Filter(tasks, (t: Task) => t.completed)
  }

  function Incomplete(tasks: seq<Task>): (r: seq<Task>)
    ensures forall k :: 0 <= k < |r| ==> r[k] in tasks && !r[k].completed
  {
    Filter(tasks, (t: Task) => !t.completed)
  }

  /** Archiving splits the active list into the incomplete tasks, which
      stay, and the completed ones, which are appended to the archive: no
      task is lost or duplicated, and a second archive moves nothing. */
  lemma {:induction false} ArchiveSpec(tasks: seq<Task>, archived: seq<Task>)
    ensures multiset(Incomplete(tasks)) + multiset(archived + Completed(tasks)) == multiset(tasks) + multiset(archived)
    ensures |Incomplete(tasks)| + |archived + Completed(tasks)| == |tasks| + |archived|
    ensures Completed(Incomplete(tasks)) == []
    ensures Incomplete(Incomplete(tasks)) == Incomplete(tasks)
  {
    var done := (t: Task) => t.completed;
    var open := (t: Task) => !t.completed;
    FilterPartition(tasks, done, open);
    FilterNone(Incomplete(tasks), done);
    FilterAll(Incomplete(tasks), open);
  }

  // ---------------------------------------------------------------------
  // Categories
  // ---------------------------------------------------------------------

  /** `list.remove(x)`: drops the first occurrence. */
  function RemoveFirst(s: seq<string>, x: string): (r: seq<string>)
    requires x in s
    ensures |r| == |s| - 1
  {
    if s[0] == x then s[1..]
    else
      assert x in s[1..] by {
        var k :| 0 <= k < |s| && s[k] == x;
        assert s[1..][k - 1] == x;
      }
      [s[0]] + RemoveFirst(s[1..], x)
  }

  /** Removing cuts the list at the first occurrence and keeps the order of
      the rest. */
  lemma {:induction false} RemoveFirstCuts(s: seq<string>, x: string, i: int)
    requires 0 <= i < |s| && s[i] == x && x !in s[..i]
    ensures RemoveFirst(s, x) == s[..i] + s[i + 1..]
  {
    if i > 0 {
      assert s[0] == s[..i][0];
      assert s[1..][..i - 1] == s[1..i];
      assert x !in s[1..][..i - 1];
      RemoveFirstCuts(s[1..], x, i - 1);
      assert s[..i] == [s[0]] + s[1..][..i - 1];
      assert s[i + 1..] == s[1..][i..];
    }
  }

  /** Removing takes away exactly one copy of `x`. */
  lemma {:induction false} RemoveFirstMultiset(s: seq<string>, x: string)
    requires x in s
    ensures multiset(RemoveFirst(s, x)) == multiset(s) - multiset{x}
  {
    assert s == [s[0]] + s[1..];
    if s[0] != x {
      assert x in s[1..];
      RemoveFirstMultiset(s[1..], x);
    }
  }

  /** The index of the first occurrence of `x`. */
  function FirstIndex(s: seq<string>, x: string): (i: nat)
    requires x in s
    ensures i < |s| && s[i] == x && x !in s[..i]
  {
    if s[0] == x then 0
    else
      assert x in s[1..] by {
        var k :| 0 <= k < |s| && s[k] == x;
        assert s[1..][k - 1] == x;
      }
      var j := FirstIndex(s[1..], x);
      assert s[..j + 1] == [s[0]] + s[1..][..j];
      j + 1
  }

  /** Deleting a category removes one copy of it, at its first position,
      and keeps the others in order. */
  lemma {:induction false} RemoveFirstSpec(s: seq<string>, x: string)
    requires x in s
    ensures RemoveFirst(s, x) == s[..FirstIndex(s, x)] + s[FirstIndex(s, x) + 1..]
    ensures multiset(RemoveFirst(s, x)) == multiset(s) - multiset{x}
  {
    RemoveFirstCuts(s, x, FirstIndex(s, x));
    RemoveFirstMultiset(s, x);
  }

  /** Does an active task use the category? */
  predicate InUse(tasks: seq<Task>, name: string)
  {
    exists k :: 0 <= k < |tasks| && tasks[k].category == Some(name)
  }

  // ---------------------------------------------------------------------
  // Bulk upload
  // ---------------------------------------------------------------------

  /** One element of an uploaded JSON file. */
  datatype UploadItem = UploadItem(
    id: Field<int>,
    text: Field<string>,
    category: Field<Option<string>>,
    datetime: Field<Option<string>>,
    description: Field<string>,
    completed: Field<bool>)

  /** The category an uploaded task gets: its own if it names an existing
      category, else the first category, else 'Без категории'. */
  function UploadCategory(c: Field<Option<string>>, categories: seq<string>): string
  {
    if categories != [] && c.Present? && c.value.Some? && c.value.value in categories then c.value.value
    else if categories != [] then categories[0]
    else NoCategory
  }

  function UploadTask(item: UploadItem, defaultId: int, categories: seq<string>): Task
  {
    Task(Get(item.id, defaultId), Get(item.text, ""), Get(item.completed, false),
         Get(item.description, ""), Some(UploadCategory(item.category, categories)),
         Get(item.datetime, None), Absent)
  }

  /** The uploaded list replacing `tasks`; the default id is computed once
      from the list being replaced. */
  function UploadedTasks(items: seq<UploadItem>, old_tasks: seq<Task>, categories: seq<string>): (r: seq<Task>)
    ensures |r| == |items|
    ensures forall k :: 0 <= k < |r| ==> r[k].parentId.Absent?
  {
    seq(|items|, k requires 0 <= k < |items| => UploadTask(items[k], NextId(old_tasks), categories))
  }

  /** Every uploaded task lands in an existing category (or 'Без категории'
      when there are none), and every uploaded task without an id gets the
      same id, one more than the largest id of the replaced list. The other
      keys are kept when given and default to an empty text and
      description, not completed and no date. */
  lemma {:induction false} UploadSpec(items: seq<UploadItem>, old_tasks: seq<Task>, categories: seq<string>)
    ensures var r := UploadedTasks(items, old_tasks, categories);
      && (forall k :: 0 <= k < |r| ==> r[k].category.Some?)
      && (categories != [] ==> forall k :: 0 <= k < |r| ==> r[k].category.value in categories)
      && (categories == [] ==> forall k :: 0 <= k < |r| ==> r[k].category == Some(NoCategory))
      && (forall j, k :: 0 <= j < |r| && 0 <= k < |r| && items[j].id.Absent? && items[k].id.Absent?
            ==> r[j].id == r[k].id == NextId(old_tasks))
      && (forall k :: 0 <= k < |r| ==>
            && (items[k].id.Present? ==> r[k].id == items[k].id.value)
            && (items[k].text.Present? ==> r[k].text == items[k].text.value)
            && (items[k].text.Absent? ==> r[k].text == "")
            && (items[k].description.Present? ==> r[k].description == items[k].description.value)
            && (items[k].description.Absent? ==> r[k].description == "")
            && (items[k].completed.Present? ==> r[k].completed == items[k].completed.value)
            && (items[k].completed.Absent? ==> !r[k].completed)
            && (items[k].datetime.Present? ==> r[k].datetime == items[k].datetime.value)
            && (items[k].datetime.Absent? ==> r[k].datetime.None?))
  {
  }

  // ---------------------------------------------------------------------
  // The store
  // ---------------------------------------------------------------------

  class Store {
    var tasks: seq<Task>
    var archived: seq<Task>
    var categories: seq<string>

    /** The lists as loaded when no data file exists yet. */
    constructor()
      ensures tasks == [] && archived == []
      ensures categories == ["Работа", "Личное", "Покупки"]
    {
      tasks := [];
      archived := [];
      categories := ["Работа", "Личное", "Покупки"];
    }

    /** `POST /api/tasks`. */
    method AddTask(body: Option<NewTaskRequest>) returns (status: Status, created: Option<Task>)
      modifies this
      ensures Refused(body) ==> status == BadRequest && created.None? && tasks == old(tasks)
      ensures !Refused(body) ==>
        && status == Created
        && created == Some(NewTask(body.value, NextId(old(tasks)), categories))
        && tasks == old(tasks) + [created.value]
      ensures !Refused(body) ==> NewTaskDefaults(body.value, created.value, NextId(old(tasks)), categories)
      ensures archived == old(archived) && categories == old(categories)
    {
      if Refused(body) {
        return BadRequest, None;
      }
      var t := NewTask(body.value, NextId(tasks), categories);
      tasks := tasks + [t];
      return Created, Some(t);
    }

    /** `PUT /api/tasks/<id>`: the loop over `tasks` that updates the first
      task with the id. */
    method UpdateTask(id: int, patch: Patch) returns (status: Status)
      modifies this
      ensures IndexOfId(old(tasks), id) == -1 ==> status == NotFound && tasks == old(tasks)
      ensures IndexOfId(old(tasks), id) >= 0 ==>
        var i := IndexOfId(old(tasks), id);
        status == Ok && tasks == old(tasks)[i := Merge(old(tasks)[i], patch)]
      ensures archived == old(archived) && categories == old(categories)
    {
      var i := 0;
      while i < |tasks|
        invariant 0 <= i <= |tasks|
        invariant forall k :: 0 <= k < i ==> tasks[k].id != id
      {
        if tasks[i].id == id {
          tasks := tasks[i := Merge(tasks[i], patch)];
          return Ok;
        }
        i := i + 1;
      }
      return NotFound;
    }

    /** `DELETE /api/tasks/<id>`: always succeeds. */
    method DeleteTask(id: int) returns (status: Status)
      modifies this
      ensures status == Ok && tasks == WithoutId(old(tasks), id)
      ensures archived == old(archived) && categories == old(categories)
    {
      tasks := WithoutId(tasks, id);
      return Ok;
    }

    /** `DELETE /api/archive/<id>`: the same on the archive. */
    method DeleteArchivedTask(id: int) returns (status: Status)
      modifies this
      ensures status == Ok && archived == WithoutId(old(archived), id)
      ensures tasks == old(tasks) && categories == old(categories)
    {
      archived := WithoutId(archived, id);
      return Ok;
    }

    /** `POST /api/archive`. */
    method ArchiveCompleted() returns (status: Status)
      modifies this
      ensures status == Ok
      ensures tasks == Incomplete(old(tasks))
      ensures archived == old(archived) + Completed(old(tasks))
      ensures categories == old(categories)
    {
      var done := Completed(tasks);
      tasks := Incomplete(tasks);
      archived := archived + done;
      return Ok;
    }

    /** `POST /api/categories`: a missing, null or empty name and a
      duplicate are refused; otherwise the name is appended. */
    method AddCategory(name: Option<string>) returns (status: Status)
      modifies this
      ensures (name.None? || name.value == "" || name.value in old(categories)) ==>
        status == BadRequest && categories == old(categories)
      ensures !(name.None? || name.value == "" || name.value in old(categories)) ==>
        status == Created && categories == old(categories) + [name.value]
      ensures tasks == old(tasks) && archived == old(archived)
    {
      if name.None? || name.value == "" {
        return BadRequest;
      }
      if name.value in categories {
        return BadRequest;
      }
      categories := categories + [name.value];
      return Created;
    }

    /** `DELETE /api/categories/<name>`: refused while an active task uses
      it, 404 for an unknown name, otherwise the first occurrence goes. */
    method DeleteCategory(name: string) returns (status: Status)
      modifies this
      ensures InUse(old(tasks), name) ==> status == BadRequest && categories == old(categories)
      ensures !InUse(old(tasks), name) && name !in old(categories) ==>
        status == NotFound && categories == old(categories)
      ensures !InUse(old(tasks), name) && name in old(categories) ==>
        status == Ok && categories == RemoveFirst(old(categories), name)
      ensures tasks == old(tasks) && archived == old(archived)
    {
      if InUse(tasks, name) {
        return BadRequest;
      }
      if name in categories {
        categories := RemoveFirst(categories, name);
        return Ok;
      }
      return NotFound;
    }

    /** `POST /api/categories/reorder`: a missing, non-list or empty payload
      is refused; any other list replaces the categories, unchecked. */
    method ReorderCategories(newOrder: Option<seq<string>>) returns (status: Status)
      modifies this
      ensures (newOrder.None? || newOrder.value == []) ==> status == BadRequest && categories == old(categories)
      ensures newOrder.Some? && newOrder.value != [] ==> status == Ok && categories == newOrder.value
      ensures tasks == old(tasks) && archived == old(archived)
    {
      if newOrder.None? || newOrder.value == [] {
        return BadRequest;
      }
      categories := newOrder.value;
      return Ok;
    }

    /** `POST /api/tasks/upload`: a missing file or a file that is not a
      JSON list is refused; otherwise the uploaded tasks replace `tasks`. */
    method UploadTasks(items: Option<seq<UploadItem>>) returns (status: Status)
      modifies this
      ensures items.None? ==> status == BadRequest && tasks == old(tasks)
      ensures items.Some? ==> status == Ok && tasks == UploadedTasks(items.value, old(tasks), categories)
      ensures archived == old(archived) && categories == old(categories)
    {
      if items.None? {
        return BadRequest;
      }
      tasks := UploadedTasks(items.value, tasks, categories);
      return Ok;
    }
  }

  /** A successful add gives the new task an id no other task has, so the
      ids stay distinct when they were. */
  lemma {:induction false} AddKeepsIdsDistinct(tasks: seq<Task>, req: NewTaskRequest, categories: seq<string>)
    requires forall i, j :: 0 <= i < j < |tasks| ==> tasks[i].id != tasks[j].id
    ensures var r := tasks + [NewTask(req, NextId(tasks), categories)];
      forall i, j :: 0 <= i < j < |r| ==> r[i].id != r[j].id
  {
    NextIdFresh(tasks);
  }

  /** An update touches only the first task with the id. */
  lemma {:induction false} UpdateTouchesOne(tasks: seq<Task>, id: int, patch: Patch)
    requires IndexOfId(tasks, id) >= 0
    ensures var i := IndexOfId(tasks, id);
      var r := tasks[i := Merge(tasks[i], patch)];
      && |r| == |tasks|
      && (forall k :: 0 <= k < |tasks| && k != i ==> r[k] == tasks[k])
      && (forall k :: 0 <= k < i ==> r[k].id != id)
  {
  }
}
