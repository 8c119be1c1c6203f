/**
 * The task handlers: input validation and the GET/POST/PUT/PATCH/DELETE
 * transitions over the shared store. Each handler answers with a status
 * code and a body, or lets an exception from the store escape.
 */
module Routes {
  import opened Wrappers
  import opened Text
  import opened Records
  import opened Store

  const TasksTable := "tasks"

  /** What a handler writes as the response body. */
  datatype Body =
    | Empty
    | One(task: Task)
    | Many(tasks: seq<Task>)
    | Error(code: nat, message: string)

  /** A handler's response, or the exception that escapes it. */
  datatype Outcome = Reply(status: nat, body: Body) | Thrown(error: JsError)

  function NotFound(): Outcome {
    Reply(404, Error(404, "Task Not Found"))
  }

  /** JavaScript truthiness of an optional string: present and not "". */
  predicate Truthy(v: Option<string>) {
    v.Some? && v.value != ""
  }

  /** `title && title.length > 0 ? true : false`: no trimming is done. */
  function ValidateTitle(title: Option<string>): (ok: bool)
    ensures ok <==> title.Some? && |title.value| > 0
  {
    if Truthy(title) && |title.value| > 0 then true else false
  }

  /** `description && description.length > 0 ? true : false`: no trimming is done. */
  function ValidateDescription(description: Option<string>): (ok: bool)
    ensures ok <==> description.Some? && |description.value| > 0
  {
    if Truthy(description) && |description.value| > 0 then true else false
  }

  /** A value made only of white space passes validation; only absence and "" fail. */
  lemma BlankIsValid(s: string)
    requires s != ""
    ensures ValidateTitle(Some(s)) && ValidateDescription(Some(s))
    ensures !ValidateTitle(Some("")) && !ValidateTitle(None)
  {
  }

  /** The search object GET builds from its `search` query parameter. */
  function SearchOf(search: Option<string>): (s: Option<Search>)
    ensures Truthy(search) <==> s.Some?
    ensures s.Some? ==> s.value == [(Title, search.value), (Description, search.value)]
  {
    if Truthy(search) then Some([(Title, search.value), (Description, search.value)]) else None
  }

  /** GET's two search values decode together exactly when the term decodes. */
  lemma DecodeSearch(term: string)
    ensures Decode(term).None? ==> DecodeAll([(Title, term), (Description, term)]).None?
    ensures Decode(term).Some? ==>
      var d := Decode(term).value;
      DecodeAll([(Title, term), (Description, term)]) == Some([(Title, d), (Description, d)])
  {
    var search := [(Title, term), (Description, term)];
    assert search[1..] == [(Description, term)];
    assert search[1..][1..] == [];
    if Decode(term).Some? {
      var d := Decode(term).value;
      assert DecodeAll(search[1..]) == Some([(Description, d)] + []);
      assert [(Title, d)] + ([(Description, d)] + []) == [(Title, d), (Description, d)];
    }
  }

  /** GET's search matches a task when its title or its description contains the term, ignoring case. */
  lemma SearchMatchesTitleOrDescription(t: Task, term: string)
    ensures Matches(t, [(Title, term), (Description, term)]) <==>
      Contains(Lower(t.title), Lower(term)) || Contains(Lower(t.description), Lower(term))
  {
    var terms := [(Title, term), (Description, term)];
    if Contains(Lower(t.title), Lower(term)) {
      assert terms[0] == (Title, term);
    } else if Contains(Lower(t.description), Lower(term)) {
      assert terms[1] == (Description, term);
    }
  }

  /** The task a successful PUT stores: each field replaced only when its new value is valid. */
  function Merge(t: Task, title: Option<string>, description: Option<string>, now: Time): (m: Task)
    ensures m.id == t.id && m.completedAt == t.completedAt && m.createdAt == t.createdAt
    ensures m.updatedAt == now
    ensures ValidateTitle(title) ==> m.title == title.value
    ensures !ValidateTitle(title) ==> m.title == t.title
    ensures ValidateDescription(description) ==> m.description == description.value
    ensures !ValidateDescription(description) ==> m.description == t.description
  {
    t.(title := if ValidateTitle(title) then title.value else t.title,
       description := if ValidateDescription(description) then description.value else t.description,
       updatedAt := now)
  }

  /** The task a PATCH stores: completed_at flipped between null and `now`, nothing else. */
  function Toggle(t: Task, now: Time): (m: Task)
    ensures m.completedAt.None? <==> t.completedAt.Some?
    ensures m.completedAt.Some? ==> m.completedAt.value == now
    ensures m.(completedAt := t.completedAt) == t
  {
    t.(completedAt := if t.completedAt == None then Some(now) else None)
  }

  /** Completing twice from "not completed" gives back the task exactly, updated_at included. */
  lemma ToggleTwice(t: Task, first: Time, second: Time)
    requires t.completedAt.None?
    ensures Toggle(Toggle(t, first), second) == t
  {
  }

  /** The handlers, sharing the one store created when the module loads. */
  class TaskRoutes {
    const database: Database

    ghost predicate Valid()
      reads this, database
    {
      database.Valid()
    }

    constructor (stored: Option<Tables>)
      ensures Valid() && fresh(database)
      ensures stored.Some? ==> database.tables == stored.value
      ensures stored.None? ==> database.tables == map[]
    {
      database := new Database(stored);
    }

    /** The rows of the tasks table; none when it does not exist. */
    function Tasks(): seq<Task>
      reads this, database
    {
      database.Rows(TasksTable)
    }

    /**
     * GET /tasks: all tasks, or, for a non-empty `search`, those whose
     * title or description contains the decoded term, ignoring case.
     */
    method Get(search: Option<string>) returns (o: Outcome)
      ensures !Truthy(search) ==> o == Reply(200, Many(Tasks()))
      ensures Truthy(search) && Decode(search.value).Some? ==>
        o.Reply? && o.status == 200 && o.body.Many? &&
        IsSelection(o.body.tasks, Tasks(), [(Title, Decode(search.value).value), (Description, Decode(search.value).value)])
      ensures Truthy(search) && Decode(search.value).None? ==>
        o == if Tasks() == [] then Reply(200, Many([])) else Thrown(URIError)
    {
      var filter := SearchOf(search);
      if filter.Some? {
        FilterRowsThrows(Tasks(), filter.value);
        DecodeSearch(search.value);
      }
      var tasks := database.Select(TasksTable, filter);
      match tasks
      case Ok(rows) =>
        o := Reply(200, Many(rows));
      case Throw(e) =>
        o := Thrown(e);
    }

    /** POST /tasks: validate the title, then the description, then append the new task. */
    method Post(title: Option<string>, description: Option<string>, id: string, createdAt: Time, updatedAt: Time)
      returns (o: Outcome)
      requires Valid()
      modifies database
      ensures Valid()
      ensures !ValidateTitle(title) ==>
        o == Reply(400, Error(400, "Title is required")) && unchanged(database)
      ensures ValidateTitle(title) && !ValidateDescription(description) ==>
        o == Reply(400, Error(400, "Description is required")) && unchanged(database)
      ensures ValidateTitle(title) && ValidateDescription(description) ==>
        var task := Task(id, title.value, description.value, None, createdAt, updatedAt);
        && o == Reply(201, One(task))
        && database.tables == old(database.tables)[TasksTable := old(Tasks()) + [task]]
        && database.writes == old(database.writes) + 1
        && (IdAbsent(old(Tasks()), id) ==> database.SelectByID(TasksTable, id) == Ok(Some(task)))
        && (IdAbsent(old(Tasks()), id) && UniqueIds(old(Tasks())) ==> UniqueIds(Tasks()))
      ensures NonEmptyFields(old(Tasks())) ==> NonEmptyFields(Tasks())
    {
      if !ValidateTitle(title) {
        return Reply(400, Error(400, "Title is required"));
      }
      if !ValidateDescription(description) {
        return Reply(400, Error(400, "Description is required"));
      }
      var newTask := Task(id, title.value, description.value, None, createdAt, updatedAt);
      if IdAbsent(Tasks(), id) {
        AppendFresh(Tasks(), newTask);
      }
      var _ := database.Insert(TasksTable, newTask);
      o := Reply(201, One(newTask));
    }

    /**
     * PUT /tasks/:id: with at least one valid field, replace the valid
     * fields of the task and refresh updated_at.
     */
    method Put(id: string, title: Option<string>, description: Option<string>, now: Time) returns (o: Outcome)
      requires Valid()
      modifies database
      ensures Valid()
      ensures !ValidateTitle(title) && !ValidateDescription(description) ==>
        o == Reply(400, Error(400, "Title or Description is required")) && unchanged(database)
      ensures (ValidateTitle(title) || ValidateDescription(description)) && TasksTable !in old(database.tables) ==>
        o == Thrown(TypeError) && unchanged(database)
      ensures (ValidateTitle(title) || ValidateDescription(description)) ==>
        TasksTable in old(database.tables) && IdAbsent(old(Tasks()), id) ==>
        o == NotFound() && unchanged(database)
      ensures (ValidateTitle(title) || ValidateDescription(description)) && !IdAbsent(old(Tasks()), id) ==>
        var i := FindIndex(old(Tasks()), id);
        var task := Merge(old(Tasks())[i], title, description, now);
        && o == Reply(200, One(task))
        && database.tables == old(database.tables)[TasksTable := old(Tasks())[i := task]]
        && database.writes == old(database.writes) + 1
        && database.SelectByID(TasksTable, id) == Ok(Some(task))
        && (UniqueIds(old(Tasks())) ==> UniqueIds(Tasks()))
      ensures NonEmptyFields(old(Tasks())) ==> NonEmptyFields(Tasks())
    {
      if !ValidateTitle(title) && !ValidateDescription(description) {
        return Reply(400, Error(400, "Title or Description is required"));
      }
      var found := database.SelectByID(TasksTable, id);
      if found.Throw? {
        return Thrown(found.error);
      }
      if found.value.None? {
        return NotFound();
      }
      var i := FindIndex(Tasks(), id);
      var task := Merge(found.value.value, title, description, now);
      ReplaceFirst(Tasks(), i, task);
      var _ := database.Update(TasksTable, task);
      o := Reply(200, One(task));
    }

    /** PATCH /tasks/:id/complete: flip completed_at; updated_at is left as it was. */
    method Patch(id: string, now: Time) returns (o: Outcome)
      requires Valid()
      modifies database
      ensures Valid()
      ensures TasksTable !in old(database.tables) ==> o == Thrown(TypeError) && unchanged(database)
      ensures TasksTable in old(database.tables) && IdAbsent(old(Tasks()), id) ==>
        o == NotFound() && unchanged(database)
      ensures !IdAbsent(old(Tasks()), id) ==>
        var i := FindIndex(old(Tasks()), id);
        var task := Toggle(old(Tasks())[i], now);
        && o == Reply(200, One(task))
        && database.tables == old(database.tables)[TasksTable := old(Tasks())[i := task]]
        && database.writes == old(database.writes) + 1
        && database.SelectByID(TasksTable, id) == Ok(Some(task))
        && (UniqueIds(old(Tasks())) ==> UniqueIds(Tasks()))
      ensures NonEmptyFields(old(Tasks())) ==> NonEmptyFields(Tasks())
    {
      var found := database.SelectByID(TasksTable, id);
      if found.Throw? {
        return Thrown(found.error);
      }
      if found.value.None? {
        return NotFound();
      }
      var i := FindIndex(Tasks(), id);
      var task := Toggle(found.value.value, now);
      ReplaceFirst(Tasks(), i, task);
      var _ := database.Update(TasksTable, task);
      o := Reply(200, One(task));
    }

    /** DELETE /tasks/:id: 204 when a task was removed, 404 otherwise. */
    method Delete(id: string) returns (o: Outcome)
      requires Valid()
      modifies database
      ensures Valid()
      ensures TasksTable !in old(database.tables) ==> o == Thrown(TypeError) && unchanged(database)
      ensures TasksTable in old(database.tables) && IdAbsent(old(Tasks()), id) ==>
        o == NotFound() && unchanged(database)
      ensures !IdAbsent(old(Tasks()), id) ==>
        var i := FindIndex(old(Tasks()), id);
        && o == Reply(204, Empty)
        && database.tables == old(database.tables)[TasksTable := old(Tasks())[..i] + old(Tasks())[i + 1..]]
        && database.writes == old(database.writes) + 1
        && |Tasks()| == |old(Tasks())| - 1
        && (UniqueIds(old(Tasks())) ==>
              database.SelectByID(TasksTable, id) == Ok(None) && UniqueIds(Tasks()))
      ensures NonEmptyFields(old(Tasks())) ==> NonEmptyFields(Tasks())
    {
      ghost var rows := Tasks();
      var removed := database.Delete(TasksTable, id);
      match removed
      case Throw(e) =>
        o := Thrown(e);
      case Ok(true) =>
        ghost var i := FindIndex(rows, id);
        assert Tasks() == rows[..i] + rows[i + 1..];
        if UniqueIds(rows) {
          RemoveFirst(rows, i, id);
        }
        if NonEmptyFields(rows) {
          RemoveKeepsNonEmpty(rows, i);
        }
        o := Reply(204, Empty);
      case Ok(false) =>
        o := NotFound();
    }
  }
}
