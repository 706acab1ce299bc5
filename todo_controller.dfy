/**
 * The request handlers.  Each one ends in exactly one of two ways: it sends
 * one JSON response (status and body), or it hands the storage fault to the
 * process-wide error handler and sends nothing itself.  The service layer
 * in between forwards every call unchanged, so the handlers here call the
 * table directly.
 */
module TodoController {
  import opened Wrappers
  import opened Todos
  import opened Text
  import opened TodoModel

  /** The JSON bodies a handler sends. */
  datatype Body =
    | Item(todo: Todo)
    | Items(todos: seq<Todo>)
    | ErrorMessage(error: string)
    | Notice(message: string)

  datatype Response = Response(status: int, body: Body)

  /** Either one response, or the fault passed to `next(err)`. */
  datatype Outcome = Responded(response: Response) | Forwarded(fault: Fault)

  /** The fields of a create request body; `None` is a field that is absent or null. */
  datatype CreateBody = CreateBody(title: Option<string>, priority: Option<string>)

  const NotFound: Response := Response(404, ErrorMessage("Todo not found"))
  const TitleRequired: Response := Response(400, ErrorMessage("Title is required"))
  const DeletedNotice: Response := Response(200, Notice("Todo deleted successfully"))

  /**
   * The check `!title || !title.trim()`: a title is accepted exactly when it
   * is present and holds a character other than whitespace, and the
   * accepted title is the trimmed one.
   */
  function CheckTitle(title: Option<string>): (r: Option<string>)
    ensures r.Some? <==> title.Some? && exists i :: 0 <= i < |title.value| && !IsWhitespace(title.value[i])
    ensures r.Some? ==> r.value == Trim(title.value) && r.value != []
  {
    if title.None? || title.value == [] || Trim(title.value) == [] then None
    else Some(Trim(title.value))
  }

  /** The row a path id designates: none when the id is not a number or no row has it. */
  function Designated(rows: seq<Todo>, idParam: string): (r: Option<Todo>)
    ensures r.Some? ==> r.value in rows && ParseId(idParam) == Some(r.value.id)
    ensures r.None? <==> ParseId(idParam).None? || forall k :: 0 <= k < |rows| ==> rows[k].id != ParseId(idParam).value
  {
    match ParseId(idParam)
    case None => None
    case Some(id) => Lookup(rows, id)
  }

  /** GET /api/todos: 200 with the whole table, newest first. */
  method GetAll(table: TodoTable, fault: Option<Fault>) returns (o: Outcome)
    requires table.Valid()
    ensures fault.Some? ==> o == Forwarded(fault.value)
    ensures fault.None? ==>
      && o.Responded? && o.response.status == 200 && o.response.body.Items?
      && NewestFirst(o.response.body.todos)
      && multiset(o.response.body.todos) == multiset(table.rows)
  {
    if fault.Some? {
      return Forwarded(fault.value);
    }
    var todos := table.GetAll();
    o := Responded(Response(200, Items(todos)));
  }

  /** GET /api/todos/:id: 200 with the row, or 404 when there is none. */
  method GetById(table: TodoTable, idParam: string, fault: Option<Fault>) returns (o: Outcome)
    requires table.Valid()
    ensures fault.Some? ==> o == Forwarded(fault.value)
    ensures fault.None? && Designated(table.rows, idParam).None? ==> o == Responded(NotFound)
    ensures fault.None? && Designated(table.rows, idParam).Some? ==>
      o == Responded(Response(200, Item(Designated(table.rows, idParam).value)))
  {
    if fault.Some? {
      return Forwarded(fault.value);
    }
    var todo: Option<Todo> := None;
    match ParseId(idParam) {
      case Some(id) => todo := table.GetById(id);
      case None =>
    }
    if todo.None? {
      return Responded(NotFound);
    }
    o := Responded(Response(200, Item(todo.value)));
  }

  /**
   * POST /api/todos: 400 without touching the table when the title is
   * missing or blank; otherwise the trimmed title and the priority as sent
   * go to create, and the new row comes back with 201.
   */
  method Create(table: TodoTable, body: CreateBody, now: Timestamp, fault: Option<Fault>) returns (o: Outcome)
    requires table.Valid()
    modifies table
    ensures table.Valid()
    ensures CheckTitle(body.title).None? ==> o == Responded(TitleRequired) && unchanged(table)
    ensures CheckTitle(body.title).Some? && fault.Some? ==> o == Forwarded(fault.value) && unchanged(table)
    ensures CheckTitle(body.title).Some? && fault.None? && old(table.highestId) == MaxRowId ==>
      o == Forwarded(TableFull) && unchanged(table)
    ensures CheckTitle(body.title).Some? && fault.None? && old(table.highestId) < MaxRowId ==>
      var t := Todo(old(table.highestId) + 1, Trim(body.title.value), DefaultCompleted, StoredPriority(body.priority), now);
      && o == Responded(Response(201, Item(t)))
      && t.id !in old(table.issued)
      && table.rows == old(table.rows) + [t]
      && table.highestId == t.id && table.issued == old(table.issued) + {t.id}
  {
    var title := CheckTitle(body.title);
    if title.None? {
      return Responded(TitleRequired);
    }
    if fault.Some? {
      return Forwarded(fault.value);
    }
    var created := table.Create(title.value, body.priority, now);
    match created {
      case Err(e) => o := Forwarded(e);
      case Ok(t) => o := Responded(Response(201, Item(t)));
    }
  }

  /**
   * PUT /api/todos/:id: the body goes to update as it is, with no title
   * check; 404 when no row has the id, else 200 with the merged row.
   */
  method Update(table: TodoTable, idParam: string, patch: Patch, fault: Option<Fault>) returns (o: Outcome)
    requires table.Valid()
    modifies table
    ensures table.Valid()
    ensures fault.Some? ==> o == Forwarded(fault.value) && unchanged(table)
    ensures fault.None? && Designated(old(table.rows), idParam).None? ==>
      o == Responded(NotFound) && unchanged(table)
    ensures fault.None? && Designated(old(table.rows), idParam).Some? ==>
      var merged := Merge(Designated(old(table.rows), idParam).value, patch);
      && o == Responded(Response(200, Item(merged)))
      && table.rows == Patched(old(table.rows), merged.id, patch)
      && table.highestId == old(table.highestId) && table.issued == old(table.issued)
  {
    if fault.Some? {
      return Forwarded(fault.value);
    }
    match ParseId(idParam) {
      case None =>
        return Responded(NotFound);
      case Some(id) =>
        var updated := table.Update(id, patch);
        if updated.None? {
          return Responded(NotFound);
        }
        o := Responded(Response(200, Item(updated.value)));
    }
  }

  /** DELETE /api/todos/:id: 404 when nothing was deleted, else 200 with the fixed notice. */
  method Delete(table: TodoTable, idParam: string, fault: Option<Fault>) returns (o: Outcome)
    requires table.Valid()
    modifies table
    ensures table.Valid()
    ensures fault.Some? ==> o == Forwarded(fault.value) && unchanged(table)
    ensures fault.None? && Designated(old(table.rows), idParam).None? ==>
      && o == Responded(NotFound) && table.rows == old(table.rows)
      && table.highestId == old(table.highestId) && table.issued == old(table.issued)
    ensures fault.None? && Designated(old(table.rows), idParam).Some? ==>
      && o == Responded(DeletedNotice)
      && table.rows == Without(old(table.rows), ParseId(idParam).value)
      && table.highestId == old(table.highestId) && table.issued == old(table.issued)
  {
    if fault.Some? {
      return Forwarded(fault.value);
    }
    match ParseId(idParam) {
      case None =>
        return Responded(NotFound);
      case Some(id) =>
        var before := table.rows;
        var deleted := table.Delete(id);
        if !deleted {
          WithoutAbsent(before, id);
          return Responded(NotFound);
        }
        o := Responded(DeletedNotice);
    }
  }

  /** Creating "A" on an empty table. */
  method CreateScenario(now: Timestamp) returns (table: TodoTable)
    ensures table.Valid() && table.rows == [Todo(1, "A", 0, "medium", now)]
  {
    table := new TodoTable();
    PaddedTitleAccepted([], "A", []);
    assert [] + "A" + [] == "A";
    assert StoredPriority(None) == "medium";
    var created := Create(table, CreateBody(Some("A"), None), now, None);
    assert created == Responded(Response(201, Item(Todo(1, "A", 0, "medium", now))));
  }

  /** Updating that row's title and completed flag through its path id. */
  method UpdateScenario(table: TodoTable, now: Timestamp)
    requires table.Valid() && table.rows == [Todo(1, "A", 0, "medium", now)]
    modifies table
  {
    ParseDecimal(1);
    var path := Decimal(1);
    assert Designated(table.rows, path) == Some(table.rows[0]);
    var updated := Update(table, path, Patch(Some("B"), Some(1), None), None);
    assert updated == Responded(Response(200, Item(Todo(1, "B", 1, "medium", now))));
  }

  /** Once a designated row is deleted, fetching it and deleting it again both give 404. */
  method DeleteIsFinalScenario(table: TodoTable, path: string)
    requires table.Valid() && Designated(table.rows, path).Some?
    modifies table
  {
    var before := table.rows;
    var deleted := Delete(table, path, None);
    assert deleted == Responded(DeletedNotice);
    WithoutDrops(before, ParseId(path).value);
    assert Designated(table.rows, path).None?;
    var fetched := GetById(table, path, None);
    assert fetched == Responded(NotFound);
    var again := Delete(table, path, None);
    assert again == Responded(NotFound);
  }

  /** A title of whitespace only is refused and leaves the table as it was. */
  method BlankTitleScenario(table: TodoTable, now: Timestamp)
    requires table.Valid()
    modifies table
  {
    var before := table.rows;
    assert AllWhitespace(" \t");
    assert CheckTitle(Some(" \t")) == None;
    var blank := Create(table, CreateBody(Some(" \t"), Some("high")), now, None);
    assert blank == Responded(TitleRequired);
    assert table.rows == before;
  }

  /** A padded title is stored trimmed, and an empty priority becomes the default. */
  method PaddedTitleScenario(table: TodoTable, now: Timestamp)
    requires table.Valid() && table.highestId < MaxRowId
    modifies table
  {
    PaddedTitleAccepted(" ", "x", " ");
    assert " " + "x" + " " == " x ";
    var padded := Create(table, CreateBody(Some(" x "), Some("")), now, None);
    assert padded.Responded? && padded.response.status == 201;
    assert padded.response.body.todo.title == "x";
    assert padded.response.body.todo.priority == "medium";
  }

  /** A title made of a core with non-whitespace ends inside any whitespace is accepted as that core. */
  lemma PaddedTitleAccepted(w1: string, m: string, w2: string)
    requires AllWhitespace(w1) && AllWhitespace(w2)
    requires m != [] && !IsWhitespace(m[0]) && !IsWhitespace(m[|m| - 1])
    ensures CheckTitle(Some(w1 + m + w2)) == Some(m)
  {
    TrimPadded(w1, m, w2);
  }
}
