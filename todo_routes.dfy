/** The handlers of routes/todos.js over the Todo collection. Every handler is scoped to
    the authenticated caller: a record is found only by its id together with its owner. */
module TodoRoutes {
  import opened Wrappers
  import opened Text
  import opened Seqs
  import opened TodoSchema
  import opened TodoQuery
  import opened TodoDocuments

  /** A handler's response. */
  datatype Reply =
    | Listed(todos: seq<Todo>)
    | Created(todo: Todo)
    | Updated(todo: Todo)
    | Deleted
    | BadRequest
    | NotFound
    | ServerError

  /** The HTTP status each response is sent with. */
  function Status(reply: Reply): int {
    match reply
    case Listed(_) => 200
    case Created(_) => 201
    case Updated(_) => 200
    case Deleted => 200
    case BadRequest => 400
    case NotFound => 404
    case ServerError => 500
  }

  /** The records a response carries. */
  function Returned(reply: Reply): seq<Todo> {
    match reply
    case Listed(ts) => ts
    case Created(t) => [t]
    case Updated(t) => [t]
    case _ => []
  }

  /** A response hands back only records of `user`. */
  predicate ScopedTo(reply: Reply, user: UserId) {
    forall i :: 0 <= i < |Returned(reply)| ==> Returned(reply)[i].user == user
  }

  /** The record `PUT /:id` leaves: each of title, description and completed that the
      body gives is written (strings through the `trim` setter); nothing else changes. */
  function WithUpdate(t: Todo, title: Option<string>, description: Option<string>, completed: Option<bool>): (r: Todo)
    ensures r.(title := t.title, description := t.description, completed := t.completed) == t
    ensures r.title == (if title.Some? then Trim(title.value) else t.title)
    ensures r.description == (if description.Some? then Trim(description.value) else t.description)
    ensures r.completed == completed.GetOr(t.completed)
  {
    t.(title := if title.Some? then Trim(title.value) else t.title,
       description := if description.Some? then Trim(description.value) else t.description,
       completed := if completed.Some? then completed.value else t.completed)
  }

  /** The records of `m` with key below `n` owned by `user`, in key order. */
  ghost function OwnedBelow(m: map<TodoId, Todo>, user: UserId, n: nat): (r: seq<Todo>)
    requires forall k :: k in m ==> m[k].id == k
    ensures forall i :: 0 <= i < |r| ==> r[i].id < n && r[i].id in m && m[r[i].id] == r[i] && r[i].user == user
    ensures forall k :: 0 <= k < n && k in m && m[k].user == user ==> m[k] in r
    ensures NoDuplicates(r)
  {
    if n == 0 then []
    else
      var before := OwnedBelow(m, user, n - 1);
      if n - 1 in m && m[n - 1].user == user then before + [m[n - 1]] else before
  }

  /** The create handler builds a new document from the title, the description and the
      caller, and saves it: the record is committed exactly when it passes validation, and
      is then the defaults with the trimmed title and description and the caller as owner. */
  method SaveNew(id: TodoId, user: UserId, title: string, description: Option<string>, now: Time)
    returns (saved: Result<Todo, seq<FieldError>>)
    ensures saved.Success? <==> TodoSchema.Valid(NewTodo(id, user, title, description, now), now)
    ensures saved.Success? ==> saved.value == NewTodo(id, user, title, description, now)
  {
    ghost var made := NewTodo(id, user, title, description, now);
    var doc := new TodoDocument.New(id, user, title, description, now);
    saved := doc.Save(now);
    assert saved.Success? ==> saved.value == AfterHook(made, false, now) == made;
  }

  class TodoStore {
    /** The collection, by `_id`. */
    var todos: map<TodoId, Todo>
    /** Ids below this one have been handed out. */
    var nextId: TodoId

    ghost predicate Valid()
      reads this
    {
      forall id :: id in todos ==> id < nextId && todos[id].id == id
    }

    constructor ()
      ensures Valid() && todos == map[] && nextId == 0
    {
      todos, nextId := map[], 0;
    }

    /** The filter `{ _id: id, user }` matches a record. */
    predicate Owns(id: TodoId, user: UserId)
      reads this
    {
      id in todos && todos[id].user == user
    }

    /** `GET /`: every record of the caller, archived ones included, newest first. */
    method List(user: UserId) returns (reply: Reply)
      requires Valid()
      ensures reply.Listed? && ScopedTo(reply, user)
      ensures forall t :: t in reply.todos <==> t in todos.Values && t.user == user
      ensures NoDuplicates(reply.todos)
      ensures Sorted(reply.todos, CreatedAt, true)
    {
      var found: seq<Todo> := [];
      var i := 0;
      while i < nextId
        invariant i <= nextId
        invariant found == OwnedBelow(todos, user, i)
      {
        if i in todos && todos[i].user == user {
          found := found + [todos[i]];
        }
        i := i + 1;
      }
      var sorted := SortTodos(found, CreatedAt, true);
      PermutationKeepsNoDuplicates(found, sorted);
      forall t | t in sorted ensures t in todos.Values && t.user == user {
        assert t in multiset(found);
      }
      forall t | t in todos.Values && t.user == user ensures t in sorted {
        assert t.id in todos && todos[t.id] == t;
        assert t in multiset(found);
      }
      reply := Listed(sorted);
    }

    /** `POST /`: a missing or empty title is refused with 400. Otherwise the new document
        is saved; a validation failure (a title that is only whitespace, a description over
        1000 characters after trimming) surfaces as 500. */
    method Create(user: UserId, title: Option<string>, description: Option<string>, now: Time) returns (reply: Reply)
      requires Valid()
      modifies this
      ensures Valid()
      ensures !IsSet(title) ==> reply == BadRequest && todos == old(todos) && nextId == old(nextId)
      ensures IsSet(title) && !TodoSchema.Valid(NewTodo(old(nextId), user, title.value, description, now), now) ==>
        reply == ServerError && todos == old(todos) && nextId == old(nextId)
      ensures IsSet(title) && TodoSchema.Valid(NewTodo(old(nextId), user, title.value, description, now), now) ==>
        && reply == Created(NewTodo(old(nextId), user, title.value, description, now))
        && old(nextId) !in old(todos)
        && todos == old(todos)[old(nextId) := reply.todo]
        && nextId == old(nextId) + 1
      ensures ScopedTo(reply, user)
    {
      if !IsSet(title) {
        return BadRequest;
      }
      var saved := SaveNew(nextId, user, title.value, description, now);
      match saved
      case Failure(_) =>
        reply := ServerError;
      case Success(t) =>
        Commit(t);
        reply := Created(t);
    }

    /** `insertOne` of a record that carries the next id. */
    method Commit(t: Todo)
      requires Valid() && t.id == nextId
      modifies this
      ensures Valid()
      ensures old(nextId) !in old(todos)
      ensures todos == old(todos)[old(nextId) := t] && nextId == old(nextId) + 1
    {
      todos := todos[nextId := t];
      nextId := nextId + 1;
    }

    /** `PUT /:id` with `findOneAndUpdate({ _id: id, user }, { title, description, completed })`:
        no validators and no pre-save hook run on this path. */
    method Update(id: TodoId, user: UserId, title: Option<string>, description: Option<string>, completed: Option<bool>)
      returns (reply: Reply)
      requires Valid()
      modifies this
      ensures Valid()
      ensures nextId == old(nextId)
      ensures !old(Owns(id, user)) ==> reply == NotFound && todos == old(todos)
      ensures old(Owns(id, user)) ==>
        && reply == Updated(WithUpdate(old(todos[id]), title, description, completed))
        && todos == old(todos)[id := reply.todo]
      ensures forall k :: k in old(todos) && k != id ==> k in todos && todos[k] == old(todos[k])
      ensures forall k :: k in old(todos) && old(todos[k]).user != user ==> k in todos && todos[k] == old(todos[k])
      ensures todos.Keys == old(todos.Keys)
      ensures ScopedTo(reply, user)
    {
      if !Owns(id, user) {
        return NotFound;
      }
      var t := WithUpdate(todos[id], title, description, completed);
      todos := todos[id := t];
      reply := Updated(t);
    }

    /** `DELETE /:id` with `findOneAndDelete({ _id: id, user })`. */
    method Delete(id: TodoId, user: UserId) returns (reply: Reply)
      requires Valid()
      modifies this
      ensures Valid()
      ensures nextId == old(nextId)
      ensures !old(Owns(id, user)) ==> reply == NotFound && todos == old(todos)
      ensures old(Owns(id, user)) ==> reply == Deleted && todos == old(todos) - {id}
      ensures forall k :: k in old(todos) && k != id ==> k in todos && todos[k] == old(todos[k])
      ensures forall k :: k in old(todos) && old(todos[k]).user != user ==> k in todos && todos[k] == old(todos[k])
    {
      if !Owns(id, user) {
        return NotFound;
      }
      todos := todos - {id};
      reply := Deleted;
    }
  }

  /** A client of the store: a todo of one user can be neither changed nor deleted by
      another user, who gets 404 exactly as for an id that does not exist. */
  method CrossUserAccessIsNotFound(owner: UserId, other: UserId, now: Time)
    requires owner != other
  {
    var store := new TodoStore();
    var created := store.Create(owner, Some("Team meeting notes"), None, now);
    if created.Created? {
      var id := created.todo.id;
      var before := store.todos;
      var updated := store.Update(id, other, Some("taken over"), None, Some(true));
      assert updated == NotFound && store.todos == before;
      var deleted := store.Delete(id, other);
      assert deleted == NotFound && store.todos == before;
      var missing := store.Delete(id + 1, owner);
      assert Status(missing) == Status(deleted) == 404;
    }
  }
}
