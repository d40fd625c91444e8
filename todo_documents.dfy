/** A Mongoose Todo document in memory: the instance methods of models/Todo.js change its
    fields and then call `save()`, which validates, runs the pre-save hook and commits. */
module TodoDocuments {
  import opened Wrappers
  import opened Seqs
  import opened TodoSchema

  // ---------------------------------------------------------------- subtodo lists

  /** The subtodo list after `addSubtodo(x)`: `x` is appended only when it is absent. */
  function WithSubtodo(ids: seq<TodoId>, x: TodoId): (r: seq<TodoId>)
    ensures x in ids ==> r == ids
    ensures x !in ids ==> r == ids + [x]
    ensures x in r
    ensures forall y :: y in r <==> y in ids || y == x
    ensures ids <= r && |r| <= |ids| + 1
    ensures NoDuplicates(ids) ==> NoDuplicates(r)
  {
    if x in ids then ids else ids + [x]
  }

  /** Adding the same subtodo twice is adding it once. */
  lemma WithSubtodoIdempotent(ids: seq<TodoId>, x: TodoId)
    ensures WithSubtodo(WithSubtodo(ids, x), x) == WithSubtodo(ids, x)
  {
  }

  /** The subtodo list after `removeSubtodo(x)`. */
  function WithoutSubtodo(ids: seq<TodoId>, x: TodoId): seq<TodoId> {
    Filter(ids, y => y != x)
  }

  /** `removeSubtodo` drops every occurrence of `x`, keeps every other id in order, and
      leaves a list without `x` unchanged. */
  lemma WithoutSubtodoSpec(ids: seq<TodoId>, x: TodoId)
    ensures x !in WithoutSubtodo(ids, x)
    ensures forall y :: y != x ==> (y in WithoutSubtodo(ids, x) <==> y in ids)
    ensures IsSubsequence(WithoutSubtodo(ids, x), ids)
    ensures x !in ids ==> WithoutSubtodo(ids, x) == ids
  {
    var r := WithoutSubtodo(ids, x);
    forall y | y != x && y in ids ensures y in r {
      var i :| 0 <= i < |ids| && ids[i] == y;
    }
    if x !in ids {
      FilterKeepsAll(ids, y => y != x);
    }
  }

  // ---------------------------------------------------------------- notes

  /** `this.notes.id(noteId)`: the position of the first note with that id. */
  function NoteIndex(notes: seq<Note>, noteId: NoteId): (r: Option<nat>)
    ensures r.Some? ==> (r.value < |notes| && notes[r.value].id == noteId
      && forall j :: 0 <= j < r.value ==> notes[j].id != noteId)
    ensures r.None? <==> forall j :: 0 <= j < |notes| ==> notes[j].id != noteId
  {
    if notes == [] then None
    else if notes[0].id == noteId then Some(0)
    else
      match NoteIndex(notes[1..], noteId)
      case None => None
      case Some(i) => Some(i + 1)
  }

  /** The notes after `updateNote(noteId, content)` at `now`. */
  function WithNoteUpdated(notes: seq<Note>, noteId: NoteId, content: string, now: Time): (r: seq<Note>)
    ensures |r| == |notes|
    ensures forall j :: 0 <= j < |r| ==> r[j].id == notes[j].id && r[j].createdAt == notes[j].createdAt
    ensures forall j :: 0 <= j < |r| && r[j] != notes[j] ==> r[j].content == content && r[j].updatedAt == now
    ensures forall j :: 0 <= j < |r| && notes[j].id != noteId ==> r[j] == notes[j]
    ensures DistinctKeys(notes, (n: Note) => n.id) ==>
      forall j :: 0 <= j < |r| && notes[j].id == noteId ==> r[j].content == content && r[j].updatedAt == now
  {
    match NoteIndex(notes, noteId)
    case None => notes
    case Some(i) => notes[i := notes[i].(content := content, updatedAt := now)]
  }

  /** The notes after `deleteNote(noteId)`. */
  function WithoutNote(notes: seq<Note>, noteId: NoteId): seq<Note> {
    Filter(notes, (n: Note) => n.id != noteId)
  }

  /** `deleteNote` removes the notes with that id and only those, keeps the others in
      order, and is a no-op for an unknown id. */
  lemma WithoutNoteSpec(notes: seq<Note>, noteId: NoteId)
    ensures forall n :: n in WithoutNote(notes, noteId) ==> n.id != noteId
    ensures forall n :: n in notes && n.id != noteId ==> n in WithoutNote(notes, noteId)
    ensures IsSubsequence(WithoutNote(notes, noteId), notes)
    ensures (forall j :: 0 <= j < |notes| ==> notes[j].id != noteId) ==> WithoutNote(notes, noteId) == notes
  {
    var r := WithoutNote(notes, noteId);
    forall n | n in r ensures n.id != noteId {
      var i :| 0 <= i < |r| && r[i] == n;
    }
    forall n | n in notes && n.id != noteId ensures n in r {
      var i :| 0 <= i < |notes| && notes[i] == n;
    }
    if forall j :: 0 <= j < |notes| ==> notes[j].id != noteId {
      FilterKeepsAll(notes, (n: Note) => n.id != noteId);
    }
  }

  // ---------------------------------------------------------------- completedAt

  /** After a save in which `completed` was modified, `completedAt` is set exactly when
      the todo is completed. */
  lemma CompletedAtTracksCompleted(t: Todo, now: Time)
    ensures AfterHook(t, true, now).completedAt.Some? <==> t.completed
  {
  }

  /** Completing a todo and then reopening it, each followed by a save, restores its
      `completed` flag and clears `completedAt`. */
  lemma CompleteThenReopen(t: Todo, n1: Time, n2: Time)
    requires !t.completed
    ensures var done := AfterHook(t.(completed := true), true, n1);
      && done.completedAt.Some?
      && AfterHook(done.(completed := false), true, n2) == t.(completedAt := None)
  {
  }

  // ---------------------------------------------------------------- the document

  class TodoDocument {
    var id: TodoId
    var title: string
    var description: string
    var completed: bool
    var priority: Priority
    var dueDate: Option<Time>
    var category: string
    var tags: seq<string>
    var user: UserId
    var parentTodo: Option<TodoId>
    var subtodos: seq<TodoId>
    var notes: seq<Note>
    var timeEstimate: Duration
    var timeSpent: Duration
    var isArchived: bool
    var completedAt: Option<Time>
    var createdAt: Time
    var updatedAt: Time

    /** `doc.isModified('completed')`. */
    var completedModified: bool
    /** Source of the `_id`s of new notes: every note id is below it. */
    var nextNoteId: NoteId

    /** The record the document holds. */
    function Record(): Todo
      reads this
    {
      Todo(id, title, description, completed, priority, dueDate, category, tags, user,
        parentTodo, subtodos, notes, timeEstimate, timeSpent, isArchived, completedAt,
        createdAt, updatedAt)
    }

    /** Note ids are distinct and below the next one to be handed out. */
    ghost predicate Valid()
      reads this
    {
      && (forall k :: 0 <= k < |notes| ==> notes[k].id < nextNoteId)
      && DistinctKeys(notes, (n: Note) => n.id)
    }

    /** This document after a `save()` of the record `staged`, whose
        `isModified('completed')` and next note id were `modified` and `noteIds`:
        a failed validation reports every error and commits nothing (the in-memory
        changes stay); otherwise the pre-save hook has run and `res` is the committed record. */
    ghost predicate SavedFrom(staged: Todo, modified: bool, noteIds: NoteId, now: Time,
                              res: Result<Todo, seq<FieldError>>)
      reads this
    {
      && nextNoteId == noteIds
      && var errors := Validate(staged, now);
      if errors != [] then
        res == Failure(errors) && Record() == staged && completedModified == modified
      else
        res == Success(Record()) && Record() == AfterHook(staged, modified, now) && !completedModified
    }

    /** `new Todo({ title, description, user })` with the id the store hands out. */
    constructor New(id: TodoId, user: UserId, title: string, description: Option<string>, now: Time)
      ensures Valid()
      ensures Record() == NewTodo(id, user, title, description, now)
      ensures !completedModified
    {
      var t := NewTodo(id, user, title, description, now);
      this.id, this.title, this.description, this.completed := t.id, t.title, t.description, t.completed;
      this.priority, this.dueDate, this.category, this.tags := t.priority, t.dueDate, t.category, t.tags;
      this.user, this.parentTodo, this.subtodos, this.notes := t.user, t.parentTodo, t.subtodos, t.notes;
      this.timeEstimate, this.timeSpent, this.isArchived := t.timeEstimate, t.timeSpent, t.isArchived;
      this.completedAt, this.createdAt, this.updatedAt := t.completedAt, t.createdAt, t.updatedAt;
      completedModified, nextNoteId := false, 0;
    }

    /** A document read back from the collection. */
    constructor Load(t: Todo, noteIds: NoteId)
      requires forall k :: 0 <= k < |t.notes| ==> t.notes[k].id < noteIds
      requires DistinctKeys(t.notes, (n: Note) => n.id)
      ensures Valid()
      ensures Record() == t
      ensures !completedModified
    {
      this.id, this.title, this.description, this.completed := t.id, t.title, t.description, t.completed;
      this.priority, this.dueDate, this.category, this.tags := t.priority, t.dueDate, t.category, t.tags;
      this.user, this.parentTodo, this.subtodos, this.notes := t.user, t.parentTodo, t.subtodos, t.notes;
      this.timeEstimate, this.timeSpent, this.isArchived := t.timeEstimate, t.timeSpent, t.isArchived;
      this.completedAt, this.createdAt, this.updatedAt := t.completedAt, t.createdAt, t.updatedAt;
      completedModified, nextNoteId := false, noteIds;
    }

    /** `doc.completed = value`; Mongoose marks the path modified only when the value changes. */
    method SetCompleted(value: bool)
      requires Valid()
      modifies this
      ensures Valid()
      ensures Record() == old(Record()).(completed := value)
      ensures completedModified == (old(completedModified) || value != old(completed))
      ensures nextNoteId == old(nextNoteId)
    {
      if value != completed {
        completedModified := true;
      }
      completed := value;
    }

    /** `save()`: validation, then the pre-save hook on `completedAt`, then the commit. */
    method Save(now: Time) returns (res: Result<Todo, seq<FieldError>>)
      requires Valid()
      modifies this
      ensures Valid()
      ensures SavedFrom(old(Record()), old(completedModified), old(nextNoteId), now, res)
    {
      var staged := Record();
      var errors := Validate(staged, now);
      if errors != [] {
        return Failure(errors);
      }
      var saved := AfterHook(staged, completedModified, now);
      completedAt := saved.completedAt;
      completedModified := false;
      assert Record() == saved;
      assert notes == old(notes) && nextNoteId == old(nextNoteId);
      res := Success(saved);
    }

    /** `addSubtodo(subtodoId)`. */
    method AddSubtodo(subtodoId: TodoId, now: Time) returns (res: Result<Todo, seq<FieldError>>)
      requires Valid()
      modifies this
      ensures Valid()
      ensures SavedFrom(old(Record()).(subtodos := WithSubtodo(old(subtodos), subtodoId)),
        old(completedModified), old(nextNoteId), now, res)
    {
      if subtodoId !in subtodos {
        subtodos := subtodos + [subtodoId];
      }
      assert Record() == old(Record()).(subtodos := WithSubtodo(old(subtodos), subtodoId));
      res := Save(now);
    }

    /** `removeSubtodo(subtodoId)`. */
    method RemoveSubtodo(subtodoId: TodoId, now: Time) returns (res: Result<Todo, seq<FieldError>>)
      requires Valid()
      modifies this
      ensures Valid()
      ensures SavedFrom(old(Record()).(subtodos := WithoutSubtodo(old(subtodos), subtodoId)),
        old(completedModified), old(nextNoteId), now, res)
    {
      subtodos := Filter(subtodos, y => y != subtodoId);
      assert Record() == old(Record()).(subtodos := WithoutSubtodo(old(subtodos), subtodoId));
      res := Save(now);
    }

    /** `addNote(content)`: one note, with a fresh id and both timestamps `now`, at the end. */
    method AddNote(content: string, now: Time) returns (res: Result<Todo, seq<FieldError>>)
      requires Valid()
      modifies this
      ensures Valid()
      ensures SavedFrom(old(Record()).(notes := old(notes) + [Note(old(nextNoteId), content, now, now)]),
        old(completedModified), old(nextNoteId) + 1, now, res)
    {
      var note := Note(nextNoteId, content, now, now);
      notes := notes + [note];
      nextNoteId := nextNoteId + 1;
      assert Record() == old(Record()).(notes := old(notes) + [note]);
      res := Save(now);
    }

    /** `updateNote(noteId, content)`. */
    method UpdateNote(noteId: NoteId, content: string, now: Time) returns (res: Result<Todo, seq<FieldError>>)
      requires Valid()
      modifies this
      ensures Valid()
      ensures SavedFrom(old(Record()).(notes := WithNoteUpdated(old(notes), noteId, content, now)),
        old(completedModified), old(nextNoteId), now, res)
    {
      var found := NoteIndex(notes, noteId);
      if found.Some? {
        var i := found.value;
        notes := notes[i := notes[i].(content := content, updatedAt := now)];
      }
      assert Record() == old(Record()).(notes := WithNoteUpdated(old(notes), noteId, content, now));
      res := Save(now);
    }

    /** `deleteNote(noteId)`. */
    method DeleteNote(noteId: NoteId, now: Time) returns (res: Result<Todo, seq<FieldError>>)
      requires Valid()
      modifies this
      ensures Valid()
      ensures SavedFrom(old(Record()).(notes := WithoutNote(old(notes), noteId)),
        old(completedModified), old(nextNoteId), now, res)
    {
      FilterKeepsDistinct(notes, (n: Note) => n.id != noteId, (n: Note) => n.id);
      notes := Filter(notes, (n: Note) => n.id != noteId);
      assert Record() == old(Record()).(notes := WithoutNote(old(notes), noteId));
      res := Save(now);
    }

    /** `addTimeSpent(hours, minutes)`: the spent total grows by `hours * 60 + minutes`
        and is stored re-split into hours and minutes. */
    method AddTimeSpent(hours: int, minutes: int, now: Time) returns (res: Result<Todo, seq<FieldError>>)
      requires Valid()
      modifies this
      ensures Valid()
      ensures SavedFrom(old(Record()).(timeSpent := WithTimeAdded(old(timeSpent), hours, minutes)),
        old(completedModified), old(nextNoteId), now, res)
    {
      timeSpent := WithTimeAdded(timeSpent, hours, minutes);
      assert Record() == old(Record()).(timeSpent := WithTimeAdded(old(timeSpent), hours, minutes));
      res := Save(now);
    }
  }

  /** The spent time after `addTimeSpent(hours, minutes)`: the old total plus
      `hours * 60 + minutes`, re-split into hours and minutes. */
  function WithTimeAdded(spent: Duration, hours: int, minutes: int): Duration {
    SplitMinutes(TotalMinutes(spent) + hours * 60 + minutes)
  }

  /** For non-negative additions to a valid spent time, the new total is the old total plus
      the addition and the stored pair is that total in whole hours and 0..59 minutes. */
  lemma AddTimeSpentSpec(spent: Duration, hours: int, minutes: int)
    requires DurationValid(spent) && hours >= 0 && minutes >= 0
    ensures var d := WithTimeAdded(spent, hours, minutes);
      && TotalMinutes(d) == TotalMinutes(spent) + hours * 60 + minutes
      && 0 <= d.minutes <= 59
      && d.hours == TotalMinutes(d) / 60
  {
    SplitMinutesSpec(TotalMinutes(spent) + hours * 60 + minutes);
  }

  // ---------------------------------------------------------------- clients

  /** A todo read from the collection is completed and saved, then reopened and saved:
      the first save stamps `completedAt` with its time, the second clears it again. */
  method CompleteAndReopen(t: Todo, noteIds: NoteId, n1: Time, n2: Time)
    requires !t.completed && t.completedAt.None?
    requires forall k :: 0 <= k < |t.notes| ==> t.notes[k].id < noteIds
    requires DistinctKeys(t.notes, (n: Note) => n.id)
  {
    var doc := new TodoDocument.Load(t, noteIds);
    doc.SetCompleted(true);
    var first := doc.Save(n1);
    if first.Success? {
      assert first.value == t.(completed := true, completedAt := Some(n1));
      doc.SetCompleted(false);
      var second := doc.Save(n2);
      if second.Success? {
        assert second.value == t;
      }
    }
  }

  /** Logging time on a todo read from the collection: once saved, the `totalTimeSpent`
      virtual has grown by exactly the logged minutes. */
  method LogTime(t: Todo, noteIds: NoteId, hours: int, minutes: int, now: Time)
    requires DurationValid(t.timeSpent) && hours >= 0 && minutes >= 0
    requires forall k :: 0 <= k < |t.notes| ==> t.notes[k].id < noteIds
    requires DistinctKeys(t.notes, (n: Note) => n.id)
  {
    var doc := new TodoDocument.Load(t, noteIds);
    var res := doc.AddTimeSpent(hours, minutes, now);
    if res.Success? {
      AddTimeSpentSpec(t.timeSpent, hours, minutes);
      assert TotalTimeSpent(res.value) == TotalTimeSpent(t) + hours * 60 + minutes;
    }
  }
}
