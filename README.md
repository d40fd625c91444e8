# Todo app: the Todo model and the owner-scoped todo routes, in Dafny

This project models the server core of a todo-list application built on Express and Mongoose.
It has two parts.

- **The Todo document** (`models/Todo.js`):
  - the stored record and its field rules: trimmed, length-bounded strings, the priority enum, a due date that is not in the past, and (hours, minutes) pairs;
  - the values computed on read: total minutes, `isOverdue` and `completionPercentage`;
  - the pre-save hook that maintains `completedAt`;
  - the instance methods that change a document in memory and then `save()` it;
  - the static `findByUser`, which filters, sorts and paginates a user's todos.
- **The todo routes** (`routes/todos.js`): `GET /`, `POST /`, `PUT /:id` and `DELETE /:id`.
  They are modelled as operations on a store that maps ids to records.
  Every lookup is by id *and* owner.

Files:

- `wrappers.dfy`: `Option` and `Result`.
- `text.dfy`: JavaScript's `trim`, an ASCII lower-casing, a substring test and code-point string order.
- `seqs.dfy`: `Array.prototype.filter` and the facts about it that the model uses.
- `todo_schema.dfy`: the `Todo` record, validation, the virtuals, the `completedAt` rule and the minute split of `addTimeSpent`.
- `todo_documents.dfy`: class `TodoDocument`, a document in memory whose methods update its fields and call `Save`.
- `todo_query.dfy`: `findByUser`. This covers the query document, the eligibility predicate it must agree with, a stable sort, and skip/limit.
- `todo_routes.dfy`: class `TodoStore`, holding the collection as a `map` and the route handlers as methods.

How the model is shaped:

- Ids are naturals.
- Instants are integer milliseconds.
- The clock is a parameter `now`.
- The authenticated caller is a parameter `user`.
- An absent optional string is `""`, because no rule or filter of the source tells the two apart.
- `isModified('completed')` is an explicit flag of the document. Assigning `completed` sets it only when the value changes.
- `save()` validates the record and then runs the hook.
  - If validation fails, nothing is committed and the error list is returned, but the in-memory changes stay.
  - Otherwise the record after the hook is committed.
  - Every field rule, the due date included, is checked against the record as it stands and the time `now` of the save. A todo read back from the collection whose due date has since passed therefore fails every later save, including those of the instance methods.

Where the code behaves differently from what the application's description suggests, the model follows the code:

- `GET /` returns archived todos too, since its query has no `isArchived` condition.
- `POST /` answers 400 only for a missing or empty (falsy) title. A title of spaces only passes that test. It then becomes empty under `trim` and fails `required` in `save()`, and the handler answers 500.
- `PUT /:id` goes through `findOneAndUpdate`, which runs neither the validators nor the pre-save hook. Completing a todo through this route therefore leaves `completedAt` as it was.
- `addTimeSpent` does not reject negative arguments.
  - For a negative total that is not a whole number of hours, `Math.floor` and JavaScript's truncating `%` do not add back up to the total (`SplitNegativeMinutes`).
  - The save that follows then fails, because of the negative hours.
- Sorting on `priority` compares the stored strings, so the order is alphabetical: high, low, medium, urgent.

## Model

| member | source | states |
|---|---|---|
| Text.Trim | models/Todo.js:7 | the trimmed string contains at most as many characters as the input. Neither end is whitespace. It is empty exactly when the input is all whitespace. It is the input's characters after the leading whitespace, in order, and everything after it in the input is whitespace. |
| Text.TrimIdempotent | models/Todo.js:7 | the `trim` setter applied to its own output changes nothing. |
| Text.ContainsIff | models/Todo.js:237-238 | the substring test used for `search` holds exactly when the needle occurs at some offset. |
| Text.StrCompare | models/Todo.js:242-246 | string order is a three-way comparison that is 0 exactly for equal strings. |
| Text.StrCompareAntisymmetric | models/Todo.js:242-246 | swapping the operands negates the string comparison. |
| Text.StrCompareTransitive | models/Todo.js:242-246 | string order is transitive. |
| Seqs.Filter | models/Todo.js:183 | `filter` keeps exactly the elements the predicate accepts, each one taken from the input, as a subsequence of the input. |
| Seqs.FilterCount | models/Todo.js:183 | `filter` keeps every copy of an element the predicate accepts. |
| TodoSchema.PriorityName | models/Todo.js:19-23 | each of the four priorities is stored as a name that the enum validator accepts and maps back to it. |
| TodoSchema.ParsePriority | models/Todo.js:19-23 | the enum validator accepts a string exactly when it is low, medium, high or urgent. |
| TodoSchema.FieldErrors | models/Todo.js:4-37 | reports title required, title over 200, description over 1000, due date in the past and category over 50, each exactly when its rule fails. It is empty exactly when all those rules hold. |
| TodoSchema.TagErrors | models/Todo.js:38-42 | names every tag over 30 characters by its index, and only such tags. It is empty exactly when every tag fits. |
| TodoSchema.NoteErrors | models/Todo.js:75-89 | names every note whose content is empty or over 500 characters, by its index and rule, and only such notes. |
| TodoSchema.DurationErrors | models/Todo.js:90-115 | reports a negative estimate or spent hour count, and an estimate or spent minute count outside 0..59, each exactly when its rule fails. It is empty exactly when both pairs are valid. |
| TodoSchema.Validate | models/Todo.js:3-123 | validation reports no error exactly when every field rule of the schema holds. |
| TodoSchema.ValidateReportsFields | models/Todo.js:4-37 | a scalar-field error is in the full report exactly when its rule fails. |
| TodoSchema.ValidateReportsTags | models/Todo.js:38-42 | the full report names tag k exactly when tag k exists and is over 30 characters. |
| TodoSchema.ValidateReportsNotes | models/Todo.js:75-89 | the full report names note k as empty, or as over 500 characters, exactly when that is true of note k. |
| TodoSchema.NewTodo | routes/todos.js:27-31 | a new todo has the given id and owner, the trimmed title and description, and the schema defaults: not completed, no `completedAt`, not archived, priority medium, no subtodos, notes, tags, parent or due date, zero time, and both timestamps `now`. |
| TodoSchema.NewTodoValid | routes/todos.js:27-33 | a new todo with the schema defaults is valid exactly when its trimmed title has 1..200 characters and its trimmed description at most 1000. |
| TodoSchema.DurationIsMinuteCount | models/Todo.js:131-138 | the total minutes of a valid pair are non-negative, and the pair is that total's whole hours and remaining minutes. |
| TodoSchema.TotalTimeEstimate | models/Todo.js:131-133 | for a valid estimate, the virtual is a non-negative minute count that the `addTimeSpent` split turns back into the stored hours and minutes. |
| TodoSchema.TotalTimeSpent | models/Todo.js:136-138 | for a valid spent time, the virtual is a non-negative minute count that the `addTimeSpent` split turns back into the stored hours and minutes. |
| TodoSchema.IsOverdue | models/Todo.js:141-144 | overdue exactly when a due date is set, the todo is not completed and `now` is past the due date. |
| TodoSchema.NotOverdueWhenDueDateAllowed | models/Todo.js:24-31 | a due date the validator accepts at `now` is not overdue at `now`. |
| TodoSchema.CompletionPercentage | models/Todo.js:147-154 | in 0..100. With no subtodos: 100 if completed, otherwise 0. Otherwise: 100·done/total rounded to the nearest integer, halves up. |
| TodoSchema.HalfDoneIsFifty | models/Todo.js:147-154 | one of two subtodos done gives 50. |
| TodoSchema.CompletedAtOnSave | models/Todo.js:164-171 | when `completed` was modified, `completedAt` is set exactly when the todo is completed, and only an unset `completedAt` is replaced by `now`. When `completed` was not modified, `completedAt` is untouched. |
| TodoSchema.JsRem | models/Todo.js:213 | JavaScript's `%` agrees with the Euclidean remainder on non-negative operands. On a negative dividend it is the truncated remainder: not positive, and differing from the dividend by a multiple of the divisor. It stays strictly between −d and d for a divisor d. |
| TodoSchema.SplitMinutesSpec | models/Todo.js:211-213 | a non-negative total is stored as valid hours and minutes that add back up to it, with hours = total / 60. |
| TodoSchema.SplitNegativeMinutes | models/Todo.js:211-213 | for a negative total that is not a whole number of hours, the stored pair adds up to one hour less and has negative minutes. |
| TodoDocuments.WithSubtodo | models/Todo.js:174-179 | `addSubtodo(x)` leaves a list that already holds x unchanged, and otherwise appends x. So x is in the list, nothing else is added, the old list is kept as a prefix, and a list without duplicates stays without duplicates. |
| TodoDocuments.WithSubtodoIdempotent | models/Todo.js:174-179 | adding the same subtodo twice is adding it once. |
| TodoDocuments.WithoutSubtodoSpec | models/Todo.js:182-185 | `removeSubtodo(x)` removes every occurrence of x and keeps every other id, in order. A list without x is unchanged. |
| TodoDocuments.NoteIndex | models/Todo.js:195 | finds the first note with the id, or reports that no note has it. |
| TodoDocuments.WithNoteUpdated | models/Todo.js:194-201 | `updateNote` keeps the length, the ids and the creation times, changes notes with other ids not at all, and writes only the new content and `now`. With distinct ids, the matching note gets both. |
| TodoDocuments.WithoutNoteSpec | models/Todo.js:204-207 | `deleteNote` removes exactly the notes with the id and keeps the rest, in order. An unknown id changes nothing. |
| TodoDocuments.CompletedAtTracksCompleted | models/Todo.js:164-171 | after a save in which `completed` was modified, `completedAt` is set exactly when the todo is completed. |
| TodoDocuments.CompleteThenReopen | models/Todo.js:164-171 | completing and then reopening a todo, with a save after each, sets `completedAt` and then clears it, restoring the record. |
| TodoDocuments.AddTimeSpentSpec | models/Todo.js:210-215 | for non-negative additions to a valid spent time, the new total is the old total plus `hours*60 + minutes`, the new minutes lie in 0..59, and the new hours are the total divided by 60. |
| TodoDocuments.TodoDocument.New | routes/todos.js:27-31 | a new document holds `NewTodo` of its inputs, with `completed` unmodified and no note ids handed out. |
| TodoDocuments.TodoDocument.Load | models/Todo.js:245 | a document read from the collection holds exactly the stored record, with `completed` unmodified and note ids handed out below the given bound. |
| TodoDocuments.TodoDocument.SetCompleted | models/Todo.js:165 | assigning `completed` changes only that field, and marks it modified exactly when the value differs. |
| TodoDocuments.TodoDocument.Save | models/Todo.js:164-171 | a failed validation returns every error and commits nothing. Otherwise the committed record is the staged one after the `completedAt` hook, and `completed` is no longer marked modified. The due date is checked on every save. Note ids stay distinct. |
| TodoDocuments.TodoDocument.AddSubtodo | models/Todo.js:174-179 | saves the record with the subtodo list of `WithSubtodo` and nothing else changed. |
| TodoDocuments.TodoDocument.RemoveSubtodo | models/Todo.js:182-185 | saves the record with the subtodo list of `WithoutSubtodo` and nothing else changed. |
| TodoDocuments.TodoDocument.AddNote | models/Todo.js:188-191 | saves the record with exactly one new note, with a fresh id and `now` timestamps, appended at the end. |
| TodoDocuments.TodoDocument.UpdateNote | models/Todo.js:194-201 | saves the record with the notes of `WithNoteUpdated` and nothing else changed. |
| TodoDocuments.TodoDocument.DeleteNote | models/Todo.js:204-207 | saves the record with the notes of `WithoutNote` and nothing else changed. Note ids stay distinct. |
| TodoDocuments.TodoDocument.AddTimeSpent | models/Todo.js:210-215 | saves the record with the spent time of `WithTimeAdded` and nothing else changed. |
| TodoQuery.BuildQuery | models/Todo.js:230-240 | the query document built field by field matches a todo exactly when the todo is eligible: owned by the user, not archived, and agreeing with each filter that is given. |
| TodoQuery.UnknownPriorityMatchesNothing | models/Todo.js:233 | a priority filter that is not one of the four names selects no todo. |
| TodoQuery.SearchExample | models/Todo.js:235-240 | a search for "meeting" matches "Team meeting notes" and not "Grocery list". |
| TodoQuery.Compare | models/Todo.js:242-246 | the sort key comparison is three-way. |
| TodoQuery.CompareAntisymmetric | models/Todo.js:242-246 | swapping two todos negates their comparison on any field. |
| TodoQuery.CompareTransitive | models/Todo.js:242-246 | the comparison on any field is transitive. |
| TodoQuery.InOrderTotal | models/Todo.js:242-246 | of any two todos, one may precede the other, ascending or descending. |
| TodoQuery.InOrderTransitive | models/Todo.js:242-246 | "may precede" is transitive in both directions of sorting. |
| TodoQuery.SortedPairwise | models/Todo.js:246 | in a sorted listing, every todo may precede every later one. |
| TodoQuery.Insert | models/Todo.js:246 | inserting into a sorted listing keeps it sorted and adds exactly that todo. |
| TodoQuery.SortTodos | models/Todo.js:246 | the sort returns a sorted permutation of its input. |
| TodoQuery.Cap | models/Todo.js:247 | `.limit(n)` sets no cap exactly when n is 0. Otherwise the cap is positive and is n or −n. |
| TodoQuery.Window | models/Todo.js:247-248 | skip then limit: the result is the run of entries starting at the offset, as long as the limit allows and the listing holds. |
| TodoQuery.WindowSorted | models/Todo.js:246-248 | a page of a sorted listing is sorted. |
| TodoQuery.PagesCover | models/Todo.js:247-248 | pages 1..n, concatenated, are exactly the first n·limit entries of the listing: no overlap and no gap. |
| TodoQuery.SelectionSpec | models/Todo.js:230-246 | the filtered, sorted selection is sorted and holds each eligible todo of the collection as often as the collection does, and nothing else. |
| TodoQuery.WindowOfSelection | models/Todo.js:245-248 | any page of the selection contains only eligible todos of the collection and is sorted. |
| TodoQuery.FindByUser | models/Todo.js:218-251 | fails exactly when `(page-1)*limit` is negative. Otherwise it returns the page at that offset of the eligible todos sorted by `sortBy`/`sortOrder` (default createdAt, desc), each in the collection and eligible. The result is sorted and holds at most the limit's magnitude of todos. |
| TodoRoutes.WithUpdate | routes/todos.js:44-50 | `PUT` writes the trimmed title, the trimmed description and `completed` where the body gives them, and no other field. |
| TodoRoutes.OwnedBelow | routes/todos.js:10 | the caller's records with ids below a bound, each taken from the collection and owned by the caller, all of them, without duplicates. |
| TodoRoutes.SaveNew | routes/todos.js:27-33 | the new document is committed exactly when it passes validation, and is then the defaults with the trimmed title and description and the caller as owner. |
| TodoRoutes.TodoStore.List | routes/todos.js:8-16 | returns exactly the caller's records, archived ones included, without duplicates, newest first. |
| TodoRoutes.TodoStore.Create | routes/todos.js:19-39 | a falsy title answers 400 with the store unchanged. A new todo that fails validation answers 500 with the store unchanged. Otherwise it answers 201 with the new record, which is the only addition to the store. |
| TodoRoutes.TodoStore.Commit | routes/todos.js:33 | the insertion adds the record under the next id, which was unused, and changes nothing else. |
| TodoRoutes.TodoStore.Update | routes/todos.js:42-61 | an id not owned by the caller (absent or another user's) answers 404 with the store unchanged. Otherwise only that record changes, to `WithUpdate` of it. Other records, and every other user's records, are untouched. |
| TodoRoutes.TodoStore.Delete | routes/todos.js:64-80 | an id not owned by the caller answers 404 with the store unchanged. Otherwise exactly that record is removed and every other record is untouched. |

Every reply of `List`, `Create` and `Update` carries only records of the caller (`ScopedTo`).
`CrossUserAccessIsNotFound` is a client of the store. In it, a second user's update and delete of the first user's todo both answer 404 and leave the store unchanged.
`TodoDocuments.CompleteAndReopen` and `TodoDocuments.LogTime` are clients of the document.
- `CompleteAndReopen` loads a todo, marks it completed with `SetCompleted` and saves it, which stamps `completedAt`; it then reopens and saves it, which gives back the loaded record.
- `LogTime` loads a todo and calls `addTimeSpent`. After a successful save, `TotalTimeSpent` has grown by exactly the logged minutes.

## Left out

- Statistics, `GET /:id`, toggling and the notes routes are not part of this model: no such handlers exist in `routes/todos.js`.
- Authentication (`middleware/auth.js`) is not part of this model. The caller's id is a trusted input.
- Database I/O, `async`/`await`, concurrency, connection errors and malformed ids (a `CastError` answered with 500) are left out. The collection is a map, and each handler runs to completion.
- `populate` joins are left out. `CompletionPercentage` takes, for each subtodo entry, whether its `completed` is truthy; an unpopulated reference counts as false.
- Index declarations and ObjectId generation are left out. The store hands out consecutive natural ids.
- `timestamps: true` is modelled only at creation (`createdAt = updatedAt = now`). Mongoose also refreshes `updatedAt` on later saves and on the `findOneAndUpdate` of `PUT /:id`; neither refresh is modelled. `WithUpdate`'s "no other field changes" therefore leaves out `updatedAt`.
- Attachments have no behaviour and are not part of the record.
- The `$regex` search is modelled as a plain substring test, with case folded for ASCII letters only. Regex metacharacters and Unicode case folding are not modelled.
- String lengths count code points. JavaScript counts UTF-16 code units.
- `Math.round` on a floating-point ratio is modelled as exact rounding, halves up.
- Non-integer hours or minutes are not modelled; durations are integers.
- `PUT` bodies whose fields are `null` or non-strings are not modelled. The model offers no way to clear a field this way, or to have a value cast.
- Under Mongoose 5 and older, `findOneAndUpdate` with an `undefined` value unsets the field. The model follows later versions, where an absent field is left unchanged.
- Sorting is modelled for `createdAt`, `updatedAt`, `dueDate`, `priority` and `title`. Any other `sortBy` key is not modelled.
- Mongoose chooses which paths of a document to validate on each save. The model validates every field on every save. The two agree when the paths chosen include every path read from the collection.
- TodoQuery.SortTodos: the contract states sortedness and permutation but not that ties keep collection order. The model's sort is stable, but MongoDB's order for ties is unspecified.
- TodoRoutes.SaveNew: does not state the error list of a failed save. The route answers a failed save with a generic 500 whatever the errors are.
- TodoRoutes.TodoStore.Create: states that the new record is `NewTodo` of the trimmed title and description with the caller as owner, and leaves the field-by-field reading to `NewTodo`.
