/** The Todo schema of models/Todo.js: the stored record, its field rules, the values
    computed on read (virtuals) and the `completedAt` rule of the pre-save hook. */
module TodoSchema {
  import opened Wrappers
  import opened Text

  type UserId = nat
  type TodoId = nat
  type NoteId = nat
  /** An instant, in milliseconds since the epoch (how JavaScript compares `Date`s). */
  type Time = int

  const TITLE_MAX := 200
  const DESCRIPTION_MAX := 1000
  const CATEGORY_MAX := 50
  const TAG_MAX := 30
  const NOTE_MAX := 500

  datatype Priority = Low | Medium | High | Urgent

  /** The string stored for a priority. */
  function PriorityName(p: Priority): (s: string)
    ensures ParsePriority(s) == Some(p)
  {
    match p
    case Low => "low"
    case Medium => "medium"
    case High => "high"
    case Urgent => "urgent"
  }

  /** The enum validator: a string is a priority only when it is one of the four names. */
  function ParsePriority(s: string): (r: Option<Priority>)
    ensures r.Some? <==> s == "low" || s == "medium" || s == "high" || s == "urgent"
  {
    if s == "low" then Some(Low)
    else if s == "medium" then Some(Medium)
    else if s == "high" then Some(High)
    else if s == "urgent" then Some(Urgent)
    else None
  }

  /** An (hours, minutes) pair as stored in `timeEstimate` and `timeSpent`. */
  datatype Duration = Duration(hours: int, minutes: int)

  /** An embedded note; `id` is the sub-document's `_id`. */
  datatype Note = Note(id: NoteId, content: string, createdAt: Time, updatedAt: Time)

  /** A stored todo. Absent optional strings are "", which no check or filter tells apart. */
  datatype Todo = Todo(
    id: TodoId,
    title: string,
    description: string,
    completed: bool,
    priority: Priority,
    dueDate: Option<Time>,
    category: string,
    tags: seq<string>,
    user: UserId,
    parentTodo: Option<TodoId>,
    subtodos: seq<TodoId>,
    notes: seq<Note>,
    timeEstimate: Duration,
    timeSpent: Duration,
    isArchived: bool,
    completedAt: Option<Time>,
    createdAt: Time,
    updatedAt: Time)

  /** `new Todo({ title, description, user })`: the schema defaults, the `trim` setters,
      and the timestamps written when the document is first saved at `now`. */
  function NewTodo(id: TodoId, user: UserId, title: string, description: Option<string>, now: Time): (r: Todo)
    ensures r.id == id && r.user == user
    ensures r.title == Trim(title) && r.description == (if description.Some? then Trim(description.value) else "")
    ensures !r.completed && r.completedAt.None? && !r.isArchived && r.priority == Medium
    ensures r.subtodos == [] && r.notes == [] && r.tags == [] && r.parentTodo.None? && r.dueDate.None?
    ensures r.timeEstimate == Duration(0, 0) && r.timeSpent == Duration(0, 0)
    ensures r.createdAt == now && r.updatedAt == now
  {
    Todo(id, Trim(title), if description.Some? then Trim(description.value) else "",
      false, Medium, None, "", [], user, None, [], [],
      Duration(0, 0), Duration(0, 0), false, None, now, now)
  }

  // ---------------------------------------------------------------- validation

  /** One failed field rule, in the order the schema declares the fields. */
  datatype FieldError =
    | TitleRequired
    | TitleTooLong
    | DescriptionTooLong
    | DueDateInPast
    | CategoryTooLong
    | TagTooLong(tag: nat)
    | NoteRequired(note: nat)
    | NoteTooLong(note: nat)
    | EstimateHoursNegative
    | EstimateMinutesOutOfRange
    | SpentHoursNegative
    | SpentMinutesOutOfRange

  /** The due-date validator: no due date, or one that is not before `now`. */
  predicate DueDateAllowed(dueDate: Option<Time>, now: Time) {
    dueDate.None? || dueDate.value >= now
  }

  predicate DurationValid(d: Duration) {
    d.hours >= 0 && 0 <= d.minutes <= 59
  }

  /** Every tag from index `from` on has at most 30 characters. */
  predicate TagsFit(tags: seq<string>, from: nat) {
    forall k :: from <= k < |tags| ==> |tags[k]| <= TAG_MAX
  }

  /** Every note from index `from` on has 1..500 characters of content. */
  predicate NotesFit(notes: seq<Note>, from: nat) {
    forall k :: from <= k < |notes| ==> 1 <= |notes[k].content| <= NOTE_MAX
  }

  /** Every field rule of the schema at once. The due date is checked against the time of
      the save, so a stored due date that has since passed fails too. */
  ghost predicate Valid(t: Todo, now: Time) {
    && 1 <= |t.title| <= TITLE_MAX
    && |t.description| <= DESCRIPTION_MAX
    && DueDateAllowed(t.dueDate, now)
    && |t.category| <= CATEGORY_MAX
    && TagsFit(t.tags, 0)
    && NotesFit(t.notes, 0)
    && DurationValid(t.timeEstimate)
    && DurationValid(t.timeSpent)
  }

  /** Errors of the scalar string fields and the due date. */
  function FieldErrors(t: Todo, now: Time): (r: seq<FieldError>)
    ensures TitleRequired in r <==> |t.title| == 0
    ensures TitleTooLong in r <==> |t.title| > TITLE_MAX
    ensures DescriptionTooLong in r <==> |t.description| > DESCRIPTION_MAX
    ensures DueDateInPast in r <==> !DueDateAllowed(t.dueDate, now)
    ensures CategoryTooLong in r <==> |t.category| > CATEGORY_MAX
    ensures r == [] <==> (1 <= |t.title| <= TITLE_MAX && |t.description| <= DESCRIPTION_MAX
      && DueDateAllowed(t.dueDate, now) && |t.category| <= CATEGORY_MAX)
    ensures forall e :: e in r ==> !e.TagTooLong? && !e.NoteRequired? && !e.NoteTooLong?
  {
    var title := if |t.title| == 0 then [TitleRequired] else if |t.title| > TITLE_MAX then [TitleTooLong] else [];
    var description := if |t.description| > DESCRIPTION_MAX then [DescriptionTooLong] else [];
    var dueDate := if !DueDateAllowed(t.dueDate, now) then [DueDateInPast] else [];
    var category := if |t.category| > CATEGORY_MAX then [CategoryTooLong] else [];
    assert forall e :: e in title + description + dueDate + category <==>
      e in title || e in description || e in dueDate || e in category;
    title + description + dueDate + category
  }

  /** One error per tag longer than the bound, for the tags at `from` and after. */
  function TagErrors(tags: seq<string>, from: nat): (r: seq<FieldError>)
    ensures forall e :: e in r ==> e.TagTooLong? && from <= e.tag < |tags| && |tags[e.tag]| > TAG_MAX
    ensures forall k :: from <= k < |tags| && |tags[k]| > TAG_MAX ==> TagTooLong(k) in r
    ensures r == [] <==> TagsFit(tags, from)
    decreases |tags| - from
  {
    if from >= |tags| then []
    else (if |tags[from]| > TAG_MAX then [TagTooLong(from)] else []) + TagErrors(tags, from + 1)
  }

  /** One error per empty or over-long note content, for the notes at `from` and after. */
  function NoteErrors(notes: seq<Note>, from: nat): (r: seq<FieldError>)
    ensures forall e :: e in r ==> (e.NoteRequired? || e.NoteTooLong?) && from <= e.note < |notes|
    ensures forall k :: from <= k < |notes| ==>
      (NoteRequired(k) in r <==> |notes[k].content| == 0) && (NoteTooLong(k) in r <==> |notes[k].content| > NOTE_MAX)
    ensures r == [] <==> NotesFit(notes, from)
    decreases |notes| - from
  {
    if from >= |notes| then []
    else
      var c := notes[from].content;
      (if |c| == 0 then [NoteRequired(from)] else if |c| > NOTE_MAX then [NoteTooLong(from)] else [])
      + NoteErrors(notes, from + 1)
  }

  /** Errors of the two (hours, minutes) pairs. */
  function DurationErrors(t: Todo): (r: seq<FieldError>)
    ensures EstimateHoursNegative in r <==> t.timeEstimate.hours < 0
    ensures EstimateMinutesOutOfRange in r <==> !(0 <= t.timeEstimate.minutes <= 59)
    ensures SpentHoursNegative in r <==> t.timeSpent.hours < 0
    ensures SpentMinutesOutOfRange in r <==> !(0 <= t.timeSpent.minutes <= 59)
    ensures r == [] <==> DurationValid(t.timeEstimate) && DurationValid(t.timeSpent)
    ensures forall e :: e in r ==> (!e.TagTooLong? && !e.NoteRequired? && !e.NoteTooLong?
      && e != TitleRequired && e != TitleTooLong && e != DescriptionTooLong && e != DueDateInPast && e != CategoryTooLong)
  {
    (if t.timeEstimate.hours < 0 then [EstimateHoursNegative] else [])
    + (if !(0 <= t.timeEstimate.minutes <= 59) then [EstimateMinutesOutOfRange] else [])
    + (if t.timeSpent.hours < 0 then [SpentHoursNegative] else [])
    + (if !(0 <= t.timeSpent.minutes <= 59) then [SpentMinutesOutOfRange] else [])
  }

  /** The validation errors of a todo, in schema order; empty exactly when every rule holds. */
  function Validate(t: Todo, now: Time): (r: seq<FieldError>)
    ensures r == [] <==> Valid(t, now)
  {
    var head, tags, notes, times := FieldErrors(t, now), TagErrors(t.tags, 0), NoteErrors(t.notes, 0), DurationErrors(t);
    head + tags + notes + times
  }

  /** An over-long tag is reported by its index, and only over-long tags are. */
  lemma ValidateReportsTags(t: Todo, now: Time, k: nat)
    ensures TagTooLong(k) in Validate(t, now) <==> k < |t.tags| && |t.tags[k]| > TAG_MAX
  {
    var head, tags, notes, times := FieldErrors(t, now), TagErrors(t.tags, 0), NoteErrors(t.notes, 0), DurationErrors(t);
    assert Validate(t, now) == head + tags + notes + times;
    assert TagTooLong(k) !in head && TagTooLong(k) !in notes && TagTooLong(k) !in times;
  }

  /** An empty or over-long note is reported by its index, and only such notes are. */
  lemma ValidateReportsNotes(t: Todo, now: Time, k: nat)
    ensures NoteRequired(k) in Validate(t, now) <==> k < |t.notes| && |t.notes[k].content| == 0
    ensures NoteTooLong(k) in Validate(t, now) <==> k < |t.notes| && |t.notes[k].content| > NOTE_MAX
  {
    var head, tags, notes, times := FieldErrors(t, now), TagErrors(t.tags, 0), NoteErrors(t.notes, 0), DurationErrors(t);
    assert Validate(t, now) == head + tags + notes + times;
    assert NoteRequired(k) !in head && NoteRequired(k) !in tags && NoteRequired(k) !in times;
    assert NoteTooLong(k) !in head && NoteTooLong(k) !in tags && NoteTooLong(k) !in times;
  }

  /** The title, description, due-date and category rules are reported by name. */
  lemma ValidateReportsFields(t: Todo, now: Time, e: FieldError)
    requires e in {TitleRequired, TitleTooLong, DescriptionTooLong, DueDateInPast, CategoryTooLong}
    ensures e in Validate(t, now) <==> e in FieldErrors(t, now)
  {
    var head, tags, notes, times := FieldErrors(t, now), TagErrors(t.tags, 0), NoteErrors(t.notes, 0), DurationErrors(t);
    assert Validate(t, now) == head + tags + notes + times;
    assert e !in tags && e !in notes && e !in times;
  }

  /** A fresh todo is valid exactly when its trimmed title has 1..200 characters and its
      trimmed description at most 1000; having no due date, it passes the date rule. */
  lemma NewTodoValid(id: TodoId, user: UserId, title: string, description: Option<string>, now: Time)
    ensures Valid(NewTodo(id, user, title, description, now), now) <==>
      1 <= |Trim(title)| <= TITLE_MAX
      && (description.Some? ==> |Trim(description.value)| <= DESCRIPTION_MAX)
  {
    var t := NewTodo(id, user, title, description, now);
    assert TagsFit(t.tags, 0) && NotesFit(t.notes, 0);
    assert DurationValid(t.timeEstimate) && DurationValid(t.timeSpent) && DueDateAllowed(t.dueDate, now);
  }

  // ---------------------------------------------------------------- virtuals

  /** `hours * 60 + minutes`. */
  function TotalMinutes(d: Duration): int {
    d.hours * 60 + d.minutes
  }

  /** The `totalTimeEstimate` virtual. For a valid pair it is a minute count that splits
      back into the stored hours and minutes. */
  function TotalTimeEstimate(t: Todo): (r: int)
    ensures DurationValid(t.timeEstimate) ==> r >= 0 && SplitMinutes(r) == t.timeEstimate
  {
    if DurationValid(t.timeEstimate) then DurationIsMinuteCount(t.timeEstimate); TotalMinutes(t.timeEstimate)
    else TotalMinutes(t.timeEstimate)
  }

  /** The `totalTimeSpent` virtual, with the same round trip. */
  function TotalTimeSpent(t: Todo): (r: int)
    ensures DurationValid(t.timeSpent) ==> r >= 0 && SplitMinutes(r) == t.timeSpent
  {
    if DurationValid(t.timeSpent) then DurationIsMinuteCount(t.timeSpent); TotalMinutes(t.timeSpent)
    else TotalMinutes(t.timeSpent)
  }

  /** A valid duration is a minute count expressed as whole hours and the 0..59 rest. */
  lemma {:induction false} DurationIsMinuteCount(d: Duration)
    requires DurationValid(d)
    ensures TotalMinutes(d) >= 0
    ensures d.hours == TotalMinutes(d) / 60 && d.minutes == TotalMinutes(d) % 60
  {
    var n := TotalMinutes(d);
    LemmaDivModUnique(n, d.hours, d.minutes);
  }

  /** The `isOverdue` virtual, evaluated at `now`. */
  function IsOverdue(t: Todo, now: Time): (r: bool)
    ensures r <==> t.dueDate.Some? && !t.completed && now > t.dueDate.value
  {
    if t.dueDate.None? || t.completed then false else now > t.dueDate.value
  }

  /** A todo whose due date passes the validator at `now` is not overdue at `now`. */
  lemma NotOverdueWhenDueDateAllowed(t: Todo, now: Time)
    requires DueDateAllowed(t.dueDate, now)
    ensures !IsOverdue(t, now)
  {
  }

  /** Number of true flags. */
  function CountTrue(flags: seq<bool>): (n: nat)
    ensures n <= |flags|
  {
    if flags == [] then 0 else (if flags[0] then 1 else 0) + CountTrue(flags[1..])
  }

  /** The `completionPercentage` virtual. `children` holds, for each entry of `subtodos`
      in order, whether that entry's `completed` is truthy (a reference that was not
      populated has no `completed` and counts as false). */
  function CompletionPercentage(completed: bool, children: seq<bool>): (r: int)
    ensures 0 <= r <= 100
    ensures children == [] ==> r == (if completed then 100 else 0)
    ensures children != [] ==>
      var n, k := |children|, CountTrue(children);
      // r is 100 * k / n rounded to the nearest integer, halves upwards (Math.round)
      2 * n * r <= 200 * k + n < 2 * n * (r + 1)
  {
    if children == [] then (if completed then 100 else 0)
    else
      var n, k := |children|, CountTrue(children);
      var r := (200 * k + n) / (2 * n);
      LemmaDivBounds(200 * k + n, 2 * n);
      LemmaRoundedPercentBound(k, n, r);
      r
  }

  lemma LemmaDivBounds(x: int, d: int)
    requires x >= 0 && d > 0
    ensures d * (x / d) <= x < d * (x / d + 1)
  {
  }

  lemma LemmaRoundedPercentBound(k: nat, n: nat, r: int)
    requires 0 < n && k <= n
    requires 2 * n * r <= 200 * k + n < 2 * n * (r + 1)
    ensures 0 <= r <= 100
  {
    assert 2 * n * r == (2 * r) * n && 2 * n * (r + 1) == (2 * (r + 1)) * n;
    assert 200 * k + n <= 201 * n;
    LemmaCancel(2 * r, 201, n);
    assert 0 * n == 0;
    LemmaCancel(2 * (r + 1), 0, n);
  }

  /** Dividing both sides of `a * n` against `b * n` by a positive `n`. */
  lemma LemmaCancel(a: int, b: int, n: int)
    requires n > 0
    ensures a * n <= b * n ==> a <= b
    ensures a * n >= b * n ==> a >= b
    ensures a < b ==> a * n < b * n
  {
    if a > b {
      assert a * n == b * n + (a - b) * n;
    } else if a < b {
      assert b * n == a * n + (b - a) * n;
    }
  }

  /** Half of the children done gives 50%. */
  lemma HalfDoneIsFifty()
    ensures CompletionPercentage(false, [true, false]) == 50
  {
  }

  // ---------------------------------------------------------------- pre-save hook

  /** The `completedAt` written by the pre-save hook. `completedModified` is
      `isModified('completed')`; `completed` and `completedAt` are the values being saved. */
  function CompletedAtOnSave(completedModified: bool, completed: bool, completedAt: Option<Time>, now: Time): (r: Option<Time>)
    ensures completedModified ==> (r.Some? <==> completed)
    ensures completedModified && completed && completedAt.None? ==> r == Some(now)
    ensures !(completedModified && completedAt.None?) ==> (r.Some? ==> r == completedAt)
    ensures !completedModified ==> r == completedAt
  {
    if completedModified && completed && completedAt.None? then Some(now)
    else if completedModified && !completed then None
    else completedAt
  }

  /** The record the pre-save hook leaves for a validated document. */
  function AfterHook(t: Todo, completedModified: bool, now: Time): Todo {
    t.(completedAt := CompletedAtOnSave(completedModified, t.completed, t.completedAt, now))
  }

  // ---------------------------------------------------------------- time ledger

  /** JavaScript's `%`, which truncates toward zero (Dafny's `%` is Euclidean). */
  function JsRem(a: int, d: int): (r: int)
    requires d > 0
    ensures a >= 0 ==> r == a % d
    ensures a < 0 ==> r <= 0 && (a - r) % d == 0
    ensures -d < r < d
  {
    if a >= 0 then a % d
    else
      var q, m := (-a) / d, (-a) % d;
      assert a + m == d * -q;
      LemmaModMultiple(-q, d);
      -m
  }

  /** A multiple of `d` leaves no remainder. */
  lemma LemmaModMultiple(k: int, d: int)
    requires d > 0
    ensures (d * k) % d == 0
  {
    var x := d * k;
    var j := k - x / d;
    assert x % d == d * j;
    LemmaCancel(j, 0, d);
    LemmaCancel(j, 1, d);
  }

  /** How `addTimeSpent` stores a minute total: `Math.floor(total / 60)` hours (Dafny's `/`
      by a positive divisor is floor division) and `total % 60` minutes. */
  function SplitMinutes(total: int): Duration {
    Duration(total / 60, JsRem(total, 60))
  }

  /** A non-negative total is stored as whole hours and 0..59 minutes that add back up to it. */
  lemma SplitMinutesSpec(total: int)
    requires total >= 0
    ensures var d := SplitMinutes(total);
      DurationValid(d) && TotalMinutes(d) == total && d.hours == total / 60
  {
  }

  /** For a negative total that is not a whole number of hours, floor division and the
      truncating remainder disagree: the stored pair adds up to one hour less than the total,
      and its minutes are negative, so the save that follows fails validation. */
  lemma {:induction false} SplitNegativeMinutes(total: int)
    requires total < 0 && total % 60 != 0
    ensures TotalMinutes(SplitMinutes(total)) == total - 60
    ensures SplitMinutes(total).minutes < 0
  {
    var q, m := total / 60, total % 60;
    assert total == 60 * q + m;
    var m' := (-total) % 60;
    var q' := (-total) / 60;
    assert -total == 60 * q' + m';
    assert m' == 60 - m by { LemmaDivModUnique(-total, -q - 1, 60 - m); }
  }

  /** The quotient and remainder of a division by 60 are fixed by any decomposition. */
  lemma LemmaDivModUnique(n: int, q: int, m: int)
    requires n == 60 * q + m && 0 <= m < 60
    ensures q == n / 60 && m == n % 60
  {
  }
}
