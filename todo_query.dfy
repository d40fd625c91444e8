/** The static `findByUser` of models/Todo.js: a query built from the options, run as
    filter, then sort on one field, then skip and limit. */
module TodoQuery {
  import opened Wrappers
  import opened Text
  import opened Seqs
  import opened TodoSchema

  /** The fields a listing may be sorted by. */
  datatype SortField = CreatedAt | UpdatedAt | DueDate | PriorityField | Title

  /** The `options` argument; a missing entry takes the destructuring default. */
  datatype FindOptions = FindOptions(
    page: Option<int>,
    limit: Option<int>,
    completed: Option<bool>,
    priority: Option<string>,
    category: Option<string>,
    search: Option<string>,
    sortBy: Option<SortField>,
    sortOrder: Option<string>)
  {
    function Page(): int { page.GetOr(1) }
    function Limit(): int { limit.GetOr(10) }
    /** `(page - 1) * limit` documents are skipped. */
    function Skip(): int { (Page() - 1) * Limit() }
    function SortBy(): SortField { sortBy.GetOr(CreatedAt) }
    /** Any order other than "desc" sorts ascending. */
    predicate Descending() { sortOrder.GetOr("desc") == "desc" }
  }

  /** MongoDB refuses a negative skip. */
  datatype QueryError = NegativeSkip

  /** A string option counts as given only when present and non-empty (truthy). */
  predicate IsSet(o: Option<string>) {
    o.Some? && o.value != ""
  }

  /** The query document: `{ user, isArchived }` plus the conditions added for given options. */
  datatype Query = Query(
    user: UserId,
    isArchived: bool,
    completed: Option<bool>,
    priority: Option<string>,
    category: Option<string>,
    search: Option<string>)

  /** How the collection evaluates a query document against one todo; `search` is the
      `$or` of case-insensitive matches on title and description. */
  predicate Matches(q: Query, t: Todo) {
    && t.user == q.user
    && t.isArchived == q.isArchived
    && (q.completed.Some? ==> t.completed == q.completed.value)
    && (q.priority.Some? ==> PriorityName(t.priority) == q.priority.value)
    && (q.category.Some? ==> t.category == q.category.value)
    && (q.search.Some? ==>
          ContainsIgnoringCase(t.title, q.search.value) || ContainsIgnoringCase(t.description, q.search.value))
  }

  /** The todos a listing for `userId` with `opts` is meant to contain: the user's own,
      not archived, and agreeing with every filter that is given. */
  predicate Eligible(t: Todo, userId: UserId, opts: FindOptions) {
    && t.user == userId
    && !t.isArchived
    && (opts.completed.Some? ==> t.completed == opts.completed.value)
    && (IsSet(opts.priority) ==> PriorityName(t.priority) == opts.priority.value)
    && (IsSet(opts.category) ==> t.category == opts.category.value)
    && (IsSet(opts.search) ==>
          ContainsIgnoringCase(t.title, opts.search.value) || ContainsIgnoringCase(t.description, opts.search.value))
  }

  /** Builds the query document field by field; it selects exactly the eligible todos. */
  method BuildQuery(userId: UserId, opts: FindOptions) returns (q: Query)
    ensures forall t :: Matches(q, t) <==> Eligible(t, userId, opts)
  {
    q := Query(userId, false, None, None, None, None);
    if opts.completed.Some? {
      q := q.(completed := opts.completed);
    }
    if IsSet(opts.priority) {
      q := q.(priority := opts.priority);
    }
    if IsSet(opts.category) {
      q := q.(category := opts.category);
    }
    if IsSet(opts.search) {
      q := q.(search := opts.search);
    }
  }

  /** A priority filter that names no priority selects nothing. */
  lemma UnknownPriorityMatchesNothing(t: Todo, userId: UserId, opts: FindOptions)
    requires IsSet(opts.priority) && ParsePriority(opts.priority.value).None?
    ensures !Eligible(t, userId, opts)
  {
    assert ParsePriority(PriorityName(t.priority)) == Some(t.priority);
  }

  lemma SearchExample()
    ensures ContainsIgnoringCase("Team meeting notes", "meeting")
    ensures !ContainsIgnoringCase("Grocery list", "meeting")
  {
    assert OccursAt(Lower("Team meeting notes"), Lower("meeting"), 5);
    ContainsIff(Lower("Team meeting notes"), Lower("meeting"));
    assert forall i :: 0 <= i < |Lower("Grocery list")| ==> Lower("Grocery list")[i] != 'm';
    NotContainsWithoutFirst(Lower("Grocery list"), Lower("meeting"));
  }

  // ---------------------------------------------------------------- sort order

  function IntCompare(a: int, b: int): int {
    if a < b then -1 else if a > b then 1 else 0
  }

  /** Dates compare by instant; a missing date sorts before every date. */
  function DateCompare(a: Option<Time>, b: Option<Time>): int {
    match (a, b)
    case (None, None) => 0
    case (None, Some(_)) => -1
    case (Some(_), None) => 1
    case (Some(x), Some(y)) => IntCompare(x, y)
  }

  /** Three-way comparison of two todos on one field. The priority field is a string, so
      it orders alphabetically: high, low, medium, urgent. */
  function Compare(field: SortField, a: Todo, b: Todo): (r: int)
    ensures -1 <= r <= 1
  {
    match field
    case CreatedAt => IntCompare(a.createdAt, b.createdAt)
    case UpdatedAt => IntCompare(a.updatedAt, b.updatedAt)
    case DueDate => DateCompare(a.dueDate, b.dueDate)
    case PriorityField => StrCompare(PriorityName(a.priority), PriorityName(b.priority))
    case Title => StrCompare(a.title, b.title)
  }

  lemma CompareAntisymmetric(field: SortField, a: Todo, b: Todo)
    ensures Compare(field, a, b) == -Compare(field, b, a)
  {
    match field
    case PriorityField => StrCompareAntisymmetric(PriorityName(a.priority), PriorityName(b.priority));
    case Title => StrCompareAntisymmetric(a.title, b.title);
    case _ =>
  }

  lemma CompareTransitive(field: SortField, a: Todo, b: Todo, c: Todo)
    requires Compare(field, a, b) <= 0 && Compare(field, b, c) <= 0
    ensures Compare(field, a, c) <= 0
  {
    match field
    case PriorityField => StrCompareTransitive(PriorityName(a.priority), PriorityName(b.priority), PriorityName(c.priority));
    case Title => StrCompareTransitive(a.title, b.title, c.title);
    case _ =>
  }

  /** `a` may come before `b` in a listing sorted on `field`, descending or not. */
  predicate InOrder(field: SortField, desc: bool, a: Todo, b: Todo) {
    if desc then Compare(field, a, b) >= 0 else Compare(field, a, b) <= 0
  }

  lemma InOrderTotal(field: SortField, desc: bool, a: Todo, b: Todo)
    ensures InOrder(field, desc, a, b) || InOrder(field, desc, b, a)
  {
    CompareAntisymmetric(field, a, b);
  }

  lemma InOrderTransitive(field: SortField, desc: bool, a: Todo, b: Todo, c: Todo)
    requires InOrder(field, desc, a, b) && InOrder(field, desc, b, c)
    ensures InOrder(field, desc, a, c)
  {
    if desc {
      CompareAntisymmetric(field, a, b);
      CompareAntisymmetric(field, b, c);
      CompareAntisymmetric(field, a, c);
      CompareTransitive(field, c, b, a);
    } else {
      CompareTransitive(field, a, b, c);
    }
  }

  /** Each todo of `s` may come before the next. */
  predicate Sorted(s: seq<Todo>, field: SortField, desc: bool) {
    forall i :: 0 < i < |s| ==> InOrder(field, desc, s[i - 1], s[i])
  }

  /** In a sorted listing every todo may come before every later one. */
  lemma {:induction false} SortedPairwise(s: seq<Todo>, field: SortField, desc: bool)
    requires Sorted(s, field, desc)
    ensures forall i, j :: 0 <= i < j < |s| ==> InOrder(field, desc, s[i], s[j])
  {
    if |s| > 1 {
      SortedPairwise(s[1..], field, desc);
      forall j | 1 < j < |s| ensures InOrder(field, desc, s[0], s[j]) {
        assert InOrder(field, desc, s[1..][0], s[1..][j - 1]);
        InOrderTransitive(field, desc, s[0], s[1], s[j]);
      }
      forall i, j | 1 <= i < j < |s| ensures InOrder(field, desc, s[i], s[j]) {
        assert InOrder(field, desc, s[1..][i - 1], s[1..][j - 1]);
      }
    }
  }

  /** `x` placed into sorted `s` before the first todo it may precede. */
  function Insert(x: Todo, s: seq<Todo>, field: SortField, desc: bool): (r: seq<Todo>)
    requires Sorted(s, field, desc)
    ensures Sorted(r, field, desc)
    ensures multiset(r) == multiset(s) + multiset{x}
    ensures r != [] && (r[0] == x || (s != [] && r[0] == s[0]))
  {
    if s == [] || InOrder(field, desc, x, s[0]) then [x] + s
    else
      InOrderTotal(field, desc, x, s[0]);
      var tail := s[1..];
      assert Sorted(tail, field, desc) by {
        forall i | 0 < i < |tail| ensures InOrder(field, desc, tail[i - 1], tail[i]) {
          assert tail[i - 1] == s[i] && tail[i] == s[i + 1];
        }
      }
      var rest := Insert(x, tail, field, desc);
      assert s == [s[0]] + tail;
      var r := [s[0]] + rest;
      assert multiset(r) == multiset{s[0]} + multiset(rest);
      assert Sorted(r, field, desc) by {
        forall i | 0 < i < |r| ensures InOrder(field, desc, r[i - 1], r[i]) {
          if i > 1 {
            assert r[i - 1] == rest[i - 2] && r[i] == rest[i - 1];
          }
        }
      }
      r
  }

  /** A stable insertion sort: the listing order of `.sort({ field: desc ? -1 : 1 })`, ties
      kept in collection order. */
  function SortTodos(s: seq<Todo>, field: SortField, desc: bool): (r: seq<Todo>)
    ensures Sorted(r, field, desc)
    ensures multiset(r) == multiset(s)
  {
    if s == [] then []
    else
      assert s == [s[0]] + s[1..];
      Insert(s[0], SortTodos(s[1..], field, desc), field, desc)
  }

  // ---------------------------------------------------------------- skip and limit

  /** `.limit(n)`: 0 means no limit, a negative limit caps at its magnitude. */
  function Cap(limit: int): (r: Option<nat>)
    ensures r.None? <==> limit == 0
    ensures r.Some? ==> r.value > 0 && (r.value == limit || r.value == -limit)
  {
    if limit == 0 then None else if limit < 0 then Some(-limit) else Some(limit)
  }

  /** The documents left after skipping `skip` and keeping at most `cap` of the rest. */
  function Window<T>(s: seq<T>, skip: nat, cap: Option<nat>): (r: seq<T>)
    ensures skip >= |s| ==> r == []
    ensures skip < |s| ==> |r| == (if cap.None? || skip + cap.value > |s| then |s| - skip else cap.value)
    ensures forall i :: 0 <= i < |r| ==> skip + i < |s| && r[i] == s[skip + i]
  {
    if skip >= |s| then []
    else if cap.None? || skip + cap.value > |s| then s[skip..]
    else s[skip..skip + cap.value]
  }

  /** A window of a sorted listing is sorted. */
  lemma WindowSorted(s: seq<Todo>, skip: nat, cap: Option<nat>, field: SortField, desc: bool)
    requires Sorted(s, field, desc)
    ensures Sorted(Window(s, skip, cap), field, desc)
  {
    var r := Window(s, skip, cap);
    forall i | 0 < i < |r| ensures InOrder(field, desc, r[i - 1], r[i]) {
      assert r[i - 1] == s[skip + i - 1] && r[i] == s[skip + i];
    }
  }

  /** Pages 1..n of size `size`, one after the other. */
  function PagesUpTo<T>(s: seq<T>, size: nat, n: nat): seq<T> {
    if n == 0 then [] else PagesUpTo(s, size, n - 1) + Window(s, (n - 1) * size, Some(size))
  }

  /** Pages 1..n of a fixed listing cover its first n * size entries, each exactly once
      and in listing order: consecutive pages neither overlap nor leave gaps. */
  lemma {:induction false} PagesCover<T>(s: seq<T>, size: nat, n: nat)
    requires size >= 1
    ensures PagesUpTo(s, size, n) == s[..if n * size <= |s| then n * size else |s|]
  {
    if n > 0 {
      PagesCover(s, size, n - 1);
      var k, m := (n - 1) * size, n * size;
      assert m == k + size by {
        assert (n - 1) * size + size == n * size;
      }
      var page := Window(s, k, Some(size));
      assert PagesUpTo(s, size, n) == PagesUpTo(s, size, n - 1) + page;
      if k >= |s| {
        assert page == [];
      } else if m <= |s| {
        assert page == s[k..m];
        assert s[..k] + s[k..m] == s[..m];
      } else {
        assert page == s[k..];
        assert s[..k] + s[k..] == s[..|s|];
      }
    }
  }

  // ---------------------------------------------------------------- findByUser

  /** The eligible todos of the collection, in listing order. */
  function Selection(collection: seq<Todo>, userId: UserId, opts: FindOptions): seq<Todo> {
    SortTodos(Filter(collection, t => Eligible(t, userId, opts)), opts.SortBy(), opts.Descending())
  }

  /** The selection is sorted and holds each eligible todo of the collection as often
      as the collection does, and nothing else. */
  lemma SelectionSpec(collection: seq<Todo>, userId: UserId, opts: FindOptions)
    ensures Sorted(Selection(collection, userId, opts), opts.SortBy(), opts.Descending())
    ensures forall t :: t in Selection(collection, userId, opts) <==> t in collection && Eligible(t, userId, opts)
    ensures forall t :: Eligible(t, userId, opts) ==>
      multiset(Selection(collection, userId, opts))[t] == multiset(collection)[t]
  {
    var kept := Filter(collection, t => Eligible(t, userId, opts));
    assert multiset(Selection(collection, userId, opts)) == multiset(kept);
    forall t | t in Selection(collection, userId, opts) ensures t in collection && Eligible(t, userId, opts) {
      assert t in multiset(kept);
      var i :| 0 <= i < |kept| && kept[i] == t;
    }
    forall t | t in collection && Eligible(t, userId, opts) ensures t in Selection(collection, userId, opts) {
      var i :| 0 <= i < |collection| && collection[i] == t;
      assert t in multiset(kept);
    }
    forall t | Eligible(t, userId, opts) ensures multiset(kept)[t] == multiset(collection)[t] {
      FilterCount(collection, t, (u: Todo) => Eligible(u, userId, opts));
    }
  }

  /** A window of the selection holds eligible todos of the collection, in listing order. */
  lemma WindowOfSelection(collection: seq<Todo>, userId: UserId, opts: FindOptions, skip: nat, cap: Option<nat>)
    ensures var r := Window(Selection(collection, userId, opts), skip, cap);
      && (forall t :: t in r ==> t in collection && Eligible(t, userId, opts))
      && Sorted(r, opts.SortBy(), opts.Descending())
  {
    var found := Selection(collection, userId, opts);
    SelectionSpec(collection, userId, opts);
    WindowSorted(found, skip, cap, opts.SortBy(), opts.Descending());
    var r := Window(found, skip, cap);
    forall t | t in r ensures t in found {
      var i :| 0 <= i < |r| && r[i] == t;
    }
  }

  /** `findByUser(userId, options)` over the collection, in collection order. */
  method FindByUser(collection: seq<Todo>, userId: UserId, opts: FindOptions) returns (r: Result<seq<Todo>, QueryError>)
    ensures r.Failure? <==> opts.Skip() < 0
    ensures r.Success? ==> r.value == Window(Selection(collection, userId, opts), opts.Skip(), Cap(opts.Limit()))
    ensures r.Success? ==> forall t :: t in r.value ==> t in collection && Eligible(t, userId, opts)
    ensures r.Success? ==> Sorted(r.value, opts.SortBy(), opts.Descending())
    ensures r.Success? && opts.Limit() != 0 ==> |r.value| <= (if opts.Limit() < 0 then -opts.Limit() else opts.Limit())
  {
    var page, limit := opts.page.GetOr(1), opts.limit.GetOr(10);
    var query := BuildQuery(userId, opts);
    var sortBy := opts.sortBy.GetOr(CreatedAt);
    var desc := opts.sortOrder.GetOr("desc") == "desc";
    var skip := (page - 1) * limit;
    assert skip == opts.Skip();
    if skip < 0 {
      return Failure(NegativeSkip);
    }
    var matched := Filter(collection, t => Matches(query, t));
    FilterAgree(collection, t => Matches(query, t), t => Eligible(t, userId, opts));
    var found := SortTodos(matched, sortBy, desc);
    assert found == Selection(collection, userId, opts);
    r := Success(Window(found, skip, Cap(limit)));
    WindowOfSelection(collection, userId, opts, skip, Cap(limit));
  }
}
