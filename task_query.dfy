/** The query that `GET /tasks` builds from its parameters
    (routes/tasks.js:9-32), what it selects, and the order it asks for. */
module TaskQuery {
  import opened Wrappers
  import opened Text
  import opened TaskSchema

  /** The query-string parameters; an absent parameter is `None`. */
  datatype QueryParams = QueryParams(
    status: Option<string>,
    priority: Option<string>,
    category: Option<string>,
    search: Option<string>,
    sort: Option<string>)

  /** The filter document: three optional equality constraints and the
      optional `$or` built from `search`. */
  datatype Filter = Filter(
    status: Option<string>,
    priority: Option<string>,
    category: Option<string>,
    search: Option<string>)

  /** The parameter when it is truthy, nothing otherwise. */
  function IfTruthy(p: Option<string>): (r: Option<string>)
    ensures r.Some? <==> Truthy(p)
    ensures r.Some? ==> r == p
  {
    if Truthy(p) then p else None
  }

  function BuildFilter(q: QueryParams): Filter {
    Filter(IfTruthy(q.status), IfTruthy(q.priority), IfTruthy(q.category), IfTruthy(q.search))
  }

  /** The two branches of `$or`: a case-insensitive match on the title, or on
      the description when there is one. */
  predicate SearchHits(t: Task, pattern: string) {
    ContainsIgnoreCase(t.title, pattern)
    || (t.description.Some? && ContainsIgnoreCase(t.description.value, pattern))
  }

  /** The documents `Task.find(filter)` returns. An equality constraint on an
      enum field compares the stored enum string with the parameter. */
  predicate Matches(f: Filter, t: Task) {
    && (f.status.Some? ==> StatusName(t.status) == f.status.value)
    && (f.priority.Some? ==> PriorityName(t.priority) == f.priority.value)
    && (f.category.Some? ==> t.category == f.category)
    && (f.search.Some? ==> SearchHits(t, f.search.value))
  }

  /** What the selection means in terms of the parameters alone: each truthy
      parameter contributes one constraint, a falsy one contributes none, and
      the constraints are ANDed. */
  lemma SelectionByParameters(q: QueryParams, t: Task)
    ensures Matches(BuildFilter(q), t) <==>
      && (Truthy(q.status) ==> ParseStatus(q.status.value) == Some(t.status))
      && (Truthy(q.priority) ==> ParsePriority(q.priority.value) == Some(t.priority))
      && (Truthy(q.category) ==> t.category == q.category)
      && (Truthy(q.search) ==> SearchHits(t, q.search.value))
  {
  }

  /** With no truthy filter parameter every task is selected, whatever
      `sort` says. */
  lemma NoParametersSelectAll(q: QueryParams, t: Task)
    requires !Truthy(q.status) && !Truthy(q.priority) && !Truthy(q.category) && !Truthy(q.search)
    ensures Matches(BuildFilter(q), t)
  {
  }

  /** A status or priority parameter that is not one of the declared enum
      strings is not rejected: it selects nothing. */
  lemma UnknownEnumSelectsNothing(q: QueryParams, t: Task)
    requires (Truthy(q.status) && ParseStatus(q.status.value).None?)
          || (Truthy(q.priority) && ParsePriority(q.priority.value).None?)
    ensures !Matches(BuildFilter(q), t)
  {
  }

  /** The `search` pattern is case-insensitive: it selects the same tasks as
      its lower-cased form. */
  lemma SearchIgnoresPatternCase(q: QueryParams, t: Task)
    requires q.search.Some?
    ensures Matches(BuildFilter(q), t)
        <==> Matches(BuildFilter(q.(search := Some(Lower(q.search.value)))), t)
  {
    ContainsIgnoreCaseFoldsPattern(t.title, q.search.value);
    if t.description.Some? {
      ContainsIgnoreCaseFoldsPattern(t.description.value, q.search.value);
    }
  }

  /** A task whose title is the search string is always found by it. */
  lemma SearchFindsOwnTitle(q: QueryParams, t: Task)
    requires q.search == Some(t.title)
    ensures Matches(BuildFilter(q), t) <==> Matches(BuildFilter(q.(search := None)), t)
  {
    ContainsIgnoreCaseSelf(t.title);
  }

  /** The sort document `{ field: direction }`, direction 1 or -1. */
  datatype SortSpec = SortSpec(field: string, direction: int)

  /** The sort option: `{ createdAt: -1 }` when `sort` is falsy; otherwise the
      parameter with its first '-' removed, descending when it starts with '-'. */
  function BuildSort(sort: Option<string>): (r: SortSpec)
    ensures r.direction == 1 || r.direction == -1
    ensures !Truthy(sort) ==> r == SortSpec("createdAt", -1)
    ensures Truthy(sort) ==> (r.direction == -1 <==> sort.value[0] == '-')
    ensures Truthy(sort) && '-' !in sort.value ==> r.field == sort.value
    ensures Truthy(sort) && '-' in sort.value ==>
      var k := FirstIndex(sort.value, '-');
      r.field == sort.value[..k] + sort.value[k + 1..]
  {
    if Truthy(sort) then
      SortSpec(RemoveFirst(sort.value, '-'), if StartsWith(sort.value, "-") then -1 else 1)
    else
      SortSpec("createdAt", -1)
  }

  /** `sort=f` sorts ascending and `sort=-f` descending on `f`, for a field
      name without '-'. */
  lemma {:induction false} SortPrefixRoundTrip(f: string)
    requires f != "" && '-' !in f
    ensures BuildSort(Some(f)) == SortSpec(f, 1)
    ensures BuildSort(Some("-" + f)) == SortSpec(f, -1)
  {
    assert ("-" + f)[1..] == f;
  }

  /** A '-' inside the parameter is dropped too, and the direction stays
      ascending: `sort=due-Date` sorts ascending on `dueDate`. */
  lemma InnerDashIsDropped()
    ensures BuildSort(Some("due-Date")) == SortSpec("dueDate", 1)
  {
    assert "due-Date"[3] == '-' && '-' !in "due-Date"[..3];
    assert "due-Date"[..3] + "due-Date"[4..] == "dueDate";
  }

  /** `a` may come before `b` when sorting ascending on `field`. Integer
      timestamps compare as integers and a missing `dueDate` comes first.
      Ordering on other fields is not modelled: any order is accepted. */
  predicate KeyLe(field: string, a: Task, b: Task) {
    if field == "createdAt" then a.createdAt <= b.createdAt
    else if field == "updatedAt" then a.updatedAt <= b.updatedAt
    else if field == "dueDate" then a.dueDate.None? || (b.dueDate.Some? && a.dueDate.value <= b.dueDate.value)
    else true
  }

  /** `a` may come before `b` under the sort spec. */
  predicate Precedes(spec: SortSpec, a: Task, b: Task) {
    if spec.direction == -1 then KeyLe(spec.field, b, a) else KeyLe(spec.field, a, b)
  }

  lemma PrecedesTotal(spec: SortSpec, a: Task, b: Task)
    ensures Precedes(spec, a, b) || Precedes(spec, b, a)
  {
  }

  lemma PrecedesTransitive(spec: SortSpec, a: Task, b: Task, c: Task)
    requires Precedes(spec, a, b) && Precedes(spec, b, c)
    ensures Precedes(spec, a, c)
  {
  }

  /** A result list respects the sort spec. */
  predicate Ordered(ts: seq<Task>, spec: SortSpec) {
    forall i, j :: 0 <= i < j < |ts| ==> Precedes(spec, ts[i], ts[j])
  }

  /** `ts` with `t` inserted before the first element it may precede. */
  function Insert(ts: seq<Task>, t: Task, spec: SortSpec): (r: seq<Task>)
    ensures multiset(r) == multiset(ts) + multiset{t}
  {
    if ts == [] then [t]
    else if Precedes(spec, t, ts[0]) then [t] + ts
    else
      assert ts == [ts[0]] + ts[1..];
      [ts[0]] + Insert(ts[1..], t, spec)
  }

  lemma {:induction false} InsertKeepsOrder(ts: seq<Task>, t: Task, spec: SortSpec)
    requires Ordered(ts, spec)
    ensures Ordered(Insert(ts, t, spec), spec)
  {
    if ts == [] {
    } else if Precedes(spec, t, ts[0]) {
      forall j | 0 <= j < |ts| ensures Precedes(spec, t, ts[j]) {
        if j > 0 { PrecedesTransitive(spec, t, ts[0], ts[j]); }
      }
    } else {
      var rest := Insert(ts[1..], t, spec);
      assert Ordered(ts[1..], spec);
      InsertKeepsOrder(ts[1..], t, spec);
      PrecedesTotal(spec, t, ts[0]);
      forall x | x in rest ensures Precedes(spec, ts[0], x) {
        assert x in multiset(rest);
        if x != t {
          assert x in ts[1..];
        }
      }
      var r := [ts[0]] + rest;
      forall i, j | 0 <= i < j < |r| ensures Precedes(spec, r[i], r[j]) {
        if i == 0 { assert r[j] == rest[j - 1] && r[j] in rest; } else { assert r[i] == rest[i - 1] && r[j] == rest[j - 1]; }
      }
    }
  }

}
