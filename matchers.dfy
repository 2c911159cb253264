/** The `pass` computations of the Jest matchers of `src/matchers.ts`: `toMatchQuery`,
    `toThrowQueryEmptyError`, `toBeFound`, `toBeVisible` and `toHaveFocus`. Messages are not
    modelled; what the browser reports about the element is given as data. */
module Matchers {
  import opened Wrappers
  import opened Dom
  import opened QueryErrors
  import opened WaitFor
  import Queries

  /** What a matcher hands to Jest: its `pass`, or nothing yet while the promise it awaits is
      pending, or the TypeError the matcher itself throws. */
  datatype MatcherResult = Waiting | Pass(pass: bool) | Throws

  // ----- toMatchQuery -----

  /** A value of the partial query: a plain value or a regular expression (its `test`). */
  datatype QueryValue = Plain(value: Value) | RegExp(test: string -> bool)

  predicate DistinctKeys(entries: seq<(string, QueryValue)>) {
    forall i, j :: 0 <= i < j < |entries| ==> entries[i].0 != entries[j].0
  }

  /** `Object.entries(query)`: the query's own properties in order; no key occurs twice. */
  type QueryEntries = e: seq<(string, QueryValue)> | DistinctKeys(e) witness []

  /** `query[key]`, None for undefined. */
  function Get(query: seq<(string, QueryValue)>, key: string): Option<QueryValue>
    decreases |query|
  {
    if |query| == 0 then None
    else if query[0].0 == key then Some(query[0].1)
    else Get(query[1..], key)
  }

  /** `if (query[key])`: a regular expression is an object, hence truthy. */
  predicate QueryTruthy(v: Option<QueryValue>) {
    v.Some? && (v.value.RegExp? || Truthy(v.value.value))
  }

  /** What the matcher reads from the element: its accessibility snapshot (None for null),
      `textContent`, `computedRole`, and `node.matches(selector)`. */
  datatype ElementView = ElementView(
    snapshot: Option<Snapshot>,
    textContent: Option<string>,
    computedRole: string,
    matches: QueryValue -> bool)

  /** `node.textContent` as a snapshot value. */
  function TextValue(t: Option<string>): Value {
    match t
    case None => Null
    case Some(s) => Str(s)
  }

  /** An entry of `propertiesContaining`: a plain value or `expect.stringMatching(re)`. */
  datatype Expected = Equals(value: Value) | StringMatching(test: string -> bool)

  /** Whether the `forEach` puts an entry into `propertiesContaining`: every regular
      expression, and every other value except the selector's. */
  predicate Kept(entry: (string, QueryValue)) {
    entry.1.RegExp? || entry.0 != "selector"
  }

  function ToExpected(v: QueryValue): Expected {
    match v
    case Plain(x) => Equals(x)
    case RegExp(test) => StringMatching(test)
  }

  /** The asymmetric matchers: `equals` on plain values, `stringMatching` on strings. */
  predicate Accepts(e: Expected, v: Value) {
    match e
    case Equals(x) => v == x
    case StringMatching(test) => v.Str? && test(v.s)
  }

  /** `this.equals(snapshot, expect.objectContaining(expected))`: every expected key is a key
      of the snapshot whose value the expectation accepts. */
  predicate ObjectContaining(snapshot: Snapshot, expected: map<string, Expected>) {
    forall k :: k in expected ==> k in snapshot && Accepts(expected[k], snapshot[k])
  }

  /** The `forEach` that fills `propertiesContaining`. */
  method PropertiesContaining(query: QueryEntries) returns (expected: map<string, Expected>)
    ensures forall k :: k in expected <==> exists i :: 0 <= i < |query| && query[i].0 == k && Kept(query[i])
    ensures forall i :: 0 <= i < |query| && Kept(query[i]) ==> expected[query[i].0] == ToExpected(query[i].1)
  {
    expected := map[];
    for i := 0 to |query|
      invariant forall k :: k in expected <==> exists j :: 0 <= j < i && query[j].0 == k && Kept(query[j])
      invariant forall j :: 0 <= j < i && Kept(query[j]) ==>
        query[j].0 in expected && expected[query[j].0] == ToExpected(query[j].1)
    {
      var key, property := query[i].0, query[i].1;
      if property.RegExp? {
        expected := expected[key := StringMatching(property.test)];
      } else if key != "selector" {
        expected := expected[key := Equals(property.value)];
      }
    }
  }

  /** The value the comparison sees under `key`: `text` is the element's `textContent` when
      the query has a truthy `text`; `role` is the computed role when the query has a truthy
      `role` and the snapshot's own role is falsy; any other key is the snapshot's. */
  function SnapshotValue(el: ElementView, query: seq<(string, QueryValue)>, key: string): Option<Value> {
    var taken := el.snapshot.GetOr(map[]);
    if key == "text" && QueryTruthy(Get(query, "text")) then Some(TextValue(el.textContent))
    else if key == "role" && QueryTruthy(Get(query, "role")) && !Truthy(Lookup(taken, "role")) then
      Some(Str(el.computedRole))
    else if key in taken then Some(taken[key])
    else None
  }

  /** One property of the query holds for the element. The selector's plain value is checked
      by `node.matches` instead. */
  predicate EntryHolds(el: ElementView, query: seq<(string, QueryValue)>, entry: (string, QueryValue)) {
    var v := SnapshotValue(el, query, entry.0);
    match entry.1
    case RegExp(test) => v.Some? && v.value.Str? && test(v.value.s)
    case Plain(x) => entry.0 == "selector" || v == Some(x)
  }

  /** A truthy selector must match the element. */
  predicate SelectorHolds(el: ElementView, query: seq<(string, QueryValue)>) {
    var selector := Get(query, "selector");
    !QueryTruthy(selector) || el.matches(selector.value)
  }

  /** The element matches the query: the selector, and every property of the query. */
  predicate MatchesQuery(el: ElementView, query: seq<(string, QueryValue)>) {
    SelectorHolds(el, query) && forall i :: 0 <= i < |query| ==> EntryHolds(el, query, query[i])
  }

  /** `toMatchQuery(elementHandle, query)`: completes the snapshot, builds the expected
      properties and compares. */
  method ToMatchQuery(el: ElementView, query: QueryEntries) returns (pass: bool)
    ensures pass == MatchesQuery(el, query)
  {
    var snapshot := el.snapshot.GetOr(map[]);
    ghost var taken := snapshot;
    if QueryTruthy(Get(query, "text")) {
      snapshot := snapshot["text" := TextValue(el.textContent)];
    }
    assert Lookup(snapshot, "role") == Lookup(taken, "role");
    if QueryTruthy(Get(query, "role")) && !Truthy(Lookup(snapshot, "role")) {
      snapshot := snapshot["role" := Str(el.computedRole)];
    }
    assert forall k :: SnapshotValue(el, query, k) == if k in snapshot then Some(snapshot[k]) else None;
    var matches := true;
    var selector := Get(query, "selector");
    if QueryTruthy(selector) {
      matches := el.matches(selector.value);
    }
    var expected := PropertiesContaining(query);
    pass := matches && ObjectContaining(snapshot, expected);
    if ObjectContaining(snapshot, expected) {
      forall i | 0 <= i < |query|
        ensures EntryHolds(el, query, query[i])
      {
        if Kept(query[i]) {
          assert query[i].0 in expected;
        }
      }
    }
    if forall i :: 0 <= i < |query| ==> EntryHolds(el, query, query[i]) {
      forall k | k in expected
        ensures k in snapshot && Accepts(expected[k], snapshot[k])
      {
        var i :| 0 <= i < |query| && query[i].0 == k && Kept(query[i]);
        assert EntryHolds(el, query, query[i]);
      }
    }
  }

  /** The button `<button aria-pressed="false">My button</button>`, as its snapshot shows it. */
  function Button(): ElementView {
    ElementView(
      Some(map["role" := Str("button"), "name" := Str("My button"), "pressed" := Bool(false)]),
      Some("My button"), "button", _ => true)
  }

  /** The button matches role, name and `pressed: false`; it does not match `pressed: true`,
      a name that differs in case, or a property its snapshot lacks. */
  lemma ButtonExamples()
    ensures MatchesQuery(Button(), [("role", Plain(Str("button"))), ("name", Plain(Str("My button"))), ("pressed", Plain(Bool(false)))])
    ensures !MatchesQuery(Button(), [("role", Plain(Str("button"))), ("name", Plain(Str("My button"))), ("pressed", Plain(Bool(true)))])
    ensures !MatchesQuery(Button(), [("name", Plain(Str("My Button")))])
    ensures !MatchesQuery(Button(), [("role", Plain(Str("button"))), ("name", Plain(Str("My button"))), ("selected", Plain(Bool(true)))])
  {
    var q1 := [("role", Plain(Str("button"))), ("name", Plain(Str("My button"))), ("pressed", Plain(Bool(false)))];
    forall i | 0 <= i < |q1|
      ensures EntryHolds(Button(), q1, q1[i])
    {
    }
    var q2 := [("role", Plain(Str("button"))), ("name", Plain(Str("My button"))), ("pressed", Plain(Bool(true)))];
    assert !EntryHolds(Button(), q2, q2[2]);
    var q3 := [("name", Plain(Str("My Button")))];
    assert !EntryHolds(Button(), q3, q3[0]);
    var q4 := [("role", Plain(Str("button"))), ("name", Plain(Str("My button"))), ("selected", Plain(Bool(true)))];
    assert !EntryHolds(Button(), q4, q4[2]);
  }

  // ----- toThrowQueryEmptyError -----

  /** `toThrowQueryEmptyError(promise)`: passes iff the promise rejects with an error named
      `QueryEmptyError`; a resolved promise, or a rejection with undefined, fails. */
  function ToThrowQueryEmptyError<T>(s: Settlement<T, Error>): (r: MatcherResult)
    ensures r != Throws
    ensures r.Waiting? <==> s.Pending?
    ensures r == Pass(true) <==> s.Rejected? && s.reason.Some? && s.reason.value.name == EmptyErrorName
  {
    match s
    case Pending => Waiting
    case Resolved(_) => Pass(false)
    case Rejected(reason) => Pass(reason.Some? && reason.value.name == EmptyErrorName)
  }

  /** On a valid query, `find` meets `toThrowQueryEmptyError` exactly when it gives up after
      a poll that found nothing. */
  lemma FindThrowsQueryEmptyError(q: Queries.Query, timeout: Option<Timeout>, configTimeout: int, results: nat -> Result<seq<Handle>, Error>, ticks: seq<Tick>)
    requires Queries.HasCriteria(q) && Queries.QueryAllResults(results)
    ensures var s := Queries.Find(q, timeout, configTimeout, results, ticks).settlement;
      var n := Queries.FindAllRun(EffectiveTimeout(timeout, configTimeout), results, ticks).completedAtSettlement;
      ToThrowQueryEmptyError(s) == Pass(true) <==> s.Rejected? && n > 0 && results(n - 1) == Success([])
  {
    Queries.FindExactlyOne(q, timeout, configTimeout, results, ticks);
    var all := Queries.FindAll(q, timeout, configTimeout, results, ticks);
    if all.Rejected? {
      Queries.FindAllRejects(q, timeout, configTimeout, results, ticks);
    } else if all.Resolved? {
      Queries.FindAllResolves(q, timeout, configTimeout, results, ticks);
    }
  }

  // ----- toBeFound -----

  const FoundErrorName := "QueryFoundError"
  const FoundMessage := "Found an element matching the query."

  /** `new QueryError('QueryFoundError', 'Found an element matching the query.')`. */
  function FoundError(): (e: Error)
    ensures e.IsQueryError() && e.name == FoundErrorName && e.message == FoundMessage
  {
    NewQueryError(FoundErrorName, FoundMessage, None)
  }

  /** The inner `find` polls once; every invocation of its callback sees the same result. */
  function Once(r: Result<seq<Handle>, Error>): nat -> Result<seq<Handle>, Error> {
    (j: nat) => r
  }

  /** `find(query, { ...findOptions, timeout: 0 })` on the result of its one poll. */
  function FindOnce(q: Queries.Query, configTimeout: int, r: Result<seq<Handle>, Error>): Settlement<Option<Handle>, Error> {
    Queries.Find(q, Some(Ms(0)), configTimeout, Once(r), [AttemptSettles]).settlement
  }

  /** The inner `find` succeeds: a valid query whose poll gave exactly one element. */
  predicate FoundBy(q: Queries.Query, r: Result<seq<Handle>, Error>) {
    Queries.HasCriteria(q) && r.Success? && |r.value| == 1
  }

  /** What the inner `find` throws otherwise. */
  function FindError(q: Queries.Query, r: Result<seq<Handle>, Error>): Error {
    if !Queries.HasCriteria(q) then Queries.ParametersError()
    else
      match r
      case Failure(e) => e
      case Success(elements) => if |elements| == 0 then Queries.EmptyError(Ms(0)) else Queries.MultipleError()
  }

  /** With timeout 0 the inner `find` settles when its poll does, with an element or an error. */
  lemma FindOnceSettles(q: Queries.Query, configTimeout: int, r: Result<seq<Handle>, Error>)
    ensures var s := FindOnce(q, configTimeout, r);
      && (s.Resolved? <==> FoundBy(q, r))
      && (s.Resolved? ==> s.value.Some?)
      && (!s.Resolved? ==> s == Rejected(Some(FindError(q, r))))
  {
    var results := Once(r);
    var all := Queries.FindAll(q, Some(Ms(0)), configTimeout, results, [AttemptSettles]);
    Queries.FindExactlyOne(q, Some(Ms(0)), configTimeout, results, [AttemptSettles]);
    if Queries.HasCriteria(q) {
      var t := EffectiveTimeout(Some(Ms(0)), configTimeout);
      var callback := Queries.Attempts(results, t);
      assert [AttemptSettles][..0] == [];
      assert callback(0) == Queries.AttemptOf(r, t);
      assert all == RunAsWritten(t, callback, [AttemptSettles]).settlement;
      NoTimeoutSingleAttempt(false, t, callback, [AttemptSettles]);
    }
  }

  /** The callback `toBeFound` retries, on the poll result of its k-th invocation. */
  function FoundAttempt(q: Queries.Query, configTimeout: int, isNot: bool, r: Result<seq<Handle>, Error>): Attempt<bool, Error> {
    var s := FindOnce(q, configTimeout, r);
    FindOnceSettles(q, configTimeout, r);
    if s.Resolved? then
      // `throw true`, turned into QueryFoundError by the catch; or `return true`
      if isNot then Threw(FoundError()) else Returned(true)
    else
      var err := s.reason.value;
      if err.IsQueryError() then (if isNot then Returned(false) else Threw(err))
      else Threw(err)
  }

  /** The callback of `toBeFound` in terms of the poll result. Found, it returns true, or
      throws QueryFoundError when negated; not found, it rethrows the error of `find`, or
      returns false when negated and that error is a QueryError. */
  function SpecAttempt(q: Queries.Query, isNot: bool, r: Result<seq<Handle>, Error>): Attempt<bool, Error> {
    if FoundBy(q, r) then
      if isNot then Threw(FoundError()) else Returned(true)
    else if isNot && FindError(q, r).IsQueryError() then Returned(false)
    else Threw(FindError(q, r))
  }

  lemma FoundAttemptSpec(q: Queries.Query, configTimeout: int, isNot: bool, r: Result<seq<Handle>, Error>)
    ensures FoundAttempt(q, configTimeout, isNot, r) == SpecAttempt(q, isNot, r)
  {
    FindOnceSettles(q, configTimeout, r);
  }

  function FoundAttempts(q: Queries.Query, configTimeout: int, isNot: bool, results: nat -> Result<seq<Handle>, Error>): nat -> Attempt<bool, Error> {
    (k: nat) => FoundAttempt(q, configTimeout, isNot, results(k))
  }

  lemma FoundAttemptsSpec(q: Queries.Query, configTimeout: int, isNot: bool, results: nat -> Result<seq<Handle>, Error>)
    ensures forall k: nat :: FoundAttempts(q, configTimeout, isNot, results)(k) == SpecAttempt(q, isNot, results(k))
  {
    forall k: nat
      ensures FoundAttempts(q, configTimeout, isNot, results)(k) == SpecAttempt(q, isNot, results(k))
    {
      FoundAttemptSpec(q, configTimeout, isNot, results(k));
    }
  }

  /** The outer `waitFor(..., { timeout: findOptions.timeout })`; `results(k)` is what the poll
      of the inner `find` gives at its k-th invocation. */
  function ToBeFoundRun(q: Queries.Query, findTimeout: Option<Timeout>, configTimeout: int, isNot: bool, results: nat -> Result<seq<Handle>, Error>, ticks: seq<Tick>): Machine<bool, Error> {
    RunAsWritten(EffectiveTimeout(findTimeout, configTimeout), FoundAttempts(q, configTimeout, isNot, results), ticks)
  }

  /** `pass` from the outcome of `waitFor`: the value it resolves with; if it rejects, whether
      the error is named QueryFoundError (reading `name` of undefined throws). */
  function FoundVerdict(s: Settlement<bool, Error>): MatcherResult {
    match s
    case Pending => Waiting
    case Resolved(b) => Pass(b)
    case Rejected(None) => Throws
    case Rejected(Some(e)) => Pass(e.name == FoundErrorName)
  }

  /** `toBeFound(query, findOptions)`. */
  function ToBeFound(q: Queries.Query, findTimeout: Option<Timeout>, configTimeout: int, isNot: bool, results: nat -> Result<seq<Handle>, Error>, ticks: seq<Tick>): MatcherResult {
    FoundVerdict(ToBeFoundRun(q, findTimeout, configTimeout, isNot, results, ticks).settlement)
  }

  /** The poll failures `queryAll` can give do not carry the name QueryFoundError, and no
      error of the inner `find` does. */
  lemma FindErrorNotFound(q: Queries.Query, r: Result<seq<Handle>, Error>)
    requires r.Failure? ==> r.error == Queries.IframeError()
    ensures FindError(q, r).IsQueryError() && FindError(q, r).name != FoundErrorName
  {
  }

  ghost predicate FailsWithIframeError(results: nat -> Result<seq<Handle>, Error>) {
    forall k: nat :: results(k).Failure? ==> results(k).error == Queries.IframeError()
  }

  lemma PositiveResolved(q: Queries.Query, t: Timeout, callback: nat -> Attempt<bool, Error>, results: nat -> Result<seq<Handle>, Error>, ticks: seq<Tick>)
    requires forall k: nat :: callback(k) == SpecAttempt(q, false, results(k))
    requires RunAsWritten(t, callback, ticks).settlement.Resolved?
    ensures var m := RunAsWritten(t, callback, ticks);
      var n := m.completedAtSettlement;
      && m.settlement.value
      && n >= 1 && FoundBy(q, results(n - 1)) && forall k :: 0 <= k < n - 1 ==> !FoundBy(q, results(k))
  {
    ResolvesWithFirstSuccess(false, t, callback, ticks);
    var n := RunAsWritten(t, callback, ticks).completedAtSettlement;
    forall k | 0 <= k < n - 1
      ensures !FoundBy(q, results(k))
    {
      assert callback(k).Threw?;
    }
  }

  lemma PositiveRejected(q: Queries.Query, t: Timeout, callback: nat -> Attempt<bool, Error>, results: nat -> Result<seq<Handle>, Error>, ticks: seq<Tick>)
    requires FailsWithIframeError(results)
    requires forall k: nat :: callback(k) == SpecAttempt(q, false, results(k))
    requires RunAsWritten(t, callback, ticks).settlement.Rejected?
    ensures var m := RunAsWritten(t, callback, ticks);
      var n := m.completedAtSettlement;
      && (forall k :: 0 <= k < n ==> !FoundBy(q, results(k)))
      && (n == 0 <==> m.settlement.reason.None?)
      && (n > 0 ==> m.settlement.reason.value.name != FoundErrorName)
  {
    RejectsWithLastError(false, t, callback, ticks);
    var n := RunAsWritten(t, callback, ticks).completedAtSettlement;
    forall k | 0 <= k < n
      ensures !FoundBy(q, results(k))
    {
      assert callback(k).Threw?;
    }
    if n > 0 {
      FindErrorNotFound(q, results(n - 1));
    }
  }

  lemma PositiveFrom(q: Queries.Query, t: Timeout, callback: nat -> Attempt<bool, Error>, results: nat -> Result<seq<Handle>, Error>, ticks: seq<Tick>)
    requires FailsWithIframeError(results)
    requires forall k: nat :: callback(k) == SpecAttempt(q, false, results(k))
    ensures var m := RunAsWritten(t, callback, ticks);
      var res := FoundVerdict(m.settlement);
      var n := m.completedAtSettlement;
      && (res == Pass(true) <==> m.settlement.Resolved?)
      && (m.settlement.Resolved? ==> n >= 1 && FoundBy(q, results(n - 1)) && forall k :: 0 <= k < n - 1 ==> !FoundBy(q, results(k)))
      && (res == Pass(false) <==> m.settlement.Rejected? && n > 0)
      && (res == Throws <==> m.settlement.Rejected? && n == 0)
      && (m.settlement.Rejected? ==> forall k :: 0 <= k < n ==> !FoundBy(q, results(k)))
  {
    var m := RunAsWritten(t, callback, ticks);
    if m.settlement.Resolved? {
      PositiveResolved(q, t, callback, results, ticks);
    } else if m.settlement.Rejected? {
      PositiveRejected(q, t, callback, results, ticks);
    }
  }

  lemma NegatedResolved(q: Queries.Query, t: Timeout, callback: nat -> Attempt<bool, Error>, results: nat -> Result<seq<Handle>, Error>, ticks: seq<Tick>)
    requires FailsWithIframeError(results)
    requires forall k: nat :: callback(k) == SpecAttempt(q, true, results(k))
    requires RunAsWritten(t, callback, ticks).settlement.Resolved?
    ensures var m := RunAsWritten(t, callback, ticks);
      var n := m.completedAtSettlement;
      && !m.settlement.value
      && n >= 1 && !FoundBy(q, results(n - 1)) && forall k :: 0 <= k < n - 1 ==> FoundBy(q, results(k))
  {
    ResolvesWithFirstSuccess(false, t, callback, ticks);
    var n := RunAsWritten(t, callback, ticks).completedAtSettlement;
    FindErrorNotFound(q, results(n - 1));
    forall k | 0 <= k < n - 1
      ensures FoundBy(q, results(k))
    {
      FindErrorNotFound(q, results(k));
      assert callback(k).Threw?;
    }
  }

  lemma NegatedRejected(q: Queries.Query, t: Timeout, callback: nat -> Attempt<bool, Error>, results: nat -> Result<seq<Handle>, Error>, ticks: seq<Tick>)
    requires FailsWithIframeError(results)
    requires forall k: nat :: callback(k) == SpecAttempt(q, true, results(k))
    requires RunAsWritten(t, callback, ticks).settlement.Rejected?
    ensures var m := RunAsWritten(t, callback, ticks);
      var n := m.completedAtSettlement;
      && (forall k :: 0 <= k < n ==> FoundBy(q, results(k)))
      && (n == 0 <==> m.settlement.reason.None?)
      && (n > 0 ==> m.settlement.reason == Some(FoundError()))
  {
    RejectsWithLastError(false, t, callback, ticks);
    var n := RunAsWritten(t, callback, ticks).completedAtSettlement;
    forall k | 0 <= k < n
      ensures FoundBy(q, results(k))
    {
      FindErrorNotFound(q, results(k));
      assert callback(k).Threw?;
    }
  }

  lemma NegatedFrom(q: Queries.Query, t: Timeout, callback: nat -> Attempt<bool, Error>, results: nat -> Result<seq<Handle>, Error>, ticks: seq<Tick>)
    requires FailsWithIframeError(results)
    requires forall k: nat :: callback(k) == SpecAttempt(q, true, results(k))
    ensures var m := RunAsWritten(t, callback, ticks);
      var res := FoundVerdict(m.settlement);
      var n := m.completedAtSettlement;
      && (res == Pass(false) <==> m.settlement.Resolved?)
      && (m.settlement.Resolved? ==> n >= 1 && !FoundBy(q, results(n - 1)) && forall k :: 0 <= k < n - 1 ==> FoundBy(q, results(k)))
      && (res == Pass(true) <==> m.settlement.Rejected? && n > 0)
      && (res == Throws <==> m.settlement.Rejected? && n == 0)
      && (m.settlement.Rejected? ==> forall k :: 0 <= k < n ==> FoundBy(q, results(k)))
  {
    var m := RunAsWritten(t, callback, ticks);
    if m.settlement.Resolved? {
      NegatedResolved(q, t, callback, results, ticks);
    } else if m.settlement.Rejected? {
      NegatedRejected(q, t, callback, results, ticks);
    }
  }

  /** `expect(query).toBeFound()`: passes iff some poll finds exactly one element, the first
      such poll deciding; otherwise it fails once the timer gives up, and throws if no poll had
      completed by then. */
  lemma ToBeFoundPositive(q: Queries.Query, findTimeout: Option<Timeout>, configTimeout: int, results: nat -> Result<seq<Handle>, Error>, ticks: seq<Tick>)
    requires Queries.QueryAllResults(results)
    ensures var res := ToBeFound(q, findTimeout, configTimeout, false, results, ticks);
      var m := ToBeFoundRun(q, findTimeout, configTimeout, false, results, ticks);
      var n := m.completedAtSettlement;
      && (res == Pass(true) <==> m.settlement.Resolved?)
      && (m.settlement.Resolved? ==> n >= 1 && FoundBy(q, results(n - 1)) && forall k :: 0 <= k < n - 1 ==> !FoundBy(q, results(k)))
      && (res == Pass(false) <==> m.settlement.Rejected? && n > 0)
      && (res == Throws <==> m.settlement.Rejected? && n == 0)
      && (m.settlement.Rejected? ==> forall k :: 0 <= k < n ==> !FoundBy(q, results(k)))
  {
    FoundAttemptsSpec(q, configTimeout, false, results);
    PositiveFrom(q, EffectiveTimeout(findTimeout, configTimeout), FoundAttempts(q, configTimeout, false, results), results, ticks);
  }

  /** `expect(query).not.toBeFound()` (the matcher's `pass` is false): decided by the first
      poll that does not find exactly one element, no element and several alike; while every
      poll finds one, the timer ends it with `pass` true, or throws if no poll had completed. */
  lemma ToBeFoundNegated(q: Queries.Query, findTimeout: Option<Timeout>, configTimeout: int, results: nat -> Result<seq<Handle>, Error>, ticks: seq<Tick>)
    requires Queries.QueryAllResults(results)
    ensures var res := ToBeFound(q, findTimeout, configTimeout, true, results, ticks);
      var m := ToBeFoundRun(q, findTimeout, configTimeout, true, results, ticks);
      var n := m.completedAtSettlement;
      && (res == Pass(false) <==> m.settlement.Resolved?)
      && (m.settlement.Resolved? ==> n >= 1 && !FoundBy(q, results(n - 1)) && forall k :: 0 <= k < n - 1 ==> FoundBy(q, results(k)))
      && (res == Pass(true) <==> m.settlement.Rejected? && n > 0)
      && (res == Throws <==> m.settlement.Rejected? && n == 0)
      && (m.settlement.Rejected? ==> forall k :: 0 <= k < n ==> FoundBy(q, results(k)))
  {
    FoundAttemptsSpec(q, configTimeout, true, results);
    NegatedFrom(q, EffectiveTimeout(findTimeout, configTimeout), FoundAttempts(q, configTimeout, true, results), results, ticks);
  }

  // ----- toBeVisible and toHaveFocus -----

  /** The callback of `toBeVisible` and `toHaveFocus` at its k-th invocation: it stores what it
      observed in `pass` and throws `false` while that equals `isNot`. */
  function Observe(isNot: bool, observed: nat -> bool): nat -> Attempt<(), bool> {
    (k: nat) => if observed(k) == isNot then Threw(false) else Returned(())
  }

  /** `pass` after `n` invocations completed: the last observation, false before any. */
  function PassAfter(observed: nat -> bool, n: nat): bool {
    if n == 0 then false else observed(n - 1)
  }

  /** The `pass` the matcher reports once `waitFor` has settled, resolved or rejected. */
  function Watched(isNot: bool, observed: nat -> bool, timeout: Timeout, ticks: seq<Tick>): MatcherResult {
    var m := RunAsWritten(timeout, Observe(isNot, observed), ticks);
    if m.settlement.Pending? then Waiting else Pass(PassAfter(observed, m.completedAtSettlement))
  }

  /** Resolved, the last observation differs from `isNot` and every earlier one equalled it;
      rejected by the timer, every observation so far equalled `isNot`, so `pass` is `isNot`,
      or false when none had completed. */
  lemma WatchedPass(isNot: bool, observed: nat -> bool, timeout: Timeout, ticks: seq<Tick>)
    ensures var m := RunAsWritten(timeout, Observe(isNot, observed), ticks);
      var n := m.completedAtSettlement;
      var res := Watched(isNot, observed, timeout, ticks);
      && (res.Waiting? <==> m.settlement.Pending?)
      && (m.settlement.Resolved? ==>
            res == Pass(!isNot) && n >= 1 && forall k :: 0 <= k < n - 1 ==> observed(k) == isNot)
      && (m.settlement.Rejected? ==>
            res == Pass(isNot && n > 0) && forall k :: 0 <= k < n ==> observed(k) == isNot)
  {
    var callback := Observe(isNot, observed);
    var m := RunAsWritten(timeout, callback, ticks);
    var n := m.completedAtSettlement;
    if m.settlement.Resolved? {
      ResolvesWithFirstSuccess(false, timeout, callback, ticks);
      assert callback(n - 1).Returned?;
      forall k | 0 <= k < n - 1
        ensures observed(k) == isNot
      {
        assert callback(k).Threw?;
      }
    } else if m.settlement.Rejected? {
      RejectsWithLastError(false, timeout, callback, ticks);
      forall k | 0 <= k < n
        ensures observed(k) == isNot
      {
        assert callback(k).Threw?;
      }
    }
  }

  /** What one event does to the counters the matcher reads. */
  lemma StepCounters<T, E>(m: Machine<T, E>, tick: Tick, callback: nat -> Attempt<T, E>)
    ensures var next := StepAsWritten(m, tick, callback);
      && next.completed == (if tick == AttemptSettles && m.phase == Running then m.completed + 1 else m.completed)
      && (m.settlement.Pending? && !next.settlement.Pending? ==> next.completedAtSettlement == next.completed)
      && (!m.settlement.Pending? ==>
            next.settlement == m.settlement && next.completedAtSettlement == m.completedAtSettlement)
  {
  }

  /** The retried callback with its closed-over `pass`, driven by the schedule; the matcher
      reads `pass` when `waitFor` settles. */
  method WatchPass(isNot: bool, observed: nat -> bool, timeout: Timeout, schedule: seq<Tick>) returns (res: MatcherResult)
    ensures res == Watched(isNot, observed, timeout, schedule)
  {
    var callback := Observe(isNot, observed);
    var m := Start(timeout);
    var pass := false;
    res := Waiting;
    for i := 0 to |schedule|
      invariant m == RunAsWritten(timeout, callback, schedule[..i])
      invariant pass == PassAfter(observed, m.completed)
      invariant res == if m.settlement.Pending? then Waiting else Pass(PassAfter(observed, m.completedAtSettlement))
    {
      assert schedule[..i + 1][..i] == schedule[..i];
      var tick := schedule[i];
      if tick == AttemptSettles && m.phase == Running {
        pass := observed(m.completed);
      }
      var before := m;
      StepCounters(before, tick, callback);
      m := StepAsWritten(m, tick, callback);
      if before.settlement.Pending? && !m.settlement.Pending? {
        res := Pass(pass);
      }
    }
    assert schedule[..|schedule|] == schedule;
  }

  /** Whether the element is visible at the k-th check: the rule of the `visible` filter. */
  function VisibleAt(nodes: nat -> Node): nat -> bool {
    (k: nat) => Queries.IsVisible(nodes(k))
  }

  /** `toBeVisible(elementHandle, findOptions)`; `nodes(k)` is the element at the k-th check. */
  method ToBeVisible(isNot: bool, nodes: nat -> Node, findTimeout: Option<Timeout>, configTimeout: int, schedule: seq<Tick>) returns (res: MatcherResult)
    ensures res == Watched(isNot, VisibleAt(nodes), EffectiveTimeout(findTimeout, configTimeout), schedule)
  {
    res := WatchPass(isNot, VisibleAt(nodes), EffectiveTimeout(findTimeout, configTimeout), schedule);
  }

  /** Whether `node === document.activeElement` at the k-th check. */
  function FocusedAt(element: NodeId, active: nat -> Option<NodeId>): nat -> bool {
    (k: nat) => active(k) == Some(element)
  }

  /** `toHaveFocus(elementHandle, findOptions)`; `active(k)` is the focused element at the k-th
      check, None when there is none. */
  method ToHaveFocus(isNot: bool, element: NodeId, active: nat -> Option<NodeId>, findTimeout: Option<Timeout>, configTimeout: int, schedule: seq<Tick>) returns (res: MatcherResult)
    ensures res == Watched(isNot, FocusedAt(element, active), EffectiveTimeout(findTimeout, configTimeout), schedule)
  {
    res := WatchPass(isNot, FocusedAt(element, active), EffectiveTimeout(findTimeout, configTimeout), schedule);
  }
}
