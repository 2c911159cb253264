# puppeteer-testing-library, modelled in Dafny

puppeteer-testing-library finds elements of a browser page by accessible role, accessible
name, text content, CSS selector and further accessibility properties. It also adds Jest
matchers on top of those queries. This project models the decision logic around the
browser calls:

- `queryAll`, `findAll` and `find` (`src/queries.ts`):
  - the iframe redirect;
  - the filter chain role → name → text → visible;
  - the accessible-name precedence rule and the flattening of label text;
  - the loop that keeps or disposes each element handle;
  - parameter validation, the empty-result message, and the exactly-one rule of `find`.
- `waitFor` (`src/wait-for.ts`):
  - a machine driven by an explicit schedule of events: an invocation settles, the 50 ms pause ends, the timeout timer fires;
  - an imperative method with the source's loop variables, proved equal to that machine;
  - the loop as the source writes it (`RunAsWritten`), which is the loop `findAll`, `toBeFound`, `toBeVisible` and `toHaveFocus` run here, and a corrected loop (`Run`) that stops once the promise has rejected.
- The `QueryError` name tags and `stackPrettifier` (`src/query-error.ts`).
- `launchArgs` (`src/launch-args.ts`), over arrays.
- The `config` record and `configure` (`src/configure.ts`), as a class whose fields `configure` updates.
- How the matchers of `src/matchers.ts` compute `pass`: `toMatchQuery`, `toThrowQueryEmptyError`, `toBeFound`, `toBeVisible` and `toHaveFocus`.

The browser is data:

- A node carries:
  - its computed role and name;
  - its attributes and labels;
  - its text content, its computed style and its bounding rectangle.
- A document scope gives the candidates of a selector and the set of ids present.
- Handles are ids tagged with the poll that produced them, so an examined handle is either returned or listed as disposed.
- Regular expressions are predicates `string -> bool`.

Modules:

- `Wrappers`, `Seqs`, `Strings`: helpers.
- `Dom`: the abstract browser data.
- `QueryErrors`, `WaitFor`, `Configure`, `LaunchArgs`, `Queries`, `Matchers`: one module per source file.

## Model

| member | source | states |
|---|---|---|
| Queries.NamePrecedence | src/queries.ts:54-74 | The first rule that applies gives the name. If an `aria-labelledby` token is a present id, the name is `computedName`. Otherwise, a non-empty `aria-label` gives `computedName`. Otherwise, a non-empty `labels` list gives the label text. Otherwise the name is `computedName`. |
| Queries.EmptyTokenNeverResolves | src/queries.ts:55-59 | An empty `aria-labelledby` splits to the single token `""`, which is never a present id. |
| Queries.LabelTextCharacters | src/queries.ts:41-71 | The label text keeps exactly the non-whitespace characters of the controlling labels' text contents, in label order. How the pieces are collapsed and joined is in the LabelPiecesFlat and LabelTextTrimmed rows. |
| Queries.LabelTextTrimmed | src/queries.ts:66-71 | The label text neither starts nor ends with whitespace. |
| Queries.LabelPiecesFlat | src/queries.ts:41-69 | Every piece joined into the name is non-empty. Every whitespace run in it has been collapsed to one space. |
| Queries.FilterChain | src/queries.ts:45-94 | Filtering in turn by role, name, text and visibility equals one filter by their conjunction. The result is a subsequence of the selector's candidates, in document order. |
| Queries.NoCriteriaNoFilter | src/queries.ts:48-89 | An empty role, name and text and `visible: false` keep every candidate. |
| Queries.Defaults | src/queries.ts:96-113 | When they are absent or empty, the role and name and text arguments are `""` and the selector is `'*'`. An absent `visible` is `true`. |
| Queries.VisibilityRule | src/queries.ts:88-94 | With `visible`, a node without style or with `visibility: hidden` is dropped. Otherwise it is kept iff one of `top`, `bottom`, `width`, `height` is non-zero. `visible: false` keeps every node. |
| Queries.CollectElements | src/queries.ts:117-149 | The loop returns the element handles whose snapshot matches the extra properties, in order. It disposes the other element handles and skips non-element handles. It takes a snapshot per element only when extra keys exist. |
| Queries.ReturnedOrDisposed | src/queries.ts:120-148 | Every element handle is returned or disposed, never both. With no extra keys, every element is returned. |
| Queries.QueryAll | src/queries.ts:16-152 | The method, with its reassigned root, computes the value-level `queryAll`. |
| Queries.IframeRedirect | src/queries.ts:20-37 | An `IFRAME` root without a content document fails with `QueryIframeError`, and nothing else fails. An iframe with a document is searched in that document, any other root in itself. |
| Queries.KeptHandles | src/queries.ts:117-149 | Every kept handle belongs to the current poll. A matching node's handle is kept iff its snapshot has the extra properties. |
| Queries.QueryAllFinds | src/queries.ts:16-152 | A candidate of the selector is found iff it passes every filter and its snapshot matches the extra properties. |
| Queries.PollsAreQueryAllResults | src/queries.ts:24-152 | One poll per invocation yields only iframe errors or handles tagged with that poll. |
| Queries.ParametersRequired | src/queries.ts:158-163 | With role, name, selector and text all falsy, `findAll` rejects with `QueryParametersError`, whatever the documents and the schedule. |
| Queries.FindAllResolves | src/queries.ts:165-176 | `findAll` resolves with the non-empty result of the first poll that found something. Every earlier poll found nothing or failed. |
| Queries.FindAllInResolves | src/queries.ts:165-176 | On documents, every resolved handle comes from the last poll. |
| Queries.FindAllRejects | src/queries.ts:158-176 | A rejection carries one of these: the parameters error; the last poll's own error; `QueryEmptyError` when the last poll found nothing; undefined when the timer fired before any poll completed. |
| Queries.FindAllRejectsWithQueryError | src/queries.ts:158-176 | On `queryAll` results, every defined rejection is a `QueryError`: parameters, iframe or empty. |
| Queries.EmptyMessages | src/queries.ts:168-172 | Timeout 0 or `false` gives `Unable to find any nodes.` |
| Queries.EmptyMessageDefault | src/queries.ts:168-172 | Timeout 3000 gives `Unable to find any nodes within 3000ms.` |
| Queries.EmptyMessageNegative | src/queries.ts:168-172 | A negative timeout polls once but still says ` within -5ms.` |
| Queries.FindExactlyOne | src/queries.ts:179-191 | `find` resolves iff `findAll` resolves with exactly one element, and then with that element. With more elements, it disposes all of them and rejects with `QueryMultipleError`. A rejection of `findAll` passes through. Both promises are pending together. |
| Queries.FindWithoutTimeout | src/queries.ts:179-191 | With timeout 0, `find` settles after its one poll: with an element, or rejected with a `QueryError`. |
| Queries.PolledElementsMembers | src/queries.ts:165-176 | The elements of a range of polls are exactly the elements those polls found. |
| Queries.LateElementsInFlight | src/queries.ts:165-176 | When the timer fires while a poll is in flight and that poll then finds an element, `findAll` rejects and the element is neither returned nor disposed. |
| Queries.LateElementsAfterPause | src/queries.ts:165-176 | When the timer fires during the pause, the extra poll of the loop as written finds an element after `findAll` rejected, and the element is neither returned nor disposed. |
| Queries.NoElementLeaks | src/queries.ts:165-176 | With late elements disposed, every element of a completed poll is returned or disposed. Only such elements are disposed, and a resolved `findAll` disposes nothing. |
| Queries.ConfiguredTimeoutZero | src/queries.ts:156 | After `configure({ timeout: 0 })`, a `find` without its own timeout polls once. An empty poll rejects it with `QueryEmptyError`. |
| WaitFor.EffectiveTimeout | src/wait-for.ts:12 | An omitted timeout is the configured one. |
| WaitFor.TimerArmedIffPositive | src/wait-for.ts:19-26 | The timer is armed iff the timeout is a number greater than 0. |
| WaitFor.NoTimeoutSingleAttempt | src/wait-for.ts:28-38 | Without a timer, the callback runs exactly once and its outcome settles the promise. |
| WaitFor.ResolvesWithFirstSuccess | src/wait-for.ts:28-58 | A resolution carries the first returned value. Every earlier invocation threw, none ran after it, and the timer is cleared. |
| WaitFor.RejectsWithLastError | src/wait-for.ts:17-38 | A rejection carries the last recorded error, or undefined before any failure. Every completed invocation threw. Without a timer, exactly one completed. |
| WaitFor.FailureWithTimeoutPauses | src/wait-for.ts:31-46 | With a timer, a failure is recorded and swallowed. The loop pauses and the promise stays pending. |
| WaitFor.TimerRejectsWithRecordedError | src/wait-for.ts:22-25 | The timer rejects with the error recorded so far. All completed invocations failed. |
| WaitFor.AttemptsSequential | src/wait-for.ts:28-48 | At most one invocation is in flight. One is in flight iff the loop is running. |
| WaitFor.SingleSettlement | src/wait-for.ts:22-58 | `resolve` and `reject` are called at most once in all. |
| WaitFor.SettlementIsFinal | src/wait-for.ts:40-52 | Later events never change a settled outcome. |
| WaitFor.NoAttemptAfterSettlement | src/wait-for.ts:40-46 | In the corrected loop, no invocation starts after settlement. |
| WaitFor.AtMostOneLateAttempt | src/wait-for.ts:40-46 | In the loop as written, at most one invocation starts after settlement, and only after a rejection by the timer. |
| WaitFor.LateAttemptAsWritten | src/wait-for.ts:40-46 | A concrete schedule on which the loop as written starts a second invocation after rejecting. The corrected loop does not. |
| WaitFor.SettlementAgrees | src/wait-for.ts:28-58 | The extra invocation of the loop as written never changes how the promise settles, nor how many invocations had completed when it settled. |
| WaitFor.WaitFor | src/wait-for.ts:10-60 | The loop with the source's variables settles as the machine as written does, after as many invocations. |
| QueryErrors.NewQueryError | src/query-error.ts:2-12 | A `QueryError` with the given name and message. |
| QueryErrors.NewQueryEmptyError | src/query-error.ts:14-18 | A `QueryError` named `QueryEmptyError`. |
| QueryErrors.NewQueryMultipleError | src/query-error.ts:20-24 | A `QueryError` named `QueryMultipleError`. |
| QueryErrors.ErrorKindsDistinct | src/query-error.ts:14-24 | Empty and multiple errors are both `QueryError`s and never equal. |
| QueryErrors.ParentLines | src/query-error.ts:27 | The parent's frames have no newline. |
| QueryErrors.TraceStart | src/query-error.ts:37-38 | When the message occurs, the offset is one past the end of its first occurrence, skipping the newline after it. When the message is absent, the offset is the message's length. |
| QueryErrors.MergedLines | src/query-error.ts:32-35 | The merged stack splits into the error's lines followed by the parent's, each line kept once at its first occurrence, with none lost. |
| QueryErrors.KeepAfterLastInternalSpec | src/query-error.ts:39-47 | The kept lines are a suffix with no internal line, and the line before them is internal. Without internal lines, everything is kept. |
| QueryErrors.TraceNoInternal | src/query-error.ts:39-47 | No line of the trace contains the internal marker. |
| QueryErrors.TraceWhole | src/query-error.ts:41-47 | Without internal lines, the trace is the whole remainder. |
| QueryErrors.PrettyStackShape | src/query-error.ts:49 | The new stack is the message, a newline and the trace. |
| QueryErrors.Prettify | src/query-error.ts:29-51 | Undefined passes through. A defined error keeps its class, name and message. |
| QueryErrors.PrettifierResult | src/query-error.ts:26-52 | The prettifier returns the same error with only `stack` replaced. |
| LaunchArgs.FlagIndex | src/launch-args.ts:2-4 | The result is the first argument starting with `--enable-blink-features=`, or -1. |
| LaunchArgs.DefaultArgs | src/launch-args.ts:1-8 | `launchArgs()` yields exactly the flag. |
| LaunchArgs.AppendsFlag | src/launch-args.ts:6-8 | With no such argument, the flag is appended. |
| LaunchArgs.KeepsEnabled | src/launch-args.ts:10-12 | The input comes back when its first such argument names the feature. |
| LaunchArgs.ExtendsFirstFlag | src/launch-args.ts:14-17 | Otherwise only that argument changes, by `,ComputedAccessibilityInfo`. |
| LaunchArgs.FeatureEnabled | src/launch-args.ts:6-17 | The first flag argument of the result names the feature. |
| LaunchArgs.Idempotent | src/launch-args.ts:1-18 | Applying `launchArgs` twice equals applying it once. |
| LaunchArgs.LaunchArgs | src/launch-args.ts:1-18 | The input array is never written. The result is the input itself iff the feature was already named, else a fresh array holding the rewritten arguments. |
| Configure.InitialState | src/configure.ts:8-13 | The timeout is 3000 and `page` is unset. |
| Configure.Config.constructor | src/configure.ts:8-13 | The record starts in the initial state. |
| Configure.LastWriteWins | src/configure.ts:17 | A supplied field takes the last value supplied. Unsupplied fields keep their value. |
| Configure.AssignCompose | src/configure.ts:17 | Two successive merges equal one merge of both updates. |
| Configure.RestoreSnapshot | src/configure.ts:15-19 | Passing the returned snapshot back restores the timeout and the page. |
| Configure.AsWrittenStopsAtPage | src/configure.ts:10-17 | As written, the merge agrees up to the first `page` property and throws there. |
| Configure.AsWrittenThrowsOnPage | src/configure.ts:10-17 | As written, `configure` throws iff `page` is supplied, and never stores a page. |
| Configure.AsWrittenRestoreThrows | src/configure.ts:10-17 | As written, passing the snapshot back restores the timeout and then throws. |
| Configure.Config.Configure | src/configure.ts:15-19 | As written: either it returns the previous configuration, or it fails with the `TypeError`; the new state is the merge as written. |
| Configure.Config.ConfigureIntended | src/configure.ts:15-19 | As intended: every field is written and the previous configuration is returned. |
| Configure.ConfigureAndRestore | src/configure.ts:15-19 | Configuring and then restoring leaves the timeout and the page as they were. |
| Configure.ConfigureAndRestoreAsWritten | src/configure.ts:10-19 | As written, setting `page` throws, and so does restoring. The state stays the same. |
| Matchers.PropertiesContaining | src/matchers.ts:44-51 | The map holds exactly these keys: those of a `RegExp` value, and every key other than `selector`. A `RegExp` becomes a string matcher; every other key keeps its value. |
| Matchers.ToMatchQuery | src/matchers.ts:12-55 | Passes iff the selector matches (when one is given) and every expected key is in the augmented snapshot with an accepted value. Text is added only for a truthy `text`. Role comes from `computedRole` only for a truthy `role` the snapshot lacks. |
| Matchers.ButtonExamples | test/matchers.test.ts:8-38 | The four button cases: one match and three mismatches. |
| Matchers.ToThrowQueryEmptyError | src/matchers.ts:211-224 | Passes iff the promise rejects with an error named `QueryEmptyError`. A resolved promise fails. |
| Matchers.FindThrowsQueryEmptyError | src/matchers.ts:211-224 | On `find`, passes iff it rejects after a poll that found nothing. |
| Matchers.FoundError | src/matchers.ts:278-281 | `QueryFoundError` is a `QueryError` with the fixed message. |
| Matchers.FindOnceSettles | src/matchers.ts:269 | The inner `find` with timeout 0 resolves iff its poll found exactly one element. Otherwise it rejects with that poll's error. |
| Matchers.FindErrorNotFound | src/matchers.ts:277-290 | The inner `find` never fails with `QueryFoundError`. |
| Matchers.FoundAttemptSpec | src/matchers.ts:266-292 | One attempt follows the decision table. Non-negated: found returns true, otherwise the error is rethrown. Negated: found throws `QueryFoundError`, otherwise it returns false. |
| Matchers.ToBeFoundPositive | src/matchers.ts:257-298 | `toBeFound` passes iff some poll finds exactly one element, and that is the first such poll. Otherwise it fails, or throws when no poll had completed. |
| Matchers.ToBeFoundNegated | src/matchers.ts:257-298 | `.not.toBeFound` resolves false at the first poll that does not find exactly one element: none, several, or an iframe error (so it passes). Otherwise it rejects with `QueryFoundError` (so it fails), or throws when no poll had completed. |
| Matchers.WatchedPass | src/matchers.ts:125-143 | After resolution, `pass` is `!isNot` and every earlier observation equalled `isNot`. After rejection, `pass` is `isNot` if there was an observation and false otherwise. |
| Matchers.WatchPass | src/matchers.ts:125-143 | The loop over the schedule yields the same verdict as the settlement machine. |
| Matchers.ToBeVisible | src/matchers.ts:120-165 | `toBeVisible` watches the node with the visibility rule of `queryAll`. |
| Matchers.ToHaveFocus | src/matchers.ts:167-209 | `toHaveFocus` watches whether the element is the active element. |

## Left out

- Browser and Puppeteer calls are inputs.
  - Covered: `evaluateHandle`, `evaluate`, `getProperties`, `contentFrame`, `accessibility.snapshot`, `getComputedStyle`, `getBoundingClientRect`, `computedRole`, `computedName`, `node.matches`.
  - Their results are supplied as node, scope and snapshot data, one per poll. A failure of these calls is not modelled.
- CSS semantics are not modelled. Which styles give a zero rectangle is the browser's business.
- The regular-expression engine is not modelled. Patterns are uninterpreted predicates, and the stack marker is a substring test.
- Timers and promise scheduling are not modelled. `setTimeout`, `clearTimeout` and the 50 ms pause are events of a schedule, and the k-th invocation's outcome is a function of k.
- `Object.is` on floating-point values is not modelled. Property values are strings, booleans and integers.
- Timeouts are whole numbers of milliseconds. A fractional timeout such as 0.5, which arms the timer and reads ` within 0.5ms.` in the empty-result message, cannot be expressed.
- Strings are sequences of Unicode scalar values, not UTF-16 code units. Lengths and offsets (`length`, `indexOf`, `slice`) differ from JavaScript's for text with characters outside the Basic Multilingual Plane; all of them count in the same unit here.
- `Error.captureStackTrace` is not modelled. The stack is a given optional string.
- The prettifier's overwrite of `error.stack` is modelled as a value update of the same error, so aliasing is not modelled.
- `Promise.all` disposal is not modelled as concurrent. Disposal is a returned list of handles, in order.
- The disposal of `elementsHandle` and the concurrency of disposal are not modelled.
- Jest integration is not modelled:
  - message text, `matcherHint`, `jest-diff`;
  - `this.equals` beyond a flat contains-check;
  - `expect.extend` in `src/extend-expect.ts`;
  - `toBeElement`.
- `src/types.ts` and `src/index.ts` are not modelled, since they contain no logic. The `Query` type is a record with optional fields.
- Queries.FindAll: `findAll` is stated over any sequence of poll results. `Queries.FindAllIn` ties it to `queryAll` on documents.
- Queries.FindAll: a poll that runs after the promise has rejected also does browser work that nobody awaits. Only the elements it finds are modelled, by `Queries.LateElements`.
- Matchers.ToBeFound: the handle the inner `find` resolves with is never disposed by `toBeFound`. The model does not track it. The same holds for the late polls of its `waitFor`.
- Matchers.ToBeFound: each outer attempt's inner `find` sees one poll result, the outer attempt's.
- Matchers.ToBeFound: when `waitFor` rejects with undefined (the timer fired before any attempt completed), `err.name` throws a `TypeError`. This is modelled as `Throws`, without its message.
- Matchers.ToBeVisible: an error thrown by `evaluate` inside the callback is not modelled. The observation is a given boolean per invocation. The same holds for Matchers.ToHaveFocus.
- Queries.QueryAllFinds: addresses nodes by id. Two candidate nodes with the same id are not told apart.

## Findings

| source | as written | input that shows it | evidently intended | confidence | as-written member | corrected member |
|---|---|---|---|---|---|---|
| src/wait-for.ts:40-46 | `hasRejected` is checked only before the 50 ms pause. If the timer rejects during the pause, the loop still starts another invocation. | timeout 100; the first invocation throws; the timer fires during the pause; the pause ends | Stop the loop once the promise has rejected, with no invocation after settlement | high, not executed | WaitFor.LateAttemptAsWritten | WaitFor.NoAttemptAfterSettlement |
| src/configure.ts:10-17 | `page` is a getter without a setter, so `Object.assign(config, { page })` throws a `TypeError`. This includes passing back the snapshot `configure` returned, although test/configure.test.ts:25 configures a page. | `configure({ page: p })`, or `configure(configure({ timeout: 0 }))` | Store the supplied page; restore the snapshot | medium, not executed | Configure.AsWrittenRestoreThrows | Configure.RestoreSnapshot |
| src/wait-for.ts:50-52 | A poll that completes after the promise has rejected is dropped together with its result. For `findAll` (src/queries.ts:165-176), the element handles that poll found are neither returned nor disposed. This happens when the timer fires while a poll is in flight, even in the corrected loop, and with the extra poll after the pause. | timeout 100; the timer fires, then the first poll finds one element | Dispose the elements of a poll that completes after settlement | medium, not executed | Queries.LateElementsInFlight | Queries.NoElementLeaks |
