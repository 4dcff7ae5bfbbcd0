# Zhihu select helper: a Dafny model of its reconciliation core

The userscript `main.js` watches a Zhihu page for answer blocks
(`.AnswerItem`). For each answer that is expanded and has a header, it keeps
one "select all" button in the header. It registers one Alt+S keyboard
binding each time it attaches a button, and never removes one. A mutation
observer re-runs the per-answer step for the answers touched by the last
observer call of a burst, stopping after a disconnected one (see the
Findings section). A bootstrap pass runs the step once over the answers
present at start-up. Each step is wrapped in a bounded retry.

Once the observer is running (main.js:244-249), each attach or removal the
script makes (main.js:196, 214) is a child-list mutation under it, so it sets
off another observer call for the same answer. That loop settles because a
second step on an unchanged answer is a no-op (`Reconcile.SecondPassIsNoOp`).
The bootstrap pass at main.js:241 runs before `observe` and its step has no
`await`, so its attaches set off no observer call.

This project models that core over an abstract page:

- `wrappers.dfy`: an `Option` type, standing for a lookup that may return `null`.
- `shortcut.dfy`: the keydown filter `altKey && key.toLowerCase() === 's'`.
- `retry.dfy`: `withRetry`, as a loop over a scripted operation. `fn(k)` is
  what the k-th invocation returns or throws. Waits are counted; each lasts
  `RetryDelayMs` (500 ms).
- `batch.dfy`: the batch bookkeeping. `closest('.AnswerItem')` is a map from
  node to answer. The per-batch `processed` set becomes a first-occurrence
  deduplication (`Dedup`).
- `reconcile.dfy`: the answer record (`Block`) and the step on one answer
  (`Step`). A pass over a list of answers is `ReconcileAll`, and the bindings
  it registers are `NewBindings`. The lemmas state what a pass leaves behind.
- `page.dfy`: the class `Page`. Its fields are the answers (`blocks`), the
  `closest` lookup (`enclosing`) and the registered keydown listeners
  (`bindings`), updated in place by `processAnswer`, the observer callback
  and the bootstrap pass. `Valid()` is the page invariant: no answer holds
  more than one button.
- `scenarios.dfy`: client methods that run the model on small concrete pages.

An answer's button count is a number, not a flag. `querySelector` returns the
first `.zh-select-btn` and `remove()` removes only that one. The page
invariant keeps the count at 0 or 1.

One might expect an answer that goes expanded, collapsed, expanded to end
with one binding. In the code the cleanup function that
`setupKeyboardShortcuts` returns is discarded (main.js:110, 215), so bindings
are never removed, and that answer ends with two
(`Scenarios.ExpandCollapseExpand`). The same happens when the host
re-renders a header and drops the button inside it: the next step appends a
new button and a second binding (`Scenarios.HeaderReplacedRebinds`).
Every binding stays live: Alt+S clicks every button ever attached, including
removed ones (`Page.Page.ShortcutTargets`).

## Model

| member | source | states |
|---|---|---|
| `Shortcut.IsSelectShortcut` | main.js:102 | the keydown filter accepts exactly Alt+"s" and Alt+"S" |
| `Retry.WithRetry` | main.js:65-76 | at most `maxAttempts` invocations; the first success is returned at the attempt that produced it; if all fail, exactly `maxAttempts` invocations and the last error is rethrown; one wait between consecutive attempts and none after the last; with `maxAttempts <= 0` nothing is invoked and the result is `undefined` |
| `Batch.ClosestMembers` | main.js:226 | the answers found by `closest` are exactly the enclosing answers of the targets; targets with no enclosing answer contribute nothing |
| `Batch.DedupSpec` | main.js:223-230 | the batch's processed list holds every enclosing answer exactly once, in order of first occurrence |
| `Reconcile.Step` | main.js:187-216 | a disconnected answer is untouched; the host's part of the answer never changes; afterwards a connected answer has a button exactly when it is expanded and has a header; a collapsed or headerless answer loses one stray button; the position becomes `relative` only when a button is appended to a header with no position; at most one button is kept; no second button is ever due |
| `Reconcile.StepIdempotent` | main.js:193-216 | a second step on an unchanged answer changes nothing and appends nothing |
| `Reconcile.SecondPassIsNoOp` | main.js:187-218 | `processAnswer` twice on the same page equals once, and the second call registers no binding |
| `Reconcile.ReconcileAll` | main.js:187-218 | a pass changes no answer's presence in the document, adds no answer, and keeps at most one button per answer |
| `Reconcile.ReconcileAllAt` | main.js:223-241 | after a pass, each listed answer is reconciled once (repeats are no-ops) and every unlisted answer is untouched |
| `Reconcile.NewBindingsSpec` | main.js:200-216 | a pass registers one binding exactly for each listed answer that needed a button, and no answer twice |
| `Reconcile.BatchReconcilesEveryHit` | main.js:222-232 | one batch reconciles each answer that encloses some target, and leaves every other answer untouched |
| `Reconcile.CollapsedNeverGetsButton` | main.js:191-198 | a collapsed answer never gets a button or a binding, however many passes run |
| `Reconcile.PassEstablishesButtonInvariant` | main.js:191-216 | after a pass, a connected answer it visited has a button exactly when it is expanded and has a header |
| `Reconcile.ReconcileAllKeepsLive` | main.js:188 | processing never changes whether an answer is `isConnected` |
| `Reconcile.CallsAsWrittenPrefix` | main.js:225-230 | the as-written loop's calls are a prefix of the deduplicated answers, all to connected answers but possibly the last |
| `Reconcile.CallsAsWrittenComplete` | main.js:227-229 | the as-written loop reaches all answers exactly when every answer before the last is connected |
| `Reconcile.AsWrittenBatchStopsEarly` | main.js:229 | with a removed answer before a live expanded one, the as-written loop processes only the removed one, so the live one gets no button; the corrected loop gives it one |
| `Page.Page.ProcessAnswer` | main.js:187-218 | returns without effect for a disconnected answer; otherwise applies `Step` to that answer only, and appends one binding exactly when a button was appended |
| `Page.Page.OnMutations` | main.js:222-232 | the answers processed are the deduplicated enclosing answers of the batch, each processed once in first-occurrence order; the new page is the pass over them; the bindings only grow |
| `Page.Page.OnMutationsAsWritten` | main.js:222-232 | the loop as written: it stops after the first disconnected answer, and it throws exactly then |
| `Page.Page.Bootstrap` | main.js:239-241 | `forEach(processAnswer)` over the answers in document order is the pass over them |
| `Page.Page.ShortcutTargets` | main.js:100-110 | Alt+S clicks the button of every binding ever registered, in registration order; any other key clicks none |
| `Scenarios.ExpandCollapseExpand` | main.js:187-218 | expanded, collapsed, expanded: one button, two bindings |
| `Scenarios.HeaderReplacedRebinds` | main.js:193-215 | a header re-rendered by the host loses its button; the next step appends a second button and a second binding, and Alt+S then fires both |
| `Scenarios.BootstrapThenShortcut` | main.js:236-241 | an expanded answer present at start-up gets one button and a `relative` header, and Alt+S reaches it |
| `Scenarios.RepeatedBatches` | main.js:222-232 | the processed set is fresh per batch: a later batch processes the same answer again; the first batch gives the answer one button and keeps its `static` position, and the repeat leaves every answer as the first batch left it and registers no further binding |
| `Scenarios.DefaultRetryAlwaysFails` | main.js:40 | with the default bound of 3, an always-failing operation is invoked 3 times, waited on twice, and its third error is rethrown |

## Findings

| source | as written | input that shows it | evidently intended | confidence | as-written member | corrected member |
|---|---|---|---|---|---|---|
| main.js:229 | `processAnswer(answerEl).catch(console.warn)`. `processAnswer` returns `undefined` for a disconnected answer (main.js:188), so `.catch` throws a TypeError that ends the whole batch. | A batch whose first target lies in an answer already removed from the document (`closest` still finds it), and whose second target lies in a live, expanded answer with a header and no button. The live answer is never processed. | Skip the disconnected answer and process the rest of the batch; every entry point is meant to catch and log rather than stop. | high; not executed | `Page.Page.OnMutationsAsWritten` | `Page.Page.OnMutations` |

The counterexample is `Reconcile.AsWrittenBatchStopsEarly`. The corrected
loop's intended property is `Reconcile.BatchReconcilesEveryHit`.
`Page.Page.OnMutations` is the loop the rest of the model uses.

## Left out

- `selectContent` is not modelled: scrolling to `innerHeight * 0.66` is float arithmetic, and the Range/Selection APIs and event dispatch are browser calls. A binding's click is modelled only as the answer it would select (`ShortcutTargets`).
- `debounce` and every timer (100, 200, 300 and 500 ms) are not modelled. The debounced observer callback is one call per batch. Its batch is whatever the caller passes. In the source that is the records of the last observer call in the window only; earlier records are dropped.
- The retry delay is a count of waits, not a time.
- `ProcessAnswer` does not go through the retry wrapper. No step on the abstract page can throw, so `withRetry` around it always returns after its first attempt. `Retry.WithRetry` models the wrapper on its own. The partial-attach race after a mid-step exception is therefore not modelled.
- `Retry.WithRetry`: `maxAttempts` is an integer. A fractional bound, which would make `attempts === maxAttempts` never hold, is not modelled.
- Shortcut.IsSelectShortcut: only A to Z are lowered, not JavaScript's full Unicode `toLowerCase`. The contract is still exact for the source: under the full Unicode lower-case mapping only "s" and "S" lower to "s", and no character lowers to the empty string.
- The `MutationObserver` subscription options, the `DOMContentLoaded`/`readyState` bootstrap and the log lines are browser plumbing.
- `createSelectButton` styling, title and click feedback, and the button CSS, are UI only.
- The CSS selector strings are not modelled. The page answers the selector queries directly: `hasExpandAffordance`, `header`, `buttons`, and the `enclosing` map for `closest`.
- `Page.Page.Bootstrap` takes the answers returned by `querySelectorAll` as a parameter, since they come from the document, not from the script.
- `async`/`await` and promise rejection handling are modelled as sequential results; no concurrency is modelled.
- Host-page changes are given by `Page.Page.HostUpdate`: the host may change an answer's presence, expand affordance and header, and may drop the script's buttons (as re-rendering a header does), but never adds one. The `closest` lookup (`enclosing`) is fixed when the page is built: nodes the host adds later must be listed up front, and the host moving a node into another answer is not modelled. The batch lemmas hold for every such lookup.
