# trimAndValidate — a Dafny model

This project models the core of the Angular `trimAndValidate` directive: a
behaviour attached to a form-bound text field that

- normalises what the user types (leading whitespace removed, every run of two
  or more whitespace characters collapsed to one space) and writes it back to
  the form control without emitting a new change notification;
- detaches the control's asynchronous validators on every distinct value, and
  re-attaches them and revalidates the control once the value is written back;
- decides where to put the caret after an edit, at once for a Space or
  Backspace key and otherwise after a 400 ms pause; every new distinct value
  cancels the deferred decision whose timer handle `#timeout` holds.

The revalidation call at the end of each processed change does not pass
`emitEvent: false`, so the control announces its (normalised) value on
`valueChanges` again and the directive's own pipeline sees it. When
normalisation changed the text, that announcement is a new distinct value and
a second, nested pass runs before the first pass decides the caret. With a
deferring key, the first pass then overwrites the nested pass's timer handle,
so that decision can no longer be cancelled. The model captures this; the
class takes a flag `revalidationEmits` (`true` for the code as written, `false`
for the variant that passes `emitEvent: false`), and "## Findings" records the
consequence.

Files:

- `wrappers.dfy` — `Option`.
- `forms.dfy` — `Forms.FormControl`, an abstract record of the one form control
  the directive governs: its value, dirty flag, attached asynchronous
  validators, and counters of emitted notifications, silent writes and
  validity updates.
- `helpers.dfy` — module `Helpers`, the helpers file: the whitespace class of
  ECMAScript (WhiteSpace and LineTerminator, sections 12.2 and 12.3 of
  ECMA-262), the normaliser `TrimStringStartAndRemoveMultipleSpaces`, the
  predicates `HasNoSpaces` and `HasSpaceBeforeSelectionStart`, the caret
  decision table `HandleCaretPosition` (a pure function returning the
  sequence of caret writes; the last write is where the caret ends up), and the
  methods `SetInputValue` and `AddAsyncValidators` acting on a `FormControl`.
- `directive.dfy` — module `Directive`, the class `TrimAndValidateDirective`:
  a state machine with the previous distinct value, the latest selection, the
  latest key, the deferred caret decision `#timeout` holds, the deferred
  decisions whose handles were overwritten, the first-value capture and the
  lifecycle phase. Its methods are the events: `OnInput`, `OnKeyDown`,
  `NgOnInit`, `OnValueChange` (one `valueChanges` notification), `TimerFires`
  and `NgOnDestroy`. The RxJS pipeline (`startWith`, `distinctUntilChanged`,
  `tap`, `pairwise`, `withLatestFrom`) is written out as sequential steps.
- `scenarios.dfy` — client event sequences that exercise the directive's
  contracts (debounce, a typed space, repeats, teardown, and the overwritten
  timer handle). A typed value is first stored in the control, which announces
  it, and the announcement is then delivered to the directive.

Strings are sequences of characters standing for UTF-16 code units; caret
positions are offsets into them.

Behaviours of the code that the model keeps as written:

- A value equal to the previous distinct value is dropped before the reset
  step (`distinctUntilChanged` precedes `tap`), so it neither clears the
  pending caret decision nor detaches the validators.
- The pristine test of `setInputValue` compares the raw current text with the
  initial text, not the normalised text (`Helpers.PristineComparesRawText`).
- `settingValueForFirstTime` is only a parameter of `setInputValue`; nothing in
  the directive ever sets it to false.
- The directive calls `setInputValue` with four arguments, a boolean
  (`inputHasInitialValue`) first, while the helper takes five
  (`initialName, currentName, settingValueForFirstTime, form, controlsKey`).
  The helper is modelled as written; the directive model keeps only the silent
  write of the normalised value.
- The seed value given to `startWith` passes the reset step, so right after
  `ngOnInit` the validators are detached and stay so until the first distinct
  change.
- `ngOnDestroy` unsubscribes only the main pipeline: a pending caret decision
  still runs when its timer fires, and a `take(1)` subscription still waiting
  for its value stays live.

## Model

| member | source | states |
|---|---|---|
| `Helpers.LeadingWhitespace` | trim-and-validate.helpers.ts:35 | the count of leading characters `trimStart` removes: all of them whitespace, the next one not, and the non-whitespace characters after them are those of the whole string |
| `Helpers.TrimStart` | trim-and-validate.helpers.ts:35 | `trimStart` leaves no leading whitespace, keeps every non-whitespace character in order, and keeps a string free of adjacent whitespace pairs free of them |
| `Helpers.CollapseRuns` | trim-and-validate.helpers.ts:35 | the global `/\s\s+/` replacement never lengthens the text, is empty only for the empty text, keeps whether the first character is whitespace, leaves no two adjacent whitespace characters and keeps every non-whitespace character in order |
| `Helpers.TrimStringStartAndRemoveMultipleSpaces` | trim-and-validate.helpers.ts:34-36 | the normalised text has no leading whitespace and no adjacent whitespace pair, is no longer than the input, and has exactly the input's non-whitespace characters in order |
| `Helpers.CollapseRunsFixpoint` | trim-and-validate.helpers.ts:35 | a text with no adjacent whitespace pair is left unchanged by the run replacement |
| `Helpers.NormaliseFixpointIff` | trim-and-validate.helpers.ts:34-36 | the normaliser returns its input unchanged exactly when the input has no leading whitespace and no adjacent whitespace pair |
| `Helpers.NormaliseIdempotent` | trim-and-validate.helpers.ts:34-36 | normalising twice gives the same text as normalising once |
| `Helpers.CollapseRunsSplit` | trim-and-validate.helpers.ts:35 | the global `/\s\s+/` replacement acts independently on the two sides of a split after a non-whitespace character: replacing in the concatenation equals concatenating the two replacements |
| `Helpers.TrimStartAppend` | trim-and-validate.helpers.ts:35 | `trimStart` of a concatenation whose first part is not all whitespace only trims that first part |
| `Helpers.LoneWhitespaceKept` | trim-and-validate.helpers.ts:34-36 | in any text, a single whitespace character, such as a tab, between a non-whitespace character and the next one is kept as it is, neither turned into a space nor removed: the text before it and the text after it are normalised independently around it |
| `Helpers.RunBetweenWordsCollapses` | trim-and-validate.helpers.ts:34-36 | in any text, a run of two or more whitespace characters of any kind between a non-whitespace character and the next one becomes exactly one space, with the text on either side normalised independently |
| `Helpers.SpaceIndicesFrom` | trim-and-validate.helpers.ts:17 | the match indices of `/ / g` are increasing, each is the index of a space, and every space from the start index on is listed |
| `Helpers.HasNoSpacesIff` | trim-and-validate.helpers.ts:16-18 | `hasNoSpaces` holds exactly when the text contains no U+0020; other whitespace does not count |
| `Helpers.IndexOfFrom` | trim-and-validate.helpers.ts:24 | the search of `indexOf` returns -1 exactly when the character does not occur from the start index on, and otherwise the first index at which it occurs |
| `Helpers.HasSpaceBeforeSelectionStartIff` | trim-and-validate.helpers.ts:20-25 | `hasSpaceBeforeSelectionStart(s, p)` holds exactly when a space lies at some index at or after `max(0, p - 1)`, and never when `p - 1` is at or beyond the end |
| `Helpers.HandleCaretPosition` | trim-and-validate.helpers.ts:38-73 | the decision table calls `setCaretPosition` at most twice |
| `Helpers.CaretWithoutSpaces` | trim-and-validate.helpers.ts:43-57 | when the previous text has no space, every caret write targets the previous selection start, and a write happens exactly when the text grew over a non-empty selection, or the previous text was non-empty and the text grew by more than one character or shrank |
| `Helpers.CaretPlainTypingUntouched` | trim-and-validate.helpers.ts:43-57 | when the previous text has no space, growing by exactly one character with a collapsed selection writes nothing |
| `Helpers.CaretWithSpaces` | trim-and-validate.helpers.ts:58-72 | when the previous text has a space, the caret ends at the selection start if the current text ends in a space and the start equals its length; otherwise at start - 1 if a space lies at or after start - 1 and the key was Space; otherwise it is not moved |
| `Helpers.CaretAfterPasteOverSelection` | trim-and-validate.helpers.ts:43-57 | pasting over the whole of "ab" (selection 0 to 2) to get "abXY" puts the caret back at 0 |
| `Helpers.DoubleSpaceNormalised` | trim-and-validate.helpers.ts:34-36 | "a  b" normalises to "a b" |
| `Helpers.CaretAfterDoubleSpace` | trim-and-validate.helpers.ts:58-64 | a second space typed at offset 2 of "a b" (giving "a  b") puts the caret at 1 |
| `Helpers.PristineLaw` | trim-and-validate.helpers.ts:77-81 | retyping a non-empty initial value on the first write keeps the control pristine; a later write, or any other value, marks it dirty |
| `Helpers.PristineComparesRawText` | trim-and-validate.helpers.ts:76-81 | a non-empty normalised initial text with one whitespace character put in front (" abc" for "abc") is written back as the initial text, yet the control is marked dirty, because the raw text is compared |
| `Helpers.SetInputValue` | trim-and-validate.helpers.ts:75-82 | the control's value becomes the normalised current text, written without a change notification; the control is pristine exactly when the initial text is non-empty, equals the raw current text and this is the first write, and dirty otherwise; the attached validators are untouched and no explicit `updateValueAndValidity({ onlySelf: true })` is made |
| `Helpers.AddAsyncValidators` | trim-and-validate.helpers.ts:84-87 | the validators are appended to the control's asynchronous validators and `updateValueAndValidity({ onlySelf: true })` runs once; as it does not pass `emitEvent: false`, the control announces its value once more; value, dirty flag and silent writes are untouched |
| `Directive.TrimAndValidateDirective.constructor` | trim-and-validate.directive.ts:30-42 | the inputs are bound, the selection starts as (0, 0), the key as the empty string, no decision is scheduled (the initial no-op timer included) and the first value is not yet captured |
| `Directive.TrimAndValidateDirective.OnInput` | trim-and-validate.directive.ts:44-46 | an input event only overwrites the latest selection |
| `Directive.TrimAndValidateDirective.OnKeyDown` | trim-and-validate.directive.ts:48-50 | a keydown event only overwrites the latest key |
| `Directive.TrimAndValidateDirective.NgOnInit` | trim-and-validate.directive.ts:52-72 | the first-value capture is armed, the control's current value becomes the previous distinct value, the pending decision is cleared and the validators are detached, and nothing is written or revalidated |
| `Directive.TrimAndValidateDirective.OnValueChange` | trim-and-validate.directive.ts:53-107 | one `valueChanges` notification carrying the control's value: the first one after init records, once, whether the value is non-empty; a value equal to the previous distinct one, or any value after teardown, changes nothing else. Any other value is paired with the previous distinct value and the latest selection, with `keyIsSpace` exactly for the key " " and `keyIsBackspace` exactly for "Backspace"; it is written back normalised without a notification and leaves exactly the directive's validators attached. When the revalidation announces and the normalised text differs, that text runs a nested pass, paired with the value: two silent writes, two revalidations and two announcements instead of one each, and the previous distinct value becomes the normalised text. For Space or Backspace the caret writes are the nested pass's followed by the outer pass's, and nothing is scheduled; for any other key nothing is written, `#timeout` holds the outer decision with delay 400 and the nested decision is added, last, to those no handle reaches |
| `Directive.TrimAndValidateDirective.CaptureFirstValue` | trim-and-validate.directive.ts:53-57 | the `take(1)` subscriber sets `inputHasInitialValue` to "value is non-empty" on its one notification and never again |
| `Directive.TrimAndValidateDirective.ProcessValue` | trim-and-validate.directive.ts:59-107 | the main pipeline's effect on one value, as stated for `OnValueChange` apart from the first-value capture |
| `Directive.TrimAndValidateDirective.Passes` | trim-and-validate.directive.ts:66-106 | a distinct value while subscribed: one pass, plus the nested pass when the revalidation announces a normalised text that differs, with the writes and the scheduled decisions stated for `OnValueChange` |
| `Directive.TrimAndValidateDirective.SinglePass` | trim-and-validate.directive.ts:66-106 | a distinct value whose revalidation announces nothing new (it is silent, or repeats the already normalised value, which `distinctUntilChanged` drops) runs exactly one pass: one silent write, one revalidation, the value becomes the previous one, and the decisions no handle reaches are unchanged |
| `Directive.TrimAndValidateDirective.OuterAndNestedPass` | trim-and-validate.directive.ts:66-106 | a value that is not normalised, with an announcing revalidation, runs two passes, the nested one pairing the value with its normalised text; the nested announcement is dropped, so there is no third; the nested caret step precedes the outer one, and with a deferring key the outer step overwrites the nested handle, whose decision joins those no handle reaches |
| `Directive.TrimAndValidateDirective.Pass` | trim-and-validate.directive.ts:66-99 | one pass up to the caret step: the timer `#timeout` holds is cleared, the value is paired with the previous distinct value, the latest selection and the latest key, becomes the previous one, is written back normalised with no notification, exactly the directive's validators end up attached, and the control is revalidated once, announcing its value unless the revalidation is silent |
| `Directive.TrimAndValidateDirective.DecideCaret` | trim-and-validate.directive.ts:100-106 | a Space or Backspace edit yields its caret writes at once and schedules nothing; any other edit yields no write, becomes the decision `#timeout` holds with delay 400, and the decision that handle held before, if any, keeps running without a handle |
| `Directive.TrimAndValidateDirective.TimerFires` | trim-and-validate.directive.ts:103-105 | the earliest scheduled decision yields the caret writes of its edit and is removed; as all share the delay 400, decisions no handle reaches run before the one `#timeout` holds; with nothing scheduled nothing happens; teardown does not stop it |
| `Directive.TrimAndValidateDirective.NgOnDestroy` | trim-and-validate.directive.ts:111-113 | the main pipeline is unsubscribed; the pending decision and the first-value capture are left as they are |
| `Scenarios.DebounceKeepsOnlyTheLastDecision` | trim-and-validate.directive.ts:62-106 | for any three successive distinct values typed with a key other than Space or Backspace ("Delete" included), the scheduled decisions are the nested decision of each value that was not normalised, in typing order, followed by the one decision about the last value, paired with the normalised second value; with three normalised values exactly one decision is left; the first timer to fire runs the first of them |
| `Scenarios.SpaceIsHandledAtOnce` | trim-and-validate.directive.ts:87-101 | a value typed with Space is written back normalised; the caret writes happen at once, those of the nested pass (value to normalised text) first when the value is not normalised, then those of the edit from the previous value; nothing is left scheduled |
| `Scenarios.RepeatedValueIsDropped` | trim-and-validate.directive.ts:62-72 | a normalised value typed again right after it was processed yields no caret write, no second write-back, no second revalidation, and keeps every scheduled decision |
| `Scenarios.RepeatedUnnormalisedValueRunsAgain` | trim-and-validate.directive.ts:62-99 | a value that is not normalised, typed twice, is processed twice, because the previous distinct value has become its normalised text: four silent writes, four revalidations, and six announcements (two typed, four from the revalidations) |
| `Scenarios.TeardownKeepsPendingDecision` | trim-and-validate.directive.ts:100-113 | after teardown a newly typed value is stored in the control but neither normalised nor given caret writes; the decisions scheduled before (the nested one, when the earlier value was not normalised, then the one about that value) stay scheduled, and the first of them runs when its timer fires |
| `Scenarios.TypeDeferring` | trim-and-validate.directive.ts:62-106 | a value stored and announced while a deferring key and the initial selection are latest: the previous distinct value becomes its normalised text, `#timeout` holds the decision about the value, and its nested decision, if any, is added to those no handle reaches |
| `Scenarios.OrphanedDecisionOutlivesNextEdit` | trim-and-validate.directive.ts:97-106 | as written: a value that is not normalised, typed with a deferring key and followed by a normalised edit, leaves two decisions scheduled, the nested one (value to normalised text) and the one about the edit; both run, in that order |
| `Scenarios.SilentRevalidationKeepsOneDecision` | trim-and-validate.directive.ts:97-106 | with a revalidation that passes `emitEvent: false`, the same two edits leave exactly one scheduled decision, about the second edit paired with the first, and the control announces only the two typed values |

The object invariant `Valid()` of `TrimAndValidateDirective`, kept by every
event method, states that the decision `#timeout` holds has delay 400 and
concerns the latest distinct value: it is that value, or, when the
revalidation announces, a text that normalises to it. Every decision no
handle reaches has delay 400 and pairs a text with its normalised form, which
differs from it; with a silent revalidation there are none, so at most one
decision is ever scheduled.

## Left out

- `Directive.TrimAndValidateDirective.OnValueChange`: does not state the control's dirty flag after a processed change, because the directive calls `setInputValue` with arguments that do not match its parameters; the pristine/dirty outcome is stated by `Helpers.SetInputValue`.
- `Helpers.TrimStart`: its contract does not itself say that the result is a suffix of the input; `Helpers.LeadingWhitespace` characterises the dropped prefix and `TrimStart` returns the rest.
- `Helpers.HandleCaretPosition`: its own contract only bounds the number of writes; what the writes are is stated by the caret lemmas beside it.
- The module file (`trim-and-validate.module.ts`) declares the directive and holds no logic.
- DOM access: `setSelectionParameters` reading the event target and `setCaretPosition` calling `setSelectionRange` are replaced by selection values coming into `OnInput` and caret writes coming out of `OnValueChange` and `TimerFires`.
- Real time and `setTimeout` scheduling: the scheduled decisions are the one `#timeout` holds and a queue of those no handle reaches, each with its delay of 400; `TimerFires` is the moment the earliest one's delay has elapsed, and timers of equal delay fire in the order they were scheduled. The initial no-op timer of the source is treated as no scheduled decision.
- Angular's own validity recomputation inside `patchValue` and `setValue` (and that of the parent form group): the counter `validityUpdates` counts only the explicit `updateValueAndValidity` calls, and `statusChanges` notifications are not modelled.
- Angular's form internals: the lookup `inputForm.controls[controlsKeyForValidation]` is a given control (a missing key is a configuration error that is not modelled), validator de-duplication in `addAsyncValidators`, the validity computation itself, and the validator functions, which are opaque identities.
- Host listeners after teardown: Angular removes them with the directive; in the model `OnInput` and `OnKeyDown` still record values, which nothing reads afterwards.
- Teardown before initialisation, after which a later `ngOnInit` would add to an already closed subscription: Angular never calls the hooks in that order, and `NgOnInit` requires the constructed phase.
- Unicode detail: characters outside the Basic Multilingual Plane (surrogate pairs) and grapheme clusters are not modelled.

## Findings

| source | as written | input that shows it | evidently intended | confidence | as-written member | corrected member |
|---|---|---|---|---|---|---|
| trim-and-validate.directive.ts:97-106 | `updateValueAndValidity({ onlySelf: true })` does not pass `emitEvent: false`, so when normalisation changed the text the control announces the normalised text, the pipeline runs a nested pass on it, and with a deferring key the outer pass's `this.#timeout = setTimeout(...)` overwrites the nested pass's handle: no later `clearTimeout` reaches that timer, and its caret decision runs after the user has moved on | seed "", key "x", type " a" then "abcd": two caret decisions run, (" a" to "a") and then ("a" to "abcd"), where only the one about the last edit should | one pass per typed value, and at most one deferred caret decision, which every new distinct value cancels | medium, not executed | `Scenarios.OrphanedDecisionOutlivesNextEdit` | `Scenarios.SilentRevalidationKeepsOneDecision` |

The corrected behaviour is the class constructed with `revalidationEmits`
false; for it, the invariant `Valid()`, which every event method keeps,
includes that no decision is ever scheduled without a handle, so at most one
is scheduled at any time. The rest of the model keeps the code as written.
