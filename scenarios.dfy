/**
  Client sequences of events driven through the directive, in the manner of a
  test harness: what callers can conclude from the contracts of the event
  methods alone. The texts and keys are parameters, so each sequence covers
  every input of its shape. A value typed by the user is first stored in the
  control (`SetValue`), which announces it, and that announcement is then
  delivered to the directive (`OnValueChange`).
 */
module Scenarios {
  import opened Wrappers
  import opened Forms
  import opened Helpers
  import opened Directive

  /** Keys that defer the caret decision. */
  predicate DefersCaret(key: string) {
    key != " " && key != "Backspace"
  }

  /** The decision a nested pass schedules for a value `v` typed with a
      deferring key and the initial selection: one when `v` is not normalised,
      none otherwise. */
  function NestedDecision(v: string, key: string): seq<Deferred> {
    var normal := TrimStringStartAndRemoveMultipleSpaces(v);
    if normal != v then [Deferred(EditOf(v, Selection(0, 0), normal, key), CaretDelay)] else []
  }

  /** The user types `v` while the latest key defers the caret decision and
      the selection is the initial one: the control stores and announces
      `v`, and the directive processes the announcement. The last distinct
      value becomes the normalised text; `#timeout` holds the decision about
      `v`, and a nested pass adds its decision to those nothing holds. */
  method TypeDeferring(d: TrimAndValidateDirective, v: string)
    requires d.Valid() && d.phase == Running && d.revalidationEmits
    requires DefersCaret(d.currentKey) && d.selection == Selection(0, 0)
    requires d.previousName != Some(v)
    modifies d, d.control
    ensures d.Valid() && d.phase == Running
    ensures d.currentKey == old(d.currentKey) && d.selection == old(d.selection)
    ensures d.previousName == Some(TrimStringStartAndRemoveMultipleSpaces(v))
    ensures d.pending ==
      Some(Deferred(EditOf(old(d.previousName).value, Selection(0, 0), v, d.currentKey), CaretDelay))
    ensures d.orphans == old(d.orphans) + NestedDecision(v, d.currentKey)
  {
    d.control.SetValue(v);
    var ignore := d.OnValueChange(v);
  }

  /** The user types `v` after teardown: the control stores and announces it,
      and the directive ignores the announcement. */
  method TypeAfterTeardown(d: TrimAndValidateDirective, v: string) returns (writes: seq<int>)
    requires d.Valid() && d.phase == Destroyed
    modifies d, d.control
    ensures d.Valid() && d.phase == Destroyed
    ensures writes == [] && d.control.value == v
    ensures d.pending == old(d.pending) && d.orphans == old(d.orphans)
  {
    d.control.SetValue(v);
    writes := d.OnValueChange(v);
  }

  /** Two timers fire, the earliest scheduled first. */
  method FireTwice(d: TrimAndValidateDirective) returns (first: seq<int>, second: seq<int>)
    requires d.Valid() && |d.Scheduled()| >= 2
    modifies d`pending, d`orphans
    ensures first == HandleCaretPosition(old(d.Scheduled())[0].edit.previous,
                                         old(d.Scheduled())[0].edit.current)
    ensures second == HandleCaretPosition(old(d.Scheduled())[1].edit.previous,
                                          old(d.Scheduled())[1].edit.current)
  {
    first := d.TimerFires();
    second := d.TimerFires();
  }

  /** Three values typed in quick succession with a deferring key. Each one
      cancels the decision `#timeout` holds, so of the decisions about the
      typed values only the last one is left; but every typed value that was
      not normalised also left the decision of its nested pass, which nothing
      cancels and which runs first. With normalised values, one decision is
      left. */
  method DebounceKeepsOnlyTheLastDecision(seed: string, v1: string, v2: string, v3: string,
                                          key: string, validators: seq<AsyncValidatorFn>)
      returns (scheduled: seq<Deferred>, fired: seq<int>)
    requires v1 != seed
    requires v2 != TrimStringStartAndRemoveMultipleSpaces(v1)
    requires v3 != TrimStringStartAndRemoveMultipleSpaces(v2)
    requires DefersCaret(key)
    ensures scheduled ==
      NestedDecision(v1, key) + NestedDecision(v2, key) + NestedDecision(v3, key) +
      [Deferred(EditOf(TrimStringStartAndRemoveMultipleSpaces(v2), Selection(0, 0), v3, key),
                CaretDelay)]
    ensures Normalised(v1) && Normalised(v2) && Normalised(v3) ==> |scheduled| == 1
    ensures fired == HandleCaretPosition(scheduled[0].edit.previous, scheduled[0].edit.current)
  {
    var control := new FormControl(seed);
    var d := new TrimAndValidateDirective(control, validators, true);
    d.NgOnInit();
    d.OnKeyDown(key);
    TypeDeferring(d, v1);
    TypeDeferring(d, v2);
    TypeDeferring(d, v3);
    scheduled := d.orphans + [d.pending.value];
    EmptyThenThree(NestedDecision(v1, key), NestedDecision(v2, key), NestedDecision(v3, key),
                   [d.pending.value]);
    NormaliseFixpointIff(v1);
    NormaliseFixpointIff(v2);
    NormaliseFixpointIff(v3);
    fired := d.TimerFires();
  }

  lemma EmptyThenThree<T>(a: seq<T>, b: seq<T>, c: seq<T>, x: seq<T>)
    ensures [] + a + b + c + x == a + b + c + x
  {
  }

  lemma EmptyFirst<T>(a: seq<T>, x: seq<T>)
    ensures [] + a + x == a + x
  {
  }

  lemma EmptyAround<T>(a: seq<T>, b: seq<T>, x: seq<T>)
    requires b == []
    ensures [] + a + b + x == a + x
  {
  }

  /** A space typed: the field is written back normalised and the caret is
      decided at once, with nothing left scheduled. When the new text is not
      normalised, the nested pass of the normalised text decides first. With
      "a b", the caret at 2 and the new text "a  b", the field becomes "a b"
      (`Helpers.DoubleSpaceNormalised`). */
  method SpaceIsHandledAtOnce(seed: string, v: string, start: int, end: int)
      returns (writes: seq<int>, value: string, pendingAfter: Option<Deferred>,
               orphansAfter: seq<Deferred>)
    requires v != seed
    ensures
      var normal := TrimStringStartAndRemoveMultipleSpaces(v);
      writes ==
        (if normal != v then HandleCaretPosition(Previous(v, start, end), Current(normal, true, false))
         else []) +
        HandleCaretPosition(Previous(seed, start, end), Current(v, true, false))
    ensures value == TrimStringStartAndRemoveMultipleSpaces(v)
    ensures pendingAfter == None && orphansAfter == []
  {
    var control := new FormControl(seed);
    var d := new TrimAndValidateDirective(control, [], true);
    d.NgOnInit();
    d.OnKeyDown(" ");
    d.OnInput(start, end);
    control.SetValue(v);
    writes := d.OnValueChange(v);
    value := control.value;
    pendingAfter, orphansAfter := d.pending, d.orphans;
  }

  /** The same normalised value typed twice: the second announcement is
      dropped, so nothing is written, revalidated or cancelled. */
  method RepeatedValueIsDropped(seed: string, v: string, key: string)
      returns (second: seq<int>, validityUpdates: nat, silentWrites: nat, kept: bool)
    requires v != seed && Normalised(v)
    ensures second == [] && validityUpdates == 1 && silentWrites == 1 && kept
  {
    var control := new FormControl(seed);
    var d := new TrimAndValidateDirective(control, [1, 2], true);
    d.NgOnInit();
    d.OnKeyDown(key);
    NormaliseFixpointIff(v);
    control.SetValue(v);
    var first := d.OnValueChange(v);
    var pendingBefore, orphansBefore := d.pending, d.orphans;
    control.SetValue(v);
    second := d.OnValueChange(v);
    validityUpdates, silentWrites := control.validityUpdates, control.silentWrites;
    kept := d.pending == pendingBefore && d.orphans == orphansBefore;
  }

  /** The same value typed twice when it is not normalised: the last distinct
      value is its normalised text, so the repeat is not dropped and runs the
      outer and the nested pass again. */
  method RepeatedUnnormalisedValueRunsAgain(seed: string, v: string, key: string)
      returns (validityUpdates: nat, silentWrites: nat, emissions: nat)
    requires v != seed && !Normalised(v)
    ensures validityUpdates == 4 && silentWrites == 4
    ensures emissions == 6
  {
    var control := new FormControl(seed);
    var d := new TrimAndValidateDirective(control, [1, 2], true);
    d.NgOnInit();
    d.OnKeyDown(key);
    NormaliseFixpointIff(v);
    control.SetValue(v);
    var first := d.OnValueChange(v);
    control.SetValue(v);
    var second := d.OnValueChange(v);
    validityUpdates, silentWrites, emissions :=
      control.validityUpdates, control.silentWrites, control.emissions;
  }

  /** After teardown a typed value is neither normalised nor revalidated, but
      the decisions already scheduled still run when their timers fire. */
  method TeardownKeepsPendingDecision(seed: string, v: string, later: string, key: string)
      returns (scheduled: seq<Deferred>, fired: seq<int>, ignored: seq<int>, value: string)
    requires v != seed && DefersCaret(key)
    ensures ignored == []
    ensures value == later
    ensures scheduled ==
      NestedDecision(v, key) + [Deferred(EditOf(seed, Selection(0, 0), v, key), CaretDelay)]
    ensures fired == HandleCaretPosition(scheduled[0].edit.previous, scheduled[0].edit.current)
  {
    var control := new FormControl(seed);
    var d := new TrimAndValidateDirective(control, [1, 2], true);
    d.NgOnInit();
    d.OnKeyDown(key);
    TypeDeferring(d, v);
    scheduled := d.Scheduled();
    EmptyFirst(NestedDecision(v, key), [d.pending.value]);
    d.NgOnDestroy();
    ignored := TypeAfterTeardown(d, later);
    value := control.value;
    fired := d.TimerFires();
  }

  /** As written: a value that is not normalised, typed with a deferring key
      and followed by another edit, leaves two decisions scheduled, the first
      from the nested pass of the superseded edit, which the second edit
      could not cancel. Both run when their timers fire. */
  method OrphanedDecisionOutlivesNextEdit(seed: string, v: string, w: string, key: string)
      returns (scheduled: seq<Deferred>, first: seq<int>, second: seq<int>)
    requires v != seed && TrimStringStartAndRemoveMultipleSpaces(v) != v
    requires TrimStringStartAndRemoveMultipleSpaces(w) == w
    requires w != TrimStringStartAndRemoveMultipleSpaces(v)
    requires DefersCaret(key)
    ensures
      var normal := TrimStringStartAndRemoveMultipleSpaces(v);
      scheduled == [Deferred(EditOf(v, Selection(0, 0), normal, key), CaretDelay),
                    Deferred(EditOf(normal, Selection(0, 0), w, key), CaretDelay)]
    ensures first == HandleCaretPosition(scheduled[0].edit.previous, scheduled[0].edit.current)
    ensures second == HandleCaretPosition(scheduled[1].edit.previous, scheduled[1].edit.current)
  {
    var control := new FormControl(seed);
    var d := new TrimAndValidateDirective(control, [], true);
    d.NgOnInit();
    d.OnKeyDown(key);
    var normal := TrimStringStartAndRemoveMultipleSpaces(v);
    assert NestedDecision(v, key) == [Deferred(EditOf(v, Selection(0, 0), normal, key), CaretDelay)];
    assert NestedDecision(w, key) == [];
    TypeDeferring(d, v);
    TypeDeferring(d, w);
    scheduled := d.Scheduled();
    EmptyAround(NestedDecision(v, key), NestedDecision(w, key), [d.pending.value]);
    first, second := FireTwice(d);
  }

  /** Corrected: with a silent revalidation the same edits leave one decision,
      about the last edit paired with the one before it, and the control
      announces only the values the user typed. */
  method SilentRevalidationKeepsOneDecision(seed: string, v: string, w: string, key: string)
      returns (scheduled: seq<Deferred>, emissions: nat)
    requires v != seed && w != v
    requires DefersCaret(key)
    ensures scheduled == [Deferred(EditOf(v, Selection(0, 0), w, key), CaretDelay)]
    ensures emissions == 2
  {
    var control := new FormControl(seed);
    var d := new TrimAndValidateDirective(control, [], false);
    d.NgOnInit();
    d.OnKeyDown(key);
    control.SetValue(v);
    var ignore := d.OnValueChange(v);
    control.SetValue(w);
    ignore := d.OnValueChange(w);
    scheduled := d.orphans + [d.pending.value];
    emissions := control.emissions;
  }
}
