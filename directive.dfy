/**
  The `trimAndValidate` directive as a state machine over one text field.

  The reactive pipeline of `ngOnInit` (seed with the current value, drop
  repeats, reset, pair with the previous value, join the latest selection and
  key) becomes sequential steps on explicit state: the previous distinct
  value, the latest selection, the latest key, the caret decision whose timer
  `#timeout` holds, the decisions whose timers nothing holds any more, and the
  lifecycle phase. Host events and Angular's lifecycle calls are the methods
  of the class; the caret writes an event causes are returned, in call order,
  instead of being applied to an element.

  The revalidation at the end of a pass announces the control's value on
  `valueChanges` again. That value is the normalised text, so when it differs
  from the text just processed, the pipeline runs once more, nested inside the
  first pass, before the first pass decides the caret.
 */
module Directive {
  import opened Wrappers
  import opened Forms
  import opened Helpers

  /** The delay, in milliseconds, before a deferred caret decision runs. */
  const CaretDelay: nat := 400

  /** The latest selection reported by an `input` event. */
  datatype Selection = Selection(start: int, end: int)

  /** Constructed: `ngOnInit` has not run. Running: the main pipeline is
      subscribed. Destroyed: `ngOnDestroy` has unsubscribed it. */
  datatype Phase = Constructed | Running | Destroyed

  /** A caret decision waiting for its timer: the edit it decides on and its delay. */
  datatype Deferred = Deferred(edit: EditTransition, delay: nat)

  /** The edit that pairs `previousName` with `name`, joined with a selection
      and a key, as the `map` step of the pipeline builds it. */
  function EditOf(previousName: string, selection: Selection, name: string, key: string)
    : EditTransition
  {
    EditTransition(
      Previous(previousName, selection.start, selection.end),
      Current(name, key == " ", key == "Backspace"))
  }

  /** A decision scheduled by a nested pass: it pairs a text with its
      normalised form, which differs from it. */
  predicate IsOrphan(d: Deferred) {
    d.delay == CaretDelay &&
    d.edit.previous.name != d.edit.current.name &&
    d.edit.current.name == TrimStringStartAndRemoveMultipleSpaces(d.edit.previous.name)
  }

  /** Appending a decision from a nested pass keeps every decision in the
      sequence one from a nested pass. */
  lemma OrphanAppended(orphans: seq<Deferred>, d: Deferred)
    requires forall i :: 0 <= i < |orphans| ==> IsOrphan(orphans[i])
    requires IsOrphan(d)
    ensures forall i :: 0 <= i < |orphans + [d]| ==> IsOrphan((orphans + [d])[i])
  {
  }

  class TrimAndValidateDirective {
    /** The `asyncValidatorFns` input. */
    const asyncValidatorFns: seq<AsyncValidatorFn>
    /** `inputForm.controls[controlsKeyForValidation]`: the governed control. */
    const control: FormControl
    /** Whether the revalidation at the end of a pass announces the value. The
        directive as written does (Angular's default); `false` is the variant
        that passes `emitEvent: false`. */
    const revalidationEmits: bool

    var phase: Phase
    /** Undefined until the first `valueChanges` notification after `ngOnInit`. */
    var inputHasInitialValue: Option<bool>
    /** The `take(1)` subscription is still waiting for its one notification. */
    var awaitingFirstValue: bool
    /** The last value let through by `distinctUntilChanged`. */
    var previousName: Option<string>
    /** `#inputSelectionParameters$`. */
    var selection: Selection
    /** `#currentKey$`. */
    var currentKey: string
    /** `#timeout`: the caret decision scheduled last, not yet run or cleared. */
    var pending: Option<Deferred>
    /** Decisions still scheduled whose handle `#timeout` no longer holds, so
        that no `clearTimeout` reaches them, in scheduling order. They were all
        scheduled before `pending`, with the same delay, so they run first. */
    var orphans: seq<Deferred>

    /** The object invariant: the pipeline has a previous value once it is
        subscribed, and the first value is captured at most once. The
        decision `#timeout` holds is about the latest distinct value: it is
        that value or, when the revalidation announces, normalises to it.
        Every decision nothing holds comes from a nested pass; there are none
        when the revalidation is silent. */
    ghost predicate Valid()
      reads this
    {
      (phase == Constructed ==>
        previousName == None && pending == None && orphans == [] &&
        !awaitingFirstValue && inputHasInitialValue == None) &&
      (phase == Running ==> previousName.Some?) &&
      (awaitingFirstValue ==> inputHasInitialValue == None) &&
      (pending.Some? ==>
        previousName.Some? && pending.value.delay == CaretDelay &&
        (revalidationEmits ==>
          TrimStringStartAndRemoveMultipleSpaces(pending.value.edit.current.name)
            == previousName.value) &&
        (!revalidationEmits ==> pending.value.edit.current.name == previousName.value)) &&
      (forall i :: 0 <= i < |orphans| ==> IsOrphan(orphans[i])) &&
      (!revalidationEmits ==> orphans == [])
    }

    /** Every decision still scheduled, in the order the timers fire: those
        nothing holds, then the one `#timeout` holds. */
    function Scheduled(): seq<Deferred>
      reads this
    {
      orphans + (if pending.Some? then [pending.value] else [])
    }

    /** The inputs are bound before `ngOnInit`; the selection starts as (0, 0)
        and the key as the empty string. The initial no-op timer of the source
        is the same as no pending decision. */
    constructor (control: FormControl, asyncValidatorFns: seq<AsyncValidatorFn>,
                 revalidationEmits: bool)
      ensures Valid()
      ensures this.control == control && this.asyncValidatorFns == asyncValidatorFns
      ensures this.revalidationEmits == revalidationEmits
      ensures phase == Constructed && previousName == None && pending == None && orphans == []
      ensures selection == Selection(0, 0) && currentKey == ""
      ensures inputHasInitialValue == None && !awaitingFirstValue
    {
      this.control := control;
      this.asyncValidatorFns := asyncValidatorFns;
      this.revalidationEmits := revalidationEmits;
      phase := Constructed;
      inputHasInitialValue := None;
      awaitingFirstValue := false;
      previousName := None;
      selection := Selection(0, 0);
      currentKey := "";
      pending := None;
      orphans := [];
    }

    /** `onInput`: overwrites the latest selection; nothing else changes. */
    method OnInput(start: int, end: int)
      requires Valid()
      modifies this`selection
      ensures Valid()
      ensures selection == Selection(start, end)
    {
      selection := Selection(start, end);
    }

    /** `onKeyDown`: overwrites the latest key; nothing else changes. */
    method OnKeyDown(key: string)
      requires Valid()
      modifies this`currentKey
      ensures Valid()
      ensures currentKey == key
    {
      currentKey := key;
    }

    /** `ngOnInit`: arms the `take(1)` capture and subscribes the main pipeline.
        The seed (the control's current value) passes `distinctUntilChanged`
        and the reset step, so any pending decision is cleared and the
        validators are detached, but it is never paired: nothing is written
        and nothing is re-attached until the first distinct change. */
    method NgOnInit()
      requires Valid() && phase == Constructed
      modifies this`awaitingFirstValue, this`previousName, this`pending, this`phase, control
      ensures Valid()
      ensures phase == Running && awaitingFirstValue && inputHasInitialValue == None
      ensures previousName == Some(old(control.value)) && pending == None && orphans == []
      ensures selection == old(selection) && currentKey == old(currentKey)
      ensures control.asyncValidators == []
      ensures control.value == old(control.value) && control.dirty == old(control.dirty)
      ensures control.emissions == old(control.emissions)
      ensures control.silentWrites == old(control.silentWrites)
      ensures control.validityUpdates == old(control.validityUpdates)
    {
      awaitingFirstValue := true;
      var seed := control.value;
      previousName := Some(seed);
      pending := None;
      control.ClearAsyncValidators();
      phase := Running;
    }

    /** A `valueChanges` notification carrying `name`, the control's value:
        the `take(1)` subscriber sees it first, then the main pipeline. */
    method OnValueChange(name: string) returns (writes: seq<int>)
      requires Valid() && control.value == name
      modifies this`inputHasInitialValue, this`awaitingFirstValue, this`previousName
      modifies this`pending, this`orphans, control
      ensures Valid()
      ensures old(inputHasInitialValue).Some? ==> inputHasInitialValue == old(inputHasInitialValue)
      ensures inputHasInitialValue ==
        if old(awaitingFirstValue) then Some(name != "") else old(inputHasInitialValue)
      ensures !awaitingFirstValue
      ensures old(phase) != Running || old(previousName) == Some(name) ==>
        writes == [] && previousName == old(previousName) &&
        pending == old(pending) && orphans == old(orphans) &&
        control.value == old(control.value) && control.dirty == old(control.dirty) &&
        control.asyncValidators == old(control.asyncValidators) &&
        control.emissions == old(control.emissions) &&
        control.silentWrites == old(control.silentWrites) &&
        control.validityUpdates == old(control.validityUpdates)
      ensures old(phase) == Running && old(previousName) != Some(name) ==>
        var normal := TrimStringStartAndRemoveMultipleSpaces(name);
        var nested := revalidationEmits && normal != name;
        var passes := if nested then 2 else 1;
        var outer := EditOf(old(previousName).value, selection, name, currentKey);
        var inner := EditOf(name, selection, normal, currentKey);
        previousName == Some(if revalidationEmits then normal else name) &&
        control.value == normal &&
        control.asyncValidators == asyncValidatorFns &&
        control.silentWrites == old(control.silentWrites) + passes &&
        control.validityUpdates == old(control.validityUpdates) + passes &&
        control.emissions == old(control.emissions) + (if revalidationEmits then passes else 0) &&
        if outer.current.keyIsSpace || outer.current.keyIsBackspace then
          pending == None && orphans == old(orphans) &&
          writes == (if nested then HandleCaretPosition(inner.previous, inner.current) else [])
                    + HandleCaretPosition(outer.previous, outer.current)
        else
          writes == [] && pending == Some(Deferred(outer, CaretDelay)) &&
          orphans == old(orphans) + (if nested then [Deferred(inner, CaretDelay)] else [])
    {
      CaptureFirstValue(name);
      writes := ProcessValue(name);
    }

    /** The `take(1)` subscriber: records, once, whether the first value seen
        after `ngOnInit` is non-empty. */
    method CaptureFirstValue(name: string)
      requires Valid()
      modifies this`inputHasInitialValue, this`awaitingFirstValue
      ensures Valid()
      ensures inputHasInitialValue ==
        if old(awaitingFirstValue) then Some(name != "") else old(inputHasInitialValue)
      ensures !awaitingFirstValue
    {
      if awaitingFirstValue {
        inputHasInitialValue := Some(name != "");
        awaitingFirstValue := false;
      }
    }

    /** The main pipeline, while subscribed: a value equal to the previous
        distinct one is dropped. Any other value runs a pass; when the pass's
        revalidation announces a normalised text different from the value,
        that text runs a second pass, nested, whose own announcement repeats
        it and is dropped. The nested pass decides the caret before the outer
        one: now for a Space or "Backspace" key, or by a timer otherwise, in
        which case the outer pass overwrites the nested pass's handle. */
    method ProcessValue(name: string) returns (writes: seq<int>)
      requires Valid() && control.value == name
      modifies this`previousName, this`pending, this`orphans, control
      ensures Valid()
      ensures old(phase) != Running || old(previousName) == Some(name) ==>
        writes == [] && previousName == old(previousName) &&
        pending == old(pending) && orphans == old(orphans) &&
        control.value == old(control.value) && control.dirty == old(control.dirty) &&
        control.asyncValidators == old(control.asyncValidators) &&
        control.emissions == old(control.emissions) &&
        control.silentWrites == old(control.silentWrites) &&
        control.validityUpdates == old(control.validityUpdates)
      ensures old(phase) == Running && old(previousName) != Some(name) ==>
        var normal := TrimStringStartAndRemoveMultipleSpaces(name);
        var nested := revalidationEmits && normal != name;
        var passes := if nested then 2 else 1;
        var outer := EditOf(old(previousName).value, selection, name, currentKey);
        var inner := EditOf(name, selection, normal, currentKey);
        previousName == Some(if revalidationEmits then normal else name) &&
        control.value == normal &&
        control.asyncValidators == asyncValidatorFns &&
        control.silentWrites == old(control.silentWrites) + passes &&
        control.validityUpdates == old(control.validityUpdates) + passes &&
        control.emissions == old(control.emissions) + (if revalidationEmits then passes else 0) &&
        if outer.current.keyIsSpace || outer.current.keyIsBackspace then
          pending == None && orphans == old(orphans) &&
          writes == (if nested then HandleCaretPosition(inner.previous, inner.current) else [])
                    + HandleCaretPosition(outer.previous, outer.current)
        else
          writes == [] && pending == Some(Deferred(outer, CaretDelay)) &&
          orphans == old(orphans) + (if nested then [Deferred(inner, CaretDelay)] else [])
    {
      writes := [];
      if phase == Running && previousName != Some(name) {
        writes := Passes(name);
      }
    }

    /** A distinct value while subscribed: its pass, the nested pass of its
        normalised text when that is announced and distinct, and the caret
        steps of both, the nested one first. */
    method Passes(name: string) returns (writes: seq<int>)
      requires Valid() && control.value == name
      requires phase == Running && previousName != Some(name)
      modifies this`previousName, this`pending, this`orphans, control
      ensures Valid()
      ensures
        var normal := TrimStringStartAndRemoveMultipleSpaces(name);
        var nested := revalidationEmits && normal != name;
        var passes := if nested then 2 else 1;
        var outer := EditOf(old(previousName).value, selection, name, currentKey);
        var inner := EditOf(name, selection, normal, currentKey);
        previousName == Some(if revalidationEmits then normal else name) &&
        control.value == normal &&
        control.asyncValidators == asyncValidatorFns &&
        control.silentWrites == old(control.silentWrites) + passes &&
        control.validityUpdates == old(control.validityUpdates) + passes &&
        control.emissions == old(control.emissions) + (if revalidationEmits then passes else 0) &&
        if outer.current.keyIsSpace || outer.current.keyIsBackspace then
          pending == None && orphans == old(orphans) &&
          writes == (if nested then HandleCaretPosition(inner.previous, inner.current) else [])
                    + HandleCaretPosition(outer.previous, outer.current)
        else
          writes == [] && pending == Some(Deferred(outer, CaretDelay)) &&
          orphans == old(orphans) + (if nested then [Deferred(inner, CaretDelay)] else [])
    {
      if revalidationEmits && TrimStringStartAndRemoveMultipleSpaces(name) != name {
        writes := OuterAndNestedPass(name);
      } else {
        writes := SinglePass(name);
      }
    }

    /** A distinct value whose pass announces nothing new: the announcement
        is silent, or it repeats the value, which is already normalised. */
    method SinglePass(name: string) returns (writes: seq<int>)
      requires Valid() && control.value == name
      requires phase == Running && previousName != Some(name)
      requires revalidationEmits ==> TrimStringStartAndRemoveMultipleSpaces(name) == name
      modifies this`previousName, this`pending, this`orphans, control
      ensures Valid()
      ensures
        var outer := EditOf(old(previousName).value, selection, name, currentKey);
        previousName == Some(name) &&
        control.value == TrimStringStartAndRemoveMultipleSpaces(name) &&
        control.asyncValidators == asyncValidatorFns &&
        control.silentWrites == old(control.silentWrites) + 1 &&
        control.validityUpdates == old(control.validityUpdates) + 1 &&
        control.emissions == old(control.emissions) + (if revalidationEmits then 1 else 0) &&
        orphans == old(orphans) &&
        if outer.current.keyIsSpace || outer.current.keyIsBackspace then
          pending == None && writes == HandleCaretPosition(outer.previous, outer.current)
        else
          writes == [] && pending == Some(Deferred(outer, CaretDelay))
    {
      var outer := Pass(name);
      // when announced, the value equals the previous distinct one and is dropped
      writes := DecideCaret(outer);
    }

    /** A distinct value that is not normalised, with the revalidation
        announcing: the announced normalised text runs a nested pass, whose
        own announcement repeats it and is dropped. The nested caret step runs
        first; with a deferring key, the outer step then overwrites the nested
        timer's handle. */
    method OuterAndNestedPass(name: string) returns (writes: seq<int>)
      requires Valid() && control.value == name
      requires phase == Running && previousName != Some(name)
      requires revalidationEmits && TrimStringStartAndRemoveMultipleSpaces(name) != name
      modifies this`previousName, this`pending, this`orphans, control
      ensures Valid()
      ensures
        var normal := TrimStringStartAndRemoveMultipleSpaces(name);
        var outer := EditOf(old(previousName).value, selection, name, currentKey);
        var inner := EditOf(name, selection, normal, currentKey);
        previousName == Some(normal) &&
        control.value == normal &&
        control.asyncValidators == asyncValidatorFns &&
        control.silentWrites == old(control.silentWrites) + 2 &&
        control.validityUpdates == old(control.validityUpdates) + 2 &&
        control.emissions == old(control.emissions) + 2 &&
        if outer.current.keyIsSpace || outer.current.keyIsBackspace then
          pending == None && orphans == old(orphans) &&
          writes == HandleCaretPosition(inner.previous, inner.current)
                    + HandleCaretPosition(outer.previous, outer.current)
        else
          writes == [] && pending == Some(Deferred(outer, CaretDelay)) &&
          orphans == old(orphans) + [Deferred(inner, CaretDelay)]
    {
      var outer := Pass(name);
      var normal := control.value;
      NormaliseIdempotent(name);
      var nested := Pass(normal);
      // the nested pass's announcement repeats the last distinct value
      assert previousName == Some(control.value);
      assert IsOrphan(Deferred(nested, CaretDelay));
      OrphanAppended(orphans, Deferred(nested, CaretDelay));
      var inner := DecideCaret(nested);
      var w := DecideCaret(outer);
      writes := inner + w;
    }

    /** One pass of the main pipeline up to the caret step: clears the timer
        `#timeout` holds and the validators, pairs `name` with the previous
        distinct value and the latest selection and key, writes the
        normalised text back without a notification, re-attaches the
        validators and revalidates this control, which announces the control's
        value when `revalidationEmits`. */
    method Pass(name: string) returns (edit: EditTransition)
      requires previousName.Some?
      modifies this`previousName, this`pending, control
      ensures edit == EditOf(old(previousName).value, selection, name, currentKey)
      ensures previousName == Some(name) && pending == None
      ensures control.value == TrimStringStartAndRemoveMultipleSpaces(name)
      ensures control.asyncValidators == asyncValidatorFns
      ensures control.silentWrites == old(control.silentWrites) + 1
      ensures control.validityUpdates == old(control.validityUpdates) + 1
      ensures control.emissions == old(control.emissions) + (if revalidationEmits then 1 else 0)
    {
      // tap: clearTimeout and clearAsyncValidators
      pending := None;
      control.ClearAsyncValidators();
      // pairwise and withLatestFrom
      edit := EditOf(previousName.value, selection, name, currentKey);
      previousName := Some(name);
      // the write step of setInputValue
      control.PatchValueSilently(TrimStringStartAndRemoveMultipleSpaces(name));
      control.AddAsyncValidators(asyncValidatorFns);
      control.UpdateValueAndValidity(revalidationEmits);
    }

    /** The caret step of a pass: a Space or "Backspace" key decides now;
        any other key schedules the decision and stores the new handle in
        `#timeout`, so a timer it held before keeps running unreachable. */
    method DecideCaret(edit: EditTransition) returns (writes: seq<int>)
      modifies this`pending, this`orphans
      ensures edit.current.keyIsSpace || edit.current.keyIsBackspace ==>
        writes == HandleCaretPosition(edit.previous, edit.current) &&
        pending == old(pending) && orphans == old(orphans)
      ensures !(edit.current.keyIsSpace || edit.current.keyIsBackspace) ==>
        writes == [] && pending == Some(Deferred(edit, CaretDelay)) &&
        orphans == old(orphans) + (if old(pending).Some? then [old(pending).value] else [])
    {
      writes := [];
      if edit.current.keyIsSpace || edit.current.keyIsBackspace {
        writes := HandleCaretPosition(edit.previous, edit.current);
      } else {
        if pending.Some? {
          orphans := orphans + [pending.value];
        }
        pending := Some(Deferred(edit, CaretDelay));
      }
    }

    /** The earliest scheduled timer fires: all share the same delay, so a
        decision nothing holds runs before the one `#timeout` holds. Teardown
        cancels none of them. */
    method TimerFires() returns (writes: seq<int>)
      requires Valid()
      modifies this`pending, this`orphans
      ensures Valid()
      ensures old(Scheduled()) == [] ==> writes == [] && Scheduled() == []
      ensures old(Scheduled()) != [] ==>
        Scheduled() == old(Scheduled())[1..] &&
        writes == HandleCaretPosition(old(Scheduled())[0].edit.previous,
                                      old(Scheduled())[0].edit.current)
      ensures old(orphans) != [] ==>
        orphans == old(orphans)[1..] && pending == old(pending) &&
        writes == HandleCaretPosition(old(orphans)[0].edit.previous, old(orphans)[0].edit.current)
      ensures old(orphans) == [] ==>
        orphans == [] && pending == None &&
        writes == match old(pending)
          case None => []
          case Some(d) => HandleCaretPosition(d.edit.previous, d.edit.current)
    {
      writes := [];
      if orphans != [] {
        var d := orphans[0];
        writes := HandleCaretPosition(d.edit.previous, d.edit.current);
        orphans := orphans[1..];
      } else if pending.Some? {
        var d := pending.value;
        writes := HandleCaretPosition(d.edit.previous, d.edit.current);
        pending := None;
      }
    }

    /** `ngOnDestroy`: unsubscribes the main pipeline only. The pending timer and
        a still-waiting `take(1)` subscription survive, as do the previous value
        and the latest selection and key. */
    method NgOnDestroy()
      requires Valid()
      modifies this`phase
      ensures Valid()
      ensures phase == Destroyed
    {
      phase := Destroyed;
    }
  }
}
