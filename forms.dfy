/**
  An abstract stand-in for the one form control the directive governs
  (`inputForm.controls[controlsKeyForValidation]` in the directive). Only the
  handful of operations the directive and its helpers call are modelled, each
  by its observable effect on a small record of fields; Angular's own
  validity computation and validator de-duplication are not modelled.
 */
module Forms {

  /** An asynchronous validator function is opaque here: only its identity matters. */
  type AsyncValidatorFn = nat

  class FormControl {
    /** The control's current value. */
    var value: string
    /** Angular's dirty flag; `!dirty` is "pristine". */
    var dirty: bool
    /** The asynchronous validators currently attached, in attachment order. */
    var asyncValidators: seq<AsyncValidatorFn>
    /** How many `valueChanges` notifications the control has emitted. */
    var emissions: nat
    /** How many values were written with `{ emitEvent: false }`. */
    var silentWrites: nat
    /** How many times `updateValueAndValidity` was called explicitly; the
        recomputation Angular runs inside `setValue` and `patchValue` is not
        counted. */
    var validityUpdates: nat

    constructor (initial: string)
      ensures value == initial && !dirty && asyncValidators == []
      ensures emissions == 0 && silentWrites == 0 && validityUpdates == 0
    {
      value := initial;
      dirty := false;
      asyncValidators := [];
      emissions := 0;
      silentWrites := 0;
      validityUpdates := 0;
    }

    /** A value typed by the user: stored and announced on `valueChanges`. */
    method SetValue(v: string)
      modifies this
      ensures value == v && emissions == old(emissions) + 1
      ensures dirty == old(dirty) && asyncValidators == old(asyncValidators)
      ensures silentWrites == old(silentWrites) && validityUpdates == old(validityUpdates)
    {
      value := v;
      emissions := emissions + 1;
    }

    /** `patchValue(v, { emitEvent: false })`: stored, but no notification is emitted. */
    method PatchValueSilently(v: string)
      modifies this
      ensures value == v && silentWrites == old(silentWrites) + 1
      ensures emissions == old(emissions)
      ensures dirty == old(dirty) && asyncValidators == old(asyncValidators)
      ensures validityUpdates == old(validityUpdates)
    {
      value := v;
      silentWrites := silentWrites + 1;
    }

    method MarkAsPristine()
      modifies this`dirty
      ensures !dirty
    {
      dirty := false;
    }

    method MarkAsDirty()
      modifies this`dirty
      ensures dirty
    {
      dirty := true;
    }

    method ClearAsyncValidators()
      modifies this`asyncValidators
      ensures asyncValidators == []
    {
      asyncValidators := [];
    }

    method AddAsyncValidators(validators: seq<AsyncValidatorFn>)
      modifies this`asyncValidators
      ensures asyncValidators == old(asyncValidators) + validators
    {
      asyncValidators := asyncValidators + validators;
    }

    /** `updateValueAndValidity({ onlySelf: true, emitEvent })`: recomputes this
        control only and, unless `emitEvent` is false, announces the current
        value on `valueChanges`. Angular's default is `emitEvent: true`. */
    method UpdateValueAndValidity(emitEvent: bool)
      modifies this`validityUpdates, this`emissions
      ensures validityUpdates == old(validityUpdates) + 1
      ensures emissions == old(emissions) + (if emitEvent then 1 else 0)
    {
      validityUpdates := validityUpdates + 1;
      if emitEvent {
        emissions := emissions + 1;
      }
    }
  }
}
