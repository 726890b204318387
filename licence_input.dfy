/**
 * The driver's-licence edit form: on every input event the edit button is
 * disabled unless the field holds at least seven characters, each an
 * upper-case letter A-Z or a digit.
 */
module LicenceInput {

  const MinLength: nat := 7

  /** The character class `[A-Z0-9]`. */
  predicate IsLicenceChar(c: char)
  {
    'A' <= c <= 'Z' || '0' <= c <= '9'
  }

  /** The pattern `^[A-Z0-9]*$`, matched character by character. */
  function MatchesPattern(value: string): bool
  {
    value == [] || (IsLicenceChar(value[0]) && MatchesPattern(value[1..]))
  }

  /** The handler's condition for disabling the edit button. */
  predicate EditDisabled(value: string)
  {
    |value| < MinLength || !MatchesPattern(value)
  }

  lemma {:induction false} MatchesPatternEverywhere(value: string)
    ensures MatchesPattern(value) <==> forall i :: 0 <= i < |value| ==> IsLicenceChar(value[i])
  {
    if value != [] {
      MatchesPatternEverywhere(value[1..]);
      assert forall i :: 1 <= i < |value| ==> value[i] == value[1..][i - 1];
    }
  }

  /** The button is enabled exactly when the value has at least seven characters, all of them
      upper-case letters or digits; there is no upper bound on the length. */
  lemma EditEnabledIff(value: string)
    ensures !EditDisabled(value) <==> |value| >= 7 && forall i :: 0 <= i < |value| ==> IsLicenceChar(value[i])
  {
    MatchesPatternEverywhere(value);
  }

  /** A single character outside `A-Z0-9` (a lower-case letter, a space, punctuation)
      anywhere in the value disables the button. */
  lemma ForeignCharDisables(value: string, i: nat)
    requires i < |value| && !IsLicenceChar(value[i])
    ensures EditDisabled(value)
  {
    MatchesPatternEverywhere(value);
  }

  /** The rule sets no upper bound on the length: for every length from seven up, some value
      of that length (all 'A's) enables the button. */
  lemma NoUpperLengthBound(n: nat)
    requires n >= MinLength
    ensures !EditDisabled(seq(n, _ => 'A'))
  {
    MatchesPatternEverywhere(seq(n, _ => 'A'));
  }

  /** The button's state after a sequence of input events, from state `disabled`. */
  function AfterInputs(disabled: bool, values: seq<string>): bool
    decreases |values|
  {
    if values == [] then disabled else AfterInputs(EditDisabled(values[0]), values[1..])
  }

  /** The state after any non-empty run of input events depends only on the last value. */
  lemma {:induction false} OnlyLastInputCounts(disabled: bool, values: seq<string>)
    requires values != []
    ensures AfterInputs(disabled, values) == EditDisabled(values[|values| - 1])
    decreases |values|
  {
    if |values| > 1 {
      OnlyLastInputCounts(EditDisabled(values[0]), values[1..]);
    }
  }

  /** The edit button. */
  class EditButton {
    var disabled: bool

    constructor (disabled: bool)
      ensures this.disabled == disabled
    {
      this.disabled := disabled;
    }

    /** The `input` event handler of the licence field. */
    method OnInput(value: string)
      modifies this
      ensures disabled == EditDisabled(value)
      ensures disabled == AfterInputs(old(disabled), [value])
    {
      if |value| < MinLength || !MatchesPattern(value) {
        disabled := true;
      } else {
        disabled := false;
      }
    }
  }
}
