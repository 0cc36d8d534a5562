/**
 * The true/false challenge (components/challenges/TrueFalseChallenge.tsx):
 * two fixed options, pressing one submits it at once; one submission is in
 * flight at a time.
 */
module TrueFalse {
  import opened Types
  import opened Feedback

  /** The option values, in display order ("true" first, then "false"). */
  const OptionValues: seq<bool> := [true, false]

  /** The options are exactly the two booleans, each once. */
  lemma OptionValuesAreBooleans()
    ensures |OptionValues| == 2 && OptionValues[0] != OptionValues[1]
    ensures forall b: bool :: b in OptionValues
  {
  }

  class TrueFalseChallenge {
    const payload: TrueFalsePayload
    var selectedValue: Option<bool>
    var result: Option<bool>
    var submitting: bool
    var error: bool

    /** The initial hook values. */
    constructor (payload: TrueFalsePayload)
      ensures this.payload == payload
      ensures selectedValue == None && result == None && !submitting && !error
    {
      this.payload := payload;
      selectedValue := None;
      result := None;
      submitting := false;
      error := false;
    }

    /**
     * The best-attempt effect: copy the answer and the verdict of an
     * attempt that carries an `answer`, and clear both otherwise.
     */
    method Restore(bestAttempt: Option<ChallengeAttemptSummary>)
      modifies this
      ensures submitting == old(submitting) && error == old(error)
      ensures bestAttempt.None? || !bestAttempt.value.answers.TrueFalseAttemptAnswer? ==>
                selectedValue == None && result == None
      ensures bestAttempt.Some? && bestAttempt.value.answers.TrueFalseAttemptAnswer? ==>
                && selectedValue == Some(bestAttempt.value.answers.answer)
                && result == Some(bestAttempt.value.result)
    {
      if bestAttempt.None? || !bestAttempt.value.answers.TrueFalseAttemptAnswer? {
        selectedValue := None;
        result := None;
        return;
      }
      selectedValue := Some(bestAttempt.value.answers.answer);
      result := Some(bestAttempt.value.result);
    }

    /**
     * The first half of `handleSelect`: ignored while a submission is in
     * flight; otherwise select the value, clear the feedback, mark the
     * submission in flight and return the answer sent, `{ answer }`.
     */
    method Select(value: bool) returns (sent: Option<ChallengeAttemptAnswer>)
      modifies this
      ensures old(submitting) ==> sent == None && unchanged(this)
      ensures !old(submitting) ==>
                && sent == Some(TrueFalseAttemptAnswer(value))
                && selectedValue == Some(value) && result == None
                && submitting && !error
    {
      if submitting {
        return None;
      }
      selectedValue := Some(value);
      result := None;
      submitting := true;
      error := false;
      sent := Some(TrueFalseAttemptAnswer(value));
    }

    /** The server answered: show its verdict and end the submission. */
    method SubmitSucceeded(serverResult: bool)
      requires submitting
      modifies this
      ensures result == Some(serverResult) && !submitting
      ensures selectedValue == old(selectedValue) && error == old(error)
    {
      result := Some(serverResult);
      submitting := false;
    }

    /** The call failed: show the error, no verdict, and end the submission. */
    method SubmitFailed()
      requires submitting
      modifies this
      ensures error && result == None && !submitting
      ensures selectedValue == old(selectedValue)
    {
      error := true;
      result := None;
      submitting := false;
    }
  }

  /**
   * Of the two options at most one is drawn right or wrong, it is the
   * selected value, it has a verdict, and right and wrong exclude each other.
   */
  lemma MarkedOptions(selected: Option<bool>, result: Option<bool>)
    ensures |set i | 0 <= i < |OptionValues| && IsMarked(selected, result, OptionValues[i]) :: OptionValues[i]| <= 1
    ensures forall b: bool :: IsMarked(selected, result, b) ==> selected == Some(b) && result.Some?
    ensures forall b: bool :: !(IsRight(selected, result, b) && IsWrong(selected, result, b))
  {
    AtMostOneMarked(OptionValues, selected, result);
  }
}
