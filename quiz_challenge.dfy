/**
 * The quiz challenge (components/challenges/QuizChallenge.tsx): pressing a
 * choice submits it at once; one submission is in flight at a time.
 */
module Quiz {
  import opened Types
  import opened Feedback

  class QuizChallenge {
    const payload: QuizPayload
    var selectedIndex: Option<int>
    var result: Option<bool>
    var submitting: bool
    var error: bool

    /** The initial hook values. */
    constructor (payload: QuizPayload)
      ensures this.payload == payload
      ensures selectedIndex == None && result == None && !submitting && !error
    {
      this.payload := payload;
      selectedIndex := None;
      result := None;
      submitting := false;
      error := false;
    }

    /**
     * The best-attempt effect: copy the choice and the verdict of an
     * attempt that carries a `choiceIndex`, and clear both otherwise.
     */
    method Restore(bestAttempt: Option<ChallengeAttemptSummary>)
      modifies this
      ensures submitting == old(submitting) && error == old(error)
      ensures bestAttempt.None? || !bestAttempt.value.answers.QuizAttemptAnswer? ==>
                selectedIndex == None && result == None
      ensures bestAttempt.Some? && bestAttempt.value.answers.QuizAttemptAnswer? ==>
                && selectedIndex == Some(bestAttempt.value.answers.choiceIndex)
                && result == Some(bestAttempt.value.result)
    {
      if bestAttempt.None? || !bestAttempt.value.answers.QuizAttemptAnswer? {
        selectedIndex := None;
        result := None;
        return;
      }
      selectedIndex := Some(bestAttempt.value.answers.choiceIndex);
      result := Some(bestAttempt.value.result);
    }

    /**
     * The first half of `handleSelect`: ignored while a submission is in
     * flight; otherwise select the choice, clear the feedback, mark the
     * submission in flight and return the answer sent, `{ choiceIndex }`.
     */
    method Select(index: int) returns (sent: Option<ChallengeAttemptAnswer>)
      modifies this
      ensures old(submitting) ==> sent == None && unchanged(this)
      ensures !old(submitting) ==>
                && sent == Some(QuizAttemptAnswer(index))
                && selectedIndex == Some(index) && result == None
                && submitting && !error
    {
      if submitting {
        return None;
      }
      selectedIndex := Some(index);
      result := None;
      submitting := true;
      error := false;
      sent := Some(QuizAttemptAnswer(index));
    }

    /** The server answered: show its verdict and end the submission. */
    method SubmitSucceeded(serverResult: bool)
      requires submitting
      modifies this
      ensures result == Some(serverResult) && !submitting
      ensures selectedIndex == old(selectedIndex) && error == old(error)
    {
      result := Some(serverResult);
      submitting := false;
    }

    /** The call failed: show the error, no verdict, and end the submission. */
    method SubmitFailed()
      requires submitting
      modifies this
      ensures error && result == None && !submitting
      ensures selectedIndex == old(selectedIndex)
    {
      error := true;
      result := None;
      submitting := false;
    }
  }

  /**
   * Over the rendered choices, at most one is drawn right or wrong; a drawn
   * choice is the selected one and has a verdict; right and wrong exclude
   * each other.
   */
  lemma MarkedChoices(choices: seq<string>, selected: Option<int>, result: Option<bool>)
    ensures |set i | 0 <= i < |choices| && IsMarked(selected, result, i)| <= 1
    ensures forall i :: 0 <= i < |choices| && IsMarked(selected, result, i) ==>
              selected == Some(i) && result.Some?
    ensures forall i :: !(IsRight(selected, result, i) && IsWrong(selected, result, i))
  {
    var marked := set i | 0 <= i < |choices| && IsMarked(selected, result, i);
    if selected.Some? && result.Some? {
      assert marked <= {selected.value};
      SubsetOfSingleton(marked, selected.value);
    } else {
      assert marked == {};
    }
  }

  /**
   * While an answer is in flight, a second press sends nothing and leaves
   * the first answer's selection in place.
   */
  method DoubleSelect(c: QuizChallenge, first: int, second: int) returns (a: Option<ChallengeAttemptAnswer>, b: Option<ChallengeAttemptAnswer>)
    requires !c.submitting
    modifies c
    ensures a == Some(QuizAttemptAnswer(first)) && b == None
    ensures c.selectedIndex == Some(first) && c.submitting
  {
    a := c.Select(first);
    b := c.Select(second);
  }
}
