/**
 * The highlight rule shared by the quiz and true/false components: an
 * option is drawn "right" or "wrong" only when it is the selected one and a
 * result is known, and which of the two follows the result.
 */
module Feedback {
  import opened Types

  /** `isSelected`: the option is the selected value. */
  predicate IsSelected<T(==)>(selected: Option<T>, option: T) {
    selected == Some(option)
  }

  /** `isRight = isSelected && showFeedback && result === true`. */
  predicate IsRight<T(==)>(selected: Option<T>, result: Option<bool>, option: T) {
    IsSelected(selected, option) && result.Some? && result.value
  }

  /** `isWrong = isSelected && showFeedback && result === false`. */
  predicate IsWrong<T(==)>(selected: Option<T>, result: Option<bool>, option: T) {
    IsSelected(selected, option) && result.Some? && !result.value
  }

  /** The option carries one of the two feedback styles. */
  predicate IsMarked<T(==)>(selected: Option<T>, result: Option<bool>, option: T) {
    IsRight(selected, result, option) || IsWrong(selected, result, option)
  }

  /**
   * Right and wrong never coincide; a marked option is the selected one;
   * nothing is marked while the result is unknown; the selected option is
   * marked as soon as it is; and two marked options are the same option.
   */
  lemma HighlightRule<T>(selected: Option<T>, result: Option<bool>, a: T, b: T)
    ensures !(IsRight(selected, result, a) && IsWrong(selected, result, a))
    ensures IsMarked(selected, result, a) <==> selected == Some(a) && result.Some?
    ensures IsRight(selected, result, a) <==> selected == Some(a) && result == Some(true)
    ensures IsWrong(selected, result, a) <==> selected == Some(a) && result == Some(false)
    ensures IsMarked(selected, result, a) && IsMarked(selected, result, b) ==> a == b
  {
  }

  /**
   * Among any list of options, at most one value is marked (the count is
   * over values, not positions), and if one is, it is the selected value.
   */
  lemma {:induction false} AtMostOneMarked<T>(options: seq<T>, selected: Option<T>, result: Option<bool>)
    ensures |set i | 0 <= i < |options| && IsMarked(selected, result, options[i]) :: options[i]| <= 1
    ensures forall i :: 0 <= i < |options| && IsMarked(selected, result, options[i]) ==>
              selected == Some(options[i]) && result.Some?
  {
    var marked := set i | 0 <= i < |options| && IsMarked(selected, result, options[i]) :: options[i];
    if selected.Some? && result.Some? {
      assert marked <= {selected.value};
      SubsetOfSingleton(marked, selected.value);
    } else {
      assert marked == {};
    }
  }

  lemma SubsetOfSingleton<T>(s: set<T>, x: T)
    requires s <= {x}
    ensures |s| <= 1
  {
    if s != {} {
      assert s == {x};
    }
  }
}
