# Challenge answer-selection state machines

This project models the client-side logic of a mobile learning app's three
challenge components: match, quiz and true/false. Grading, unlocking, scoring
and progression all run on a server behind remote procedure calls. The client
only keeps answer-selection state, sends answers and shows the verdict it gets
back. So this model covers what the client runs, and it treats the server's
verdict (`response.result`) as an arbitrary boolean input.

Each component is a Dafny `class` whose fields are the component's `useState`
hooks. Each event handler is a method. The `await` is split into two events:
a begin event (`Select`, `BeginSubmit`) that returns the answer sent, then
`SubmitSucceeded(serverResult)` or `SubmitFailed()`. The best-attempt
`useEffect` is a `Restore(bestAttempt)` method. The pure expressions
(`rightItems`, `isMatchCorrect`, `allAssigned`, the submitted pair list, the
highlight flags) are functions, and the lemmas state what they promise.

Modules:

- `Types`: the payload, attempt-answer and best-attempt datatypes of `lib/types.ts`.
- `Sequences`: `indexOf`/`findIndex` (first position or -1) and distinctness.
- `Feedback`: the highlight rule the quiz and true/false components share.
- `Match`: the pure part of the match component. It covers the links map
  `assignments` (left index to right index), its range and injectivity, the
  "all assigned" count, the submission encoding, the restore fold and its
  loop, the round trip, and the row colours.
- `MatchState`: the match component's state as a class.
- `Quiz`, `TrueFalse`: the two single-press components.

Main results:

- Every left and right press keeps `assignments` injective: no right item is
  linked twice. With "all assigned", the map is a permutation of `0 .. n-1`.
- The round trip: if the left labels are pairwise distinct and the right labels
  are pairwise distinct, restoring from the pairs a submission sent gives back
  exactly the submitted `assignments`.
- Restore keeps the attempt pairs whose two labels are both found and skips
  the others; a later pair with the same left label overwrites an earlier
  one, so each link is the right index of the last pair naming its key. It
  gives an injective map when the attempt repeats no right label. An attempt
  that does repeat a right label can give a non-injective map that no
  sequence of presses can produce: with a payload whose two pairs share the
  right label, linking 0 to 0 and 1 to 1, submitting and restoring gives
  `{0: 0, 1: 0}` (`RestoreCanBreakInjectivity`). For that reason injectivity is not part of
  `MatchChallenge.Valid()`: it is a separate property. Presses preserve it,
  and `RestoredInjective` says when restore establishes it.
- `isMatchCorrect` reads out-of-range indices as `undefined`, so two
  out-of-range indices compare equal. `IsMatchCorrect` models this exactly.

## Model

| member | source | states |
|---|---|---|
| `Sequences.At` | components/challenges/MatchChallenge.tsx:68 | The JavaScript read `array[i]`: a value exactly when i is within bounds, and then the i-th element; `undefined` (None) otherwise |
| `Sequences.IndexOf` | components/challenges/MatchChallenge.tsx:33-34 | The result is -1 exactly when the label is absent; otherwise it is the first position holding the label |
| `Match.Lefts` | components/challenges/MatchChallenge.tsx:33 | The left labels `findIndex` searches: one per pair, in the payload's order |
| `Match.RightItems` | components/challenges/MatchChallenge.tsx:20 | `rightItems`: one right label per pair, in the payload's order |
| `Match.IsRightAssigned` | components/challenges/MatchChallenge.tsx:64-65 | Right item r is in use iff some left index is linked to it (`Object.values(assignments).includes(r)`) |
| `Match.AllAssigned` | components/challenges/MatchChallenge.tsx:70 | The number of linked left indices equals the number of pairs |
| `Match.IsMatchCorrect` | components/challenges/MatchChallenge.tsx:67-68 | For in-range indices: true iff right item r's label equals left pair l's right label. False when exactly one index is out of range. True when both are out of range (`undefined === undefined`) |
| `Match.MatchCorrectDiagonal` | components/challenges/MatchChallenge.tsx:20 | `rightItems` keeps the payload's order, so linking i to i is always correct |
| `Match.MatchCorrectOnlyDiagonal` | components/challenges/MatchChallenge.tsx:67-68 | With distinct right labels, `isMatchCorrect(l, r)` holds iff l == r |
| `Match.AllAssignedIff` | components/challenges/MatchChallenge.tsx:70 | With keys in range, the key count equals n iff every left index 0 .. n-1 is linked |
| `Match.AssignedIsPermutation` | components/challenges/MatchChallenge.tsx:70 | An injective, in-range, fully assigned map links every left index and uses every right index |
| `Match.ImageIsIndices` | components/challenges/MatchChallenge.tsx:70 | The set of right indices such a map uses is exactly 0 .. n-1 |
| `Match.AssignKeepsInjective` | components/challenges/MatchChallenge.tsx:54-58 | Linking any left index to a right index that no left uses keeps the map injective |
| `Match.Submission` | components/challenges/MatchChallenge.tsx:80-83 | The sent list has one entry per pair; entry i carries pair i's left label and the right label of the item linked to i |
| `Match.RestoreStep` | components/challenges/MatchChallenge.tsx:33-36 | One `forEach` step: a pair whose two labels are found sets its left index to its right index; any other pair leaves the map alone |
| `Match.RestoredPrefix` | components/challenges/MatchChallenge.tsx:31-36 | The map after the first k attempt pairs; its keys and values are indices of pairs |
| `Match.Restored` | components/challenges/MatchChallenge.tsx:31-38 | The rebuilt map's keys and values are all indices of pairs |
| `Match.RestoredEntries` | components/challenges/MatchChallenge.tsx:31-38 | A left index is linked iff some attempt pair with both labels found names it; the link points at the right index of the last such pair, since later pairs overwrite earlier ones; pairs with a missing label are skipped |
| `Match.RestoredKeys` | components/challenges/MatchChallenge.tsx:33-36 | Every attempt pair whose two labels are found has its left index linked |
| `Match.RestoredSource` | components/challenges/MatchChallenge.tsx:33-36 | Every link comes from an attempt pair whose labels are both found, and no later resolving pair names the same key |
| `Match.RestoreOverwrites` | components/challenges/MatchChallenge.tsx:33-36 | With two pairs sharing a left label, restoring both keeps only the second pair's link |
| `Match.RestoreCanBreakInjectivity` | components/challenges/MatchChallenge.tsx:31-38 | With two pairs sharing the right label, restoring the pairs themselves links both left indices to right index 0, so the map is not injective |
| `Match.LeftIndexOf` | components/challenges/MatchChallenge.tsx:33 | `payload.pairs.findIndex(item => item.left === pair.left)`: the first left index carrying the pair's left label, or -1 |
| `Match.RightIndexOf` | components/challenges/MatchChallenge.tsx:34 | `rightItems.indexOf(pair.right)`: the first right index carrying the pair's right label, or -1 |
| `Match.Resolves` | components/challenges/MatchChallenge.tsx:35 | `leftIndex >= 0 && rightIndex >= 0`: both labels of the attempt pair were found |
| `Match.RestoredInjective` | components/challenges/MatchChallenge.tsx:31-38 | An attempt that repeats no right label restores an injective map |
| `Match.RestoredAssignments` | components/challenges/MatchChallenge.tsx:31-38 | The `forEach` loop builds exactly the map of the restore fold |
| `Match.RestoredDiagonal` | components/challenges/MatchChallenge.tsx:31-38 | If the j-th attempt pair resolves to left index j for every j, the restored map has exactly the keys 0 .. n-1, and each is linked to its pair's right index |
| `Match.SentResolves` | components/challenges/MatchChallenge.tsx:80-83 | With distinct labels, every sent pair resolves back to its own left index and to the right index that was linked to it |
| `Match.AssignedKeys` | components/challenges/MatchChallenge.tsx:70 | A fully assigned map within range has exactly the keys 0 .. n-1 |
| `Match.DiagonalRestored` | components/challenges/MatchChallenge.tsx:31-38 | If the j-th attempt pair resolves to left index j for every j, each left index i is linked to the i-th pair's right index |
| `Match.SentLeftIndex` | components/challenges/MatchChallenge.tsx:80-83 | With distinct labels, the j-th sent pair resolves back to left index j and to the right index that was linked to j |
| `Match.RoundTrip` | components/challenges/MatchChallenge.tsx:31-83 | With distinct left labels and distinct right labels, restoring from the submitted pairs gives back the submitted map |
| `Match.LeftIsCorrect` | components/challenges/MatchChallenge.tsx:107-110 | Left item i is drawn correct iff a verdict is shown, i is linked, and its link is correct |
| `Match.LeftIsWrong` | components/challenges/MatchChallenge.tsx:107-111 | Left item i is drawn wrong iff a verdict is shown, i is linked, and its link is not correct |
| `Match.RightIsCorrect` | components/challenges/MatchChallenge.tsx:133-140 | Right item j is drawn correct iff a verdict is shown, some left is linked to j, and the first such left's link is correct |
| `Match.RightIsWrong` | components/challenges/MatchChallenge.tsx:133-141 | Right item j is drawn wrong iff a verdict is shown, some left is linked to j, and the first such left's link is not correct |
| `Match.AssignedLeft` | components/challenges/MatchChallenge.tsx:133-136 | The `find` over the keys gives the least left index linked to right item j, or -1 when none is |
| `Match.LinkColoursAgree` | components/challenges/MatchChallenge.tsx:106-141 | With an injective map, a link's two ends are drawn in the same colour; correct and wrong never coincide; nothing is coloured before a verdict |
| `MatchState.MatchChallenge.constructor` | components/challenges/MatchChallenge.tsx:14-18 | Initial state: no selection, no links, no verdict, not submitting, no error |
| `MatchState.MatchChallenge.LeftPress` | components/challenges/MatchChallenge.tsx:44-48 | Sets the selection, clears verdict and error, leaves the links alone |
| `MatchState.MatchChallenge.RightPress` | components/challenges/MatchChallenge.tsx:50-62 | With no selection, or for a right item already in use, nothing changes. Otherwise only the selected key is set, the selection is dropped, verdict and error are cleared, and injectivity is kept |
| `MatchState.MatchChallenge.BeginSubmit` | components/challenges/MatchChallenge.tsx:73-84 | Nothing happens and nothing is sent unless all left items are linked and no submission is in flight. Otherwise the submission is marked in flight, the error is cleared, and `Submission` of the links is sent |
| `MatchState.MatchChallenge.SubmitSucceeded` | components/challenges/MatchChallenge.tsx:85-93 | The verdict becomes the server's result and the submission ends |
| `MatchState.MatchChallenge.SubmitFailed` | components/challenges/MatchChallenge.tsx:87-93 | The error is set, the verdict is cleared and the submission ends |
| `MatchState.MatchChallenge.Restore` | components/challenges/MatchChallenge.tsx:22-42 | A missing or non-pairs attempt gives an empty map and no verdict. Otherwise the links are the restore fold of the attempt's pairs and the verdict is the attempt's. The selection is always dropped |
| `MatchState.SubmitThenRestore` | components/challenges/MatchChallenge.tsx:22-93 | Submitting, succeeding, then restoring from the stored attempt leaves the same links, with the server's verdict, no selection, nothing in flight and no error |
| `Feedback.IsSelected` | components/challenges/QuizChallenge.tsx:62 | The option is the selected value |
| `Feedback.IsRight` | components/challenges/QuizChallenge.tsx:63-64 | `isRight`: selected, a verdict is known, and the verdict is true |
| `Feedback.IsWrong` | components/challenges/QuizChallenge.tsx:63-65 | `isWrong`: selected, a verdict is known, and the verdict is false |
| `Feedback.IsMarked` | components/challenges/TrueFalseChallenge.tsx:69-70 | The option carries one of the two feedback styles |
| `Feedback.HighlightRule` | components/challenges/QuizChallenge.tsx:62-65 | Right and wrong never coincide. An option is marked iff it is selected and a verdict is known; right iff the verdict is true, wrong iff false. Two marked options are equal |
| `Feedback.AtMostOneMarked` | components/challenges/TrueFalseChallenge.tsx:66-70 | Among any options, at most one value is marked, and it is the selected value |
| `Quiz.QuizChallenge.constructor` | components/challenges/QuizChallenge.tsx:14-17 | Initial state: nothing selected, no verdict, not submitting, no error |
| `Quiz.QuizChallenge.Restore` | components/challenges/QuizChallenge.tsx:19-28 | A quiz-shaped attempt gives its choice and verdict; anything else clears both |
| `Quiz.QuizChallenge.Select` | components/challenges/QuizChallenge.tsx:30-41 | Ignored while submitting. Otherwise selects the index, clears verdict and error, marks the submission in flight, and sends exactly `{choiceIndex: index}` |
| `Quiz.QuizChallenge.SubmitSucceeded` | components/challenges/QuizChallenge.tsx:42-50 | The verdict becomes the server's result and the submission ends |
| `Quiz.QuizChallenge.SubmitFailed` | components/challenges/QuizChallenge.tsx:44-50 | The error is set, the verdict is cleared and the submission ends |
| `Quiz.MarkedChoices` | components/challenges/QuizChallenge.tsx:61-65 | At most one rendered choice is marked; a marked choice is the selected one and has a verdict |
| `Quiz.DoubleSelect` | components/challenges/QuizChallenge.tsx:30-41 | A second press while the first answer is in flight sends nothing and keeps the first selection |
| `TrueFalse.OptionValues` | components/challenges/TrueFalseChallenge.tsx:19-22 | The option values in display order: true, then false |
| `TrueFalse.OptionValuesAreBooleans` | components/challenges/TrueFalseChallenge.tsx:19-22 | The option list holds true and false, once each |
| `TrueFalse.TrueFalseChallenge.constructor` | components/challenges/TrueFalseChallenge.tsx:14-17 | Initial state: nothing selected, no verdict, not submitting, no error |
| `TrueFalse.TrueFalseChallenge.Restore` | components/challenges/TrueFalseChallenge.tsx:24-33 | An attempt carrying `answer` gives its value and verdict; anything else clears both |
| `TrueFalse.TrueFalseChallenge.Select` | components/challenges/TrueFalseChallenge.tsx:35-46 | Ignored while submitting. Otherwise selects the value, clears verdict and error, marks the submission in flight, and sends exactly `{answer: value}` |
| `TrueFalse.TrueFalseChallenge.SubmitSucceeded` | components/challenges/TrueFalseChallenge.tsx:47-55 | The verdict becomes the server's result and the submission ends |
| `TrueFalse.TrueFalseChallenge.SubmitFailed` | components/challenges/TrueFalseChallenge.tsx:49-55 | The error is set, the verdict is cleared and the submission ends |
| `TrueFalse.MarkedOptions` | components/challenges/TrueFalseChallenge.tsx:66-70 | At most one of the two options is marked; a marked one is the selected value and has a verdict; right and wrong exclude each other |

## Left out

- Remote procedure calls (lib/api.ts) and the server behind them: grading, scoring, unlocking and progression are not in the client. The server's verdict is an input to `SubmitSucceeded`, and a failed call is the `SubmitFailed` event.
- The `onSubmitted` callback to the parent, `console.warn`, and the text of the error message. The error is modelled as a flag, because the message is a fixed localized string.
- The rendering of the components: styles, the "selected" and "assigned" styles, labels, prompts and explanations. Only the right/wrong and correct/wrong highlight rules are modelled.
- `disabled={submitting}` on the rendered buttons. The match component's left and right press handlers do not check `submitting`; only the buttons' `disabled` does. So `LeftPress` and `RightPress` do not require it. (The quiz and true/false `handleSelect` and the match `handleSubmit` do check it, and `Select` and `BeginSubmit` model that check.)
- When the best-attempt effect fires (on mount, and when the challenge id, the best attempt's `createdAt` or the payload changes). `Restore` is an event that may occur at any time. The payload is fixed for each component object.
- React's batching of state updates: each setter is an immediate assignment, in program order.
- JavaScript object keys are strings. The links map uses integer keys, and `Object.keys` enumerating integer-like keys in ascending order is modelled by `AssignedLeft`'s upward search.
- The challenge renderer's switch on the challenge type, because it only picks which component to show.
- `QuizPayload.min_score` and `answer_index` are carried in `Types` but not read, because the client does not read them.
