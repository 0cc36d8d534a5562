/**
 * The data contracts of the client (lib/types.ts) that the three challenge
 * components consume: payloads, attempt answers and the best-attempt summary.
 */
module Types {

  /** `T | null` (and an absent optional property) in the client's types. */
  datatype Option<+T> = None | Some(value: T)

  /** One left/right pair of a match challenge. */
  datatype MatchPair = MatchPair(left: string, right: string)

  datatype MatchPayload = MatchPayload(prompt: string, pairs: seq<MatchPair>)

  /** `min_score` is carried but never read by the client. */
  datatype QuizPayload = QuizPayload(
    prompt: string,
    choices: seq<string>,
    answerIndex: int,
    explanation: Option<string>,
    minScore: Option<int>)

  datatype TrueFalsePayload = TrueFalsePayload(
    prompt: string,
    answer: bool,
    explanation: Option<string>)

  /**
   * The stored answer of an attempt. The client tells the shapes apart by
   * which property is present (`choiceIndex`, `answer` or `pairs`); here
   * that is the constructor.
   */
  datatype ChallengeAttemptAnswer =
    | QuizAttemptAnswer(choiceIndex: int)
    | TrueFalseAttemptAnswer(answer: bool)
    | MatchAttemptAnswer(pairs: seq<MatchPair>)

  /** The best attempt the server attaches to a challenge. */
  datatype ChallengeAttemptSummary = ChallengeAttemptSummary(
    answers: ChallengeAttemptAnswer,
    result: bool,
    score: int,
    createdAt: string)
}
