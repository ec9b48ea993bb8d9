/**
 * The records of the story engine: the story graph's nodes and the game state.
 * A nullable string of the source is an `Option<string>`.
 */
module GameTypes {
  import opened Wrappers

  /** An edge of the story graph; `nextQuestionId` may name a question, an epilogue or nothing. */
  datatype Answer = Answer(id: string, text: string, nextQuestionId: string)

  datatype Question = Question(id: string, story: string, questionText: string, answers: seq<Answer>)

  /** A terminal node of the story graph. */
  datatype Epilogue = Epilogue(id: string, title: string, text: string)

  /** The progression state: where the player is, the answers chosen so far, and whether the story ended. */
  datatype GameState = GameState(
    currentQuestionId: Option<string>,
    history: seq<string>,
    isFinished: bool,
    finalEpilogueId: Option<string>)
}
