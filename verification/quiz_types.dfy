/** The question and answer records handed to the components, as `QuestionUI`/`AnswerUI` declare them. */
module QuizTypes {
  import opened Wrappers

  datatype Answer = Answer(id: string, content: string, isCorrect: bool)

  /** `xpValue` is optional; the schema and the components fall back to 10 when it is absent. */
  datatype Question = Question(id: string, text: string, section: int, xpValue: Option<int>, answers: seq<Answer>)

  /** The schema's default experience value of a question. */
  const DefaultXP: int := 10
}
