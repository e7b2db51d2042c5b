/** The records shared by the page and the route (src/app/type.ts). */
module Types {
  import opened Wrappers

  /** One question card: the question text and its answer text. */
  datatype Question = Question(question: string, answer: string)

  /** The JSON body posted to the route. `subject` is `None` when the body has
      no such field; a missing `includeCode` reads as false. */
  datatype GenerateRequestBody = GenerateRequestBody(subject: Option<string>, includeCode: bool)

  /** The JSON body the route answers with: the Q&A blocks and, on failure, a message. */
  datatype GenerateResponse = GenerateResponse(questions: seq<string>, error: Option<string>)

}
