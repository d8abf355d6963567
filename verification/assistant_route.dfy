/** `POST /api/assistant-chat` (app/api/assistant-chat/route.ts): validate
    the question and pass it, trimmed, to the assistant. Every thrown
    message is a 500. */
module AssistantRoute {
  import opened Wrappers
  import opened Text
  import opened Types
  import opened AssistantService

  const MAX_QUESTION_LENGTH: nat := 2000
  const INVALID_QUESTION: string := "Missing or invalid `question` field"
  const QUESTION_TOO_LONG: string := "Question exceeds 2000 character limit"

  /** `POST`. `question` is the body's `question` field, or the message of
      the error parsing threw. The log line is left out. */
  function Post(question: Result<Field>, test: (string, string) -> bool,
                backend: (string, string) -> Generated): (r: (HttpReply<AssistantResponse>, seq<BackendCall>))
    ensures r.0.status in {200, 400, 500}
    ensures r.0.status == 200 <==>
              question.Success? && IsNonEmptyString(question.value) && |Trim(question.value.value)| <= MAX_QUESTION_LENGTH
    ensures question.Failure? ==> r == (HttpReply(500, Err(question.error)), [])
    ensures question.Success? && !IsNonEmptyString(question.value) ==> r == (HttpReply(400, Err(INVALID_QUESTION)), [])
    ensures question.Success? && IsNonEmptyString(question.value) && |Trim(question.value.value)| > MAX_QUESTION_LENGTH ==>
              r == (HttpReply(400, Err(QUESTION_TOO_LONG)), [])
    ensures r.0.status == 200 ==>
              r.0.body.Ok? && r == (HttpReply(200, Ok(AskAssistant(Trim(question.value.value), test, backend).0)),
                                    AskAssistant(Trim(question.value.value), test, backend).1)
  {
    match question
    case Failure(message) => (HttpReply(500, Err(message)), [])
    case Success(f) =>
      if !IsNonEmptyString(f) then (HttpReply(400, Err(INVALID_QUESTION)), [])
      else
        var trimmed := Trim(f.value);
        if |trimmed| > MAX_QUESTION_LENGTH then (HttpReply(400, Err(QUESTION_TOO_LONG)), [])
        else
          var (response, calls) := AskAssistant(trimmed, test, backend);
          (HttpReply(200, Ok(response)), calls)
  }

  /** A question of white space alone passes validation and is answered
      from the table as an empty message, with no backend call. */
  lemma BlankQuestionAnswered(question: string, test: (string, string) -> bool,
                              backend: (string, string) -> Generated)
    requires question != [] && AllSpace(question)
    ensures Post(Success(Str(question)), test, backend) ==
            (HttpReply(200, Ok(AssistantResponse("", EMPTY_MESSAGE_ANSWER, RULE_BASED))), [])
  {
    TrimEmptyIffAllSpace(question);
    BlankQuestion(Trim(question), test, backend);
  }
}
