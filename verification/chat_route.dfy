/** `POST /api/chat` (app/api/chat/route.ts): validate the body, then ask
    the question about a stored repository. Every thrown message becomes
    the response's error; it is a 404 when it mentions "not found". */
module ChatRoute {
  import opened Wrappers
  import opened Text
  import opened Types
  import RepoStore
  import ChatService

  const MAX_QUESTION_LENGTH: nat := 2000
  const INVALID_REPO_ID: string := "Missing or invalid `repoId` field"
  const INVALID_QUESTION: string := "Missing or invalid `question` field"
  const EMPTY_QUESTION: string := "Question cannot be empty"
  const QUESTION_TOO_LONG: string := "Question exceeds 2000 character limit"

  /** The two fields the route reads from the JSON body. */
  datatype ChatBody = ChatBody(repoId: Field, question: Field)

  /** The status of a thrown message. */
  function ErrorStatus(message: string): (status: nat)
    ensures status == 404 || status == 500
    ensures status == 404 <==> Contains(message, "not found")
  {
    if Contains(message, "not found") then 404 else 500
  }

  /** Why a body is turned away before the question is asked, if it is. */
  function Rejection(body: ChatBody): (r: Option<string>)
    ensures r.None? <==>
              && IsNonEmptyString(body.repoId) && IsNonEmptyString(body.question)
              && 0 < |Trim(body.question.value)| <= MAX_QUESTION_LENGTH
  {
    if !IsNonEmptyString(body.repoId) then Some(INVALID_REPO_ID)
    else if !IsNonEmptyString(body.question) then Some(INVALID_QUESTION)
    else
      var question := Trim(body.question.value);
      if |question| == 0 then Some(EMPTY_QUESTION)
      else if |question| > MAX_QUESTION_LENGTH then Some(QUESTION_TOO_LONG)
      else None
  }

  /** `POST`. `body` is the parsed JSON body, or the message of the error
      parsing threw; `store`, `now` and `backend` are what `askQuestion`
      reads. A rejected body leaves the store untouched. */
  function Post(body: Result<ChatBody>, store: RepoStore.Store, now: int,
                backend: (string, seq<FileChunk>) -> Reply): (r: (HttpReply<ChatResponse>, RepoStore.Store))
    ensures r.0.status in {200, 400, 404, 500}
    ensures r.0.status == 200 <==> r.0.body.Ok?
    ensures body.Failure? ==> r == (HttpReply(ErrorStatus(body.error), Err(body.error)), store)
    ensures body.Success? && Rejection(body.value).Some? ==>
              r == (HttpReply(400, Err(Rejection(body.value).value)), store)
    ensures r.0.status == 200 ==>
              && body.Success? && Rejection(body.value).None?
              && r.0.body.data.repoId == body.value.repoId.value
              && r.0.body.data.question == Trim(body.value.question.value)
  {
    match body
    case Failure(message) => (HttpReply(ErrorStatus(message), Err(message)), store)
    case Success(b) =>
      match Rejection(b)
      case Some(message) => (HttpReply(400, Err(message)), store)
      case None =>
        var (result, store') := ChatService.AskQuestion(store, now, b.repoId.value, Trim(b.question.value), backend);
        match result
        case Success(response) => (HttpReply(200, Ok(response)), store')
        case Failure(message) => (HttpReply(ErrorStatus(message), Err(message)), store')
  }

  /** A valid question about a repository the store does not hold (or holds
      expired) is a 404; one it holds is answered with status 200. */
  lemma StatusOfValidQuestion(b: ChatBody, store: RepoStore.Store, now: int,
                              backend: (string, seq<FileChunk>) -> Reply)
    requires Rejection(b) == None
    ensures var r := Post(Success(b), store, now, backend);
            && (r.0.status == 404 <==> RepoStore.GetChunks(store, now, b.repoId.value).value.None?)
            && (r.0.status == 200 <==> RepoStore.GetChunks(store, now, b.repoId.value).value.Some?)
  {
  }

  /** A question that is only white space is turned away with 400, unlike
      the assistant route, which answers it. */
  lemma BlankQuestionRejected(repoId: string, question: string, store: RepoStore.Store, now: int,
                              backend: (string, seq<FileChunk>) -> Reply)
    requires repoId != [] && question != [] && AllSpace(question)
    ensures Post(Success(ChatBody(Str(repoId), Str(question))), store, now, backend) ==
            (HttpReply(400, Err(EMPTY_QUESTION)), store)
  {
    TrimEmptyIffAllSpace(question);
  }
}
