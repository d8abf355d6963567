/** The records exchanged between the services and the API routes
    (types/index.ts). */
module Types {

  /** A byte of a file read from disk. */
  newtype byte = x: int | 0 <= x < 256

  /** A text file accepted by the parser. */
  datatype ParsedFile = ParsedFile(path: string, extension: string, language: string,
                                   content: string, sizeBytes: nat)

  /** One piece of a file, sized for a model's context window. */
  datatype FileChunk = FileChunk(filePath: string, chunkIndex: nat, language: string, content: string)

  /** The generated one-line description of a file. */
  datatype FileSummary = FileSummary(filePath: string, summary: string, language: string)

  /** The generated description of a whole repository. */
  datatype RepoSummary = RepoSummary(repoId: string, overview: string, architecture: string,
                                     fileSummaries: seq<FileSummary>, generatedAt: string)

  /** Where an uploaded repository came from. */
  datatype UploadSource = Github | Zip

  /** The payload of a successful upload. */
  datatype UploadResult = UploadResult(repoId: string, repoName: string, source: UploadSource,
                                       fileCount: nat, chunkCount: nat, files: seq<string>,
                                       repoSummary: string, architecture: string)

  /** The payload of a successful question about a repository. */
  datatype ChatResponse = ChatResponse(repoId: string, question: string, answer: string, chunksUsed: nat)

  /** What one call to the generative backend did: it answered with some
      text (possibly empty), or it threw. */
  datatype Reply = Answered(text: string) | Threw

  /** A field of a parsed JSON request body: missing (or `null`), a string,
      or a value of some other JSON type. */
  datatype Field = Absent | Str(value: string) | NonString

  /** The check `!v || typeof v !== "string"` fails exactly for a non-empty
      string. */
  predicate IsNonEmptyString(f: Field) {
    f.Str? && f.value != []
  }

  /** `ApiResponse<T>`: `{ success: true, data }` or `{ success: false, error }`. */
  datatype ApiResponse<T> = Ok(data: T) | Err(error: string)

  /** A JSON response with its HTTP status code. */
  datatype HttpReply<T> = HttpReply(status: nat, body: ApiResponse<T>)
}
