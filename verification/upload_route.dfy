/** `POST /api/upload` (app/api/upload/route.ts): take a GitHub URL (JSON
    body) or a ZIP archive (multipart form), run the pipeline load → list →
    parse → chunk → summarise, save the result in the store for the chat
    route, and remove the checked-out directory again. */
module UploadRoute {
  import opened Wrappers
  import opened Text
  import opened Types
  import RepoLoader
  import FileParser
  import Chunker
  import AiSummarizer
  import RepoStore

  const JSON_TYPE: string := "application/json"
  const FORM_TYPE: string := "multipart/form-data"
  const INVALID_URL_FIELD: string := "Missing or invalid `github_url` field"
  const MISSING_FILE: string := "Missing `file` field in form data"
  const ONLY_ZIP: string := "Only .zip files are accepted"
  const UNSUPPORTED_CONTENT_TYPE: string :=
    "Unsupported Content-Type. Send JSON with `github_url` or multipart form-data with a `file` field."

  /** The `file` field of a form: missing, not a `Blob`, or a `Blob` (with
      a name when it is a `File`) whose bytes the ZIP reader reads as the
      given entries or rejects with the given message. */
  datatype FormFile =
    | NoFile
    | NotBlob
    | Blob(name: Option<string>, archive: Result<seq<RepoLoader.ZipEntry>>)

  /** A request: its `content-type` header, and the body read either way
      (each is the field read, or the message the parser threw). */
  datatype UploadRequest = UploadRequest(contentType: Option<string>, githubUrl: Result<Field>, file: Result<FormFile>)

  /** Everything outside the route: the loader's world, the tree found in
      the loaded directory, the text decoder, the summarising backend and
      its reply parser, and the clock. */
  datatype Env = Env(loader: RepoLoader.Env, tree: FileParser.Entry, decode: seq<byte> -> string,
                     backend: AiSummarizer.Request -> Reply, find: (string, string) -> Option<string>,
                     generatedAt: string, now: int)

  /** What a request produced: the reply, the disk effects, and the store. */
  datatype Response = Response(reply: HttpReply<UploadResult>, effects: seq<RepoLoader.Effect>, store: RepoStore.Store)

  /** Whether `effects` finishes with the effects `tail`. */
  predicate EndsWithEffects(effects: seq<RepoLoader.Effect>, tail: seq<RepoLoader.Effect>) {
    |tail| <= |effects| && effects[|effects| - |tail|..] == tail
  }

  function SourceName(source: UploadSource): string {
    match source
    case Github => "github"
    case Zip => "zip"
  }

  /** The chunks the pipeline makes of the loaded tree. */
  function Chunks(env: Env): seq<FileChunk> {
    Chunker.ChunkFiles(FileParser.ParseFiles(env.tree, env.decode))
  }

  /** `processRepo`: load, then list, parse, chunk, summarise and save. The
      stages after loading do not throw here (see the README). */
  function ProcessRepo(v: RepoLoader.Version, source: UploadSource, payload: RepoLoader.Payload, fileName: Option<string>, env: Env,
                       store: RepoStore.Store): (r: (Result<(UploadResult, string)>, seq<RepoLoader.Effect>, RepoStore.Store))
    ensures r.1 == RepoLoader.LoadRepo(v, SourceName(source), payload, fileName, env.loader).effects
    ensures r.0.Success? <==> RepoLoader.LoadRepo(v, SourceName(source), payload, fileName, env.loader).result.Success?
    ensures r.0.Failure? ==>
              r.0.error == RepoLoader.LoadRepo(v, SourceName(source), payload, fileName, env.loader).result.error && r.2 == store
    ensures r.0.Success? ==>
              && r.0.value.1 == RepoLoader.LocalPath(env.loader.repoId)
              && r.0.value.0.repoId == env.loader.repoId
              && r.0.value.0.source == source
  {
    var o := RepoLoader.LoadRepo(v, SourceName(source), payload, fileName, env.loader);
    match o.result
    case Failure(message) => (Failure(message), o.effects, store)
    case Success(loaded) =>
      var files := FileParser.ListFiles(env.tree);
      var chunks := Chunks(env);
      var summary := AiSummarizer.SummarizeRepo(loaded.repoId, loaded.repoName, chunks, env.backend,
                                                env.find, env.generatedAt);
      var store' := RepoStore.Save(store, env.now, loaded.repoId, loaded.repoName, chunks, summary);
      var result := UploadResult(loaded.repoId, loaded.repoName, source, |files|, |chunks|, files,
                                 summary.overview, summary.architecture);
      (Success((result, loaded.localPath)), o.effects, store')
  }

  /** A successful pipeline reports the listed files and the chunk count,
      carries the generated overview and architecture, and saves the chunks
      and summary under the new id. */
  lemma ProcessRepoResult(v: RepoLoader.Version, source: UploadSource, payload: RepoLoader.Payload, fileName: Option<string>, env: Env,
                          store: RepoStore.Store)
    ensures var r := ProcessRepo(v, source, payload, fileName, env, store);
            r.0.Success? ==>
              var result := r.0.value.0;
              var summary := AiSummarizer.SummarizeRepo(result.repoId, result.repoName, Chunks(env), env.backend,
                                                        env.find, env.generatedAt);
              && result.files == FileParser.ListFiles(env.tree)
              && result.fileCount == |result.files|
              && result.chunkCount == |Chunks(env)|
              && result.repoSummary == summary.overview
              && result.architecture == summary.architecture
              && r.2 == RepoStore.Save(store, env.now, result.repoId, result.repoName, Chunks(env), summary)
  {
  }

  /** The reply for a finished pipeline; a successful one is followed by
      the removal of the directory, whose failure is ignored. A failed one
      removes nothing: `localPath` was never assigned. */
  function Finish(v: RepoLoader.Version, processed: (Result<(UploadResult, string)>, seq<RepoLoader.Effect>, RepoStore.Store)): (r: Response)
    ensures r.store == processed.2
    ensures processed.0.Failure? ==>
              r.reply == HttpReply(500, Err(processed.0.error)) && r.effects == processed.1
    ensures processed.0.Success? ==>
              r.reply == HttpReply(200, Ok(processed.0.value.0))
              && r.effects == processed.1 + RepoLoader.Cleanup(v, processed.0.value.1).1
  {
    match processed.0
    case Failure(message) => Response(HttpReply(500, Err(message)), processed.1, processed.2)
    case Success((result, localPath)) =>
      Response(HttpReply(200, Ok(result)), processed.1 + RepoLoader.Cleanup(v, localPath).1, processed.2)
  }

  /** The JSON branch: `githubUrl` is the body's `github_url` field, or the
      message parsing threw. */
  function PostJson(v: RepoLoader.Version, githubUrl: Result<Field>, env: Env, store: RepoStore.Store): (r: Response)
    ensures r.reply.status in {200, 400, 500}
    ensures r.reply.status == 200 <==> r.reply.body.Ok?
    ensures r.reply.status == 400 <==> githubUrl.Success? && !IsNonEmptyString(githubUrl.value)
    ensures r.reply.status == 400 ==> r == Response(HttpReply(400, Err(INVALID_URL_FIELD)), [], store)
    ensures r.reply.status == 200 ==>
              && r.reply.body.data.repoId == env.loader.repoId
              && r.reply.body.data.source == Github
              && EndsWithEffects(r.effects, RepoLoader.Cleanup(v, RepoLoader.LocalPath(env.loader.repoId)).1)
  {
    match githubUrl
    case Failure(message) => Response(HttpReply(500, Err(message)), [], store)
    case Success(url) =>
      if !IsNonEmptyString(url) then Response(HttpReply(400, Err(INVALID_URL_FIELD)), [], store)
      else Finish(v, ProcessRepo(v, Github, RepoLoader.Payload(url.value, Success([])), None, env, store))
  }

  /** The form branch: `file` is the form's `file` field, or the message
      parsing threw. A `Blob` that is not a `File` is named "upload.zip". */
  function PostForm(v: RepoLoader.Version, file: Result<FormFile>, env: Env, store: RepoStore.Store): (r: Response)
    ensures r.reply.status in {200, 400, 500}
    ensures r.reply.status == 200 <==> r.reply.body.Ok?
    ensures r.reply.status == 400 <==>
              file.Success? && (!file.value.Blob? || !EndsWith(Lower(file.value.name.GetOr(RepoLoader.UPLOAD_ZIP)), ".zip"))
    ensures r.reply.status == 400 ==> r.effects == [] && r.store == store
    ensures r.reply.status == 200 ==>
              && r.reply.body.data.repoId == env.loader.repoId
              && r.reply.body.data.source == Zip
              && EndsWithEffects(r.effects, RepoLoader.Cleanup(v, RepoLoader.LocalPath(env.loader.repoId)).1)
  {
    match file
    case Failure(message) => Response(HttpReply(500, Err(message)), [], store)
    case Success(NoFile) => Response(HttpReply(400, Err(MISSING_FILE)), [], store)
    case Success(NotBlob) => Response(HttpReply(400, Err(MISSING_FILE)), [], store)
    case Success(Blob(name, archive)) =>
      var fileName := name.GetOr(RepoLoader.UPLOAD_ZIP);
      if !EndsWith(Lower(fileName), ".zip") then Response(HttpReply(400, Err(ONLY_ZIP)), [], store)
      else Finish(v, ProcessRepo(v, Zip, RepoLoader.Payload([], archive), Some(fileName), env, store))
  }

  /** `POST`: JSON first, then a form, both found by substring; any other
      content type is a 415. A content type naming both is served as JSON.
      With `AsWritten` this is the source's route. */
  function Post(v: RepoLoader.Version, req: UploadRequest, env: Env, store: RepoStore.Store): (r: Response)
    ensures r.reply.status in {200, 400, 415, 500}
    ensures r.reply.status == 200 <==> r.reply.body.Ok?
    ensures r.reply.status == 415 <==>
              !Contains(req.contentType.GetOr(""), JSON_TYPE) && !Contains(req.contentType.GetOr(""), FORM_TYPE)
    ensures r.reply.status in {400, 415} ==> r.effects == [] && r.store == store
    ensures r.reply.status == 200 ==>
              && r.reply.body.data.repoId == env.loader.repoId
              && r.reply.body.data.source == (if Contains(req.contentType.GetOr(""), JSON_TYPE) then Github else Zip)
              && EndsWithEffects(r.effects, RepoLoader.Cleanup(v, RepoLoader.LocalPath(env.loader.repoId)).1)
  {
    var contentType := req.contentType.GetOr("");
    if Contains(contentType, JSON_TYPE) then PostJson(v, req.githubUrl, env, store)
    else if Contains(contentType, FORM_TYPE) then PostForm(v, req.file, env, store)
    else Response(HttpReply(415, Err(UNSUPPORTED_CONTENT_TYPE)), [], store)
  }

  /** Every effect is the creation of the shared root or lies inside `dir`. */
  predicate StaysWithin(effects: seq<RepoLoader.Effect>, dir: string) {
    forall e :: e in effects ==> e == RepoLoader.MakeDir(RepoLoader.REPOS_ROOT) || RepoLoader.Within(RepoLoader.Target(e), dir)
  }

  /** Whatever the request, the route touches the disk only at the shared
      root and inside the new repository's own directory. */
  lemma PostStaysWithin(v: RepoLoader.Version, req: UploadRequest, env: Env, store: RepoStore.Store)
    ensures StaysWithin(Post(v, req, env, store).effects, RepoLoader.LocalPath(env.loader.repoId))
  {
    var contentType := req.contentType.GetOr("");
    if Contains(contentType, JSON_TYPE) {
      assert Post(v, req, env, store) == PostJson(v, req.githubUrl, env, store);
      if req.githubUrl.Success? && IsNonEmptyString(req.githubUrl.value) {
        var payload := RepoLoader.Payload(req.githubUrl.value.value, Success([]));
        ProcessStaysWithin(v, Github, payload, None, env, store);
      }
    } else if Contains(contentType, FORM_TYPE) {
      assert Post(v, req, env, store) == PostForm(v, req.file, env, store);
      if req.file.Success? && req.file.value.Blob? {
        var fileName := req.file.value.name.GetOr(RepoLoader.UPLOAD_ZIP);
        ProcessStaysWithin(v, Zip, RepoLoader.Payload([], req.file.value.archive), Some(fileName), env, store);
      }
    }
  }

  /** The pipeline and the removal after it stay inside the new directory. */
  lemma ProcessStaysWithin(v: RepoLoader.Version, source: UploadSource, payload: RepoLoader.Payload,
                           fileName: Option<string>, env: Env, store: RepoStore.Store)
    ensures StaysWithin(Finish(v, ProcessRepo(v, source, payload, fileName, env, store)).effects,
                        RepoLoader.LocalPath(env.loader.repoId))
  {
    var p := RepoLoader.LocalPath(env.loader.repoId);
    var processed := ProcessRepo(v, source, payload, fileName, env, store);
    RepoLoader.LoadStaysWithin(v, SourceName(source), payload, fileName, env.loader);
    FinishStaysWithin(v, processed, p);
  }

  /** Finishing adds at most the removal of the pipeline's own directory. */
  lemma FinishStaysWithin(v: RepoLoader.Version,
                          processed: (Result<(UploadResult, string)>, seq<RepoLoader.Effect>, RepoStore.Store),
                          p: string)
    requires StaysWithin(processed.1, p)
    requires processed.0.Success? ==> processed.0.value.1 == p
    ensures StaysWithin(Finish(v, processed).effects, p)
  {
    if processed.0.Success? {
      var cleanup := RepoLoader.Cleanup(v, p).1;
      assert cleanup == [] || cleanup == [RepoLoader.Remove(p)];
      assert StaysWithin(processed.1 + cleanup, p);
    }
  }

  /** A successful upload can be asked about at once: reading the store at
      the same time returns exactly the chunks the pipeline made. */
  lemma UploadThenChat(v: RepoLoader.Version, req: UploadRequest, env: Env, store: RepoStore.Store)
    requires RepoStore.Valid(store)
    ensures var r := Post(v, req, env, store);
            r.reply.status == 200 ==>
              RepoStore.GetChunks(r.store, env.now, env.loader.repoId) == RepoStore.Read(Some(Chunks(env)), r.store)
  {
    var contentType := req.contentType.GetOr("");
    var r := Post(v, req, env, store);
    if r.reply.status == 200 {
      var source: UploadSource, payload: RepoLoader.Payload, fileName: Option<string>;
      if Contains(contentType, JSON_TYPE) {
        source, payload, fileName := Github, RepoLoader.Payload(req.githubUrl.value.value, Success([])), None;
      } else {
        fileName := Some(req.file.value.name.GetOr(RepoLoader.UPLOAD_ZIP));
        source, payload := Zip, RepoLoader.Payload([], req.file.value.archive);
      }
      var processed := ProcessRepo(v, source, payload, fileName, env, store);
      assert r == Finish(v, processed);
      ProcessRepoResult(v, source, payload, fileName, env, store);
      var result := processed.0.value.0;
      var summary := AiSummarizer.SummarizeRepo(result.repoId, result.repoName, Chunks(env), env.backend,
                                                env.find, env.generatedAt);
      RepoStore.SaveThenGet(store, env.now, result.repoId, result.repoName, Chunks(env), summary);
    }
  }

  /** After a successful upload the repository's directory is removed
      again: the last effect is its removal. The corrected guard needs the
      id to be one plain path segment, as a uuid is. */
  lemma SuccessfulUploadCleansUp(v: RepoLoader.Version, req: UploadRequest, env: Env, store: RepoStore.Store)
    requires v.Corrected? ==> RepoLoader.IsIdSegment(env.loader.repoId)
    ensures var r := Post(v, req, env, store);
            r.reply.status == 200 ==>
              |r.effects| > 0 && r.effects[|r.effects| - 1] == RepoLoader.Remove(RepoLoader.LocalPath(env.loader.repoId))
  {
    if v.AsWritten? {
      RepoLoader.CleanupAsWrittenAcceptsLoaded(env.loader.repoId);
    } else {
      RepoLoader.CleanupAcceptsLoaded(env.loader.repoId);
    }
  }

  /** As written, a ZIP upload answered 500 leaves its directory behind:
      the extraction created it and threw, and `localPath` was never
      assigned, so the `finally` block removes nothing. */
  lemma FailedZipLeavesDirectory(name: Option<string>, archive: Result<seq<RepoLoader.ZipEntry>>,
                                 env: Env, store: RepoStore.Store)
    ensures var r := PostForm(RepoLoader.AsWritten, Success(Blob(name, archive)), env, store);
            r.reply.status == 500 ==> RepoLoader.LeavesBehind(r.effects, RepoLoader.LocalPath(env.loader.repoId))
  {
    var fileName := name.GetOr(RepoLoader.UPLOAD_ZIP);
    if EndsWith(Lower(fileName), ".zip") {
      var payload := RepoLoader.Payload([], archive);
      ZipFormIsProcessed(RepoLoader.AsWritten, name, archive, env, store);
      FailureKeepsLoadEffects(RepoLoader.AsWritten, Zip, payload, Some(fileName), env, store);
      RepoLoader.FailedZipLoadLeaves(payload, Some(fileName), env.loader);
    }
  }

  /** As written, uploading an archive whose only entry escapes is a 500
      with the zip-slip message, and the directory stays on disk. */
  lemma ZipSlipUploadLeavesDirectory(name: Option<string>, e: RepoLoader.ZipEntry, env: Env, store: RepoStore.Store)
    requires EndsWith(Lower(name.GetOr(RepoLoader.UPLOAD_ZIP)), ".zip")
    requires RepoLoader.Escapes(RepoLoader.LocalPath(env.loader.repoId), e, env.loader.join)
    ensures var r := PostForm(RepoLoader.AsWritten, Success(Blob(name, Success([e]))), env, store);
            && r.reply == HttpReply(500, Err(RepoLoader.ZIP_SLIP + e.entryName))
            && RepoLoader.LeavesBehind(r.effects, RepoLoader.LocalPath(env.loader.repoId))
  {
    var fileName := name.GetOr(RepoLoader.UPLOAD_ZIP);
    var payload := RepoLoader.Payload([], Success([e]));
    ZipFormIsProcessed(RepoLoader.AsWritten, name, Success([e]), env, store);
    FailureKeepsLoadEffects(RepoLoader.AsWritten, Zip, payload, Some(fileName), env, store);
    var o := RepoLoader.LoadRepo(RepoLoader.AsWritten, "zip", payload, Some(fileName), env.loader);
    assert o.result == Failure(RepoLoader.ZIP_SLIP + e.entryName);
    RepoLoader.FailedZipLoadLeaves(payload, Some(fileName), env.loader);
  }

  /** With the corrected extraction, a ZIP upload that fails leaves no
      directory behind. */
  lemma FailedZipLeavesNothing(name: Option<string>, archive: Result<seq<RepoLoader.ZipEntry>>,
                               env: Env, store: RepoStore.Store)
    ensures var r := PostForm(RepoLoader.Corrected, Success(Blob(name, archive)), env, store);
            r.reply.status == 500 ==> !RepoLoader.LeavesBehind(r.effects, RepoLoader.LocalPath(env.loader.repoId))
  {
    var fileName := name.GetOr(RepoLoader.UPLOAD_ZIP);
    if EndsWith(Lower(fileName), ".zip") {
      var payload := RepoLoader.Payload([], archive);
      ZipFormIsProcessed(RepoLoader.Corrected, name, archive, env, store);
      FailureKeepsLoadEffects(RepoLoader.Corrected, Zip, payload, Some(fileName), env, store);
      RepoLoader.FailedZipLoadCleansUp(payload, Some(fileName), env.loader);
    }
  }

  /** A pipeline answered 500 did exactly what its load did, and nothing
      more. */
  lemma FailureKeepsLoadEffects(v: RepoLoader.Version, source: UploadSource, payload: RepoLoader.Payload,
                                fileName: Option<string>, env: Env, store: RepoStore.Store)
    ensures var o := RepoLoader.LoadRepo(v, SourceName(source), payload, fileName, env.loader);
            var r := Finish(v, ProcessRepo(v, source, payload, fileName, env, store));
            r.reply.status == 500 <==> o.result.Failure?
    ensures var o := RepoLoader.LoadRepo(v, SourceName(source), payload, fileName, env.loader);
            var r := Finish(v, ProcessRepo(v, source, payload, fileName, env, store));
            r.reply.status == 500 ==> r.effects == o.effects && r.reply.body == Err(o.result.error)
  {
  }

  /** A form carrying a `.zip` blob runs the pipeline on it. */
  lemma ZipFormIsProcessed(v: RepoLoader.Version, name: Option<string>, archive: Result<seq<RepoLoader.ZipEntry>>,
                           env: Env, store: RepoStore.Store)
    requires EndsWith(Lower(name.GetOr(RepoLoader.UPLOAD_ZIP)), ".zip")
    ensures PostForm(v, Success(Blob(name, archive)), env, store)
            == Finish(v, ProcessRepo(v, Zip, RepoLoader.Payload([], archive), Some(name.GetOr(RepoLoader.UPLOAD_ZIP)), env, store))
  {
  }
}
