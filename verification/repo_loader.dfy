/** Bringing a repository onto the local disk under `/tmp/repos/<uuid>`:
    cloning a GitHub URL, extracting an uploaded ZIP archive, or writing a
    single-file project from pasted text; and removing such a directory
    afterwards (services/repoLoader.ts).

    The disk is not modelled as state. Every operation returns the effects it
    performs, in order, so properties about what is written where, and what
    is left behind, are properties of that log. The generated uuid, the URL
    parser, `path.join`, the ZIP reader and `git clone` are parameters. */
module RepoLoader {
  import opened Wrappers
  import opened Text
  import opened Types

  const REPOS_ROOT: string := "/tmp/repos"
  const UNKNOWN_REPO: string := "unknown-repo"
  const TEXT_UPLOAD: string := "text-upload"
  const UPLOAD_ZIP: string := "upload.zip"
  const INVALID_URL: string := "Invalid GitHub URL. Please provide an HTTPS github.com URL."
  const OUTSIDE_ROOT: string := "Refusing to delete path outside /tmp/repos"
  const ZIP_SLIP: string := "Zip slip detected: "
  const UNSUPPORTED_SOURCE: string := "Unsupported upload source: "

  /** Where a repository was put, under which display name and id. */
  datatype LoadResult = LoadResult(localPath: string, repoName: string, repoId: string)

  /** One change to the disk, in the order made. Directory creation is
      recursive; a file write first creates the file's parent directories;
      a removal is recursive and forced. */
  datatype Effect =
    | MakeDir(path: string)
    | WriteFile(path: string, data: seq<byte>)
    | WriteText(path: string, text: string)
    | Clone(url: string, path: string)
    | Remove(path: string)

  /** What a loader call returned or threw, and what it did before. */
  datatype Outcome = Outcome(result: Result<LoadResult>, effects: seq<Effect>)

  /** `path.join(REPOS_ROOT, repoId)` for a uuid, which holds no `/` or dot
      segment. */
  function LocalPath(repoId: string): string {
    REPOS_ROOT + "/" + repoId
  }

  /** The zip-slip guard's notion of a path lying within a directory: the
      directory itself, or something that starts with it and a separator. */
  predicate Within(path: string, dir: string) {
    StartsWith(path, dir + "/") || path == dir
  }

  // ---------------------------------------------------------------------
  // Repository names
  // ---------------------------------------------------------------------

  /** `replace(/\.git\/?$/, "")`: drops one trailing `.git` or `.git/`. */
  function StripGitSuffix(s: string): (r: string)
    ensures |r| <= |s| && r == s[..|r|]
  {
    if EndsWith(s, ".git/") then s[..|s| - 5]
    else if EndsWith(s, ".git") then s[..|s| - 4]
    else s
  }

  /** `replace(/\/+$/, "")`: drops the whole run of trailing slashes. */
  function StripTrailingSlashes(s: string): (r: string)
    ensures |r| <= |s| && r == s[..|r|]
    ensures r == [] || r[|r| - 1] != '/'
    ensures forall i :: |r| <= i < |s| ==> s[i] == '/'
    decreases |s|
  {
    if s != [] && s[|s| - 1] == '/' then
      var r := StripTrailingSlashes(s[..|s| - 1]);
      assert s[..|s| - 1][..|r|] == s[..|r|];
      r
    else s
  }

  /** `split("/").pop()`: the text after the last slash. */
  function LastSegment(s: string): (r: string)
    ensures '/' !in r
  {
    var parts := SplitOn(s, '/');
    parts[|parts| - 1]
  }

  /** `repoNameFromUrl`: the last path segment once `.git` and trailing
      slashes are gone, or "unknown-repo" when that is empty. */
  function RepoNameFromUrl(url: string): (r: string)
    ensures r != [] && '/' !in r
  {
    var last := LastSegment(StripTrailingSlashes(StripGitSuffix(url)));
    if last == [] then UNKNOWN_REPO else last
  }

  /** The repository names the source comments promise: `…/user/my-repo.git`,
      `…/user/my-repo.git/` and `…/user/my-repo` all name "my-repo". */
  lemma RepoNameOfGitHubUrl(owner: string, name: string)
    requires name != [] && '/' !in name && !EndsWith(name, ".git")
    ensures RepoNameFromUrl("https://github.com/" + owner + "/" + name + ".git") == name
    ensures RepoNameFromUrl("https://github.com/" + owner + "/" + name + ".git/") == name
    ensures RepoNameFromUrl("https://github.com/" + owner + "/" + name) == name
  {
    var head := "https://github.com/" + owner;
    var base := head + "/" + name;
    LastOfBase(head, name);
    GitSuffixStripped(base);
    NoGitSuffix(head, name);
    assert "https://github.com/" + owner + "/" + name + ".git" == base + ".git";
    assert "https://github.com/" + owner + "/" + name + ".git/" == base + ".git/";
  }

  lemma LastOfBase(head: string, name: string)
    requires name != [] && '/' !in name
    ensures LastSegment(StripTrailingSlashes(head + "/" + name)) == name
  {
    var base := head + "/" + name;
    assert base == head + ['/'] + name;
    assert base[|base| - 1] == name[|name| - 1];
    SplitOnConcat(head, name, '/');
    SplitOnNone(name, '/');
  }

  lemma GitSuffixStripped(base: string)
    ensures StripGitSuffix(base + ".git") == base
    ensures StripGitSuffix(base + ".git/") == base
  {
    var withGit := base + ".git";
    assert withGit[..|withGit| - 4] == base;
    assert withGit[|withGit| - 4..] == ".git";
    assert !EndsWith(withGit, ".git/") by {
      assert withGit[|withGit| - 1] == 't';
    }
    var withGitSlash := base + ".git/";
    assert withGitSlash[..|withGitSlash| - 5] == base;
    assert withGitSlash[|withGitSlash| - 5..] == ".git/";
  }

  lemma NoGitSuffix(head: string, name: string)
    requires name != [] && '/' !in name && !EndsWith(name, ".git")
    ensures StripGitSuffix(head + "/" + name) == head + "/" + name
  {
    var base := head + "/" + name;
    assert !EndsWith(base, ".git/") by {
      assert base[|base| - 1] == name[|name| - 1];
    }
    assert !EndsWith(base, ".git") by {
      if |name| >= 4 {
        assert base[|base| - 4..] == name[|name| - 4..];
      } else if |base| >= 4 {
        assert base[|base| - |name| - 1] == '/';
        assert base[|base| - 4..][3 - |name|] == '/';
      }
    }
  }

  /** `/\.zip$/i`: the name ends in ".zip" in any letter case. */
  predicate HasZipSuffix(s: string) {
    |s| >= 4 && Lower(s[|s| - 4..]) == ".zip"
  }

  /** `repoNameFromZip`: the file name without one ".zip" (any case), or
      "unknown-repo" when nothing is left. */
  function RepoNameFromZip(fileName: string): (r: string)
    ensures r != []
    ensures r != UNKNOWN_REPO ==> StartsWith(fileName, r)
  {
    var stem := if HasZipSuffix(fileName) then fileName[..|fileName| - 4] else fileName;
    if stem == [] then UNKNOWN_REPO else stem
  }

  /** "project-main.zip" names "project-main"; so does "project-main.ZIP";
      a name without the suffix is kept whole. */
  lemma ZipNameRoundTrip(name: string, ext: string)
    requires name != [] && |ext| == 4 && Lower(ext) == ".zip"
    ensures RepoNameFromZip(name + ext) == name
    ensures !HasZipSuffix(name) ==> RepoNameFromZip(name) == name
  {
    var f := name + ext;
    assert f[|f| - 4..] == ext;
    assert f[..|f| - 4] == name;
  }

  // ---------------------------------------------------------------------
  // Pasted text
  // ---------------------------------------------------------------------

  predicate LooksLikeJavaScript(raw: string) {
    Contains(raw, "function ") || Contains(raw, "const ") || Contains(raw, "import ")
  }

  /** The extension guessed for pasted text, checked in the source's order. */
  function TextExtension(raw: string): (ext: string)
    ensures ext in {".js", ".py", ".go", ".java", ".txt"}
    ensures ext == ".js" <==> LooksLikeJavaScript(raw)
    ensures ext == ".py" <==> !LooksLikeJavaScript(raw) && Contains(raw, "def ")
    ensures ext == ".py" ==> !Contains(raw, "import ")
    ensures ext == ".go" <==>
              !LooksLikeJavaScript(raw) && !Contains(raw, "def ") && (Contains(raw, "package ") || Contains(raw, "func "))
    ensures ext == ".java" <==>
              && !LooksLikeJavaScript(raw) && !Contains(raw, "def ") && !Contains(raw, "package ") && !Contains(raw, "func ")
              && Contains(raw, "class ") && Contains(raw, "public ")
    ensures ext == ".txt" <==>
              && !LooksLikeJavaScript(raw) && !Contains(raw, "def ") && !Contains(raw, "package ") && !Contains(raw, "func ")
              && !(Contains(raw, "class ") && Contains(raw, "public "))
  {
    if LooksLikeJavaScript(raw) then ".js"
    else if Contains(raw, "def ") || Contains(raw, "import ") then ".py"
    else if Contains(raw, "package ") || Contains(raw, "func ") then ".go"
    else if Contains(raw, "class ") && Contains(raw, "public ") then ".java"
    else ".txt"
  }

  /** The second test of `import ` can never decide: Python text that
      imports but defines nothing is stored as JavaScript. */
  lemma ImportAloneIsJavaScript(raw: string)
    requires Contains(raw, "import ")
    ensures TextExtension(raw) == ".js"
  {
  }

  /** `createTextProject`: one file `main<ext>` holding the text, in a fresh
      directory; an empty project name becomes "text-upload". */
  function CreateTextProject(rawText: string, projectName: string, repoId: string): (o: Outcome)
    ensures o.result.Success?
    ensures o.result.value == LoadResult(LocalPath(repoId), if projectName == [] then TEXT_UPLOAD else projectName, repoId)
    ensures o.result.value.repoName != []
    ensures |o.effects| == 3 && o.effects[2] == WriteText(LocalPath(repoId) + "/main" + TextExtension(rawText), rawText)
  {
    var localPath := LocalPath(repoId);
    var repoName := if projectName == [] then TEXT_UPLOAD else projectName;
    var fileName := "main" + TextExtension(rawText);
    assert localPath + "/" + fileName == LocalPath(repoId) + "/main" + TextExtension(rawText);
    Outcome(Success(LoadResult(localPath, repoName, repoId)),
            [MakeDir(REPOS_ROOT), MakeDir(localPath), WriteText(localPath + "/" + fileName, rawText)])
  }

  // ---------------------------------------------------------------------
  // GitHub
  // ---------------------------------------------------------------------

  /** The parts of a `URL` that the validator reads. */
  datatype UrlParts = UrlParts(protocol: string, hostname: string, pathname: string)

  /** `filter(Boolean)`: the non-empty strings, in order. */
  function NonEmpty(parts: seq<string>): (r: seq<string>)
    ensures |r| <= |parts|
    ensures forall k :: 0 <= k < |r| ==> r[k] != [] && r[k] in parts
    ensures forall p :: p in parts && p != [] ==> p in r
  {
    if parts == [] then []
    else
      var rest := NonEmpty(parts[1..]);
      assert forall p :: p in parts ==> p == parts[0] || p in parts[1..];
      if parts[0] == [] then rest else [parts[0]] + rest
  }

  /** `filter(Boolean)` keeps every non-empty string as many times as it
      occurs, so a repeated segment counts twice. */
  lemma {:induction false} NonEmptyCounts(parts: seq<string>)
    ensures multiset(NonEmpty(parts)) == multiset(parts)[[] := 0]
    decreases |parts|
  {
    if parts != [] {
      NonEmptyCounts(parts[1..]);
      assert parts == [parts[0]] + parts[1..];
      assert multiset(parts) == multiset{parts[0]} + multiset(parts[1..]);
    }
  }

  /** `isValidGitHubUrl`: an `https:` URL on host `github.com` with at least
      an owner and a repository segment. `parse` stands for `new URL`, with
      `None` for a string it rejects. */
  predicate IsValidGitHubUrl(url: string, parse: string -> Option<UrlParts>) {
    match parse(url)
    case None => false
    case Some(u) =>
      u.protocol == "https:" && u.hostname == "github.com" && |NonEmpty(SplitOn(u.pathname, '/'))| >= 2
  }

  /** A URL whose path has two non-empty segments passes the validator. */
  lemma OwnerAndRepoValid(url: string, parse: string -> Option<UrlParts>, owner: string, name: string)
    requires parse(url) == Some(UrlParts("https:", "github.com", "/" + owner + "/" + name))
    requires owner != [] && name != [] && '/' !in owner && '/' !in name
    ensures IsValidGitHubUrl(url, parse)
  {
    var p := "/" + owner + "/" + name;
    assert p == [] + ['/'] + (owner + ['/'] + name);
    SplitOnConcat([], owner + ['/'] + name, '/');
    SplitOnConcat(owner, name, '/');
    SplitOnNone(owner, '/');
    SplitOnNone(name, '/');
    assert SplitOn(p, '/') == [[], owner, name];
    NonEmptyAll([owner, name]);
    assert NonEmpty(SplitOn(p, '/')) == NonEmpty([owner, name]);
  }

  lemma {:induction false} NonEmptyAll(parts: seq<string>)
    requires forall k :: 0 <= k < |parts| ==> parts[k] != []
    ensures NonEmpty(parts) == parts
    decreases |parts|
  {
    if parts != [] {
      var tail := parts[1..];
      assert forall k :: 0 <= k < |tail| ==> tail[k] == parts[k + 1];
      NonEmptyAll(tail);
      assert NonEmpty(parts) == [parts[0]] + tail;
    }
  }

  /** `cloneRepo`: a URL the validator rejects throws before anything
      happens; otherwise the repository is cloned (depth 1) into a fresh
      directory. `cloneError` is the message `git clone` throws, if any. */
  function CloneRepo(url: string, parse: string -> Option<UrlParts>, repoId: string,
                     cloneError: Option<string>): (o: Outcome)
    ensures !IsValidGitHubUrl(url, parse) <==> o.effects == []
    ensures !IsValidGitHubUrl(url, parse) ==> o.result == Failure(INVALID_URL)
    ensures o.result.Success? <==> IsValidGitHubUrl(url, parse) && cloneError.None?
    ensures o.result.Success? ==> o.result.value == LoadResult(LocalPath(repoId), RepoNameFromUrl(url), repoId)
  {
    if !IsValidGitHubUrl(url, parse) then Outcome(Failure(INVALID_URL), [])
    else
      var localPath := LocalPath(repoId);
      var effects := [MakeDir(REPOS_ROOT), Clone(url, localPath)];
      match cloneError
      case Some(msg) => Outcome(Failure(msg), effects)
      case None => Outcome(Success(LoadResult(localPath, RepoNameFromUrl(url), repoId)), effects)
  }

  // ---------------------------------------------------------------------
  // ZIP archives
  // ---------------------------------------------------------------------

  /** One entry of an archive. */
  datatype ZipEntry = ZipEntry(entryName: string, isDirectory: bool, data: seq<byte>)

  /** The destination of an entry; `join` stands for `path.join`, which
      also resolves `..` segments. */
  function Destination(localPath: string, e: ZipEntry, join: (string, string) -> string): string {
    join(localPath, e.entryName)
  }

  predicate Escapes(localPath: string, e: ZipEntry, join: (string, string) -> string) {
    !Within(Destination(localPath, e, join), localPath)
  }

  function EntryEffect(localPath: string, e: ZipEntry, join: (string, string) -> string): Effect {
    var dest := Destination(localPath, e, join);
    if e.isDirectory then MakeDir(dest) else WriteFile(dest, e.data)
  }

  /** The path an effect touches. */
  function Target(e: Effect): string {
    match e
    case MakeDir(p) => p
    case WriteFile(p, _) => p
    case WriteText(p, _) => p
    case Clone(_, p) => p
    case Remove(p) => p
  }

  /** The extraction loop: the effects of the entries up to the first one
      whose destination escapes, and that entry's name if there is one. */
  function ExtractEntries(localPath: string, entries: seq<ZipEntry>, join: (string, string) -> string)
    : (r: (Option<string>, seq<Effect>))
    ensures |r.1| <= |entries|
    ensures forall i :: 0 <= i < |r.1| ==>
              r.1[i] == EntryEffect(localPath, entries[i], join) && !Escapes(localPath, entries[i], join)
    ensures r.0.None? <==> |r.1| == |entries|
    ensures r.0.Some? ==> r.0.value == entries[|r.1|].entryName && Escapes(localPath, entries[|r.1|], join)
  {
    if entries == [] then (None, [])
    else if Escapes(localPath, entries[0], join) then (Some(entries[0].entryName), [])
    else
      var rest := ExtractEntries(localPath, entries[1..], join);
      (rest.0, [EntryEffect(localPath, entries[0], join)] + rest.1)
  }

  /** Extraction stops exactly at an escaping entry: it fails if and only
      if some entry escapes. */
  lemma ExtractFailsIffEscape(localPath: string, entries: seq<ZipEntry>, join: (string, string) -> string)
    ensures ExtractEntries(localPath, entries, join).0.Some? <==>
            exists i :: 0 <= i < |entries| && Escapes(localPath, entries[i], join)
  {
    var r := ExtractEntries(localPath, entries, join);
    if r.0.None? {
      forall i | 0 <= i < |entries| ensures !Escapes(localPath, entries[i], join) {
        assert r.1[i] == EntryEffect(localPath, entries[i], join);
      }
    }
  }

  /** No extracted entry lands outside the repository's directory. */
  lemma ExtractStaysWithin(localPath: string, entries: seq<ZipEntry>, join: (string, string) -> string)
    ensures forall e :: e in ExtractEntries(localPath, entries, join).1 ==> Within(Target(e), localPath)
  {
    var r := ExtractEntries(localPath, entries, join);
    forall e | e in r.1 ensures Within(Target(e), localPath) {
      var i :| 0 <= i < |r.1| && r.1[i] == e;
      assert !Escapes(localPath, entries[i], join);
    }
  }

  /** `extractZip` as written: the directory is created first and stays on
      disk when the archive is unreadable or an entry escapes. `archive` is
      the reader's list of entries, or the message it throws. */
  function ExtractZipAsWritten(archive: Result<seq<ZipEntry>>, fileName: string, repoId: string,
                               join: (string, string) -> string): (o: Outcome)
    ensures |o.effects| >= 2 && o.effects[..2] == [MakeDir(REPOS_ROOT), MakeDir(LocalPath(repoId))]
    ensures o.result.Success? <==>
              archive.Success? && forall i :: 0 <= i < |archive.value| ==> !Escapes(LocalPath(repoId), archive.value[i], join)
    ensures o.result.Success? ==> o.result.value == LoadResult(LocalPath(repoId), RepoNameFromZip(fileName), repoId)
  {
    var localPath := LocalPath(repoId);
    var created := [MakeDir(REPOS_ROOT), MakeDir(localPath)];
    match archive
    case Failure(msg) => Outcome(Failure(msg), created)
    case Success(entries) =>
      ExtractFailsIffEscape(localPath, entries, join);
      var (bad, written) := ExtractEntries(localPath, entries, join);
      match bad
      case Some(name) => Outcome(Failure(ZIP_SLIP + name), created + written)
      case None => Outcome(Success(LoadResult(localPath, RepoNameFromZip(fileName), repoId)), created + written)
  }

  /** Whether the log creates `dir` and never removes it. */
  predicate LeavesBehind(effects: seq<Effect>, dir: string) {
    (exists i :: 0 <= i < |effects| && effects[i] == MakeDir(dir)) && Remove(dir) !in effects
  }

  /** A throwing extraction leaves its directory behind; the caller is never
      told its path, so nothing removes it. An archive with the single entry
      "../escape" (joined to a path outside) shows it. */
  lemma ExtractZipLeavesDirectory(repoId: string)
    ensures var o := ExtractZipAsWritten(Success([ZipEntry("../escape", false, [])]), "a.zip", repoId,
                                         (dir, name) => "/tmp/escape");
            o.result == Failure(ZIP_SLIP + "../escape") && LeavesBehind(o.effects, LocalPath(repoId))
  {
    var join := (dir: string, name: string) => "/tmp/escape";
    var entries := [ZipEntry("../escape", false, [])];
    var o := ExtractZipAsWritten(Success(entries), "a.zip", repoId, join);
    assert !StartsWith("/tmp/escape", LocalPath(repoId) + "/") && "/tmp/escape" != LocalPath(repoId) by {
      assert (LocalPath(repoId) + "/")[5] == 'r' && LocalPath(repoId)[5] == 'r';
      assert "/tmp/escape"[5] == 'e';
    }
    assert Escapes(LocalPath(repoId), entries[0], join);
    assert o.effects[1] == MakeDir(LocalPath(repoId));
  }

  /** The extraction as written never removes anything, so whenever it
      throws, the directory it created is left behind. */
  lemma ExtractZipAsWrittenLeaves(archive: Result<seq<ZipEntry>>, fileName: string, repoId: string,
                                  join: (string, string) -> string)
    ensures var o := ExtractZipAsWritten(archive, fileName, repoId, join);
            o.result.Failure? ==> LeavesBehind(o.effects, LocalPath(repoId))
  {
    var localPath := LocalPath(repoId);
    var o := ExtractZipAsWritten(archive, fileName, repoId, join);
    assert o.effects[1] == MakeDir(localPath);
    if archive.Success? {
      var written := ExtractEntries(localPath, archive.value, join).1;
      forall i | 0 <= i < |written| ensures !written[i].Remove? {
        assert written[i] == EntryEffect(localPath, archive.value[i], join);
      }
      assert o.effects == [MakeDir(REPOS_ROOT), MakeDir(localPath)] + written;
    }
  }

  /** `extractZip` with the directory removed again before it throws. */
  function ExtractZip(archive: Result<seq<ZipEntry>>, fileName: string, repoId: string,
                      join: (string, string) -> string): (o: Outcome)
    ensures o.result.Success? <==> ExtractZipAsWritten(archive, fileName, repoId, join).result.Success?
    ensures o.result.Success? ==> o == ExtractZipAsWritten(archive, fileName, repoId, join)
    ensures o.result.Failure? ==>
              && o.result == ExtractZipAsWritten(archive, fileName, repoId, join).result
              && |o.effects| > 0 && o.effects[|o.effects| - 1] == Remove(LocalPath(repoId))
  {
    var o := ExtractZipAsWritten(archive, fileName, repoId, join);
    if o.result.Success? then o else Outcome(o.result, o.effects + [Remove(LocalPath(repoId))])
  }

  /** The corrected extraction never leaves a directory behind on failure. */
  lemma ExtractZipCleansUp(archive: Result<seq<ZipEntry>>, fileName: string, repoId: string,
                           join: (string, string) -> string)
    ensures var o := ExtractZip(archive, fileName, repoId, join);
            o.result.Failure? ==> !LeavesBehind(o.effects, LocalPath(repoId))
  {
    var o := ExtractZip(archive, fileName, repoId, join);
    if o.result.Failure? {
      assert o.effects[|o.effects| - 1] in o.effects;
    }
  }

  /** Every file or directory the extraction makes, other than the shared
      root, lies within the repository's directory. */
  lemma ExtractZipStaysWithin(archive: Result<seq<ZipEntry>>, fileName: string, repoId: string,
                              join: (string, string) -> string)
    ensures forall e :: e in ExtractZipAsWritten(archive, fileName, repoId, join).effects ==>
              e == MakeDir(REPOS_ROOT) || Within(Target(e), LocalPath(repoId))
    ensures forall e :: e in ExtractZip(archive, fileName, repoId, join).effects ==>
              e == MakeDir(REPOS_ROOT) || Within(Target(e), LocalPath(repoId))
  {
    var localPath := LocalPath(repoId);
    if archive.Success? {
      ExtractStaysWithin(localPath, archive.value, join);
    }
  }

  // ---------------------------------------------------------------------
  // Dispatch
  // ---------------------------------------------------------------------

  /** The payload as the two casts in `loadRepo` read it: as a string, and
      as an archive (its entries, or the message the reader throws). */
  datatype Payload = Payload(text: string, archive: Result<seq<ZipEntry>>)

  /** The outside world a load depends on. */
  datatype Env = Env(repoId: string, parse: string -> Option<UrlParts>, cloneError: Option<string>,
                     join: (string, string) -> string)

  /** Which `extractZip` and `cleanupRepo` a load or an upload runs: the
      source's, or the corrected ones of the README's findings. */
  datatype Version = AsWritten | Corrected

  /** `loadRepo`: dispatch on the source name; a missing file name defaults
      per source, and an unknown source throws before anything happens.
      With `AsWritten` this is the source's `loadRepo`. */
  function LoadRepo(v: Version, source: string, payload: Payload, fileName: Option<string>, env: Env): (o: Outcome)
    ensures source !in {"github", "zip", "text"} ==> o == Outcome(Failure(UNSUPPORTED_SOURCE + source), [])
    ensures o.result.Success? ==>
              && o.result.value.localPath == LocalPath(env.repoId)
              && o.result.value.repoId == env.repoId
              && o.result.value.repoName != []
  {
    if source == "github" then CloneRepo(payload.text, env.parse, env.repoId, env.cloneError)
    else if source == "zip" then
      if v.AsWritten? then ExtractZipAsWritten(payload.archive, fileName.GetOr(UPLOAD_ZIP), env.repoId, env.join)
      else ExtractZip(payload.archive, fileName.GetOr(UPLOAD_ZIP), env.repoId, env.join)
    else if source == "text" then CreateTextProject(payload.text, fileName.GetOr(TEXT_UPLOAD), env.repoId)
    else Outcome(Failure(UNSUPPORTED_SOURCE + source), [])
  }

  /** What each source name leads to: a GitHub load succeeds exactly for a
      valid URL whose clone works and is named after the URL; a zip load
      succeeds exactly when the archive reads and no entry escapes, and is
      named after the file (default "upload.zip"); a text load always
      succeeds, named after the file (default "text-upload"). */
  lemma LoadRepoBySource(v: Version, source: string, payload: Payload, fileName: Option<string>, env: Env)
    ensures var o := LoadRepo(v, source, payload, fileName, env);
            source == "github" ==>
              && (o.result.Success? <==> IsValidGitHubUrl(payload.text, env.parse) && env.cloneError.None?)
              && (o.result.Success? ==> o.result.value.repoName == RepoNameFromUrl(payload.text))
    ensures var o := LoadRepo(v, source, payload, fileName, env);
            source == "zip" ==>
              && (o.result.Success? <==>
                    payload.archive.Success?
                    && forall i :: 0 <= i < |payload.archive.value| ==>
                         !Escapes(LocalPath(env.repoId), payload.archive.value[i], env.join))
              && (o.result.Success? ==> o.result.value.repoName == RepoNameFromZip(fileName.GetOr(UPLOAD_ZIP)))
    ensures var o := LoadRepo(v, source, payload, fileName, env);
            source == "text" ==>
              && o.result.Success?
              && o.result.value.repoName == (if fileName.GetOr(TEXT_UPLOAD) == [] then TEXT_UPLOAD else fileName.GetOr(TEXT_UPLOAD))
  {
  }

  /** Whatever the source, a load touches only the shared root and its own
      repository directory. */
  lemma LoadStaysWithin(v: Version, source: string, payload: Payload, fileName: Option<string>, env: Env)
    ensures forall e :: e in LoadRepo(v, source, payload, fileName, env).effects ==>
              e == MakeDir(REPOS_ROOT) || Within(Target(e), LocalPath(env.repoId))
  {
    if source == "zip" {
      ExtractZipStaysWithin(payload.archive, fileName.GetOr(UPLOAD_ZIP), env.repoId, env.join);
    } else if source == "text" {
      var o := CreateTextProject(payload.text, fileName.GetOr(TEXT_UPLOAD), env.repoId);
      var p := LocalPath(env.repoId);
      var f := p + "/main" + TextExtension(payload.text);
      assert f[..|p + "/"|] == p + "/";
    }
  }

  /** The two versions differ only when a zip load fails: the corrected
      one reports the same error and then removes the directory. */
  lemma LoadRepoVersions(source: string, payload: Payload, fileName: Option<string>, env: Env)
    ensures var w := LoadRepo(AsWritten, source, payload, fileName, env);
            var c := LoadRepo(Corrected, source, payload, fileName, env);
            && c.result == w.result
            && c.effects == (if source == "zip" && w.result.Failure? then w.effects + [Remove(LocalPath(env.repoId))]
                             else w.effects)
  {
  }

  /** A zip load as written that throws leaves its directory behind. */
  lemma FailedZipLoadLeaves(payload: Payload, fileName: Option<string>, env: Env)
    ensures var o := LoadRepo(AsWritten, "zip", payload, fileName, env);
            o.result.Failure? ==> LeavesBehind(o.effects, LocalPath(env.repoId))
  {
    ExtractZipAsWrittenLeaves(payload.archive, fileName.GetOr(UPLOAD_ZIP), env.repoId, env.join);
  }

  /** A corrected zip load that throws leaves nothing behind. */
  lemma FailedZipLoadCleansUp(payload: Payload, fileName: Option<string>, env: Env)
    ensures var o := LoadRepo(Corrected, "zip", payload, fileName, env);
            o.result.Failure? ==> !LeavesBehind(o.effects, LocalPath(env.repoId))
  {
    ExtractZipCleansUp(payload.archive, fileName.GetOr(UPLOAD_ZIP), env.repoId, env.join);
  }

  // ---------------------------------------------------------------------
  // Cleanup
  // ---------------------------------------------------------------------

  /** `cleanupRepo` as written: a plain prefix test on "/tmp/repos". */
  function CleanupRepoAsWritten(localPath: string): (r: (Result<()>, seq<Effect>))
    ensures r.0.Success? <==> StartsWith(localPath, REPOS_ROOT)
    ensures r.0.Success? ==> r.1 == [Remove(localPath)]
    ensures r.0.Failure? ==> r == (Failure(OUTSIDE_ROOT), [])
  {
    if !StartsWith(localPath, REPOS_ROOT) then (Failure(OUTSIDE_ROOT), [])
    else (Success(()), [Remove(localPath)])
  }

  /** The guard lets through a sibling of the root and a path that climbs
      out of it. */
  lemma CleanupAcceptsOutside()
    ensures CleanupRepoAsWritten("/tmp/repos-old").1 == [Remove("/tmp/repos-old")]
    ensures CleanupRepoAsWritten("/tmp/repos/../etc").1 == [Remove("/tmp/repos/../etc")]
    ensures !StartsWith("/tmp/repos-old", REPOS_ROOT + "/")
  {
    assert "/tmp/repos-old"[..10] == REPOS_ROOT;
    assert "/tmp/repos/../etc"[..10] == REPOS_ROOT;
    assert "/tmp/repos-old"[10] != '/';
  }

  /** A path that resolves strictly below the root: it starts with the root
      and a separator, no segment after that is "." or "..", and at least
      one is not empty. */
  predicate BelowRoot(path: string) {
    && StartsWith(path, REPOS_ROOT + "/")
    && var segments := SplitOn(path[|REPOS_ROOT| + 1..], '/');
       "." !in segments && ".." !in segments && exists k :: 0 <= k < |segments| && segments[k] != []
  }

  /** What a uuid has that the guards rely on: it is one path segment,
      and not a dot segment. */
  predicate IsIdSegment(repoId: string) {
    repoId != [] && '/' !in repoId && repoId != "." && repoId != ".."
  }

  /** `cleanupRepo` with the guard the comment describes: only paths below
      "/tmp/repos" are removed. */
  function CleanupRepo(localPath: string): (r: (Result<()>, seq<Effect>))
    ensures r.0.Success? <==> BelowRoot(localPath)
    ensures forall e :: e in r.1 ==> e.Remove? && BelowRoot(e.path)
    ensures r.0.Failure? ==> r == (Failure(OUTSIDE_ROOT), [])
  {
    if !BelowRoot(localPath) then (Failure(OUTSIDE_ROOT), [])
    else (Success(()), [Remove(localPath)])
  }

  /** The cleanup a version runs. */
  function Cleanup(v: Version, localPath: string): (r: (Result<()>, seq<Effect>))
    ensures r.0.Success? ==> r.1 == [Remove(localPath)]
    ensures r.0.Failure? ==> r == (Failure(OUTSIDE_ROOT), [])
    ensures r.0.Success? <==> (if v.AsWritten? then StartsWith(localPath, REPOS_ROOT) else BelowRoot(localPath))
  {
    if v.AsWritten? then CleanupRepoAsWritten(localPath) else CleanupRepo(localPath)
  }

  /** The as-written guard accepts every directory a load creates, whatever
      the id. */
  lemma CleanupAsWrittenAcceptsLoaded(repoId: string)
    ensures CleanupRepoAsWritten(LocalPath(repoId)) == (Success(()), [Remove(LocalPath(repoId))])
  {
    assert LocalPath(repoId)[..|REPOS_ROOT|] == REPOS_ROOT;
  }

  /** The corrected guard still accepts every directory a load creates. */
  lemma CleanupAcceptsLoaded(repoId: string)
    requires IsIdSegment(repoId)
    ensures CleanupRepo(LocalPath(repoId)) == (Success(()), [Remove(LocalPath(repoId))])
  {
    var p := LocalPath(repoId);
    assert p[..|REPOS_ROOT + "/"|] == REPOS_ROOT + "/";
    assert p[|REPOS_ROOT| + 1..] == repoId;
    SplitOnNone(repoId, '/');
    assert SplitOn(repoId, '/')[0] != [];
  }

  /** The corrected guard refuses the root itself and the as-written
      guard's two escapes. */
  lemma CleanupRefusesOutside()
    ensures CleanupRepo(REPOS_ROOT).0.Failure?
    ensures CleanupRepo("/tmp/repos-old").0.Failure?
    ensures CleanupRepo("/tmp/repos/../etc").0.Failure?
  {
    RootNotBelowRoot();
    SiblingNotBelowRoot();
    ClimbNotBelowRoot();
  }

  lemma RootNotBelowRoot()
    ensures !BelowRoot(REPOS_ROOT)
  {
    assert |REPOS_ROOT + "/"| > |REPOS_ROOT|;
  }

  lemma SiblingNotBelowRoot()
    ensures !BelowRoot("/tmp/repos-old")
  {
    var p := "/tmp/repos-old";
    var pre := REPOS_ROOT + "/";
    assert pre[10] == '/';
    assert p[10] == '-';
    assert p[..|pre|][10] != pre[10];
  }

  lemma ClimbNotBelowRoot()
    ensures !BelowRoot("/tmp/repos/../etc")
  {
    var q := "/tmp/repos/../etc";
    assert q[|REPOS_ROOT| + 1..] == ".." + ['/'] + "etc";
    SplitOnConcat("..", "etc", '/');
    SplitOnNone("..", '/');
    assert SplitOn(q[|REPOS_ROOT| + 1..], '/')[0] == "..";
  }
}
