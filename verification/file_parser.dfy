/** Which files of a checked-out repository are read, and how
    (services/fileParser.ts, everything before the chunker).

    The filesystem is replaced by a tree of directory entries: what
    `readdir`, `stat` and `readFile` would report is part of the tree, and
    a failure of any of them is an absent value. UTF-8 decoding is a
    parameter. */
module FileParser {
  import opened Wrappers
  import opened Text
  import opened Types

  /** Directory (and file) names skipped during the walk. */
  const IGNORED_DIRS: set<string> :=
    {"node_modules", ".git", "dist", "build", ".next", "__pycache__", ".venv"}

  /** Lower-cased extensions that are read. */
  const SUPPORTED_EXTENSIONS: set<string> :=
    {".ts", ".tsx", ".js", ".jsx", ".py", ".java", ".go", ".rs", ".json", ".yaml", ".yml",
     ".toml", ".md", ".txt", ".html", ".css", ".scss", ".sh", ".bash", ".c", ".cpp", ".h",
     ".rb", ".php", ".swift", ".kt", ".sql", ".graphql", ".dockerfile", ".xml", ".svg"}

  /** Lower-cased extensions rejected without looking at the file. */
  const BINARY_EXTENSIONS: set<string> :=
    {".png", ".jpg", ".jpeg", ".gif", ".bmp", ".ico", ".webp", ".avif",
     ".mp3", ".mp4", ".wav", ".ogg", ".webm", ".mov", ".avi",
     ".zip", ".tar", ".gz", ".bz2", ".7z", ".rar",
     ".pdf", ".doc", ".docx", ".xls", ".xlsx", ".ppt", ".pptx",
     ".exe", ".dll", ".so", ".dylib", ".bin",
     ".woff", ".woff2", ".ttf", ".eot", ".otf",
     ".pyc", ".class", ".o", ".obj", ".lock"}

  /** Files larger than this many bytes are skipped (500 KB). */
  const MAX_FILE_SIZE: nat := 500 * 1024

  /** How many leading bytes are searched for a NUL byte. */
  const BINARY_SCAN_LENGTH: nat := 8192

  /** Language tag of each supported extension. */
  const LANGUAGES: map<string, string> :=
    map[".ts" := "typescript", ".tsx" := "typescript",
        ".js" := "javascript", ".jsx" := "javascript",
        ".py" := "python", ".java" := "java", ".go" := "go", ".rs" := "rust",
        ".json" := "json", ".yaml" := "yaml", ".yml" := "yaml", ".toml" := "toml",
        ".md" := "markdown", ".txt" := "plaintext", ".html" := "html",
        ".css" := "css", ".scss" := "scss", ".sh" := "shell", ".bash" := "shell",
        ".c" := "c", ".cpp" := "cpp", ".h" := "c", ".rb" := "ruby", ".php" := "php",
        ".swift" := "swift", ".kt" := "kotlin", ".sql" := "sql", ".graphql" := "graphql",
        ".xml" := "xml", ".svg" := "svg", ".dockerfile" := "dockerfile"]

  function Min(a: int, b: int): int {
    if a <= b then a else b
  }

  // ---------------------------------------------------------------------
  // Name patterns

  /** The pattern `/\.log$/i`: the name ends in ".log" in any letter case. */
  predicate MatchesLogPattern(name: string) {
    EndsWith(Lower(name), ".log")
  }

  /** The pattern `/\.env(\..*)?$/i` matches at position `i`: ".env" in any
      letter case, then either the end of the name or a dot followed by a
      rest free of line terminators (which `.` does not match). */
  predicate EnvAt(name: string, i: int) {
    && 0 <= i && i + 4 <= |name|
    && Lower(name[i..i + 4]) == ".env"
    && (i + 4 == |name|
        || (name[i + 4] == '.' && forall k :: i + 5 <= k < |name| ==> !IsLineTerminator(name[k])))
  }

  /** The pattern `/\.env(\..*)?$/i` matches somewhere in the name. */
  predicate MatchesEnvPattern(name: string) {
    exists i | 0 <= i <= |name| - 4 :: EnvAt(name, i)
  }

  /** `isIgnoredFile`: some ignored-file pattern matches the basename. */
  predicate IsIgnoredFile(name: string) {
    MatchesLogPattern(name) || MatchesEnvPattern(name)
  }

  /** `isBinaryExtension`. */
  predicate IsBinaryExtension(ext: string) {
    ext in BINARY_EXTENSIONS
  }

  // ---------------------------------------------------------------------
  // Binary content

  /** Whether a NUL byte lies in `buf[i..n]`, scanning upwards. */
  function HasNulFrom(buf: seq<byte>, i: nat, n: nat): (r: bool)
    requires n <= |buf|
    ensures r <==> exists j :: i <= j < n && buf[j] == 0
    decreases n - i
  {
    if i >= n then false
    else if buf[i] == 0 then true
    else HasNulFrom(buf, i + 1, n)
  }

  /** `looksLikeBinary`: a NUL byte among the first 8192 bytes. */
  function LooksLikeBinary(buf: seq<byte>): (r: bool)
    ensures r <==> exists j :: 0 <= j < Min(|buf|, BINARY_SCAN_LENGTH) && buf[j] == 0
  {
    HasNulFrom(buf, 0, Min(|buf|, BINARY_SCAN_LENGTH))
  }

  // ---------------------------------------------------------------------
  // Extensions and languages

  /** The position of the last '.' in `s`. */
  function LastDot(s: string): (r: Option<nat>)
    ensures r.None? ==> '.' !in s
    ensures r.Some? ==> r.value < |s| && s[r.value] == '.'
                        && forall k :: r.value < k < |s| ==> s[k] != '.'
  {
    if s == [] then None
    else if s[|s| - 1] == '.' then Some(|s| - 1)
    else LastDot(s[..|s| - 1])
  }

  /** `path.extname` of a file name (a name holds no '/'): from the last
      dot to the end, except that a name without a dot, a name whose only
      leading dot is its last dot (".gitignore") and the name ".." have no
      extension. */
  function ExtName(name: string): (ext: string)
    ensures ext == [] || (|ext| < |name| && EndsWith(name, ext) && ext[0] == '.'
                          && forall k :: 0 < k < |ext| ==> ext[k] != '.')
    ensures '.' !in name ==> ext == []
    ensures ext != [] <==> name != ".." && exists d :: 0 < d < |name| && name[d] == '.'
    ensures ext != [] ==> exists d :: 0 < d < |name| && name[d] == '.' && ext == name[d..]
                                      && forall k :: d < k < |name| ==> name[k] != '.'
  {
    match LastDot(name)
    case None => []
    case Some(d) => if d == 0 || name == ".." then [] else name[d..]
  }

  /** `path.extname` on three names: a plain extension, the last of two
      extensions, and a dot file. */
  lemma ExtNameExamples()
    ensures ExtName("a.ts") == ".ts"
    ensures ExtName("x.tar.gz") == ".gz"
    ensures ExtName(".gitignore") == []
  {
    assert LastDot("a.ts") == Some(1) by {
      assert "a.ts"[..3] == "a.t";
      assert "a.t"[..2] == "a.";
    }
    assert LastDot("x.tar.gz") == Some(5) by {
      assert "x.tar.gz"[..7] == "x.tar.g";
      assert "x.tar.g"[..6] == "x.tar.";
    }
    assert LastDot(".gitignore") == Some(0) by {
      var s := ".gitignore";
      assert forall k :: 0 < k < |s| ==> s[k] != '.';
    }
  }

  /** The extension the parser works with: `extname` lower-cased, except
      that a README, LICENSE or CHANGELOG without an extension counts as
      markdown. */
  function ExtensionOf(name: string): string {
    var ext := Lower(ExtName(name));
    if ext == [] && Lower(name) in {"readme", "license", "changelog"} then ".md" else ext
  }

  /** `extensionToLanguage`. */
  function ExtensionToLanguage(ext: string): (lang: string)
    ensures ext in SUPPORTED_EXTENSIONS ==> lang == LANGUAGES[ext]
    ensures ext !in SUPPORTED_EXTENSIONS ==> lang == "plaintext"
  {
    LanguagesCoverSupported();
    if ext in LANGUAGES then LANGUAGES[ext] else "plaintext"
  }

  /** The language table and the supported set list the same extensions. */
  lemma LanguagesCoverSupported()
    ensures LANGUAGES.Keys == SUPPORTED_EXTENSIONS
  {
  }

  /** No extension is both supported and known to be binary. */
  lemma SupportedNotBinary(ext: string)
    requires ext in SUPPORTED_EXTENSIONS
    ensures !IsBinaryExtension(ext)
  {
    if ext in {".ts", ".tsx", ".js", ".jsx", ".py", ".java", ".go", ".rs"} {
      NotBinaryScripts(ext);
    } else if ext in {".json", ".yaml", ".yml", ".toml", ".md", ".txt", ".html", ".css"} {
      NotBinaryData(ext);
    } else if ext in {".scss", ".sh", ".bash", ".c", ".cpp", ".h", ".rb", ".php"} {
      NotBinaryShell(ext);
    } else {
      NotBinaryOther(ext);
    }
  }

  // The supported extensions in four parts, each checked against the
  // binary list on its own.

  lemma NotBinaryScripts(ext: string)
    requires ext in {".ts", ".tsx", ".js", ".jsx", ".py", ".java", ".go", ".rs"}
    ensures ext !in BINARY_EXTENSIONS
  {
  }

  lemma NotBinaryData(ext: string)
    requires ext in {".json", ".yaml", ".yml", ".toml", ".md", ".txt", ".html", ".css"}
    ensures ext !in BINARY_EXTENSIONS
  {
  }

  lemma NotBinaryShell(ext: string)
    requires ext in {".scss", ".sh", ".bash", ".c", ".cpp", ".h", ".rb", ".php"}
    ensures ext !in BINARY_EXTENSIONS
  {
  }

  lemma NotBinaryOther(ext: string)
    requires ext in {".swift", ".kt", ".sql", ".graphql", ".dockerfile", ".xml", ".svg"}
    ensures ext !in BINARY_EXTENSIONS
  {
  }

  // ---------------------------------------------------------------------
  // The per-file decision

  /** A walked file: its path below the root as segments (the last is its
      name), what `stat` reported as its size, and what `readFile` returned;
      an absent value is a call that threw. */
  datatype Candidate = Candidate(segments: seq<string>, size: Option<nat>, bytes: Option<seq<byte>>)
  {
    /** The basename. */
    function Name(): string {
      if segments == [] then [] else segments[|segments| - 1]
    }

    /** `path.relative(rootDir, filePath)`. */
    function RelPath(): string {
      JoinWith(segments, '/')
    }
  }

  /** Why a file was skipped. */
  datatype Rejection = IgnoredName | BinaryExtension | UnsupportedExtension
                     | StatFailed | TooLarge | EmptyFile | ReadFailed | BinaryContent

  datatype Verdict = Accept(file: ParsedFile) | Reject(reason: Rejection)

  /** The body of the loop in `parseFiles`: the checks in source order. */
  function ParseFile(c: Candidate, decode: seq<byte> -> string): (v: Verdict)
    ensures v.Accept? <==>
              && !IsIgnoredFile(c.Name())
              && !IsBinaryExtension(ExtensionOf(c.Name()))
              && (ExtensionOf(c.Name()) == [] || ExtensionOf(c.Name()) in SUPPORTED_EXTENSIONS)
              && c.size.Some? && 0 < c.size.value <= MAX_FILE_SIZE
              && c.bytes.Some?
              && forall j :: 0 <= j < Min(|c.bytes.value|, BINARY_SCAN_LENGTH) ==> c.bytes.value[j] != 0
    ensures v.Accept? ==>
              && v.file.path == c.RelPath()
              && v.file.extension == ExtensionOf(c.Name())
              && v.file.language == ExtensionToLanguage(v.file.extension)
              && v.file.content == decode(c.bytes.value)
              && v.file.sizeBytes == c.size.value
  {
    var name := c.Name();
    var ext := ExtensionOf(name);
    if IsIgnoredFile(name) then Reject(IgnoredName)
    else if IsBinaryExtension(ext) then Reject(BinaryExtension)
    else if ext != [] && ext !in SUPPORTED_EXTENSIONS then Reject(UnsupportedExtension)
    else if c.size.None? then Reject(StatFailed)
    else if c.size.value > MAX_FILE_SIZE then Reject(TooLarge)
    else if c.size.value == 0 then Reject(EmptyFile)
    else if c.bytes.None? then Reject(ReadFailed)
    else if LooksLikeBinary(c.bytes.value) then Reject(BinaryContent)
    else Accept(ParsedFile(c.RelPath(), ext, ExtensionToLanguage(ext), decode(c.bytes.value), c.size.value))
  }

  /** An accepted file has a supported extension or none, and its language
      is the table's entry for that extension, or plaintext without one. */
  lemma AcceptedLanguage(c: Candidate, decode: seq<byte> -> string)
    requires ParseFile(c, decode).Accept?
    ensures var f := ParseFile(c, decode).file;
            || (f.extension == [] && f.language == "plaintext")
            || (f.extension in SUPPORTED_EXTENSIONS && f.language == LANGUAGES[f.extension])
  {
  }

  /** A README, LICENSE or CHANGELOG without an extension is read as
      markdown. */
  lemma {:induction false} ReadmeIsMarkdown(c: Candidate, decode: seq<byte> -> string)
    requires Lower(c.Name()) in {"readme", "license", "changelog"}
    requires ParseFile(c, decode).Accept?
    ensures ParseFile(c, decode).file.extension == ".md"
    ensures ParseFile(c, decode).file.language == "markdown"
  {
    ReadmeExtension(c.Name());
    MarkdownLanguage();
  }

  /** The extension a README, LICENSE or CHANGELOG name is given. */
  lemma {:induction false} ReadmeExtension(name: string)
    requires Lower(name) in {"readme", "license", "changelog"}
    ensures ExtensionOf(name) == ".md"
  {
    assert '.' !in Lower(name);
    assert '.' !in name by {
      forall k | 0 <= k < |name| ensures name[k] != '.' {
        assert Lower(name)[k] == LowerChar(name[k]);
      }
    }
    assert ExtName(name) == [];
    assert Lower(ExtName(name)) == [];
  }

  /** The table names ".md" markdown. */
  lemma MarkdownLanguage()
    ensures ExtensionToLanguage(".md") == "markdown"
  {
  }

  /** Any other file without an extension keeps the empty extension and is
      read as plaintext. */
  lemma ExtensionlessIsPlaintext(c: Candidate, decode: seq<byte> -> string)
    requires ExtName(c.Name()) == []
    requires Lower(c.Name()) !in {"readme", "license", "changelog"}
    requires ParseFile(c, decode).Accept?
    ensures ParseFile(c, decode).file.extension == []
    ensures ParseFile(c, decode).file.language == "plaintext"
  {
  }

  // ---------------------------------------------------------------------
  // The directory walk

  /** A directory entry as `readdir` reports it: a regular file, a
      directory (whose own listing may fail), or anything else (a symbolic
      link, a socket, ...), which the walk ignores. */
  datatype Entry =
    | FileEntry(name: string, size: Option<nat>, bytes: Option<seq<byte>>)
    | DirEntry(name: string, readable: bool, children: seq<Entry>)
    | OtherEntry(name: string)

  /** `walkDir` over the listing `es` of the directory at `dir`: every
      regular file, depth first in listing order, skipping every entry whose
      name is an ignored directory name. */
  function Walk(es: seq<Entry>, dir: seq<string>): (r: seq<Candidate>)
    ensures forall k :: 0 <= k < |r| ==>
              && |r[k].segments| > |dir|
              && r[k].segments[..|dir|] == dir
              && forall s :: |dir| <= s < |r[k].segments| ==> r[k].segments[s] !in IGNORED_DIRS
    decreases es, 0
  {
    if es == [] then []
    else
      var e := es[0];
      var here :=
        if e.name in IGNORED_DIRS then []
        else match e
          case FileEntry(name, size, bytes) => [Candidate(dir + [name], size, bytes)]
          case DirEntry(name, readable, children) =>
            if readable then (assert e in es; WalkInto(children, dir, name)) else []
          case OtherEntry(_) => [];
      here + Walk(es[1..], dir)
  }

  /** The walk of a sub-directory `name` of `dir`, whose name is not ignored. */
  function WalkInto(es: seq<Entry>, dir: seq<string>, name: string): (r: seq<Candidate>)
    requires name !in IGNORED_DIRS
    ensures forall k :: 0 <= k < |r| ==>
              && |r[k].segments| > |dir|
              && r[k].segments[..|dir|] == dir
              && forall s :: |dir| <= s < |r[k].segments| ==> r[k].segments[s] !in IGNORED_DIRS
    decreases es, 1
  {
    var r := Walk(es, dir + [name]);
    assert forall k :: 0 <= k < |r| ==> r[k].segments[..|dir|] == dir && r[k].segments[|dir|] == name by {
      forall k | 0 <= k < |r| ensures r[k].segments[..|dir|] == dir && r[k].segments[|dir|] == name {
        assert r[k].segments[..|dir| + 1] == dir + [name];
        assert r[k].segments[..|dir|] == r[k].segments[..|dir| + 1][..|dir|];
      }
    }
    r
  }

  /** Whether the walk of the listing `es` at `dir` ought to collect `c`:
      some entry of the listing leads to it. */
  ghost predicate Reaches(es: seq<Entry>, dir: seq<string>, c: Candidate)
    decreases es, 1
  {
    exists k :: 0 <= k < |es| && EntryReaches(es[k], dir, c)
  }

  /** An entry whose name is not an ignored directory name leads to `c`
      when it is that regular file, or a readable directory whose own
      listing leads to it. */
  ghost predicate EntryReaches(e: Entry, dir: seq<string>, c: Candidate)
    decreases e, 0
  {
    && e.name !in IGNORED_DIRS
    && match e
       case FileEntry(name, size, bytes) => c == Candidate(dir + [name], size, bytes)
       case DirEntry(name, readable, children) => readable && Reaches(children, dir + [name], c)
       case OtherEntry(_) => false
  }

  /** The walk collects exactly the files its listing leads to: nothing
      else, and none of them is missed. */
  lemma {:induction false} WalkReaches(es: seq<Entry>, dir: seq<string>, c: Candidate)
    ensures c in Walk(es, dir) <==> Reaches(es, dir, c)
    decreases es
  {
    if es != [] {
      var e := es[0];
      ReachesCons(es, dir, c);
      WalkReaches(es[1..], dir, c);
      if e.name !in IGNORED_DIRS && e.DirEntry? && e.readable {
        assert e in es;
        WalkReaches(e.children, dir + [e.name], c);
        assert Walk(es, dir) == Walk(e.children, dir + [e.name]) + Walk(es[1..], dir);
      }
    }
  }

  /** `Reaches` on a non-empty listing: its first entry, or the rest. */
  lemma ReachesCons(es: seq<Entry>, dir: seq<string>, c: Candidate)
    requires es != []
    ensures Reaches(es, dir, c) <==> EntryReaches(es[0], dir, c) || Reaches(es[1..], dir, c)
  {
    if Reaches(es, dir, c) && !EntryReaches(es[0], dir, c) {
      var k :| 0 <= k < |es| && EntryReaches(es[k], dir, c);
      assert es[1..][k - 1] == es[k];
    }
    if Reaches(es[1..], dir, c) {
      var k :| 0 <= k < |es[1..]| && EntryReaches(es[1..][k], dir, c);
      assert es[k + 1] == es[1..][k];
    }
  }

  /** The listing of the root directory, or nothing when it cannot be read. */
  function RootListing(root: Entry): seq<Entry> {
    if root.DirEntry? && root.readable then root.children else []
  }

  /** The relative paths of the walked files whose names are not ignored. */
  function ListPaths(cs: seq<Candidate>): (r: seq<string>)
    ensures |r| <= |cs|
    ensures forall p :: p in r <==> exists c :: c in cs && !IsIgnoredFile(c.Name()) && c.RelPath() == p
  {
    if cs == [] then []
    else
      var rest := ListPaths(cs[1..]);
      assert forall c :: c in cs <==> c == cs[0] || c in cs[1..];
      if IsIgnoredFile(cs[0].Name()) then rest else [cs[0].RelPath()] + rest
  }

  /** The listing keeps the walk's order and repeats: listing two runs of
      candidates one after the other is listing each and joining the two. */
  lemma {:induction false} ListPathsAppend(a: seq<Candidate>, b: seq<Candidate>)
    ensures ListPaths(a + b) == ListPaths(a) + ListPaths(b)
    decreases |a|
  {
    if a != [] {
      assert (a + b)[0] == a[0] && (a + b)[1..] == a[1..] + b;
      ListPathsAppend(a[1..], b);
      if !IsIgnoredFile(a[0].Name()) {
        var x := [a[0].RelPath()];
        assert x + ListPaths(a[1..]) + ListPaths(b) == x + (ListPaths(a[1..]) + ListPaths(b));
      }
    } else {
      assert a + b == b;
    }
  }

  /** `listFiles`. */
  function ListFiles(root: Entry): seq<string> {
    ListPaths(Walk(RootListing(root), []))
  }

  /** The accepted files among the walked ones, in walk order. */
  function ParseAll(cs: seq<Candidate>, decode: seq<byte> -> string): (r: seq<ParsedFile>)
    ensures |r| <= |cs|
    ensures forall f :: f in r <==> exists c :: c in cs && ParseFile(c, decode) == Accept(f)
  {
    if cs == [] then []
    else
      var rest := ParseAll(cs[1..], decode);
      assert forall c :: c in cs <==> c == cs[0] || c in cs[1..];
      match ParseFile(cs[0], decode)
      case Accept(f) => [f] + rest
      case Reject(_) => rest
  }

  /** Parsing keeps the walk's order and repeats: parsing two runs of
      candidates one after the other is parsing each and joining the two. */
  lemma {:induction false} ParseAllAppend(a: seq<Candidate>, b: seq<Candidate>, decode: seq<byte> -> string)
    ensures ParseAll(a + b, decode) == ParseAll(a, decode) + ParseAll(b, decode)
    decreases |a|
  {
    if a != [] {
      assert (a + b)[0] == a[0] && (a + b)[1..] == a[1..] + b;
      ParseAllAppend(a[1..], b, decode);
      var p, q := ParseAll(a[1..], decode), ParseAll(b, decode);
      match ParseFile(a[0], decode)
      case Accept(f) =>
        assert ParseAll(a + b, decode) == [f] + (p + q);
        assert [f] + p + q == [f] + (p + q);
      case Reject(_) =>
    } else {
      assert a + b == b;
    }
  }

  /** `parseFiles`. */
  function ParseFiles(root: Entry, decode: seq<byte> -> string): seq<ParsedFile> {
    ParseAll(Walk(RootListing(root), []), decode)
  }

  /** Every parsed file is also listed: the parser never reads a file that
      the listing leaves out. */
  lemma ParsedAreListed(root: Entry, decode: seq<byte> -> string)
    ensures forall f :: f in ParseFiles(root, decode) ==> f.path in ListFiles(root)
  {
    var cs := Walk(RootListing(root), []);
    forall f | f in ParseFiles(root, decode) ensures f.path in ListFiles(root) {
      var c :| c in cs && ParseFile(c, decode) == Accept(f);
    }
  }

  /** `listFiles` lists a path exactly when some file the root leads to has
      a basename that is not ignored and that relative path. */
  lemma ListFilesComplete(root: Entry, p: string)
    ensures p in ListFiles(root) <==>
            exists c :: Reaches(RootListing(root), [], c) && !IsIgnoredFile(c.Name()) && c.RelPath() == p
  {
    var es := RootListing(root);
    forall c ensures c in Walk(es, []) <==> Reaches(es, [], c) {
      WalkReaches(es, [], c);
    }
  }

  /** `parseFiles` returns a file exactly when some file the root leads to
      is accepted as it. */
  lemma ParseFilesComplete(root: Entry, decode: seq<byte> -> string, f: ParsedFile)
    ensures f in ParseFiles(root, decode) <==>
            exists c :: Reaches(RootListing(root), [], c) && ParseFile(c, decode) == Accept(f)
  {
    var es := RootListing(root);
    forall c ensures c in Walk(es, []) <==> Reaches(es, [], c) {
      WalkReaches(es, [], c);
    }
  }

  /** No walked path passes through (or ends in) an ignored directory name. */
  lemma WalkSkipsIgnored(root: Entry)
    ensures forall c, s :: c in Walk(RootListing(root), []) && s in c.segments ==> s !in IGNORED_DIRS
  {
  }
}
