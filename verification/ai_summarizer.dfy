/** Summarising a repository (services/aiSummarizer.ts): regrouping chunks
    by file, cutting the groups into request batches, reading one summary
    per file out of each reply, and the fallbacks used when the generative
    backend fails. The backend and the regular-expression search in its
    reply are parameters. */
module AiSummarizer {
  import opened Wrappers
  import opened Text
  import opened Types
  import opened Partition

  /** At most this many files go into one request. */
  const FILE_BATCH_SIZE: nat := 15
  /** A batch of two or more files holds at most this many characters. */
  const BATCH_CHAR_LIMIT: nat := 60000
  /** At most this many file summaries go into the overview requests. */
  const OVERVIEW_SUMMARY_LIMIT: nat := 80

  /** The chunks of one file, merged back for summarising. */
  datatype GroupedFile = GroupedFile(filePath: string, language: string, chunks: seq<string>)

  // ---------------------------------------------------------------------
  // Grouping

  /** The paths of the chunks, in order. */
  function PathsOf(cs: seq<FileChunk>): (r: seq<string>)
    ensures |r| == |cs| && forall k :: 0 <= k < |cs| ==> r[k] == cs[k].filePath
  {
    seq(|cs|, k requires 0 <= k < |cs| => cs[k].filePath)
  }

  /** The position of the first occurrence of `p`. */
  function FirstIndex(xs: seq<string>, p: string): (r: nat)
    requires p in xs
    ensures r < |xs| && xs[r] == p && p !in xs[..r]
  {
    if xs[0] == p then 0
    else
      var r := 1 + FirstIndex(xs[1..], p);
      assert xs[..r] == [xs[0]] + xs[1..][..r - 1];
      r
  }

  /** A first occurrence is the first occurrence. */
  lemma FirstIndexUnique(xs: seq<string>, p: string, i: nat)
    requires i < |xs| && xs[i] == p && p !in xs[..i]
    ensures FirstIndex(xs, p) == i
  {
    var r := FirstIndex(xs, p);
    assert !(r < i) by { assert p !in xs[..i]; }
    assert !(i < r) by { assert p !in xs[..r]; }
  }

  /** The contents of the chunks of `p`, in order. */
  function ContentsOf(cs: seq<FileChunk>, p: string): seq<string> {
    if cs == [] then []
    else (if cs[0].filePath == p then [cs[0].content] else []) + ContentsOf(cs[1..], p)
  }

  lemma {:induction false} ContentsOfSnoc(cs: seq<FileChunk>, c: FileChunk, p: string)
    ensures ContentsOf(cs + [c], p) == ContentsOf(cs, p) + (if c.filePath == p then [c.content] else [])
    decreases |cs|
  {
    if cs == [] {
      assert cs + [c] == [c] && [c][1..] == [];
    } else {
      assert (cs + [c])[0] == cs[0] && (cs + [c])[1..] == cs[1..] + [c];
      ContentsOfSnoc(cs[1..], c, p);
    }
  }

  /** The language of the first chunk of `p`. */
  function FirstLanguage(cs: seq<FileChunk>, p: string): string {
    if cs == [] then ""
    else if cs[0].filePath == p then cs[0].language
    else FirstLanguage(cs[1..], p)
  }

  lemma {:induction false} FirstLanguageSnoc(cs: seq<FileChunk>, c: FileChunk, p: string)
    ensures FirstLanguage(cs + [c], p) ==
            if p in PathsOf(cs) then FirstLanguage(cs, p)
            else if c.filePath == p then c.language else ""
    decreases |cs|
  {
    if cs == [] {
      assert cs + [c] == [c] && [c][1..] == [];
    } else {
      assert (cs + [c])[0] == cs[0] && (cs + [c])[1..] == cs[1..] + [c];
      assert PathsOf(cs) == [cs[0].filePath] + PathsOf(cs[1..]);
      FirstLanguageSnoc(cs[1..], c, p);
    }
  }

  /** Every group is the group of some chunk's path. */
  ghost predicate GroupPathsOccur(cs: seq<FileChunk>, gs: seq<GroupedFile>) {
    forall i :: 0 <= i < |gs| ==> gs[i].filePath in PathsOf(cs)
  }

  /** Every chunk's path has a group. */
  ghost predicate GroupsCover(cs: seq<FileChunk>, gs: seq<GroupedFile>) {
    forall k :: 0 <= k < |cs| ==> exists i :: 0 <= i < |gs| && gs[i].filePath == cs[k].filePath
  }

  /** The groups come in order of their paths' first appearance (so, in
      particular, no path has two groups). */
  ghost predicate GroupsInFirstAppearanceOrder(cs: seq<FileChunk>, gs: seq<GroupedFile>)
    requires GroupPathsOccur(cs, gs)
  {
    forall i, j :: 0 <= i < j < |gs| ==>
      FirstIndex(PathsOf(cs), gs[i].filePath) < FirstIndex(PathsOf(cs), gs[j].filePath)
  }

  /** Each group holds its path's contents in order and the language of its
      path's first chunk. */
  ghost predicate GroupsHoldContents(cs: seq<FileChunk>, gs: seq<GroupedFile>) {
    forall i :: 0 <= i < |gs| ==>
      gs[i].chunks == ContentsOf(cs, gs[i].filePath) && gs[i].language == FirstLanguage(cs, gs[i].filePath)
  }

  /** What `groupChunksByFile` produces: one group per distinct path, in
      order of first appearance, holding that path's contents in order and
      the language of its first chunk. */
  ghost predicate GroupsOf(cs: seq<FileChunk>, gs: seq<GroupedFile>) {
    && GroupPathsOccur(cs, gs)
    && GroupsCover(cs, gs)
    && GroupsInFirstAppearanceOrder(cs, gs)
    && GroupsHoldContents(cs, gs)
  }

  /** The group of `p` so far, if there is one. */
  function GroupIndex(gs: seq<GroupedFile>, p: string): (r: Option<nat>)
    ensures r.Some? ==> r.value < |gs| && gs[r.value].filePath == p
    ensures r.None? ==> forall i :: 0 <= i < |gs| ==> gs[i].filePath != p
  {
    if gs == [] then None
    else if gs[|gs| - 1].filePath == p then Some(|gs| - 1)
    else GroupIndex(gs[..|gs| - 1], p)
  }

  /** One pass of the loop: append to the path's group, or open one. */
  function AddChunk(gs: seq<GroupedFile>, c: FileChunk): seq<GroupedFile> {
    match GroupIndex(gs, c.filePath)
    case Some(i) => gs[i := gs[i].(chunks := gs[i].chunks + [c.content])]
    case None => gs + [GroupedFile(c.filePath, c.language, [c.content])]
  }

  /** `groupChunksByFile`: the loop over the chunks, as a left fold. */
  function GroupChunksByFile(cs: seq<FileChunk>): (gs: seq<GroupedFile>)
    ensures |gs| <= |cs|
    ensures cs != [] ==> gs != []
    decreases |cs|
  {
    if cs == [] then []
    else AddChunk(GroupChunksByFile(cs[..|cs| - 1]), cs[|cs| - 1])
  }

  /** `groupChunksByFile` yields one group per distinct path, in order of
      first appearance, each holding its path's contents in order and the
      language of its first chunk. */
  lemma {:induction false} GroupChunksByFileSpec(cs: seq<FileChunk>)
    ensures GroupsOf(cs, GroupChunksByFile(cs))
    decreases |cs|
  {
    if cs != [] {
      var n := |cs| - 1;
      GroupChunksByFileSpec(cs[..n]);
      GroupStep(cs[..n], GroupChunksByFile(cs[..n]), cs[n]);
      assert cs[..n] + [cs[n]] == cs;
    }
  }

  /** Adding a chunk to the groups of a prefix gives the groups of the
      longer prefix. */
  lemma GroupStep(cs: seq<FileChunk>, gs: seq<GroupedFile>, c: FileChunk)
    requires GroupsOf(cs, gs)
    ensures GroupsOf(cs + [c], AddChunk(gs, c))
  {
    StepOccur(cs, gs, c);
    StepCover(cs, gs, c);
    StepOrder(cs, gs, c);
    StepContents(cs, gs, c);
  }

  /** A path without a group has no chunk yet. */
  lemma NewPathUnseen(cs: seq<FileChunk>, gs: seq<GroupedFile>, p: string)
    requires GroupsCover(cs, gs)
    requires forall i :: 0 <= i < |gs| ==> gs[i].filePath != p
    ensures p !in PathsOf(cs)
  {
    forall k | 0 <= k < |cs| ensures PathsOf(cs)[k] != p {
      var j :| 0 <= j < |gs| && gs[j].filePath == cs[k].filePath;
    }
  }

  /** Adding a chunk keeps every existing group's path in its place and
      leaves a group for the chunk's path. */
  lemma AddChunkPaths(gs: seq<GroupedFile>, c: FileChunk)
    ensures var gs' := AddChunk(gs, c);
            && |gs| <= |gs'| <= |gs| + 1
            && (forall j :: 0 <= j < |gs| ==> gs'[j].filePath == gs[j].filePath)
            && (exists j :: 0 <= j < |gs'| && gs'[j].filePath == c.filePath)
            && (|gs'| == |gs| + 1 <==> GroupIndex(gs, c.filePath).None?)
            && (|gs'| == |gs| + 1 ==> gs'[|gs|] == GroupedFile(c.filePath, c.language, [c.content]))
  {
    var gs' := AddChunk(gs, c);
    match GroupIndex(gs, c.filePath)
    case Some(i) =>
      assert gs'[i].filePath == c.filePath;
    case None =>
      assert gs'[|gs|].filePath == c.filePath;
  }

  lemma StepOccur(cs: seq<FileChunk>, gs: seq<GroupedFile>, c: FileChunk)
    requires GroupPathsOccur(cs, gs)
    ensures GroupPathsOccur(cs + [c], AddChunk(gs, c))
  {
    AddChunkPaths(gs, c);
    PathsOfSnoc(cs, c);
  }

  lemma PathsOfSnoc(cs: seq<FileChunk>, c: FileChunk)
    ensures PathsOf(cs + [c]) == PathsOf(cs) + [c.filePath]
  {
    assert |PathsOf(cs + [c])| == |PathsOf(cs) + [c.filePath]|;
  }

  lemma StepCover(cs: seq<FileChunk>, gs: seq<GroupedFile>, c: FileChunk)
    requires GroupsCover(cs, gs)
    ensures GroupsCover(cs + [c], AddChunk(gs, c))
  {
    var cs', gs' := cs + [c], AddChunk(gs, c);
    AddChunkPaths(gs, c);
    forall k | 0 <= k < |cs'| ensures exists j :: 0 <= j < |gs'| && gs'[j].filePath == cs'[k].filePath {
      if k < |cs| {
        assert cs'[k] == cs[k];
        var j :| 0 <= j < |gs| && gs[j].filePath == cs[k].filePath;
        assert gs'[j].filePath == cs'[k].filePath;
      }
    }
  }

  /** A path's first appearance does not move when a chunk is appended. */
  lemma FirstIndexSnoc(xs: seq<string>, x: string, p: string)
    requires p in xs
    ensures FirstIndex(xs + [x], p) == FirstIndex(xs, p)
  {
    var r := FirstIndex(xs, p);
    assert (xs + [x])[..r] == xs[..r];
    FirstIndexUnique(xs + [x], p, r);
  }

  /** A new path first appears at the end. */
  lemma FirstIndexNew(xs: seq<string>, x: string)
    requires x !in xs
    ensures FirstIndex(xs + [x], x) == |xs|
  {
    assert (xs + [x])[..|xs|] == xs;
    FirstIndexUnique(xs + [x], x, |xs|);
  }

  lemma StepOrder(cs: seq<FileChunk>, gs: seq<GroupedFile>, c: FileChunk)
    requires GroupPathsOccur(cs, gs) && GroupsInFirstAppearanceOrder(cs, gs)
    requires GroupsCover(cs, gs)
    ensures GroupPathsOccur(cs + [c], AddChunk(gs, c))
    ensures GroupsInFirstAppearanceOrder(cs + [c], AddChunk(gs, c))
  {
    StepOccur(cs, gs, c);
    var gs' := AddChunk(gs, c);
    forall i, j | 0 <= i < j < |gs'|
      ensures FirstIndex(PathsOf(cs + [c]), gs'[i].filePath) < FirstIndex(PathsOf(cs + [c]), gs'[j].filePath)
    {
      StepOrderPair(cs, gs, c, i, j);
    }
  }

  lemma StepOrderPair(cs: seq<FileChunk>, gs: seq<GroupedFile>, c: FileChunk, i: nat, j: nat)
    requires GroupPathsOccur(cs, gs) && GroupsInFirstAppearanceOrder(cs, gs)
    requires GroupsCover(cs, gs)
    requires GroupPathsOccur(cs + [c], AddChunk(gs, c))
    requires i < j < |AddChunk(gs, c)|
    ensures FirstIndex(PathsOf(cs + [c]), AddChunk(gs, c)[i].filePath)
            < FirstIndex(PathsOf(cs + [c]), AddChunk(gs, c)[j].filePath)
  {
    AddChunkPaths(gs, c);
    var paths := PathsOf(cs);
    PathsOfSnoc(cs, c);
    var gs' := AddChunk(gs, c);
    var p, q := gs'[i].filePath, gs'[j].filePath;
    assert p == gs[i].filePath && p in paths;
    if j < |gs| {
      assert q == gs[j].filePath && q in paths;
      assert FirstIndex(paths, p) < FirstIndex(paths, q);
    } else {
      assert q == c.filePath;
      NewPathUnseen(cs, gs, c.filePath);
    }
    OrderAfterSnoc(paths, c.filePath, p, q);
  }

  /** Appending a path keeps the order of first appearances already seen and puts a new path last. */
  lemma OrderAfterSnoc(paths: seq<string>, x: string, p: string, q: string)
    requires p in paths
    requires (q in paths && FirstIndex(paths, p) < FirstIndex(paths, q)) || (q == x && x !in paths)
    ensures FirstIndex(paths + [x], p) < FirstIndex(paths + [x], q)
  {
    FirstIndexSnoc(paths, x, p);
    if q in paths {
      FirstIndexSnoc(paths, x, q);
    } else {
      FirstIndexNew(paths, x);
    }
  }

  lemma StepContents(cs: seq<FileChunk>, gs: seq<GroupedFile>, c: FileChunk)
    requires GroupPathsOccur(cs, gs) && GroupsCover(cs, gs) && GroupsHoldContents(cs, gs)
    requires GroupsInFirstAppearanceOrder(cs, gs)
    ensures GroupsHoldContents(cs + [c], AddChunk(gs, c))
  {
    var cs', gs' := cs + [c], AddChunk(gs, c);
    forall i | 0 <= i < |gs'|
      ensures gs'[i].chunks == ContentsOf(cs', gs'[i].filePath)
      ensures gs'[i].language == FirstLanguage(cs', gs'[i].filePath)
    {
      StepContentsAt(cs, gs, c, i);
    }
  }

  lemma StepContentsAt(cs: seq<FileChunk>, gs: seq<GroupedFile>, c: FileChunk, i: nat)
    requires GroupPathsOccur(cs, gs) && GroupsCover(cs, gs) && GroupsHoldContents(cs, gs)
    requires GroupsInFirstAppearanceOrder(cs, gs)
    requires i < |AddChunk(gs, c)|
    ensures var g := AddChunk(gs, c)[i];
            g.chunks == ContentsOf(cs + [c], g.filePath) && g.language == FirstLanguage(cs + [c], g.filePath)
  {
    var gs' := AddChunk(gs, c);
    AddChunkPaths(gs, c);
    var p := gs'[i].filePath;
    ContentsOfSnoc(cs, c, p);
    FirstLanguageSnoc(cs, c, p);
    if i == |gs| {
      NewPathUnseen(cs, gs, p);
      ContentsOfNone(cs, p);
    } else {
      assert p == gs[i].filePath && p in PathsOf(cs);
      match GroupIndex(gs, c.filePath)
      case Some(g) =>
        if g == i {
          assert gs'[i].chunks == gs[i].chunks + [c.content];
        } else {
          assert gs[g].filePath != gs[i].filePath by {
            if g < i {
              assert FirstIndex(PathsOf(cs), gs[g].filePath) < FirstIndex(PathsOf(cs), gs[i].filePath);
            } else {
              assert FirstIndex(PathsOf(cs), gs[i].filePath) < FirstIndex(PathsOf(cs), gs[g].filePath);
            }
          }
          assert gs'[i] == gs[i];
        }
      case None =>
        assert gs'[i] == gs[i];
    }
  }

  /** A path with no chunk has no contents. */
  lemma {:induction false} ContentsOfNone(cs: seq<FileChunk>, p: string)
    requires p !in PathsOf(cs)
    ensures ContentsOf(cs, p) == []
    decreases |cs|
  {
    if cs != [] {
      assert PathsOf(cs) == [cs[0].filePath] + PathsOf(cs[1..]);
      ContentsOfNone(cs[1..], p);
    }
  }

  /** The groups' paths are chunk paths, cover every chunk, and are distinct. */
  lemma GroupsCoverOnce(cs: seq<FileChunk>)
    ensures var gs := GroupChunksByFile(cs);
            && GroupPathsOccur(cs, gs)
            && GroupsCover(cs, gs)
            && forall i, j :: 0 <= i < j < |gs| ==> gs[i].filePath != gs[j].filePath
  {
    GroupChunksByFileSpec(cs);
    GroupPathsDistinct(cs);
  }

  /** Different groups have different paths. */
  lemma GroupPathsDistinct(cs: seq<FileChunk>)
    ensures var gs := GroupChunksByFile(cs);
            forall i, j :: 0 <= i < j < |gs| ==> gs[i].filePath != gs[j].filePath
  {
    GroupChunksByFileSpec(cs);
  }

  // ---------------------------------------------------------------------
  // Batching

  function Chars(ss: seq<string>): nat {
    if ss == [] then 0 else |ss[0]| + Chars(ss[1..])
  }

  /** `groupChars`: the characters of a file's chunks. */
  function GroupChars(g: GroupedFile): nat {
    Chars(g.chunks)
  }

  /** `currentChars` for a batch. */
  function BatchChars(b: seq<GroupedFile>): nat {
    if b == [] then 0 else GroupChars(b[0]) + BatchChars(b[1..])
  }

  lemma {:induction false} BatchCharsSnoc(b: seq<GroupedFile>, g: GroupedFile)
    ensures BatchChars(b + [g]) == BatchChars(b) + GroupChars(g)
    decreases |b|
  {
    if b == [] {
      assert b + [g] == [g] && [g][1..] == [];
    } else {
      assert (b + [g])[1..] == b[1..] + [g];
      BatchCharsSnoc(b[1..], g);
    }
  }

  /** Whether the current batch is closed before `next` joins: it is full,
      or it is non-empty and `next` would take it over the character limit. */
  predicate ClosesBatch(current: seq<GroupedFile>, next: GroupedFile) {
    || |current| >= FILE_BATCH_SIZE
    || (|current| > 0 && BatchChars(current) + GroupChars(next) > BATCH_CHAR_LIMIT)
  }

  const BatchSplits: (seq<GroupedFile>, GroupedFile) -> bool :=
    (current: seq<GroupedFile>, next: GroupedFile) => ClosesBatch(current, next)

  /** The batches built at the start of `summariseAllFiles`. */
  function Batches(groups: seq<GroupedFile>): (bs: seq<seq<GroupedFile>>)
    ensures IsGreedyPartition(bs, groups, BatchSplits)
  {
    Greedy(groups, [], BatchSplits)
  }

  /** The batches are the groups, in order, cut into non-empty pieces. */
  lemma BatchesCover(groups: seq<GroupedFile>)
    ensures Flatten(Batches(groups)) == groups
    ensures forall j :: 0 <= j < |Batches(groups)| ==> Batches(groups)[j] != []
  {
  }

  /** No batch holds more than 15 files. */
  lemma BatchSize(groups: seq<GroupedFile>, j: nat)
    requires j < |Batches(groups)|
    ensures |Batches(groups)[j]| <= FILE_BATCH_SIZE
  {
    var b := Batches(groups)[j];
    if |b| > 1 {
      var k := |b| - 1;
      assert !BatchSplits(b[..k], b[k]);
    }
  }

  /** A batch of two or more files stays within the character limit; only
      a file that is over the limit on its own travels alone above it. */
  lemma BatchCharLimit(groups: seq<GroupedFile>, j: nat)
    requires j < |Batches(groups)| && |Batches(groups)[j]| >= 2
    ensures BatchChars(Batches(groups)[j]) <= BATCH_CHAR_LIMIT
  {
    var b := Batches(groups)[j];
    var k := |b| - 1;
    assert !BatchSplits(b[..k], b[k]);
    BatchCharsSnoc(b[..k], b[k]);
    assert b[..k] + [b[k]] == b;
  }

  // ---------------------------------------------------------------------
  // Backend replies

  /** What one request to the backend is about; the prompt text built from
      it is not modelled. */
  datatype Request =
    | FileBatch(files: seq<GroupedFile>)
    | Overview(repoName: string, summaries: seq<FileSummary>)
    | Architecture(repoName: string, summaries: seq<FileSummary>)

  /** `callGemini`: the trimmed reply, unless that is empty or the call
      threw, in which case the fallback. */
  function CallGemini(reply: Reply, fallback: string): (r: string)
    ensures reply.Threw? ==> r == fallback
    ensures reply.Answered? && !AllSpace(reply.text) ==> r == Trim(reply.text) && r != []
    ensures reply.Answered? && AllSpace(reply.text) ==> r == fallback
  {
    match reply
    case Threw => fallback
    case Answered(text) =>
      TrimEmptyIffAllSpace(text);
      var t := Trim(text);
      if t == [] then fallback else t
  }

  /** The fallback text of a batch request: one line per file. */
  function BatchFallback(batch: seq<GroupedFile>): string {
    JoinWith(seq(|batch|, i requires 0 <= i < |batch| => "**" + batch[i].filePath + "**: Source file"), '\n')
  }

  const SOURCE_FILE_AT: string := "Source file at "

  /** `parseBatchResponse`: for each file of the batch, in order, the text
      that `find` captures for its path in the reply, trimmed, or a generic
      line when there is none. `find(raw, path)` stands for the first match
      of the bolded-path pattern and its captured group. */
  function ParseBatch(raw: string, batch: seq<GroupedFile>, find: (string, string) -> Option<string>): (r: seq<FileSummary>)
    ensures |r| == |batch|
    ensures forall i :: 0 <= i < |batch| ==>
              && r[i].filePath == batch[i].filePath
              && r[i].language == batch[i].language
              && r[i].summary != []
              && (r[i].summary == SOURCE_FILE_AT + batch[i].filePath <==>
                    find(raw, batch[i].filePath).None?
                    || AllSpace(find(raw, batch[i].filePath).value)
                    || Trim(find(raw, batch[i].filePath).value) == SOURCE_FILE_AT + batch[i].filePath)
    ensures forall i :: 0 <= i < |batch| && find(raw, batch[i].filePath).Some? && !AllSpace(find(raw, batch[i].filePath).value) ==>
              r[i].summary == Trim(find(raw, batch[i].filePath).value)
  {
    seq(|batch|, i requires 0 <= i < |batch| =>
      var m := find(raw, batch[i].filePath);
      var t := if m.Some? then Trim(m.value) else [];
      FileSummary(batch[i].filePath, if t != [] then t else SOURCE_FILE_AT + batch[i].filePath, batch[i].language))
  }

  /** The file summaries of the batches, one request per batch, in order. */
  function SummariseBatches(bs: seq<seq<GroupedFile>>, backend: Request -> Reply,
                            find: (string, string) -> Option<string>): (r: seq<FileSummary>)
    ensures |r| == |Flatten(bs)|
  {
    if bs == [] then []
    else
      var raw := CallGemini(backend(FileBatch(bs[0])), BatchFallback(bs[0]));
      ParseBatch(raw, bs[0], find) + SummariseBatches(bs[1..], backend, find)
  }

  /** The i-th summary over all batches describes the i-th file over all
      batches: same path, same language, and a non-empty text. */
  lemma {:induction false} SummariseBatchesAt(bs: seq<seq<GroupedFile>>, backend: Request -> Reply,
                                              find: (string, string) -> Option<string>, i: nat)
    requires i < |Flatten(bs)|
    ensures var r := SummariseBatches(bs, backend, find);
            && r[i].filePath == Flatten(bs)[i].filePath
            && r[i].language == Flatten(bs)[i].language
            && r[i].summary != []
    decreases |bs|
  {
    var raw := CallGemini(backend(FileBatch(bs[0])), BatchFallback(bs[0]));
    var head := ParseBatch(raw, bs[0], find);
    var rest := SummariseBatches(bs[1..], backend, find);
    assert SummariseBatches(bs, backend, find) == head + rest;
    assert Flatten(bs) == bs[0] + Flatten(bs[1..]);
    if i >= |bs[0]| {
      SummariseBatchesAt(bs[1..], backend, find, i - |bs[0]|);
    }
  }

  /** `summariseAllFiles`: one summary per group, in the groups' order. */
  function SummariseAllFiles(groups: seq<GroupedFile>, backend: Request -> Reply,
                             find: (string, string) -> Option<string>): (r: seq<FileSummary>)
    ensures |r| == |groups|
  {
    BatchesCover(groups);
    SummariseBatches(Batches(groups), backend, find)
  }

  /** Each group's summary keeps its path and language and is never empty. */
  lemma SummariseAllFilesAt(groups: seq<GroupedFile>, backend: Request -> Reply,
                            find: (string, string) -> Option<string>, i: nat)
    requires i < |groups|
    ensures var r := SummariseAllFiles(groups, backend, find);
            && r[i].filePath == groups[i].filePath
            && r[i].language == groups[i].language
            && r[i].summary != []
  {
    BatchesCover(groups);
    SummariseBatchesAt(Batches(groups), backend, find, i);
  }

  /** `slice(0, OVERVIEW_SUMMARY_LIMIT)`. */
  function Limited(fs: seq<FileSummary>): (r: seq<FileSummary>)
    ensures |r| <= OVERVIEW_SUMMARY_LIMIT && |r| <= |fs| && r == fs[..|r|]
    ensures |fs| <= OVERVIEW_SUMMARY_LIMIT ==> r == fs
  {
    if |fs| <= OVERVIEW_SUMMARY_LIMIT then fs else fs[..OVERVIEW_SUMMARY_LIMIT]
  }

  function OverviewFallback(repoName: string, fileCount: nat): string {
    repoName + " is a software project with " + NatToString(fileCount) + " source files."
  }

  function ArchitectureFallback(repoName: string): string {
    "The architecture of " + repoName + " could not be determined."
  }

  /** `summarizeRepo`: one file summary per group, then an overview and an
      architecture text whose requests see only the first 80 summaries.
      `generatedAt` stands for the clock. */
  function SummarizeRepo(repoId: string, repoName: string, chunks: seq<FileChunk>, backend: Request -> Reply,
                         find: (string, string) -> Option<string>, generatedAt: string): (r: RepoSummary)
    ensures r.repoId == repoId && r.generatedAt == generatedAt
    ensures r.fileSummaries == SummariseAllFiles(GroupChunksByFile(chunks), backend, find)
    ensures |r.fileSummaries| <= |chunks| && (chunks != [] ==> r.fileSummaries != [])
    ensures r.overview == CallGemini(backend(Overview(repoName, Limited(r.fileSummaries))),
                                     OverviewFallback(repoName, |r.fileSummaries|))
    ensures r.architecture == CallGemini(backend(Architecture(repoName, Limited(r.fileSummaries))),
                                         ArchitectureFallback(repoName))
  {
    var groups := GroupChunksByFile(chunks);
    var fileSummaries := SummariseAllFiles(groups, backend, find);
    var overview := CallGemini(backend(Overview(repoName, Limited(fileSummaries))),
                               OverviewFallback(repoName, |groups|));
    var architecture := CallGemini(backend(Architecture(repoName, Limited(fileSummaries))),
                                   ArchitectureFallback(repoName));
    RepoSummary(repoId, overview, architecture, fileSummaries, generatedAt)
  }

  /** The repository summary holds exactly one file summary per distinct
      path of the chunks: every summary's path is a chunk's path, every
      chunk's path has a summary, and no path is summarised twice. */
  lemma SummaryPerDistinctPath(repoId: string, repoName: string, chunks: seq<FileChunk>, backend: Request -> Reply,
                               find: (string, string) -> Option<string>, generatedAt: string)
    ensures var fs := SummarizeRepo(repoId, repoName, chunks, backend, find, generatedAt).fileSummaries;
            && (forall i :: 0 <= i < |fs| ==> fs[i].filePath in PathsOf(chunks) && fs[i].summary != [])
            && (forall k :: 0 <= k < |chunks| ==> exists i :: 0 <= i < |fs| && fs[i].filePath == chunks[k].filePath)
            && (forall i, j :: 0 <= i < j < |fs| ==> fs[i].filePath != fs[j].filePath)
  {
    FileSummaryPerPath(chunks, backend, find);
  }

  /** The same, stated on the file summaries of the grouped chunks. */
  lemma FileSummaryPerPath(chunks: seq<FileChunk>, backend: Request -> Reply, find: (string, string) -> Option<string>)
    ensures OnePerPath(chunks, SummariseAllFiles(GroupChunksByFile(chunks), backend, find))
  {
    var groups := GroupChunksByFile(chunks);
    GroupsCoverOnce(chunks);
    SummariesFollowAll(groups, backend, find);
    PerPathFromGroups(chunks, groups, SummariseAllFiles(groups, backend, find));
  }

  /** Every summary names a chunked path and has a non-empty text, every
      chunked path has a summary, and no path has two. */
  ghost predicate OnePerPath(chunks: seq<FileChunk>, fs: seq<FileSummary>) {
    && (forall i :: 0 <= i < |fs| ==> fs[i].filePath in PathsOf(chunks) && fs[i].summary != [])
    && (forall k :: 0 <= k < |chunks| ==> HasSummary(fs, chunks[k].filePath))
    && (forall i, j :: 0 <= i < j < |fs| ==> fs[i].filePath != fs[j].filePath)
  }

  ghost predicate HasSummary(fs: seq<FileSummary>, p: string) {
    exists i :: 0 <= i < |fs| && fs[i].filePath == p
  }

  /** `fs` summarises `groups` one for one: same paths, non-empty texts. */
  ghost predicate SummariesFollow(fs: seq<FileSummary>, groups: seq<GroupedFile>) {
    && |fs| == |groups|
    && forall i :: 0 <= i < |fs| ==> fs[i].filePath == groups[i].filePath && fs[i].summary != []
  }

  lemma SummariesFollowAll(groups: seq<GroupedFile>, backend: Request -> Reply,
                           find: (string, string) -> Option<string>)
    ensures SummariesFollow(SummariseAllFiles(groups, backend, find), groups)
  {
    var fs := SummariseAllFiles(groups, backend, find);
    forall i | 0 <= i < |fs|
      ensures fs[i].filePath == groups[i].filePath && fs[i].summary != []
    {
      SummariseAllFilesAt(groups, backend, find, i);
    }
  }

  /** Summaries that follow groups covering each path once cover each path once. */
  lemma PerPathFromGroups(chunks: seq<FileChunk>, groups: seq<GroupedFile>, fs: seq<FileSummary>)
    requires SummariesFollow(fs, groups)
    requires GroupPathsOccur(chunks, groups) && GroupsCover(chunks, groups)
    requires forall i, j :: 0 <= i < j < |groups| ==> groups[i].filePath != groups[j].filePath
    ensures OnePerPath(chunks, fs)
  {
    forall k | 0 <= k < |chunks|
      ensures HasSummary(fs, chunks[k].filePath)
    {
      var c := chunks[k];
      var i :| 0 <= i < |groups| && groups[i].filePath == c.filePath;
      assert 0 <= i < |fs| && fs[i].filePath == c.filePath;
    }
    forall i | 0 <= i < |fs| ensures fs[i].filePath in PathsOf(chunks) {
      assert groups[i].filePath in PathsOf(chunks);
    }
  }
}
