/** Semantic chunking of file contents (services/fileParser.ts, from
    `BOUNDARY_PATTERNS` on).

    A file is cut into pieces along line boundaries. Lines are added one at
    a time to the current piece, each counting its length plus one for its
    newline; the piece is closed before a line that would push it past
    1500 counted characters, and, once it holds at least 1200, before a line
    that looks like the start of a declaration, a heading or a blank line.
    `ChunkContent` defines the result as the greedy partition of the lines
    under that split test; `ChunkContentLoop` follows the source's loop and
    is proved to compute the same pieces. */
module Chunker {
  import opened Wrappers
  import opened Text
  import opened Partition
  import opened Types

  /** Counted length at which a piece may be closed at a boundary line. */
  const CHUNK_TARGET: nat := 1200
  /** Counted length a piece never exceeds by adding a line to it. */
  const CHUNK_MAX: nat := 1500

  // ---------------------------------------------------------------------
  // Boundary patterns, read deterministically. Every pattern is anchored at
  // the start of the (trimmed) line, and each `\s+` is followed by a letter
  // or `\w`, so a greedy left-to-right reading finds a match exactly when
  // one exists.

  /** The first position at or after `i` that is not a `\w` character. */
  function SkipWord(t: string, i: nat): (j: nat)
    requires i <= |t|
    ensures i <= j <= |t| && (j == |t| || !IsWordChar(t[j]))
    ensures forall k :: i <= k < j ==> IsWordChar(t[k])
    decreases |t| - i
  {
    if i < |t| && IsWordChar(t[i]) then SkipWord(t, i + 1) else i
  }

  /** `kw\s+` read at position `i`: where the whitespace after the keyword ends. */
  function AfterKeyword(t: string, i: nat, kw: string): (r: Option<nat>)
    requires i <= |t|
    ensures r.Some? ==> i + |kw| < r.value <= |t| && OccursAt(t, kw, i)
    ensures r.None? <==> !(OccursAt(t, kw, i) && i + |kw| < |t| && IsSpace(t[i + |kw|]))
  {
    if OccursAt(t, kw, i) && i + |kw| < |t| && IsSpace(t[i + |kw|]) then Some(SkipLeading(t, i + |kw|))
    else None
  }

  /** `(?:kw\s+)?` read at position `i`. */
  function OptKeyword(t: string, i: nat, kw: string): (j: nat)
    requires i <= |t|
    ensures i <= j <= |t|
  {
    match AfterKeyword(t, i, kw)
    case Some(j) => j
    case None => i
  }

  /** `^(?:export\s+)?(?:abstract\s+)?class\s+` */
  predicate ClassDecl(t: string) {
    var a := OptKeyword(t, 0, "export");
    var b := OptKeyword(t, a, "abstract");
    AfterKeyword(t, b, "class").Some?
  }

  /** `^(?:export\s+)?(?:default\s+)?function[\s*(]` */
  predicate FunctionDecl(t: string) {
    var a := OptKeyword(t, 0, "export");
    var b := OptKeyword(t, a, "default");
    OccursAt(t, "function", b) && b + 8 < |t| && (IsSpace(t[b + 8]) || t[b + 8] == '*' || t[b + 8] == '(')
  }

  /** `\w+\s*=` read at the position `p` (after a declaration keyword). */
  predicate AssignedName(t: string, p: Option<nat>) {
    p.Some? && p.value <= |t| &&
    var k := SkipWord(t, p.value);
    k > p.value && var m := SkipLeading(t, k); m < |t| && t[m] == '='
  }

  /** `^(?:export\s+)?(?:const|let|var)\s+\w+\s*=` */
  predicate Assignment(t: string) {
    var a := OptKeyword(t, 0, "export");
    || AssignedName(t, AfterKeyword(t, a, "const"))
    || AssignedName(t, AfterKeyword(t, a, "let"))
    || AssignedName(t, AfterKeyword(t, a, "var"))
  }

  /** `^(?:export\s+)?(?:interface|type|enum)\s+` */
  predicate TypeDecl(t: string) {
    var a := OptKeyword(t, 0, "export");
    AfterKeyword(t, a, "interface").Some? || AfterKeyword(t, a, "type").Some? || AfterKeyword(t, a, "enum").Some?
  }

  /** `^(?:def|async\s+def)\s+` */
  predicate PythonDef(t: string) {
    || AfterKeyword(t, 0, "def").Some?
    || (var a := AfterKeyword(t, 0, "async"); a.Some? && AfterKeyword(t, a.value, "def").Some?)
  }

  /** The number of leading '#' characters. */
  function HashRun(t: string): (n: nat)
    ensures n <= |t| && (n == |t| || t[n] != '#')
    ensures forall k :: 0 <= k < n ==> t[k] == '#'
  {
    if t != [] && t[0] == '#' then 1 + HashRun(t[1..]) else 0
  }

  /** `^#{1,3}\s+` */
  predicate Heading(t: string) {
    var n := HashRun(t);
    1 <= n <= 3 && n < |t| && IsSpace(t[n])
  }

  /** `^\s*$` */
  predicate BlankPattern(t: string) {
    AllSpace(t)
  }

  /** `BOUNDARY_PATTERNS`, strongest first. */
  const BOUNDARY_PATTERNS: seq<string -> bool> :=
    [ClassDecl, FunctionDecl, Assignment, TypeDecl, PythonDef, Heading, BlankPattern]

  /** The loop of `boundaryScore` over the patterns `ps` from pattern `i` on:
      the number of patterns from the first one that matches to the end, or
      0 when none does. */
  function ScoreFrom(ps: seq<string -> bool>, t: string, i: nat): (r: nat)
    requires i <= |ps|
    ensures r <= |ps| - i
    ensures r > 0 ==> ps[|ps| - r](t)
    ensures forall k :: i <= k < |ps| - r ==> !ps[k](t)
    decreases |ps| - i
  {
    if i == |ps| then 0
    else if ps[i](t) then |ps| - i
    else ScoreFrom(ps, t, i + 1)
  }

  /** `boundaryScore`: 7 − i for the first pattern i matching the line
      without its leading whitespace, and 0 when none matches. */
  function BoundaryScore(line: string): (r: nat)
    ensures r <= 7
    ensures r > 0 ==> BOUNDARY_PATTERNS[7 - r](TrimStart(line))
    ensures forall k :: 0 <= k < 7 - r ==> !BOUNDARY_PATTERNS[k](TrimStart(line))
  {
    ScoreFrom(BOUNDARY_PATTERNS, TrimStart(line), 0)
  }

  /** A line scores 1, the weakest boundary, exactly when it is empty or
      all whitespace. */
  lemma {:induction false} BlankLineScoresOne(line: string)
    ensures BoundaryScore(line) == 1 <==> AllSpace(line)
  {
    var t := TrimStart(line);
    var r := BoundaryScore(line);
    if AllSpace(line) {
      TrimStartOfSpace(line);
      assert BlankPattern(t);
      assert !ClassDecl(t) && !FunctionDecl(t) && !Assignment(t) && !TypeDecl(t);
      assert !PythonDef(t) && !Heading(t);
      assert BOUNDARY_PATTERNS[6](t);
      assert forall k :: 0 <= k < 6 ==> !BOUNDARY_PATTERNS[k](t);
    } else {
      assert line[..|line|] == line;
      assert !BlankPattern(t);
    }
  }

  // ---------------------------------------------------------------------
  // Chunking

  /** The counted length of a piece: every line's length plus one. */
  function Counted(g: seq<string>): nat {
    SumLengthsPlusOne(g)
  }

  lemma {:induction false} CountedSnoc(g: seq<string>, x: string)
    ensures Counted(g + [x]) == Counted(g) + |x| + 1
    decreases |g|
  {
    if g == [] {
      assert [x][1..] == [];
    } else {
      assert (g + [x])[1..] == g[1..] + [x];
      CountedSnoc(g[1..], x);
    }
  }

  /** Whether the current piece `g` is closed before the line `next`, given
      a way to score lines: either adding `next` would overflow the maximum,
      or the target is reached and `next` is a boundary (or the maximum is
      reached already). */
  predicate ClosesBefore(score: string -> nat, g: seq<string>, next: string) {
    || Counted(g) + |next| + 1 > CHUNK_MAX
    || (Counted(g) >= CHUNK_TARGET && (score(next) > 0 || Counted(g) >= CHUNK_MAX))
  }

  function SplitTest(score: string -> nat): (seq<string>, string) -> bool {
    (g: seq<string>, next: string) => ClosesBefore(score, g, next)
  }

  /** The split test of `chunkContent`, which scores lines with `BoundaryScore`. */
  const Splits: (seq<string>, string) -> bool := SplitTest(BoundaryScore)

  /** The lines of each piece of a long file. */
  function LineGroups(content: string): (gs: seq<seq<string>>)
    ensures IsGreedyPartition(gs, SplitOn(content, '\n'), Splits)
  {
    Greedy(SplitOn(content, '\n'), [], Splits)
  }

  /** Each group of lines joined back with newlines. */
  function JoinGroups(gs: seq<seq<string>>): (r: seq<string>)
    ensures |r| == |gs| && forall k :: 0 <= k < |gs| ==> r[k] == JoinWith(gs[k], '\n')
  {
    seq(|gs|, k requires 0 <= k < |gs| => JoinWith(gs[k], '\n'))
  }

  /** Joining the joined groups equals joining all their lines. */
  lemma {:induction false} JoinGroupsFlatten(gs: seq<seq<string>>)
    requires forall k :: 0 <= k < |gs| ==> gs[k] != []
    ensures JoinWith(JoinGroups(gs), '\n') == JoinWith(Flatten(gs), '\n')
    decreases |gs|
  {
    if |gs| > 1 {
      JoinGroupsFlatten(gs[1..]);
      assert JoinGroups(gs) == [JoinWith(gs[0], '\n')] + JoinGroups(gs[1..]);
      assert Flatten(gs[1..]) != [] by {
        assert Flatten(gs[1..]) == gs[1] + Flatten(gs[2..]);
      }
      JoinWithAppend(gs[0], Flatten(gs[1..]), '\n');
    } else if |gs| == 1 {
      assert Flatten(gs) == gs[0] + Flatten(gs[1..]) == gs[0];
    }
  }

  /** A group of two or more lines kept together counts at most the maximum. */
  lemma {:induction false} CohesiveBounded(score: string -> nat, g: seq<string>)
    requires |g| >= 2 && Cohesive(g, SplitTest(score))
    ensures Counted(g) <= CHUNK_MAX
  {
    var k := |g| - 1;
    assert !SplitTest(score)(g[..k], g[k]);
    CountedSnoc(g[..k], g[k]);
    assert g[..k] + [g[k]] == g;
  }

  /** Items of a group are items of the partitioned sequence. */
  lemma {:induction false} GroupItemsIn<T>(gs: seq<seq<T>>, j: nat, x: T)
    requires j < |gs| && x in gs[j]
    ensures x in Flatten(gs)
    decreases j
  {
    assert Flatten(gs) == gs[0] + Flatten(gs[1..]);
    if j > 0 {
      GroupItemsIn(gs[1..], j - 1, x);
    }
  }

  /** `chunkContent`. */
  function ChunkContent(content: string): (r: seq<string>)
    ensures r != []
    ensures |content| <= CHUNK_MAX ==> r == [content]
    ensures JoinWith(r, '\n') == content
    ensures forall k :: 0 <= k < |r| && '\n' in r[k] ==> |r[k]| <= CHUNK_MAX
    ensures |content| > CHUNK_MAX ==> forall k :: 0 <= k < |r| && '\n' in r[k] ==> |r[k]| < CHUNK_MAX
  {
    if |content| <= CHUNK_MAX then [content]
    else
      var lines := SplitOn(content, '\n');
      SplitOnJoin(content, '\n');
      var gs := LineGroups(content);
      FirstGroupStarts(gs, lines, Splits);
      JoinGroupsFlatten(gs);
      var r := JoinGroups(gs);
      assert forall k :: 0 <= k < |r| && '\n' in r[k] ==> |r[k]| < CHUNK_MAX by {
        forall k | 0 <= k < |r| ensures '\n' in r[k] ==> |r[k]| < CHUNK_MAX {
          if |gs[k]| == 1 {
            GroupItemsIn(gs, k, gs[k][0]);
            assert r[k] == gs[k][0];
            assert '\n' !in r[k];
          } else {
            CohesiveBounded(BoundaryScore, gs[k]);
            JoinWithLength(gs[k], '\n');
          }
        }
      }
      r
  }

  /** Inside a piece, once the target is reached no line is a boundary and
      the maximum is not yet reached: otherwise the piece would have been
      closed there. */
  lemma NoBoundaryInsidePiece(content: string, j: nat, k: nat)
    requires |content| > CHUNK_MAX
    requires j < |LineGroups(content)| && 0 < k < |LineGroups(content)[j]|
    requires Counted(LineGroups(content)[j][..k]) >= CHUNK_TARGET
    ensures BoundaryScore(LineGroups(content)[j][k]) == 0
    ensures Counted(LineGroups(content)[j][..k]) < CHUNK_MAX
  {
    var g := LineGroups(content)[j];
    assert Cohesive(g, Splits);
    assert !Splits(g[..k], g[k]);
  }

  /** Between two pieces the split test held, so every piece but the last
      was closed because the next line overflowed it, or it reached the
      target and the next line is a boundary. */
  lemma PieceEndsAtSplit(content: string, j: nat)
    requires |content| > CHUNK_MAX
    requires j + 1 < |LineGroups(content)|
    ensures var gs := LineGroups(content);
            || Counted(gs[j]) + |gs[j + 1][0]| + 1 > CHUNK_MAX
            || (Counted(gs[j]) >= CHUNK_TARGET && BoundaryScore(gs[j + 1][0]) > 0)
  {
    var gs := LineGroups(content);
    assert Splits(gs[j], gs[j + 1][0]);
  }

  /** The state of the loop of `chunkContent` after it has seen the lines
      `seen`: the closed groups and the current one cover them, each closed
      group is cohesive and was closed at a split point, and the current
      group is cohesive and (when non-empty) began at a split point. */
  ghost predicate Partial(score: string -> nat, groups: seq<seq<string>>, current: seq<string>,
                          seen: seq<string>) {
    && Flatten(groups) + current == seen
    && (forall j :: 0 <= j < |groups| ==> groups[j] != [] && Cohesive(groups[j], SplitTest(score)))
    && (forall j :: 0 < j < |groups| ==> ClosesBefore(score, groups[j - 1], groups[j][0]))
    && Cohesive(current, SplitTest(score))
    && (groups != [] && current != [] ==> ClosesBefore(score, groups[|groups| - 1], current[0]))
  }

  /** Closing a non-empty current group keeps the state consistent. */
  lemma Flush(score: string -> nat, groups: seq<seq<string>>, current: seq<string>, seen: seq<string>)
    requires Partial(score, groups, current, seen) && current != []
    ensures Partial(score, groups + [current], [], seen)
    ensures JoinGroups(groups + [current]) == JoinGroups(groups) + [JoinWith(current, '\n')]
  {
    FlattenSnoc(groups, current);
    var gs := groups + [current];
    assert forall j :: 0 <= j < |groups| ==> gs[j] == groups[j];
  }

  /** Adding a line where no split is due (or, to an empty group, after a
      split) keeps the state consistent. */
  lemma Add(score: string -> nat, groups: seq<seq<string>>, current: seq<string>, seen: seq<string>,
            x: string)
    requires Partial(score, groups, current, seen)
    requires current != [] ==> !ClosesBefore(score, current, x)
    requires current == [] && groups != [] ==> ClosesBefore(score, groups[|groups| - 1], x)
    ensures Partial(score, groups, current + [x], seen + [x])
    ensures Counted(current + [x]) == Counted(current) + |x| + 1
  {
    CohesiveExtend(current, x, SplitTest(score));
    CountedSnoc(current, x);
  }

  /** Once all lines are seen and the last group is closed, the groups are
      the greedy partition of the lines. */
  lemma Finish(score: string -> nat, groups: seq<seq<string>>, lines: seq<string>)
    requires Partial(score, groups, [], lines)
    ensures groups == Greedy(lines, [], SplitTest(score))
  {
    assert IsGreedyPartition(groups, lines, SplitTest(score));
    GreedyPartitionUnique(groups, Greedy(lines, [], SplitTest(score)), lines, SplitTest(score));
  }

  /** The loop invariant of `chunkContent` before line `i`. */
  ghost predicate LoopState(lines: seq<string>, score: string -> nat, i: nat, chunks: seq<string>,
                            current: seq<string>, currentLen: nat, groups: seq<seq<string>>) {
    && i <= |lines|
    && currentLen == Counted(current)
    && Partial(score, groups, current, lines[..i])
    && (groups != [] && current == [] && i < |lines| ==> ClosesBefore(score, groups[|groups| - 1], lines[i]))
    && (current != [] && i < |lines| ==>
          !(currentLen >= CHUNK_TARGET && (score(lines[i]) > 0 || currentLen >= CHUNK_MAX)))
    && chunks == JoinGroups(groups)
  }

  /** The state of the loop body of `chunkContent` right after line `i - 1`
      was added to the current group. */
  ghost predicate AddedState(lines: seq<string>, score: string -> nat, i: nat, chunks: seq<string>,
                             current: seq<string>, currentLen: nat, groups: seq<seq<string>>) {
    && 0 < i <= |lines|
    && current != []
    && currentLen == Counted(current)
    && Partial(score, groups, current, lines[..i])
    && chunks == JoinGroups(groups)
  }

  /** One pass of the loop body of `chunkContent`, for line `i`. */
  method LoopStep(lines: seq<string>, score: string -> nat, i: nat, chunks0: seq<string>,
                  current0: seq<string>, currentLen0: nat, ghost groups0: seq<seq<string>>)
    returns (chunks: seq<string>, current: seq<string>, currentLen: nat, ghost groups: seq<seq<string>>)
    requires i < |lines|
    requires LoopState(lines, score, i, chunks0, current0, currentLen0, groups0)
    ensures LoopState(lines, score, i + 1, chunks, current, currentLen, groups)
  {
    chunks, current, currentLen, groups := AddLine(lines, score, i, chunks0, current0, currentLen0, groups0);
    chunks, current, currentLen, groups := CloseIfDue(lines, score, i + 1, chunks, current, currentLen, groups);
  }

  /** The first half of the loop body: close the current group when line `i`
      would overflow it, then add the line. */
  method AddLine(lines: seq<string>, score: string -> nat, i: nat, chunks0: seq<string>,
                 current0: seq<string>, currentLen0: nat, ghost groups0: seq<seq<string>>)
    returns (chunks: seq<string>, current: seq<string>, currentLen: nat, ghost groups: seq<seq<string>>)
    requires i < |lines|
    requires LoopState(lines, score, i, chunks0, current0, currentLen0, groups0)
    ensures AddedState(lines, score, i + 1, chunks, current, currentLen, groups)
  {
    chunks, current, currentLen, groups := chunks0, current0, currentLen0, groups0;
    var line := lines[i];
    var lineLen := |line| + 1;
    if currentLen + lineLen > CHUNK_MAX && |current| > 0 {
      Flush(score, groups, current, lines[..i]);
      chunks := chunks + [JoinWith(current, '\n')];
      groups := groups + [current];
      current := [];
      currentLen := 0;
    }
    Add(score, groups, current, lines[..i], line);
    PrefixSnoc(lines, i);
    current := current + [line];
    currentLen := currentLen + lineLen;
  }

  /** The second half of the loop body: close the current group when it
      has reached the target and the next line is a boundary, or when it
      has reached the maximum. */
  method CloseIfDue(lines: seq<string>, score: string -> nat, i: nat, chunks0: seq<string>,
                    current0: seq<string>, currentLen0: nat, ghost groups0: seq<seq<string>>)
    returns (chunks: seq<string>, current: seq<string>, currentLen: nat, ghost groups: seq<seq<string>>)
    requires AddedState(lines, score, i, chunks0, current0, currentLen0, groups0)
    ensures LoopState(lines, score, i, chunks, current, currentLen, groups)
  {
    chunks, current, currentLen, groups := chunks0, current0, currentLen0, groups0;
    if currentLen >= CHUNK_TARGET && i < |lines| {
      var s := score(lines[i]);
      if s > 0 || currentLen >= CHUNK_MAX {
        Flush(score, groups, current, lines[..i]);
        chunks := chunks + [JoinWith(current, '\n')];
        groups := groups + [current];
        current := [];
        currentLen := 0;
      }
    }
  }

  /** The loop of `chunkContent` over the lines of a long file, step by
      step as the source runs it, for a given way of scoring lines: a flush
      before adding a line that would overflow, and a flush after adding one
      when the target is reached and the next line is a boundary or the
      maximum is reached. */
  method GroupLoop(lines: seq<string>, score: string -> nat) returns (chunks: seq<string>)
    ensures chunks == JoinGroups(Greedy(lines, [], SplitTest(score)))
  {
    chunks := [];
    var current: seq<string> := [];
    var currentLen: nat := 0;
    ghost var groups: seq<seq<string>> := [];
    var i := 0;
    LoopStart(lines, score);
    while i < |lines|
      invariant LoopState(lines, score, i, chunks, current, currentLen, groups)
      decreases |lines| - i
    {
      chunks, current, currentLen, groups := LoopStep(lines, score, i, chunks, current, currentLen, groups);
      i := i + 1;
    }
    LoopEnd(lines, score, chunks, current, currentLen, groups);
    if |current| > 0 {
      chunks := chunks + [JoinWith(current, '\n')];
    }
  }

  lemma LoopStart(lines: seq<string>, score: string -> nat)
    ensures LoopState(lines, score, 0, [], [], 0, [])
  {
    assert lines[..0] == [];
    assert Flatten<string>([]) + [] == [];
  }

  /** After the last line, closing a non-empty current group yields the
      pieces of the greedy partition. */
  lemma LoopEnd(lines: seq<string>, score: string -> nat, chunks: seq<string>, current: seq<string>,
                currentLen: nat, groups: seq<seq<string>>)
    requires LoopState(lines, score, |lines|, chunks, current, currentLen, groups)
    ensures (if current != [] then chunks + [JoinWith(current, '\n')] else chunks)
            == JoinGroups(Greedy(lines, [], SplitTest(score)))
  {
    assert lines[..|lines|] == lines;
    if current != [] {
      Flush(score, groups, current, lines);
      Finish(score, groups + [current], lines);
    } else {
      Finish(score, groups, lines);
    }
  }

  /** `chunkContent` as the source writes it: the short-file case, then the
      loop over the lines, scoring them with `BoundaryScore`. */
  method ChunkContentLoop(content: string) returns (chunks: seq<string>)
    ensures chunks == ChunkContent(content)
  {
    if |content| <= CHUNK_MAX {
      return [content];
    }
    chunks := GroupLoop(SplitOn(content, '\n'), BoundaryScore);
  }

  // ---------------------------------------------------------------------
  // Chunking a list of files

  /** The chunks of one file: its pieces numbered from 0, each carrying the
      file's path and language. */
  function FileChunks(f: ParsedFile): (r: seq<FileChunk>)
    ensures |r| == |ChunkContent(f.content)|
    ensures forall k :: 0 <= k < |r| ==>
              r[k] == FileChunk(f.path, k, f.language, ChunkContent(f.content)[k])
  {
    var pieces := ChunkContent(f.content);
    seq(|pieces|, k requires 0 <= k < |pieces| => FileChunk(f.path, k, f.language, pieces[k]))
  }

  /** `chunkFiles`. */
  function ChunkFiles(files: seq<ParsedFile>): seq<FileChunk> {
    if files == [] then [] else FileChunks(files[0]) + ChunkFiles(files[1..])
  }

  /** There are as many chunks as the files have pieces together. */
  lemma {:induction false} ChunkFilesCount(files: seq<ParsedFile>)
    ensures |ChunkFiles(files)| == TotalPieces(files)
  {
    if files != [] {
      ChunkFilesCount(files[1..]);
    }
  }

  /** The number of pieces of all files. */
  function TotalPieces(files: seq<ParsedFile>): nat {
    if files == [] then 0 else |ChunkContent(files[0].content)| + TotalPieces(files[1..])
  }

  /** The number of chunks of the files before file `j`. */
  function Offset(files: seq<ParsedFile>, j: nat): nat
    requires j <= |files|
  {
    |ChunkFiles(files[..j])|
  }

  /** The chunks of each file, file by file. */
  function PieceTable(files: seq<ParsedFile>): (t: seq<seq<FileChunk>>)
    ensures |t| == |files| && forall i :: 0 <= i < |files| ==> t[i] == FileChunks(files[i])
  {
    seq(|files|, i requires 0 <= i < |files| => FileChunks(files[i]))
  }

  lemma {:induction false} ChunkFilesFlatten(files: seq<ParsedFile>)
    ensures ChunkFiles(files) == Flatten(PieceTable(files))
  {
    if files != [] {
      var t := PieceTable(files);
      assert t[1..] == PieceTable(files[1..]);
      ChunkFilesFlatten(files[1..]);
    }
  }

  /** The chunks of file `j` sit, in order and numbered from 0, right after
      those of the files before it. */
  lemma ChunkFilesLayout(files: seq<ParsedFile>, j: nat, k: nat)
    requires j < |files| && k < |ChunkContent(files[j].content)|
    ensures Offset(files, j) + k < |ChunkFiles(files)|
    ensures ChunkFiles(files)[Offset(files, j) + k]
            == FileChunk(files[j].path, k, files[j].language, ChunkContent(files[j].content)[k])
  {
    ChunkFilesAt(files, j, k);
  }

  /** The same, stated over each file's chunks. */
  lemma ChunkFilesAt(files: seq<ParsedFile>, j: nat, k: nat)
    requires j < |files| && k < |FileChunks(files[j])|
    ensures Offset(files, j) + k < |ChunkFiles(files)|
    ensures ChunkFiles(files)[Offset(files, j) + k] == FileChunks(files[j])[k]
  {
    var t := PieceTable(files);
    ChunkFilesFlatten(files);
    ChunkFilesFlatten(files[..j]);
    assert PieceTable(files[..j]) == t[..j];
    FlattenAt(t, j, k);
  }
}
