/** Answering a question about a stored repository
    (services/chatService.ts): keyword scoring of the stored chunks, the
    choice of the chunks sent as context, and the control flow around the
    generative backend, which is a parameter. */
module ChatService {
  import opened Wrappers
  import opened Text
  import opened Types
  import opened Sorting
  import RepoStore

  /** At most this many chunks are sent as context. */
  const MAX_CONTEXT_CHUNKS: nat := 30
  /** At most this many characters of chunk content are sent as context. */
  const MAX_CONTEXT_CHARS: nat := 60000
  /** This many chunks are taken even when they score nothing. */
  const MIN_CONTEXT_CHUNKS: nat := 5

  const COULD_NOT_GENERATE: string := "I could not generate an answer. Please try rephrasing your question."
  const UNABLE_TO_REACH: string := "I'm unable to reach the AI service right now. Please try again in a moment."

  // ---------------------------------------------------------------------
  // Tokenising

  /** The characters kept by `split(/[^a-z0-9_]+/)`. */
  predicate IsTokenChar(c: char) {
    ('a' <= c <= 'z') || ('0' <= c <= '9') || c == '_'
  }

  predicate AllTokenChars(w: string) {
    forall k :: 0 <= k < |w| ==> IsTokenChar(w[k])
  }

  /** The length of the run of token characters at the start of `s`. */
  function RunLength(s: string): (n: nat)
    ensures n <= |s| && (n == |s| || !IsTokenChar(s[n]))
    ensures forall k :: 0 <= k < n ==> IsTokenChar(s[k])
  {
    if s != [] && IsTokenChar(s[0]) then 1 + RunLength(s[1..]) else 0
  }

  /** The maximal runs of token characters, in order. */
  function Words(s: string): (r: seq<string>)
    ensures forall w :: w in r ==> w != [] && AllTokenChars(w)
    decreases |s|
  {
    if s == [] then []
    else if !IsTokenChar(s[0]) then Words(s[1..])
    else
      var n := RunLength(s);
      [s[..n]] + Words(s[n..])
  }

  /** The words of length at least two. */
  function LongWords(ws: seq<string>): (r: seq<string>)
    ensures forall w :: w in r ==> |w| >= 2 && w in ws
  {
    if ws == [] then []
    else
      var rest := LongWords(ws[1..]);
      assert forall w :: w in ws[1..] ==> w in ws;
      if |ws[0]| >= 2 then
        var r := [ws[0]] + rest;
        assert forall w :: w in r ==> w == ws[0] || w in rest;
        r
      else rest
  }

  lemma {:induction false} LongWordsAppend(a: seq<string>, b: seq<string>)
    ensures LongWords(a + b) == LongWords(a) + LongWords(b)
    decreases |a|
  {
    if a == [] {
      assert a + b == b;
    } else {
      assert (a + b)[0] == a[0] && (a + b)[1..] == a[1..] + b;
      LongWordsAppend(a[1..], b);
    }
  }

  /** `tokenise`: the runs of `[a-z0-9_]` of length at least two in the
      lower-cased text, in order, repetitions kept. */
  function Tokenise(text: string): (r: seq<string>)
    ensures forall w :: w in r ==> |w| >= 2 && AllTokenChars(w)
  {
    LongWords(Words(Lower(text)))
  }

  /** A separator splits the words. */
  lemma {:induction false} WordsSplit(a: string, sep: char, b: string)
    requires !IsTokenChar(sep)
    ensures Words(a + [sep] + b) == Words(a) + Words(b)
    decreases |a|
  {
    var s := a + [sep] + b;
    if a == [] {
      assert s == [sep] + b && s[1..] == b;
    } else if !IsTokenChar(a[0]) {
      assert s[1..] == a[1..] + [sep] + b;
      WordsSplit(a[1..], sep, b);
    } else {
      var n := RunLength(s);
      var m := RunLength(a);
      RunLengthPrefix(a, [sep] + b);
      assert s == a + ([sep] + b);
      assert n == m;
      assert s[..n] == a[..m];
      assert s[n..] == a[m..] + [sep] + b;
      WordsSplit(a[m..], sep, b);
    }
  }

  /** A run that ends inside `a` is the same in `a + rest` when `rest`
      starts with a separator. */
  lemma {:induction false} RunLengthPrefix(a: string, rest: string)
    requires rest != [] && !IsTokenChar(rest[0])
    ensures RunLength(a + rest) == RunLength(a)
    decreases |a|
  {
    if a != [] && IsTokenChar(a[0]) {
      assert (a + rest)[1..] == a[1..] + rest;
      RunLengthPrefix(a[1..], rest);
    } else if a == [] {
      assert a + rest == rest;
    }
  }

  /** A character that is not a token character after lower-casing splits
      the tokens: `tokenise` is determined by this law and `TokeniseWord`. */
  lemma TokeniseSplit(a: string, sep: char, b: string)
    requires !IsTokenChar(LowerChar(sep))
    ensures Tokenise(a + [sep] + b) == Tokenise(a) + Tokenise(b)
  {
    LowerConcat(a + [sep], b);
    LowerConcat(a, [sep]);
    assert Lower([sep]) == [LowerChar(sep)];
    WordsSplit(Lower(a), LowerChar(sep), Lower(b));
    LongWordsAppend(Words(Lower(a)), Words(Lower(b)));
  }

  /** A text of token characters (after lower-casing) is one token if it
      has at least two characters, and none otherwise. */
  lemma TokeniseWord(w: string)
    requires w != [] && AllTokenChars(Lower(w))
    ensures Tokenise(w) == if |w| >= 2 then [Lower(w)] else []
  {
    WordsOfRun(Lower(w));
    LongWordsSingle(Lower(w));
  }

  lemma WordsOfRun(l: string)
    requires l != [] && AllTokenChars(l)
    ensures Words(l) == [l]
  {
    RunLengthAll(l);
    assert l[..|l|] == l;
    var none: string := [];
    assert l[|l|..] == none && Words(none) == [];
  }

  lemma LongWordsSingle(w: string)
    ensures LongWords([w]) == if |w| >= 2 then [w] else []
  {
    var none: seq<string> := [];
    assert [w][1..] == none && LongWords(none) == none;
  }

  lemma {:induction false} RunLengthAll(s: string)
    requires AllTokenChars(s)
    ensures RunLength(s) == |s|
    decreases |s|
  {
    if s != [] {
      RunLengthAll(s[1..]);
    }
  }

  // ---------------------------------------------------------------------
  // Scoring

  /** One token's contribution: its non-overlapping occurrences in the
      content, at most 5, and 3 more if it occurs in the path. */
  function TokenScore(token: string, lowerContent: string, lowerPath: string): (r: nat)
    requires token != []
    ensures r <= 8
    ensures r == 0 <==> !Contains(lowerContent, token) && !Contains(lowerPath, token)
  {
    var matches := CountOccurrences(lowerContent, token);
    (if matches < 5 then matches else 5) + (if Contains(lowerPath, token) then 3 else 0)
  }

  function TokensScore(tokens: seq<string>, lowerContent: string, lowerPath: string): (r: nat)
    requires forall k :: 0 <= k < |tokens| ==> tokens[k] != []
    ensures r <= 8 * |tokens|
    ensures r == 0 <==> forall k :: 0 <= k < |tokens| ==>
                          !Contains(lowerContent, tokens[k]) && !Contains(lowerPath, tokens[k])
  {
    if tokens == [] then 0
    else TokenScore(tokens[0], lowerContent, lowerPath) + TokensScore(tokens[1..], lowerContent, lowerPath)
  }

  /** Whether the whole query, trimmed, earns the phrase bonus. */
  predicate PhraseBonus(content: string, rawQuery: string) {
    var q := Trim(Lower(rawQuery));
    |q| > 3 && Contains(Lower(content), q)
  }

  /** `scoreChunk`. */
  function ScoreChunk(chunk: FileChunk, queryTokens: seq<string>, rawQuery: string): (r: nat)
    requires forall k :: 0 <= k < |queryTokens| ==> queryTokens[k] != []
    ensures r <= 8 * |queryTokens| + 10
    ensures PhraseBonus(chunk.content, rawQuery) ==> r >= 10
    ensures r == 0 <==>
              && !PhraseBonus(chunk.content, rawQuery)
              && forall k :: 0 <= k < |queryTokens| ==>
                   !Contains(Lower(chunk.content), queryTokens[k]) && !Contains(Lower(chunk.filePath), queryTokens[k])
  {
    TokensScore(queryTokens, Lower(chunk.content), Lower(chunk.filePath))
      + (if PhraseBonus(chunk.content, rawQuery) then 10 else 0)
  }

  // ---------------------------------------------------------------------
  // Ordering

  /** A chunk with its score and its position in the stored order. */
  datatype Scored = Scored(chunk: FileChunk, score: nat, pos: nat)

  /** The sort comparison: higher score first, then path order, then (as the
      sort is stable) stored order. */
  predicate Before(a: Scored, b: Scored) {
    || a.score > b.score
    || (a.score == b.score && Less(a.chunk.filePath, b.chunk.filePath))
    || (a.score == b.score && a.chunk.filePath == b.chunk.filePath && a.pos < b.pos)
  }

  lemma BeforeTransitive(a: Scored, b: Scored, c: Scored)
    requires Before(a, b) && Before(b, c)
    ensures Before(a, c)
  {
    if a.score == b.score == c.score {
      var p, q, r := a.chunk.filePath, b.chunk.filePath, c.chunk.filePath;
      if Less(p, q) && Less(q, r) {
        LessTransitive(p, q, r);
      }
    }
  }

  /** The score of every chunk against one question. */
  function Scorer(question: string): FileChunk -> nat {
    c => ScoreChunk(c, Tokenise(question), question)
  }

  /** Every chunk scored, tagged with its position. */
  function ScoreAll(chunks: seq<FileChunk>, score: FileChunk -> nat): (r: seq<Scored>)
    ensures |r| == |chunks|
    ensures forall i :: 0 <= i < |chunks| ==> r[i] == Scored(chunks[i], score(chunks[i]), i)
  {
    seq(|chunks|, i requires 0 <= i < |chunks| => Scored(chunks[i], score(chunks[i]), i))
  }

  lemma ScoredOrder(s: seq<Scored>)
    requires forall i :: 0 <= i < |s| ==> s[i].pos == i
    ensures Distinct(s) && StrictTotalOn(Before, s)
  {
    forall a | a in s ensures !Before(a, a) {
      LessIrreflexive(a.chunk.filePath);
    }
    forall a, b, c | a in s && b in s && c in s && Before(a, b) && Before(b, c) ensures Before(a, c) {
      BeforeTransitive(a, b, c);
    }
    forall a, b | a in s && b in s && a != b ensures Before(a, b) || Before(b, a) {
      if a.score == b.score && a.chunk.filePath != b.chunk.filePath {
        LessTotal(a.chunk.filePath, b.chunk.filePath);
      }
    }
  }

  /** The scored chunks in the order of the sort in `selectRelevantChunks`. */
  function RankBy(chunks: seq<FileChunk>, score: FileChunk -> nat): (r: seq<Scored>)
    ensures |r| == |chunks|
    ensures multiset(r) == multiset(ScoreAll(chunks, score))
    ensures SortedBy(r, Before)
  {
    var scored := ScoreAll(chunks, score);
    ScoredOrder(scored);
    var r := Sort(scored, Before);
    assert |r| == |multiset(r)| == |scored|;
    r
  }

  function Ranked(chunks: seq<FileChunk>, question: string): (r: seq<Scored>)
    ensures |r| == |chunks|
  {
    RankBy(chunks, Scorer(question))
  }

  /** Every ranked entry is a stored chunk with its score. */
  lemma RankedMembers(chunks: seq<FileChunk>, question: string)
    ensures forall x :: x in Ranked(chunks, question) ==>
              x.chunk in chunks && x.score == ScoreChunk(x.chunk, Tokenise(question), question)
  {
    var scored := ScoreAll(chunks, Scorer(question));
    forall x | x in Ranked(chunks, question)
      ensures x.chunk in chunks && x.score == ScoreChunk(x.chunk, Tokenise(question), question)
    {
      assert x in multiset(scored);
      var i :| 0 <= i < |chunks| && scored[i] == x;
    }
  }

  // ---------------------------------------------------------------------
  // Selection

  function ContentChars(cs: seq<FileChunk>): nat {
    if cs == [] then 0 else |cs[0].content| + ContentChars(cs[1..])
  }

  lemma {:induction false} ContentCharsSnoc(cs: seq<FileChunk>, c: FileChunk)
    ensures ContentChars(cs + [c]) == ContentChars(cs) + |c.content|
    decreases |cs|
  {
    if cs != [] {
      assert (cs + [c])[1..] == cs[1..] + [c];
      ContentCharsSnoc(cs[1..], c);
    }
  }

  function ChunksOf(s: seq<Scored>): (r: seq<FileChunk>)
    ensures |r| == |s| && forall k :: 0 <= k < |s| ==> r[k] == s[k].chunk
  {
    seq(|s|, k requires 0 <= k < |s| => s[k].chunk)
  }

  /** Whether the loop, having taken `count` chunks of `chars` characters,
      goes on to take `next`. */
  predicate Admits(count: nat, chars: nat, next: Scored) {
    && count < MAX_CONTEXT_CHUNKS
    && chars + |next.chunk.content| <= MAX_CONTEXT_CHARS
    && (next.score != 0 || count < MIN_CONTEXT_CHUNKS)
  }

  /** The loop of `selectRelevantChunks` from `count` chunks and `chars`
      characters on: it takes ranked chunks while they are admitted and
      stops at the first one that is not. */
  function TakeAdmitted(s: seq<Scored>, count: nat, chars: nat): (r: seq<FileChunk>)
    ensures |r| <= |s| && r == ChunksOf(s[..|r|])
    decreases |s|
  {
    if s == [] || !Admits(count, chars, s[0]) then []
    else
      var r := [s[0].chunk] + TakeAdmitted(s[1..], count + 1, chars + |s[0].chunk.content|);
      assert r == ChunksOf(s[..|r|]);
      r
  }

  /** Every chunk taken was admitted, given what was taken before it. */
  lemma {:induction false} TakeAdmittedAdmits(s: seq<Scored>, count: nat, chars: nat, k: nat)
    requires k < |TakeAdmitted(s, count, chars)|
    ensures var r := TakeAdmitted(s, count, chars);
            Admits(count + k, chars + ContentChars(r[..k]), s[k])
    decreases k
  {
    var r := TakeAdmitted(s, count, chars);
    var rest := TakeAdmitted(s[1..], count + 1, chars + |s[0].chunk.content|);
    assert r == [s[0].chunk] + rest;
    if k == 0 {
      assert r[..0] == [];
    } else {
      TakeAdmittedAdmits(s[1..], count + 1, chars + |s[0].chunk.content|, k - 1);
      assert r[..k][1..] == rest[..k - 1];
      assert s[k] == s[1..][k - 1];
    }
  }

  /** The loop stops only at a chunk that is not admitted. */
  lemma {:induction false} TakeAdmittedStops(s: seq<Scored>, count: nat, chars: nat)
    ensures var r := TakeAdmitted(s, count, chars);
            |r| < |s| ==> !Admits(count + |r|, chars + ContentChars(r), s[|r|])
    decreases |s|
  {
    var r := TakeAdmitted(s, count, chars);
    if s != [] && Admits(count, chars, s[0]) {
      var rest := TakeAdmitted(s[1..], count + 1, chars + |s[0].chunk.content|);
      assert r == [s[0].chunk] + rest;
      TakeAdmittedStops(s[1..], count + 1, chars + |s[0].chunk.content|);
      assert r[1..] == rest;
      if |r| < |s| { assert s[|r|] == s[1..][|rest|]; }
    } else {
      assert r == [];
    }
  }

  /** `selectRelevantChunks`. */
  function SelectRelevantChunks(chunks: seq<FileChunk>, question: string): (r: seq<FileChunk>)
    ensures |r| <= |chunks| && r == ChunksOf(Ranked(chunks, question)[..|r|])
  {
    TakeAdmitted(Ranked(chunks, question), 0, 0)
  }

  /** What the loop takes from any ranked sequence: at most 30 chunks,
      at most 60000 characters, a zero-scoring chunk only among the first
      five. */
  lemma {:induction false} TakeBounds(s: seq<Scored>)
    ensures var r := TakeAdmitted(s, 0, 0);
            && |r| <= MAX_CONTEXT_CHUNKS
            && ContentChars(r) <= MAX_CONTEXT_CHARS
            && forall k :: 0 <= k < |r| && s[k].score == 0 ==> k < MIN_CONTEXT_CHUNKS
  {
    var r := TakeAdmitted(s, 0, 0);
    if r != [] {
      var last := |r| - 1;
      TakeAdmittedAdmits(s, 0, 0, last);
      assert r[..last] + [r[last]] == r;
      ContentCharsSnoc(r[..last], r[last]);
    }
    forall k | 0 <= k < |r| && s[k].score == 0 ensures k < MIN_CONTEXT_CHUNKS {
      TakeAdmittedAdmits(s, 0, 0, k);
    }
  }

  /** At most 30 chunks and 60000 characters are chosen, and a chunk that
      scores nothing only among the first five. */
  lemma SelectionBounds(chunks: seq<FileChunk>, question: string)
    ensures var r := SelectRelevantChunks(chunks, question);
            && |r| <= MAX_CONTEXT_CHUNKS
            && ContentChars(r) <= MAX_CONTEXT_CHARS
            && forall k :: 0 <= k < |r| && Ranked(chunks, question)[k].score == 0 ==> k < MIN_CONTEXT_CHUNKS
  {
    TakeBounds(Ranked(chunks, question));
  }

  /** From chunks of at most 12000 characters the loop takes at least five,
      or all there are. */
  lemma {:induction false} TakeMinimum(s: seq<Scored>)
    requires forall x :: x in s ==> |x.chunk.content| <= MAX_CONTEXT_CHARS / MIN_CONTEXT_CHUNKS
    ensures |TakeAdmitted(s, 0, 0)| >= if |s| < 5 then |s| else 5
  {
    var r := TakeAdmitted(s, 0, 0);
    if |r| < |s| && |r| < 5 {
      assert forall i :: 0 <= i < |r| ==> r[i] == s[i].chunk && s[i] in s;
      ChunksBounded(r, |r|);
      assert s[|r|] in s;
      assert Admits(|r|, ContentChars(r), s[|r|]);
      TakeAdmittedStops(s, 0, 0);
      assert false;
    }
  }

  /** When no stored chunk exceeds 12000 characters, at least five chunks
      (or all there are) are chosen, whatever their scores. */
  lemma SelectionMinimum(chunks: seq<FileChunk>, question: string)
    requires forall c :: c in chunks ==> |c.content| <= MAX_CONTEXT_CHARS / MIN_CONTEXT_CHUNKS
    ensures |SelectRelevantChunks(chunks, question)| >= if |chunks| < 5 then |chunks| else 5
  {
    RankedMembers(chunks, question);
    TakeMinimum(Ranked(chunks, question));
  }

  /** `k` chunks of at most 12000 characters hold at most 12000·k. */
  lemma {:induction false} ChunksBounded(r: seq<FileChunk>, k: nat)
    requires |r| == k && forall i :: 0 <= i < |r| ==> |r[i].content| <= MAX_CONTEXT_CHARS / MIN_CONTEXT_CHUNKS
    ensures ContentChars(r) <= k * (MAX_CONTEXT_CHARS / MIN_CONTEXT_CHUNKS)
    decreases k
  {
    if k > 0 {
      ChunksBounded(r[1..], k - 1);
    }
  }

  /** The loop takes exactly the longest prefix whose every chunk is
      admitted. */
  lemma {:induction false} TakeLongest(s: seq<Scored>, n: nat)
    requires n <= |s|
    requires forall k :: 0 <= k < n ==> Admits(k, ContentChars(ChunksOf(s[..k])), s[k])
    requires n < |s| ==> !Admits(n, ContentChars(ChunksOf(s[..n])), s[n])
    ensures |TakeAdmitted(s, 0, 0)| == n
  {
    var r := TakeAdmitted(s, 0, 0);
    if |r| < n {
      assert Admits(|r|, ContentChars(r), s[|r|]);
      TakeAdmittedStops(s, 0, 0);
      assert false;
    } else if n < |r| {
      assert r[..n] == ChunksOf(s[..n]) by {
        assert s[..n] == s[..|r|][..n];
      }
      TakeAdmittedAdmits(s, 0, 0, n);
      assert false;
    }
  }

  /** The selection is determined by the ranking alone: it is the longest
      prefix of the ranked chunks each of which is admitted. */
  lemma SelectionIsLongestAdmittedPrefix(chunks: seq<FileChunk>, question: string, n: nat)
    requires n <= |chunks|
    requires var s := Ranked(chunks, question);
             && (forall k :: 0 <= k < n ==> Admits(k, ContentChars(ChunksOf(s[..k])), s[k]))
             && (n < |s| ==> !Admits(n, ContentChars(ChunksOf(s[..n])), s[n]))
    ensures |SelectRelevantChunks(chunks, question)| == n
  {
    TakeLongest(Ranked(chunks, question), n);
  }

  // ---------------------------------------------------------------------
  // Answering

  /** The message of the error thrown for an unknown or expired id. */
  function NotFoundMessage(repoId: string): (m: string)
    ensures Contains(m, "not found")
  {
    var head := "Repository " + repoId + " ";
    var phrase := "not found";
    var tail := phrase + ". It may have expired. Please re-upload.";
    var m := head + tail;
    assert tail[..|phrase|] == phrase;
    assert m[|head|..|head| + |phrase|] == tail[..|phrase|];
    ContainsWitness(m, "not found", |head|);
    m
  }

  /** The answer made of the backend's reply: its trimmed text, a fixed
      apology when that is empty, another when the call threw. */
  function AnswerOf(reply: Reply): (a: string)
    ensures reply.Threw? ==> a == UNABLE_TO_REACH
    ensures reply.Answered? && Trim(reply.text) != [] ==> a == Trim(reply.text)
    ensures reply.Answered? && AllSpace(reply.text) ==> a == COULD_NOT_GENERATE
  {
    match reply
    case Threw => UNABLE_TO_REACH
    case Answered(text) =>
      TrimEmptyIffAllSpace(text);
      var t := Trim(text);
      if t == [] then COULD_NOT_GENERATE else t
  }

  /** `askQuestion`: look the chunks up (which may delete an expired
      entry), choose the context, and ask the backend, which sees the
      question and the chosen chunks. */
  function AskQuestion(store: RepoStore.Store, now: int, repoId: string, question: string,
                       backend: (string, seq<FileChunk>) -> Reply): (r: (Result<ChatResponse>, RepoStore.Store))
    ensures r.1 == RepoStore.GetChunks(store, now, repoId).store
    ensures RepoStore.GetChunks(store, now, repoId).value.None? <==> r.0.Failure?
    ensures r.0.Failure? ==> Contains(r.0.error, "not found")
    ensures r.0.Success? ==>
              var chunks := RepoStore.GetChunks(store, now, repoId).value.value;
              var relevant := SelectRelevantChunks(chunks, question);
              && r.0.value.repoId == repoId
              && r.0.value.question == question
              && r.0.value.chunksUsed == |relevant|
              && r.0.value.answer == AnswerOf(backend(question, relevant))
  {
    var read := RepoStore.GetChunks(store, now, repoId);
    match read.value
    case None => (Failure(NotFoundMessage(repoId)), read.store)
    case Some(chunks) =>
      var relevant := SelectRelevantChunks(chunks, question);
      var answer := AnswerOf(backend(question, relevant));
      (Success(ChatResponse(repoId, question, answer, |relevant|)), read.store)
  }
}
