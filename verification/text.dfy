/** String operations of the JavaScript runtime that the services rely on:
    `trim`, `trimStart`, `toLowerCase`, `startsWith`, `endsWith`,
    `includes`, `split` and `join`, number-to-decimal conversion, and a
    fixed total order standing in for `localeCompare`. */
module Text {

  /** The characters matched by the regular-expression class `\s` and removed
      by `trim`/`trimStart`: ECMAScript WhiteSpace and LineTerminator. */
  predicate IsSpace(c: char) {
    || c == '\t' || c == '\n' || c == '\U{000B}' || c == '\U{000C}' || c == '\r'
    || c == ' ' || c == '\U{00A0}' || c == '\U{1680}'
    || ('\U{2000}' <= c <= '\U{200A}')
    || c == '\U{2028}' || c == '\U{2029}' || c == '\U{202F}' || c == '\U{205F}'
    || c == '\U{3000}' || c == '\U{FEFF}'
  }

  /** The characters not matched by the regular-expression `.` (line terminators). */
  predicate IsLineTerminator(c: char) {
    c == '\n' || c == '\r' || c == '\U{2028}' || c == '\U{2029}'
  }

  /** The regular-expression class `\w`, i.e. `[A-Za-z0-9_]`. */
  predicate IsWordChar(c: char) {
    ('a' <= c <= 'z') || ('A' <= c <= 'Z') || ('0' <= c <= '9') || c == '_'
  }

  predicate AllSpace(s: string) {
    forall i :: 0 <= i < |s| ==> IsSpace(s[i])
  }

  function LowerChar(c: char): char {
    if 'A' <= c <= 'Z' then (c as int + 32) as char else c
  }

  /** `toLowerCase`, restricted to the ASCII letters. */
  function Lower(s: string): (r: string)
    ensures |r| == |s|
    ensures forall i :: 0 <= i < |s| ==> r[i] == LowerChar(s[i])
  {
    if s == [] then [] else [LowerChar(s[0])] + Lower(s[1..])
  }

  lemma {:induction false} LowerConcat(a: string, b: string)
    ensures Lower(a + b) == Lower(a) + Lower(b)
    decreases |a|
  {
    if a == [] {
      assert a + b == b;
    } else {
      assert (a + b)[0] == a[0] && (a + b)[1..] == a[1..] + b;
      LowerConcat(a[1..], b);
    }
  }

  /** The first position at or after `i` that does not hold whitespace. */
  function SkipLeading(s: string, i: nat): (j: nat)
    requires i <= |s|
    ensures i <= j <= |s| && (j == |s| || !IsSpace(s[j]))
    ensures forall k :: i <= k < j ==> IsSpace(s[k])
    decreases |s| - i
  {
    if i < |s| && IsSpace(s[i]) then SkipLeading(s, i + 1) else i
  }

  /** The end of `s[lo..j]` once its trailing whitespace is dropped. */
  function SkipTrailing(s: string, lo: nat, j: nat): (e: nat)
    requires lo <= j <= |s|
    ensures lo <= e <= j && (e == lo || !IsSpace(s[e - 1]))
    ensures forall k :: e <= k < j ==> IsSpace(s[k])
  {
    if j > lo && IsSpace(s[j - 1]) then SkipTrailing(s, lo, j - 1) else j
  }

  /** `trimStart`: drops the leading whitespace and nothing else. */
  function TrimStart(s: string): (r: string)
    ensures |r| <= |s| && r == s[|s| - |r|..]
    ensures AllSpace(s[..|s| - |r|])
    ensures r == [] || !IsSpace(r[0])
  {
    s[SkipLeading(s, 0)..]
  }

  /** Trimming a string of whitespace leaves nothing. */
  lemma TrimStartOfSpace(s: string)
    requires AllSpace(s)
    ensures TrimStart(s) == []
  {
  }

  /** `trimEnd`: drops the trailing whitespace and nothing else. */
  function TrimEnd(s: string): (r: string)
    ensures |r| <= |s| && r == s[..|r|]
    ensures AllSpace(s[|r|..])
    ensures r == [] || !IsSpace(r[|r| - 1])
  {
    s[..SkipTrailing(s, 0, |s|)]
  }

  /** `trim`: the slice of `s` left after removing whitespace at both ends. */
  function Trim(s: string): (r: string)
    ensures var a := |s| - |TrimStart(s)|;
            && a + |r| <= |s| && r == s[a..a + |r|]
            && AllSpace(s[..a]) && AllSpace(s[a + |r|..])
    ensures r == [] || (!IsSpace(r[0]) && !IsSpace(r[|r| - 1]))
  {
    var a := SkipLeading(s, 0);
    s[a..SkipTrailing(s, a, |s|)]
  }

  /** A string is all whitespace exactly when trimming leaves nothing. */
  lemma {:induction false} TrimEmptyIffAllSpace(s: string)
    ensures Trim(s) == [] <==> AllSpace(s)
  {
    var t := TrimStart(s);
    if !AllSpace(s) {
      var i :| 0 <= i < |s| && !IsSpace(s[i]);
      assert i >= |s| - |t|;
      assert t != [] && !IsSpace(t[0]);
    }
  }

  /** A string without whitespace at either end is its own trim. */
  lemma TrimUnpadded(s: string)
    requires s == [] || (!IsSpace(s[0]) && !IsSpace(s[|s| - 1]))
    ensures Trim(s) == s
  {
    if s != [] {
      assert SkipLeading(s, 0) == 0;
      assert SkipTrailing(s, 0, |s|) == |s|;
    }
  }

  /** Trimming twice is trimming once. */
  lemma TrimIdempotent(s: string)
    ensures Trim(Trim(s)) == Trim(s)
  {
    TrimUnpadded(Trim(s));
  }

  predicate StartsWith(s: string, prefix: string) {
    |prefix| <= |s| && s[..|prefix|] == prefix
  }

  predicate EndsWith(s: string, suffix: string) {
    |suffix| <= |s| && s[|s| - |suffix|..] == suffix
  }

  predicate OccursAt(s: string, t: string, i: int) {
    0 <= i && i + |t| <= |s| && s[i..i + |t|] == t
  }

  /** `s.includes(t)`. */
  predicate Contains(s: string, t: string) {
    exists i | 0 <= i <= |s| - |t| :: OccursAt(s, t, i)
  }

  lemma ContainsWitness(s: string, t: string, i: int)
    requires OccursAt(s, t, i)
    ensures Contains(s, t)
  {
  }

  lemma {:induction false} ContainsSuffix(s: string, t: string)
    requires s != [] && Contains(s[1..], t)
    ensures Contains(s, t)
  {
    var i :| 0 <= i <= |s[1..]| - |t| && OccursAt(s[1..], t, i);
    assert s[i + 1..i + 1 + |t|] == s[1..][i..i + |t|];
    assert OccursAt(s, t, i + 1);
  }

  lemma {:induction false} ContainsNotAtStart(s: string, t: string)
    requires Contains(s, t) && !StartsWith(s, t)
    ensures s != [] && Contains(s[1..], t)
  {
    var i :| 0 <= i <= |s| - |t| && OccursAt(s, t, i);
    assert i != 0;
    assert s[1..][i - 1..i - 1 + |t|] == s[i..i + |t|];
    assert OccursAt(s[1..], t, i - 1);
  }

  /** `s.split(t).length - 1` for a non-empty separator `t`: the number of
      non-overlapping occurrences of `t` found scanning left to right. */
  function CountOccurrences(s: string, t: string): (r: nat)
    requires |t| > 0
    ensures r <= |s|
    ensures r > 0 <==> Contains(s, t)
    decreases |s|
  {
    if |s| < |t| then 0
    else if StartsWith(s, t) then
      assert OccursAt(s, t, 0);
      1 + CountOccurrences(s[|t|..], t)
    else
      ContainsSkip(s, t);
      CountOccurrences(s[1..], t)
  }

  /** The counted occurrences do not overlap, so laid end to end they fit in `s`. */
  lemma {:induction false} CountOccurrencesFit(s: string, t: string)
    requires |t| > 0
    ensures CountOccurrences(s, t) * |t| <= |s|
    decreases |s|
  {
    var n := CountOccurrences(s, t);
    if |s| < |t| {
      assert n == 0;
    } else if StartsWith(s, t) {
      var r := CountOccurrences(s[|t|..], t);
      CountOccurrencesFit(s[|t|..], t);
      assert n == 1 + r;
      MulSucc(r, |t|);
    } else {
      var r := CountOccurrences(s[1..], t);
      CountOccurrencesFit(s[1..], t);
      assert n == r;
    }
  }

  /** Positions of occurrences of `t` in `s`, no two of which overlap: each
      later position starts at or after the end of every earlier one. */
  ghost predicate DisjointOccurrences(s: string, t: string, ps: seq<int>) {
    && (forall i :: 0 <= i < |ps| ==> OccursAt(s, t, ps[i]))
    && (forall i, j :: 0 <= i < j < |ps| ==> ps[j] >= ps[i] + |t|)
  }

  /** Every position moved by `k`. */
  function ShiftAll(ps: seq<int>, k: int): (r: seq<int>)
    ensures |r| == |ps|
    ensures forall i :: 0 <= i < |ps| ==> r[i] == ps[i] + k
  {
    seq(|ps|, i requires 0 <= i < |ps| => ps[i] + k)
  }

  /** The occurrences the left-to-right scan of CountOccurrences counts. */
  function GreedyOccurrences(s: string, t: string): (ps: seq<int>)
    requires |t| > 0
    decreases |s|
  {
    if |s| < |t| then []
    else if StartsWith(s, t) then [0] + ShiftAll(GreedyOccurrences(s[|t|..], t), |t|)
    else ShiftAll(GreedyOccurrences(s[1..], t), 1)
  }

  /** Occurrences in a suffix of `s` are occurrences in `s`, moved by where
      the suffix starts. */
  lemma {:induction false} DisjointInSuffix(s: string, t: string, k: nat, ps: seq<int>)
    requires k <= |s| && DisjointOccurrences(s[k..], t, ps)
    ensures DisjointOccurrences(s, t, ShiftAll(ps, k))
  {
    var qs := ShiftAll(ps, k);
    forall i | 0 <= i < |qs|
      ensures OccursAt(s, t, qs[i])
    {
      assert OccursAt(s[k..], t, ps[i]);
      assert s[k..][ps[i]..ps[i] + |t|] == s[qs[i]..qs[i] + |t|];
    }
  }

  /** Occurrences in `s` at or after `k` are occurrences in `s[k..]`. */
  lemma {:induction false} DisjointFromSuffix(s: string, t: string, k: nat, ps: seq<int>)
    requires k <= |s| && DisjointOccurrences(s, t, ps)
    requires forall i :: 0 <= i < |ps| ==> ps[i] >= k
    ensures DisjointOccurrences(s[k..], t, ShiftAll(ps, -(k as int)))
  {
    var qs := ShiftAll(ps, -(k as int));
    forall i | 0 <= i < |qs|
      ensures OccursAt(s[k..], t, qs[i])
    {
      assert OccursAt(s, t, ps[i]);
      assert s[k..][qs[i]..qs[i] + |t|] == s[ps[i]..ps[i] + |t|];
    }
  }

  /** An occurrence at the start followed by non-overlapping occurrences
      in the rest of `s` are non-overlapping occurrences in `s`. */
  lemma {:induction false} DisjointCons(s: string, t: string, ps: seq<int>)
    requires OccursAt(s, t, 0) && DisjointOccurrences(s[|t|..], t, ps)
    ensures DisjointOccurrences(s, t, [0] + ShiftAll(ps, |t|))
  {
    DisjointInSuffix(s, t, |t|, ps);
    var moved := ShiftAll(ps, |t|);
    var qs := [0] + moved;
    forall i, j | 0 <= i < j < |qs|
      ensures qs[j] >= qs[i] + |t|
    {
      assert qs[j] == moved[j - 1];
      assert OccursAt(s[|t|..], t, ps[j - 1]);
      if i > 0 { assert qs[i] == moved[i - 1]; }
    }
    forall i | 0 <= i < |qs|
      ensures OccursAt(s, t, qs[i])
    {
      if i > 0 { assert qs[i] == moved[i - 1]; }
    }
  }

  /** The scan finds CountOccurrences(s, t) occurrences, and they do not
      overlap. */
  lemma {:induction false} GreedyIsDisjoint(s: string, t: string)
    requires |t| > 0
    ensures |GreedyOccurrences(s, t)| == CountOccurrences(s, t)
    ensures DisjointOccurrences(s, t, GreedyOccurrences(s, t))
    decreases |s|
  {
    if |s| < |t| {
    } else if StartsWith(s, t) {
      var rest := GreedyOccurrences(s[|t|..], t);
      GreedyIsDisjoint(s[|t|..], t);
      assert OccursAt(s, t, 0);
      DisjointCons(s, t, rest);
    } else {
      GreedyIsDisjoint(s[1..], t);
      DisjointInSuffix(s, t, 1, GreedyOccurrences(s[1..], t));
    }
  }

  /** Past the first of some non-overlapping occurrences, the others are
      non-overlapping occurrences that start after the first one ends. */
  lemma {:induction false} DisjointTail(s: string, t: string, ps: seq<int>)
    requires ps != [] && DisjointOccurrences(s, t, ps)
    ensures DisjointOccurrences(s, t, ps[1..])
    ensures forall i :: 0 <= i < |ps| - 1 ==> ps[1..][i] >= ps[0] + |t|
  {
    var rest := ps[1..];
    forall i | 0 <= i < |rest| ensures OccursAt(s, t, rest[i]) && rest[i] >= ps[0] + |t| {
      assert rest[i] == ps[i + 1];
    }
    forall i, j | 0 <= i < j < |rest| ensures rest[j] >= rest[i] + |t| {
      assert rest[i] == ps[i + 1] && rest[j] == ps[j + 1];
    }
  }

  /** When `t` does not start `s`, no occurrence is at position 0. */
  lemma {:induction false} DisjointPastStart(s: string, t: string, ps: seq<int>)
    requires !StartsWith(s, t) && DisjointOccurrences(s, t, ps)
    ensures forall i :: 0 <= i < |ps| ==> ps[i] >= 1
  {
    forall i | 0 <= i < |ps|
      ensures ps[i] >= 1
    {
      assert OccursAt(s, t, ps[i]);
      if ps[i] == 0 {
        assert false;
      }
    }
  }

  /** No choice of non-overlapping occurrences outnumbers the scan's count:
      CountOccurrences is the greatest number of non-overlapping
      occurrences of `t` in `s`. */
  lemma {:induction false} CountOccurrencesMaximal(s: string, t: string, ps: seq<int>)
    requires |t| > 0 && DisjointOccurrences(s, t, ps)
    ensures |ps| <= CountOccurrences(s, t)
    decreases |s|
  {
    if |s| < |t| {
      assert |ps| > 0 ==> OccursAt(s, t, ps[0]);
    } else if ps == [] {
    } else if StartsWith(s, t) {
      assert OccursAt(s, t, ps[0]);
      DisjointTail(s, t, ps);
      DisjointFromSuffix(s, t, |t|, ps[1..]);
      CountOccurrencesMaximal(s[|t|..], t, ShiftAll(ps[1..], -|t|));
    } else {
      DisjointPastStart(s, t, ps);
      DisjointFromSuffix(s, t, 1, ps);
      CountOccurrencesMaximal(s[1..], t, ShiftAll(ps, -1));
    }
  }

  /** Overlapping occurrences count once: "aa" fits twice in "aaaa", not
      three times. */
  lemma CountOccurrencesExample()
    ensures CountOccurrences("aaaa", "aa") == 2
  {
    var s := "aaaa";
    assert StartsWith(s, "aa");
    assert s[2..] == "aa";
    assert StartsWith(s[2..], "aa");
    assert s[2..][2..] == [];
  }

  lemma MulSucc(r: nat, k: nat)
    ensures (1 + r) * k == k + r * k
  {
  }

  /** Without an occurrence at the start, `t` occurs in `s` exactly when it
      occurs in the rest of `s`. */
  lemma ContainsSkip(s: string, t: string)
    requires s != [] && !StartsWith(s, t)
    ensures Contains(s, t) <==> Contains(s[1..], t)
  {
    if Contains(s[1..], t) { ContainsSuffix(s, t); }
    if Contains(s, t) { ContainsNotAtStart(s, t); }
  }

  /** The number of times character `c` appears in `s`. */
  function CountChar(s: string, c: char): nat {
    if s == [] then 0 else (if s[0] == c then 1 else 0) + CountChar(s[1..], c)
  }

  /** `parts.join(sep)` for a one-character separator. */
  function JoinWith(parts: seq<string>, sep: char): string {
    if |parts| == 0 then []
    else if |parts| == 1 then parts[0]
    else parts[0] + [sep] + JoinWith(parts[1..], sep)
  }

  /** `s.split(sep)` for a one-character separator: the fields between
      successive separators, so `""` gives `[""]`. */
  function SplitOn(s: string, sep: char): (r: seq<string>)
    ensures |r| > 0
    ensures forall k :: 0 <= k < |r| ==> sep !in r[k]
  {
    if s == [] then [[]]
    else
      var rest := SplitOn(s[1..], sep);
      if s[0] == sep then [[]] + rest
      else
        var r := [[s[0]] + rest[0]] + rest[1..];
        assert forall k :: 1 <= k < |r| ==> r[k] == rest[k];
        r
  }

  /** There is one field more than there are separators. */
  lemma {:induction false} SplitOnCount(s: string, sep: char)
    ensures |SplitOn(s, sep)| == CountChar(s, sep) + 1
    decreases |s|
  {
    if s != [] {
      SplitOnCount(s[1..], sep);
    }
  }

  /** Joining the fields back with the separator gives the text again. */
  lemma {:induction false} SplitOnJoin(s: string, sep: char)
    ensures JoinWith(SplitOn(s, sep), sep) == s
    decreases |s|
  {
    if s != [] {
      SplitOnStep(s, sep);
      SplitOnJoin(s[1..], sep);
      JoinPrependField(s[0], sep, SplitOn(s[1..], sep));
      assert s == [s[0]] + s[1..];
    }
  }

  /** Joining the fields of `[c] + s` gives `c` followed by the joined fields of `s`. */
  lemma JoinPrependField(c: char, sep: char, rest: seq<string>)
    requires |rest| > 0
    ensures JoinWith(PrependField(c, sep, rest), sep) == [c] + JoinWith(rest, sep)
  {
    if c == sep {
      assert ([[]] + rest)[1..] == rest;
    } else {
      var r := [[c] + rest[0]] + rest[1..];
      if |rest| > 1 {
        assert r[1..] == rest[1..];
        calc {
          JoinWith(r, sep);
          ([c] + rest[0]) + [sep] + JoinWith(rest[1..], sep);
          [c] + (rest[0] + [sep] + JoinWith(rest[1..], sep));
          [c] + JoinWith(rest, sep);
        }
      }
    }
  }

  /** A text without the separator is a single field. */
  lemma SplitOnNone(b: string, sep: char)
    requires sep !in b
    ensures SplitOn(b, sep) == [b]
  {
    var parts := SplitOn(b, sep);
    assert |parts| == 1 by {
      CountCharNone(b, sep);
      SplitOnCount(b, sep);
    }
    SplitOnJoin(b, sep);
  }

  lemma {:induction false} CountCharNone(s: string, c: char)
    requires c !in s
    ensures CountChar(s, c) == 0
    decreases |s|
  {
    if s != [] {
      assert c !in s[1..];
      CountCharNone(s[1..], c);
    }
  }

  /** One step of the split: a leading character that is not the
      separator joins the first field, and a separator opens a new one. */
  /** The fields of `[c] + s` from the fields `rest` of `s`. */
  function PrependField(c: char, sep: char, rest: seq<string>): seq<string>
    requires |rest| > 0
  {
    if c == sep then [[]] + rest else [[c] + rest[0]] + rest[1..]
  }

  lemma SplitOnStep(s: string, sep: char)
    requires s != []
    ensures SplitOn(s, sep) == PrependField(s[0], sep, SplitOn(s[1..], sep))
  {
  }

  /** Prepending a character only touches the first field. */
  lemma PrependFieldAppend(c: char, sep: char, ra: seq<string>, rb: seq<string>)
    requires |ra| > 0
    ensures PrependField(c, sep, ra + rb) == PrependField(c, sep, ra) + rb
  {
    assert (ra + rb)[0] == ra[0] && (ra + rb)[1..] == ra[1..] + rb;
    if c != sep {
      assert [[c] + ra[0]] + (ra[1..] + rb) == ([[c] + ra[0]] + ra[1..]) + rb;
    } else {
      assert [[]] + (ra + rb) == ([[]] + ra) + rb;
    }
  }

  /** Splitting at a separator splits each side independently. */
  lemma {:induction false} SplitOnConcat(a: string, b: string, sep: char)
    ensures SplitOn(a + [sep] + b, sep) == SplitOn(a, sep) + SplitOn(b, sep)
    decreases |a|
  {
    var s := a + [sep] + b;
    SplitOnStep(s, sep);
    if a == [] {
      assert s[0] == sep && s[1..] == b;
    } else {
      assert s[0] == a[0] && s[1..] == a[1..] + [sep] + b;
      SplitOnConcat(a[1..], b, sep);
      SplitOnStep(a, sep);
      PrependFieldAppend(a[0], sep, SplitOn(a[1..], sep), SplitOn(b, sep));
    }
  }

  /** Joining two non-empty runs of parts equals joining each run and the
      two results. */
  lemma {:induction false} JoinWithAppend(a: seq<string>, b: seq<string>, sep: char)
    requires |a| > 0 && |b| > 0
    ensures JoinWith(a + b, sep) == JoinWith(a, sep) + [sep] + JoinWith(b, sep)
    decreases |a|
  {
    if |a| == 1 {
      assert (a + b)[1..] == b;
    } else {
      assert (a + b)[1..] == a[1..] + b;
      JoinWithAppend(a[1..], b, sep);
    }
  }

  /** The number of characters in `JoinWith(parts, sep)`. */
  lemma {:induction false} JoinWithLength(parts: seq<string>, sep: char)
    requires |parts| > 0
    ensures |JoinWith(parts, sep)| + 1 == SumLengthsPlusOne(parts)
    decreases |parts|
  {
    if |parts| > 1 {
      JoinWithLength(parts[1..], sep);
    }
  }

  /** The sum over the parts of their length plus one. */
  function SumLengthsPlusOne(parts: seq<string>): nat {
    if parts == [] then 0 else |parts[0]| + 1 + SumLengthsPlusOne(parts[1..])
  }

  /** Lexicographic order on character codes: the fixed total order used in
      place of the locale-dependent `localeCompare`. */
  predicate Less(a: string, b: string) {
    if a == [] then b != []
    else if b == [] then false
    else a[0] < b[0] || (a[0] == b[0] && Less(a[1..], b[1..]))
  }

  lemma {:induction false} LessIrreflexive(a: string)
    ensures !Less(a, a)
  {
    if a != [] {
      LessIrreflexive(a[1..]);
    }
  }

  lemma {:induction false} LessTransitive(a: string, b: string, c: string)
    requires Less(a, b) && Less(b, c)
    ensures Less(a, c)
  {
    if a != [] && b != [] && c != [] && a[0] == b[0] && b[0] == c[0] {
      LessTransitive(a[1..], b[1..], c[1..]);
    }
  }

  lemma {:induction false} LessTotal(a: string, b: string)
    requires a != b
    ensures Less(a, b) || Less(b, a)
  {
    if a != [] && b != [] && a[0] == b[0] {
      assert a == [a[0]] + a[1..] && b == [b[0]] + b[1..];
      LessTotal(a[1..], b[1..]);
    }
  }

  function DigitChar(d: nat): char
    requires d < 10
  {
    ('0' as int + d) as char
  }

  /** Decimal rendering of a count, as in a template literal `${n}`. */
  function NatToString(n: nat): (r: string)
    ensures r != []
    ensures forall i :: 0 <= i < |r| ==> '0' <= r[i] <= '9'
  {
    if n < 10 then [DigitChar(n)] else NatToString(n / 10) + [DigitChar(n % 10)]
  }

  /** Reads back a string of decimal digits. */
  function DigitsValue(s: string): nat
    requires forall i :: 0 <= i < |s| ==> '0' <= s[i] <= '9'
  {
    if s == [] then 0 else 10 * DigitsValue(s[..|s| - 1]) + (s[|s| - 1] as int - '0' as int)
  }

  /** The decimal rendering loses no information. */
  lemma {:induction false} NatToStringRoundTrip(n: nat)
    ensures DigitsValue(NatToString(n)) == n
  {
    if n >= 10 {
      var r := NatToString(n);
      assert r[..|r| - 1] == NatToString(n / 10);
      NatToStringRoundTrip(n / 10);
    }
  }
}
