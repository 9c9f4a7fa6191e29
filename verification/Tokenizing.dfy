// What repeated strtok calls compute on a text, and the ways of reading the result:
// maximal delimiter-free runs, and non-empty fields.
//
// Positions stay relative to the original text. strtok only ever overwrites delimiters
// it has already passed, so the text to the right of the hidden pointer is the original.
module Tokenizing {
  datatype Option<+T> = None | Some(value: T)

  // The token s[start..end].
  datatype Run = Run(start: nat, end: nat)

  ghost predicate Free(s: string, d: set<char>) {
    forall i | 0 <= i < |s| :: s[i] !in d
  }

  // Skipping leading delimiters, from position i
  function SkipFrom(s: string, d: set<char>, i: nat): (k: nat)
    requires i <= |s|
    ensures i <= k <= |s|
    ensures k < |s| ==> s[k] !in d
    decreases |s| - i
  {
    if i == |s| || s[i] !in d then i else SkipFrom(s, d, i + 1)
  }

  // Scanning to the next delimiter, from position i
  function SpanFrom(s: string, d: set<char>, i: nat): (k: nat)
    requires i <= |s|
    ensures i <= k <= |s|
    ensures k < |s| ==> s[k] in d
    decreases |s| - i
  {
    if i == |s| || s[i] in d then i else SpanFrom(s, d, i + 1)
  }

  // One strtok call with the hidden pointer at position i.
  function Next(s: string, d: set<char>, i: nat): (r: Option<Run>)
    requires i <= |s|
    ensures r.Some? ==> i <= r.value.start < r.value.end <= |s|
  {
    var k := SkipFrom(s, d, i);
    if k == |s| then None else Some(Run(k, SpanFrom(s, d, k)))
  }

  // Where that call leaves the hidden pointer; None is the null pointer.
  function After(s: string, r: Option<Run>): (p: Option<nat>)
    requires r.Some? ==> r.value.end <= |s|
    ensures p.Some? ==> p.value <= |s|
  {
    if r.None? || r.value.end == |s| then None else Some(r.value.end + 1)
  }

  function NextOf(s: string, d: set<char>, p: Option<nat>): (r: Option<Run>)
    requires p.Some? ==> p.value <= |s|
    ensures r.Some? ==> r.value.start < r.value.end <= |s|
  {
    if p.None? then None else Next(s, d, p.value)
  }

  // Where the tokens found from position i on lie, and the tokens themselves.
  function RunsFrom(s: string, d: set<char>, i: nat): (rs: seq<Run>)
    requires i <= |s|
    decreases |s| - i
  {
    var k := SkipFrom(s, d, i);
    if k == |s| then []
    else
      var e := SpanFrom(s, d, k);
      if e == |s| then [Run(k, e)] else [Run(k, e)] + RunsFrom(s, d, e + 1)
  }

  function TokensFrom(s: string, d: set<char>, i: nat): seq<string>
    requires i <= |s|
    decreases |s| - i
  {
    var k := SkipFrom(s, d, i);
    if k == |s| then []
    else
      var e := SpanFrom(s, d, k);
      if e == |s| then [s[k..e]] else [s[k..e]] + TokensFrom(s, d, e + 1)
  }

  function Tokens(s: string, d: set<char>): seq<string> {
    TokensFrom(s, d, 0)
  }

  function TokensOf(s: string, d: set<char>, p: Option<nat>): seq<string>
    requires p.Some? ==> p.value <= |s|
  {
    if p.None? then [] else TokensFrom(s, d, p.value)
  }

  ghost predicate CutBy(ts: seq<string>, s: string, runs: seq<Run>) {
    && |ts| == |runs|
    && forall j | 0 <= j < |ts| :: runs[j].start <= runs[j].end <= |s| && ts[j] == s[runs[j].start..runs[j].end]
  }

  lemma {:induction false} ScansPass(s: string, d: set<char>, i: nat)
    requires i <= |s|
    ensures forall j | i <= j < SkipFrom(s, d, i) :: s[j] in d
    ensures forall j | i <= j < SpanFrom(s, d, i) :: s[j] !in d
    decreases |s| - i
  {
    if i == |s| {
    } else {
      ScansPass(s, d, i + 1);
    }
  }

  lemma {:induction false} SkipFromIs(s: string, d: set<char>, i: nat, k: nat)
    requires i <= k <= |s| && (forall j | i <= j < k :: s[j] in d) && (k < |s| ==> s[k] !in d)
    ensures SkipFrom(s, d, i) == k
    decreases k - i
  {
    if i == k {
    } else {
      SkipFromIs(s, d, i + 1, k);
    }
  }

  lemma {:induction false} SpanFromIs(s: string, d: set<char>, i: nat, k: nat)
    requires i <= k <= |s| && (forall j | i <= j < k :: s[j] !in d) && (k < |s| ==> s[k] in d)
    ensures SpanFrom(s, d, i) == k
    decreases k - i
  {
    if i == k {
    } else {
      SpanFromIs(s, d, i + 1, k);
    }
  }

  // One strtok call, by where its delimiters and its token lie: from the places to the run ...
  lemma NextIs(s: string, d: set<char>, i: nat, k: nat, e: nat)
    requires i <= k < e <= |s| && (forall j | i <= j < k :: s[j] in d) && (forall j | k <= j < e :: s[j] !in d)
    requires e < |s| ==> s[e] in d
    ensures Next(s, d, i) == Some(Run(k, e))
  {
    SkipFromIs(s, d, i, k);
    SpanFromIs(s, d, k, e);
  }

  // ... and back.
  lemma NextPlaces(s: string, d: set<char>, i: nat, r: Run)
    requires i <= |s| && Next(s, d, i) == Some(r)
    ensures i <= r.start < r.end <= |s|
    ensures (forall j | i <= j < r.start :: s[j] in d) && (forall j | r.start <= j < r.end :: s[j] !in d)
    ensures r.end < |s| ==> s[r.end] in d
  {
    ScansPass(s, d, i);
    ScansPass(s, d, r.start);
  }

  // ---- Reading 1: maximal delimiter-free runs -------------------------------

  // s[r.start..r.end] is delimiter-free and cannot be extended on either side.
  ghost predicate IsMaximalRun(s: string, d: set<char>, r: Run) {
    && r.start < r.end <= |s|
    && (forall i | r.start <= i < r.end :: s[i] !in d)
    && (r.start == 0 || s[r.start - 1] in d)
    && (r.end == |s| || s[r.end] in d)
  }

  lemma {:induction false} RunsFromSound(s: string, d: set<char>, i: nat)
    requires i <= |s| && (i == 0 || s[i - 1] in d)
    ensures forall r <- RunsFrom(s, d, i) :: i <= r.start && IsMaximalRun(s, d, r)
    decreases |s| - i
  {
    hide SkipFrom, SpanFrom, IsMaximalRun;
    var k := SkipFrom(s, d, i);
    if k == |s| {
    } else {
      var e := SpanFrom(s, d, k);
      FirstRun(s, d, i);
      if e < |s| { RunsFromSound(s, d, e + 1); }
    }
  }

  lemma FirstRun(s: string, d: set<char>, i: nat)
    requires i <= |s| && (i == 0 || s[i - 1] in d) && SkipFrom(s, d, i) < |s|
    ensures var k := SkipFrom(s, d, i);
            IsMaximalRun(s, d, Run(k, SpanFrom(s, d, k)))
  {
    var k := SkipFrom(s, d, i);
    ScansPass(s, d, i);
    ScansPass(s, d, k);
  }

  lemma {:induction false} RunsFromOrdered(s: string, d: set<char>, i: nat)
    requires i <= |s|
    ensures forall r <- RunsFrom(s, d, i) :: i <= r.start
    ensures forall j, k | 0 <= j < k < |RunsFrom(s, d, i)| :: RunsFrom(s, d, i)[j].end < RunsFrom(s, d, i)[k].start
    decreases |s| - i
  {
    var k := SkipFrom(s, d, i);
    if k == |s| || SpanFrom(s, d, k) == |s| {
    } else {
      RunsFromOrdered(s, d, SpanFrom(s, d, k) + 1);
    }
  }

  lemma {:induction false} RunsFromComplete(s: string, d: set<char>, i: nat, r: Run)
    requires i <= r.start && IsMaximalRun(s, d, r)
    ensures r in RunsFrom(s, d, i)
    decreases |s| - i
  {
    var k := SkipFrom(s, d, i);
    var e := SpanFrom(s, d, k);
    ScansPass(s, d, i);
    ScansPass(s, d, k);
    assert s[r.start] !in d;
    if r.start > e {
      RunsFromComplete(s, d, e + 1, r);
    } else {
      assert r == Run(k, e);
    }
  }

  lemma {:induction false} TokensAreCut(s: string, d: set<char>, i: nat)
    requires i <= |s|
    ensures CutBy(TokensFrom(s, d, i), s, RunsFrom(s, d, i))
    decreases |s| - i
  {
    var k := SkipFrom(s, d, i);
    if k == |s| || SpanFrom(s, d, k) == |s| {
    } else {
      TokensAreCut(s, d, SpanFrom(s, d, k) + 1);
    }
  }

  // The tokens are exactly the maximal delimiter-free runs of the text, each once and in order.
  lemma TokensAreMaximalRuns(s: string, d: set<char>) returns (runs: seq<Run>)
    ensures forall r :: r in runs <==> IsMaximalRun(s, d, r)
    ensures forall j, k | 0 <= j < k < |runs| :: runs[j].end < runs[k].start
    ensures CutBy(Tokens(s, d), s, runs)
  {
    runs := RunsFrom(s, d, 0);
    RunsFromSound(s, d, 0);
    RunsFromOrdered(s, d, 0);
    TokensAreCut(s, d, 0);
    forall r | IsMaximalRun(s, d, r) ensures r in runs {
      RunsFromComplete(s, d, 0, r);
    }
  }

  // ---- Reading 2: the non-empty fields between delimiters -------------------

  // Splitting at every delimiter, empty fields kept.
  function FieldsFrom(s: string, d: set<char>, i: nat): (fs: seq<string>)
    requires i <= |s|
    ensures fs != []
    decreases |s| - i
  {
    var e := SpanFrom(s, d, i);
    if e == |s| then [s[i..e]] else [s[i..e]] + FieldsFrom(s, d, e + 1)
  }

  function Fields(s: string, d: set<char>): seq<string> {
    FieldsFrom(s, d, 0)
  }

  function NonEmpty(fs: seq<string>): seq<string> {
    if fs == [] then []
    else if fs[0] == [] then NonEmpty(fs[1..])
    else [fs[0]] + NonEmpty(fs[1..])
  }

  // The counting loop of parse_data, from position i on.
  function CountFrom(s: string, d: set<char>, i: nat): nat
    requires i <= |s|
    decreases |s| - i
  {
    if i == |s| then 0 else (if s[i] in d then 1 else 0) + CountFrom(s, d, i + 1)
  }

  function Count(s: string, d: set<char>): nat {
    CountFrom(s, d, 0)
  }

  lemma {:induction false} CountToField(s: string, d: set<char>, i: nat)
    requires i <= |s|
    ensures var e := SpanFrom(s, d, i);
            CountFrom(s, d, i) == if e == |s| then 0 else 1 + CountFrom(s, d, e + 1)
    decreases |s| - i
  {
    if i == |s| || s[i] in d {
    } else {
      CountToField(s, d, i + 1);
    }
  }

  lemma {:induction false} FieldCount(s: string, d: set<char>, i: nat)
    requires i <= |s|
    ensures |FieldsFrom(s, d, i)| == CountFrom(s, d, i) + 1
    decreases |s| - i
  {
    CountToField(s, d, i);
    var e := SpanFrom(s, d, i);
    if e == |s| {
    } else {
      FieldCount(s, d, e + 1);
    }
  }

  lemma SkipDelimiter(s: string, d: set<char>, i: nat)
    requires i < |s| && s[i] in d
    ensures TokensFrom(s, d, i) == TokensFrom(s, d, i + 1)
  {
    assert SkipFrom(s, d, i) == SkipFrom(s, d, i + 1);
  }

  lemma {:induction false} TokensAreNonEmptyFields(s: string, d: set<char>, i: nat)
    requires i <= |s|
    ensures TokensFrom(s, d, i) == NonEmpty(FieldsFrom(s, d, i))
    decreases |s| - i
  {
    hide TokensFrom, FieldsFrom, NonEmpty, SpanFrom;
    var e := SpanFrom(s, d, i);
    FieldsUnfold(s, d, i);
    TokensUnfoldAt(s, d, i);
    assert s[i..e] == [] <==> e == i;
    if e == |s| {
      assert [s[i..e]] + [] == [s[i..e]] && [s[i..e]][1..] == [];
      NonEmptyUnfold([s[i..e]]);
    } else {
      TokensAreNonEmptyFields(s, d, e + 1);
      var fs := FieldsFrom(s, d, i);
      assert fs[1..] == FieldsFrom(s, d, e + 1);
      NonEmptyUnfold(fs);
    }
    NonEmptyUnfold([]);
  }

  lemma FieldsUnfold(s: string, d: set<char>, i: nat)
    requires i <= |s|
    ensures var e := SpanFrom(s, d, i);
            FieldsFrom(s, d, i) == [s[i..e]] + if e == |s| then [] else FieldsFrom(s, d, e + 1)
  {
    hide SpanFrom;
  }

  lemma NonEmptyUnfold(fs: seq<string>)
    ensures NonEmpty(fs) ==
            if fs == [] then [] else (if fs[0] == [] then [] else [fs[0]]) + NonEmpty(fs[1..])
  {
    if fs != [] { assert [] + NonEmpty(fs[1..]) == NonEmpty(fs[1..]); }
  }

  // The tokens from i on, by the field that starts there
  lemma TokensUnfoldAt(s: string, d: set<char>, i: nat)
    requires i <= |s|
    ensures var e := SpanFrom(s, d, i);
            TokensFrom(s, d, i) ==
              (if e == i then [] else [s[i..e]]) + if e == |s| then [] else TokensFrom(s, d, e + 1)
  {
    hide SkipFrom, SpanFrom;
    var e := SpanFrom(s, d, i);
    if i < |s| && s[i] in d {
      SpanOfDelimiter(s, d, i);
      SkipDelimiter(s, d, i);
      assert [] + TokensFrom(s, d, i + 1) == TokensFrom(s, d, i + 1);
    } else if i < |s| {
      NoDelimiterAt(s, d, i);
      NonEmptySpan(s, d, i);
      assert [s[i..e]] + [] == [s[i..e]];
    } else {
      NoMoreText(s, d, i);
    }
  }

  lemma SpanOfDelimiter(s: string, d: set<char>, i: nat)
    requires i < |s| && s[i] in d
    ensures SpanFrom(s, d, i) == i
  {
  }

  lemma NoDelimiterAt(s: string, d: set<char>, i: nat)
    requires i < |s| && s[i] !in d
    ensures SkipFrom(s, d, i) == i
  {
  }

  lemma NoMoreText(s: string, d: set<char>, i: nat)
    requires i == |s|
    ensures TokensFrom(s, d, i) == [] && SpanFrom(s, d, i) == i
  {
  }

  lemma {:induction false} NonEmptyCount(fs: seq<string>)
    ensures |NonEmpty(fs)| <= |fs|
    ensures |NonEmpty(fs)| == |fs| <==> [] !in fs
    ensures [] !in fs ==> NonEmpty(fs) == fs
  {
    if fs == [] {
    } else {
      NonEmptyCount(fs[1..]);
    }
  }

  // Field-count soundness: the delimiter count bounds the tokens strtok will return, and is
  // exact precisely when no field is empty.
  lemma TokenCount(s: string, d: set<char>)
    ensures |Tokens(s, d)| <= Count(s, d) + 1
    ensures |Tokens(s, d)| == Count(s, d) + 1 <==> [] !in Fields(s, d)
    ensures [] !in Fields(s, d) ==> Tokens(s, d) == Fields(s, d)
  {
    FieldCount(s, d, 0);
    TokensAreNonEmptyFields(s, d, 0);
    NonEmptyCount(Fields(s, d));
  }

  // A text of n characters has at most (n + 1) / 2 tokens, so the 8-bit token counter
  // cannot wrap on a text below 510 characters.
  lemma {:induction false} TokensFitLength(s: string, d: set<char>, i: nat)
    requires i <= |s|
    ensures 2 * |TokensFrom(s, d, i)| <= |s| - i + 1
    decreases |s| - i
  {
    hide SkipFrom, SpanFrom;
    var k := SkipFrom(s, d, i);
    if k == |s| {
    } else {
      var e := SpanFrom(s, d, k);
      NonEmptySpan(s, d, k);
      if e < |s| { TokensFitLength(s, d, e + 1); }
    }
  }

  lemma NonEmptySpan(s: string, d: set<char>, k: nat)
    requires k < |s| && s[k] !in d
    ensures SpanFrom(s, d, k) > k
  {
  }

  // ---- Joining and splitting ------------------------------------------------

  // The text of w from j on is the text of s from i on.
  ghost predicate SameTail(w: string, j: nat, s: string, i: nat) {
    j <= |w| && i <= |s| && w[j..] == s[i..]
  }

  lemma SameTailStep(w: string, j: nat, s: string, i: nat, n: nat)
    requires SameTail(w, j, s, i) && n <= |s| - i
    ensures SameTail(w, j + n, s, i + n)
    ensures w[j..j + n] == s[i..i + n]
    ensures n < |s| - i ==> w[j + n] == s[i + n]
  {
    assert w[j..][n..] == w[j + n..] && s[i..][n..] == s[i + n..];
    assert w[j..][..n] == w[j..j + n] && s[i..][..n] == s[i..i + n];
    if n < |s| - i { assert w[j..][n] == w[j + n] && s[i..][n] == s[i + n]; }
  }

  // Scanning only looks to the right.
  lemma {:induction false} SkipFromTail(w: string, j: nat, s: string, i: nat, d: set<char>)
    requires SameTail(w, j, s, i)
    ensures SkipFrom(w, d, j) - j == SkipFrom(s, d, i) - i
    decreases |s| - i
  {
    if i == |s| {
    } else {
      SameTailStep(w, j, s, i, 0);
      SameTailStep(w, j, s, i, 1);
      SkipFromTail(w, j + 1, s, i + 1, d);
    }
  }

  lemma {:induction false} SpanFromTail(w: string, j: nat, s: string, i: nat, d: set<char>)
    requires SameTail(w, j, s, i)
    ensures SpanFrom(w, d, j) - j == SpanFrom(s, d, i) - i
    decreases |s| - i
  {
    if i == |s| {
    } else {
      SameTailStep(w, j, s, i, 0);
      SameTailStep(w, j, s, i, 1);
      SpanFromTail(w, j + 1, s, i + 1, d);
    }
  }

  lemma NextTail(w: string, j: nat, s: string, i: nat, d: set<char>)
    requires SameTail(w, j, s, i)
    ensures var p, q := Next(w, d, j), Next(s, d, i);
            if q.None? then p.None?
            else
              && p.Some?
              && w[p.value.start..p.value.end] == s[q.value.start..q.value.end]
              && if q.value.end == |s| then p.value.end == |w|
                 else p.value.end < |w| && SameTail(w, p.value.end + 1, s, q.value.end + 1)
  {
    hide SkipFrom, SpanFrom;
    var k, l := SkipFrom(s, d, i), SkipFrom(w, d, j);
    SkipFromTail(w, j, s, i, d);
    SameTailStep(w, j, s, i, k - i);
    if k < |s| {
      var e, f := SpanFrom(s, d, k), SpanFrom(w, d, l);
      SpanFromTail(w, l, s, k, d);
      SameTailStep(w, l, s, k, e - k);
      if e < |s| { SameTailStep(w, f, s, e, 1); }
    }
  }

  lemma TokensUnfold(s: string, d: set<char>, i: nat, t: string, rest: seq<string>)
    requires i <= |s| && Next(s, d, i).Some?
    requires t == s[Next(s, d, i).value.start..Next(s, d, i).value.end]
    requires rest == TokensOf(s, d, After(s, Next(s, d, i)))
    ensures TokensFrom(s, d, i) == [t] + rest
  {
  }

  lemma NoTokens(s: string, d: set<char>, i: nat)
    requires i <= |s|
    ensures Next(s, d, i).None? ==> TokensFrom(s, d, i) == []
  {
  }

  lemma {:induction false} TokensTail(w: string, j: nat, s: string, i: nat, d: set<char>)
    requires SameTail(w, j, s, i)
    ensures TokensFrom(w, d, j) == TokensFrom(s, d, i)
    decreases |s| - i
  {
    hide Next, TokensFrom;
    NextTail(w, j, s, i, d);
    NoTokens(w, d, j);
    NoTokens(s, d, i);
    var p, q := Next(w, d, j), Next(s, d, i);
    if q.None? {
    } else {
      if q.value.end < |s| { TokensTail(w, p.value.end + 1, s, q.value.end + 1, d); }
      var t, rest := s[q.value.start..q.value.end], TokensOf(s, d, After(s, q));
      TokensUnfold(w, d, j, t, rest);
      TokensUnfold(s, d, i, t, rest);
    }
  }

  lemma {:induction false} CountTail(w: string, j: nat, s: string, i: nat, d: set<char>)
    requires SameTail(w, j, s, i)
    ensures CountFrom(w, d, j) == CountFrom(s, d, i)
    decreases |s| - i
  {
    if i == |s| {
    } else {
      SameTailStep(w, j, s, i, 0);
      SameTailStep(w, j, s, i, 1);
      CountTail(w, j + 1, s, i + 1, d);
    }
  }

  // A delimiter-free text followed by a delimiter is scanned off the front.
  lemma ConsToken(t: string, c: char, rest: string, d: set<char>)
    requires t != [] && Free(t, d) && c in d
    ensures Next(t + [c] + rest, d, 0) == Some(Run(0, |t|))
    ensures Tokens(t + [c] + rest, d) == [t] + Tokens(rest, d)
    ensures Count(t + [c] + rest, d) == 1 + Count(rest, d)
  {
    var s := t + [c] + rest;
    assert forall j | 0 <= j < |t| :: s[j] == t[j];
    SkipFromIs(s, d, 0, 0);
    SpanFromIs(s, d, 0, |t|);
    assert s[0..|t|] == t;
    assert s[|t| + 1..] == rest == rest[0..];
    TokensTail(s, |t| + 1, rest, 0, d);
    CountTail(s, |t| + 1, rest, 0, d);
    CountToField(s, d, 0);
  }

  lemma LastToken(t: string, d: set<char>)
    requires t != [] && Free(t, d)
    ensures Next(t, d, 0) == Some(Run(0, |t|)) && Tokens(t, d) == [t] && Count(t, d) == 0
  {
    SpanFromIs(t, d, 0, |t|);
    CountToField(t, d, 0);
    assert t[0..|t|] == t;
  }

  function Join(ts: seq<string>, c: char): string {
    if ts == [] then [] else if |ts| == 1 then ts[0] else ts[0] + [c] + Join(ts[1..], c)
  }

  ghost predicate Proper(ts: seq<string>, d: set<char>) {
    forall i | 0 <= i < |ts| :: ts[i] != [] && Free(ts[i], d)
  }

  // Round trip: splitting a joined text returns the pieces.
  lemma {:induction false} TokensOfJoin(ts: seq<string>, c: char)
    requires Proper(ts, {c})
    ensures Tokens(Join(ts, c), {c}) == ts
    ensures ts != [] ==> Count(Join(ts, c), {c}) == |ts| - 1
  {
    if |ts| == 1 {
      LastToken(ts[0], {c});
    } else if |ts| > 1 {
      TokensOfJoin(ts[1..], c);
      ConsToken(ts[0], c, Join(ts[1..], c), {c});
    }
  }

  // Each text followed by the separator, after one leading separator.
  function Framed(ts: seq<string>, c: char): string {
    [c] + Closed(ts, c)
  }

  function Closed(ts: seq<string>, c: char): string {
    if ts == [] then [] else Closed(ts[..|ts| - 1], c) + ts[|ts| - 1] + [c]
  }

  lemma {:induction false} ClosedConcat(a: seq<string>, b: seq<string>, c: char)
    ensures Closed(a + b, c) == Closed(a, c) + Closed(b, c)
  {
    if b == [] {
      assert a + b == a;
    } else {
      var n := |b| - 1;
      assert (a + b)[..|a + b| - 1] == a + b[..n];
      ClosedConcat(a, b[..n], c);
    }
  }

  lemma {:induction false} TokensOfClosed(ts: seq<string>, c: char)
    requires Proper(ts, {c})
    ensures Tokens(Closed(ts, c), {c}) == ts && Count(Closed(ts, c), {c}) == |ts|
  {
    if ts == [] {
    } else {
      var t := ts[0];
      assert Closed([t], c) == [] + t + [c] == t + [c];
      ClosedConcat([t], ts[1..], c);
      assert [t] + ts[1..] == ts;
      TokensOfClosed(ts[1..], c);
      ConsToken(t, c, Closed(ts[1..], c), {c});
    }
  }

  // Round trip of the framed form: splitting it returns the texts, and besides them it consists
  // of one delimiter more than texts, the first and the last character among them.
  lemma TokensOfFramed(ts: seq<string>, c: char)
    requires Proper(ts, {c})
    ensures Tokens(Framed(ts, c), {c}) == ts && Count(Framed(ts, c), {c}) == |ts| + 1
    ensures Framed(ts, c)[0] == c && Framed(ts, c)[|Framed(ts, c)| - 1] == c
  {
    TokensOfClosed(ts, c);
    var s, u := Framed(ts, c), Closed(ts, c);
    assert s[1..] == u == u[0..];
    SkipDelimiter(s, {c}, 0);
    TokensTail(s, 1, u, 0, {c});
    CountTail(s, 1, u, 0, {c});
  }

  // The fields are the text cut at every delimiter: joined again they are the text.
  lemma {:induction false} JoinOfFields(s: string, c: char, i: nat)
    requires i <= |s|
    ensures Join(FieldsFrom(s, {c}, i), c) == s[i..]
    ensures forall j | 0 <= j < |FieldsFrom(s, {c}, i)| :: Free(FieldsFrom(s, {c}, i)[j], {c})
    decreases |s| - i
  {
    var e, fs := SpanFrom(s, {c}, i), FieldsFrom(s, {c}, i);
    ScansPass(s, {c}, i);
    if e == |s| {
      assert s[i..e] == s[i..];
    } else {
      JoinOfFields(s, c, e + 1);
      assert fs == [s[i..e]] + FieldsFrom(s, {c}, e + 1) && fs[1..] == FieldsFrom(s, {c}, e + 1);
      assert s[i..] == s[i..e] + [c] + s[e + 1..];
    }
  }
}
