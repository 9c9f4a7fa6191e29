// strtok with its hidden static pointer and its in-place NUL writes, and the
// split_sensors loop built on it (main/serial_controller.h:342-364).
module Strtok {
  import opened CBuffer
  import opened Tokenizing

  // What one call does to the buffer holding s at b: the delimiter that ends the token
  // becomes NUL, and nothing else changes.
  ghost function Cut(content: string, b: nat, s: string, r: Option<Run>): string
    requires b + |s| <= |content|
    requires r.Some? ==> r.value.end <= |s|
  {
    if r.None? || r.value.end == |s| then content else content[b + r.value.end := '\0']
  }

  // From its position i on, the buffer at b still is the text s.
  ghost predicate Intact(a: array<char>, b: nat, s: string, i: nat)
    reads a
  {
    && i <= |s| && b + |s| < a.Length && a[b + |s|] == '\0' && NulFree(s)
    && forall j | i <= j < |s| :: s[j] == a[b + j]
  }

  lemma IntactToken(a: array<char>, b: nat, s: string, i: nat, k: nat, e: nat)
    requires Intact(a, b, s, i) && i <= k <= e <= |s|
    ensures a[b + k..b + e] == s[k..e] && NulFree(s[k..e])
  {
    assert forall j | 0 <= j < e - k :: s[k..e][j] == s[k + j];
  }

  method SkipDelimiters(a: array<char>, b: nat, i: nat, d: set<char>, ghost s: string) returns (k: nat)
    requires Intact(a, b, s, i) && '\0' !in d
    ensures k == SkipFrom(s, d, i)
    ensures a[b + k] == '\0' <==> k == |s|
  {
    k := i;
    while a[b + k] in d
      invariant i <= k <= |s|
      invariant k < |s| ==> a[b + k] == s[k]
      invariant SkipFrom(s, d, k) == SkipFrom(s, d, i)
      decreases |s| - k
    {
      k := k + 1;
    }
  }

  method SpanToken(a: array<char>, b: nat, i: nat, d: set<char>, ghost s: string) returns (e: nat)
    requires Intact(a, b, s, i) && '\0' !in d
    ensures e == SpanFrom(s, d, i)
    ensures a[b + e] == '\0' <==> e == |s|
  {
    e := i;
    while a[b + e] != '\0' && a[b + e] !in d
      invariant i <= e <= |s|
      invariant e < |s| ==> a[b + e] == s[e]
      invariant SpanFrom(s, d, e) == SpanFrom(s, d, i)
      decreases |s| - e
    {
      e := e + 1;
    }
  }

  // (*i + 1), stored back to a uint8_t
  function Incremented(i: nat): (r: nat)
    ensures (i < 255 ==> r == i + 1) && (i == 255 ==> r == 0)
  {
    (i + 1) % 256
  }

  class Tokenizer {
    // The hidden pointer: null, or buf + base + pos, where buf + base is the text given to
    // the call that started the current sequence.
    var buf: array?<char>
    var base: nat
    var pos: nat

    constructor ()
      ensures buf == null
    {
      buf := null;
    }

    // The hidden pointer is p, as a position of the text s that starts at a + b.
    ghost predicate Pointing(a: array<char>, b: nat, s: string, p: Option<nat>)
      reads this, a
    {
      match p
      case None => buf == null
      case Some(i) => buf == a && base == b && pos == i && Intact(a, b, s, i)
    }

    // What a call that scans r leaves: the hidden pointer is behind it, and the token it
    // returned is a C string in place.
    ghost predicate Scanned(a: array<char>, b: nat, s: string, r: Option<Run>, tok: Option<nat>)
      requires r.Some? ==> r.value.start < r.value.end <= |s|
      reads this, a
    {
      && b + |s| < a.Length
      && Pointing(a, b, s, After(s, r))
      && (tok.Some? <==> r.Some?)
      && (r.Some? ==> tok.value == b + r.value.start && Holds(a, tok.value, s[r.value.start..r.value.end]))
    }

    // strtok(a + b, d), where a + b holds s
    method Start(a: array<char>, b: nat, d: set<char>, ghost s: string) returns (tok: Option<nat>)
      requires Holds(a, b, s) && '\0' !in d
      modifies this, a
      ensures Scanned(a, b, s, Next(s, d, 0), tok)
      ensures a[..] == Cut(old(a[..]), b, s, Next(s, d, 0))
    {
      forall j | 0 <= j < |s| ensures s[j] == a[b + j] { assert a[b..b + |s|][j] == a[b + j]; }
      buf, base, pos := a, b, 0;
      tok := Advance(a, b, 0, d, s);
    }

    // strtok(NULL, d), after a call on the text s at a + b
    method Continue(d: set<char>, ghost a: array<char>, ghost b: nat, ghost s: string, ghost p: Option<nat>)
      returns (tok: Option<nat>)
      requires Pointing(a, b, s, p) && '\0' !in d && b + |s| < a.Length
      requires p.Some? ==> p.value <= |s|
      modifies this, a
      ensures Scanned(a, b, s, NextOf(s, d, p), tok)
      ensures a[..] == Cut(old(a[..]), b, s, NextOf(s, d, p))
      ensures After(s, NextOf(s, d, p)).None? ==> unchanged(a)
    {
      if buf == null { return None; }
      tok := Advance(buf, base, pos, d, s);
    }

    method Advance(a: array<char>, b: nat, i: nat, d: set<char>, ghost s: string) returns (tok: Option<nat>)
      requires Intact(a, b, s, i) && '\0' !in d
      requires buf == a && base == b
      modifies this, a
      ensures Scanned(a, b, s, Next(s, d, i), tok)
      ensures a[..] == Cut(old(a[..]), b, s, Next(s, d, i))
      ensures After(s, Next(s, d, i)).None? ==> unchanged(a)
    {
      hide SkipFrom, SpanFrom;
      var k := SkipDelimiters(a, b, i, d, s);
      if a[b + k] == '\0' {
        buf := null;
        return None;
      }
      var e := SpanToken(a, b, k, d, s);
      IntactToken(a, b, s, i, k, e);
      if a[b + e] == '\0' {
        buf := null;
      } else {
        a[b + e] := '\0';
        pos := e + 1;
        assert a[b + k..b + e] == s[k..e];
      }
      return Some(b + k);
    }

    // split_sensors: all tokens, each copied to memory of its own. The result does not
    // depend on what earlier strtok calls left in the hidden pointer.
    method SplitSensors(a: array<char>, b: nat, d: set<char>, ghost s: string)
      returns (tokens: seq<string>, count: nat)
      requires Holds(a, b, s) && '\0' !in d && |s| < 510
      modifies this, a
      ensures buf == null
      ensures tokens == Tokens(s, d) && |tokens| == count < 256
    {
      hide TokensFrom, Next, Remaining;
      tokens, count := [], 0;
      TokensFitLength(s, d, 0);
      var token := Start(a, b, d, s);
      ghost var r := Next(s, d, 0);
      RemainingStep(s, d, Some(0));
      RemainingNone(s, d);
      ghost var rest: seq<string> := Tokens(s, d);
      while token.Some?
        invariant r.Some? ==> r.value.start < r.value.end <= |s|
        invariant Scanned(a, b, s, r, token)
        invariant rest == Remaining(s, d, r)
        invariant Tokens(s, d) == tokens + rest
        invariant |tokens| == count && |tokens| + |rest| < 256
        decreases |rest|
      {
        ghost var run := r.value;
        ghost var t := s[run.start..run.end];
        var copy := TextAt(a, token.value, t);
        RemainingAfter(s, d, run);
        Shift(Tokens(s, d), tokens, rest);
        token := Continue(d, a, b, s, After(s, r));
        r, rest := NextOf(s, d, After(s, r)), rest[1..];
        tokens, count := tokens + [copy], Incremented(count);
      }
    }
  }

  lemma Shift(all: seq<string>, a: seq<string>, b: seq<string>)
    requires all == a + b && b != []
    ensures all == (a + [b[0]]) + b[1..]
  {
  }

  // The current token and all that follow it.
  ghost function Remaining(s: string, d: set<char>, r: Option<Run>): seq<string>
    requires r.Some? ==> r.value.start < r.value.end <= |s|
  {
    if r.None? then [] else [s[r.value.start..r.value.end]] + TokensOf(s, d, After(s, r))
  }

  lemma RemainingStep(s: string, d: set<char>, p: Option<nat>)
    requires p.Some? ==> p.value <= |s|
    ensures TokensOf(s, d, p) == Remaining(s, d, NextOf(s, d, p))
  {
  }

  lemma RemainingNone(s: string, d: set<char>)
    ensures Remaining(s, d, None) == []
  {
  }

  lemma RemainingAfter(s: string, d: set<char>, r: Run)
    requires r.start < r.end <= |s|
    ensures var rest := Remaining(s, d, Some(r));
            rest != [] && rest[0] == s[r.start..r.end] && rest[1..] == Remaining(s, d, NextOf(s, d, After(s, Some(r))))
  {
    hide TokensFrom, Next;
    RemainingStep(s, d, After(s, Some(r)));
  }
}
