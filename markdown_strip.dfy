/**
 * strip_markdown_for_tts: nine regular-expression substitutions applied in a
 * fixed order. Each substitution is a left-to-right scan that replaces the
 * leftmost match, resumes after it, and never overlaps two matches, as
 * Python's re.sub does. `\w` and `\d` are taken in their ASCII sense.
 */
module MarkdownStrip {

  import opened Options
  import opened Numerals

  /** `\w`: an ASCII letter, digit or underscore. */
  predicate IsWordChar(c: char) {
    'a' <= c <= 'z' || 'A' <= c <= 'Z' || IsDigit(c) || c == '_'
  }

  /** A delimiter made of one marker character repeated: `**`, `__`, `*`, `_`, a backtick. */
  predicate IsMarkerRun(d: string) {
    |d| >= 1 && forall i | 0 <= i < |d| :: d[i] == d[0]
  }

  // ---------------------------------------------------------------------------
  // Passes 1-5: `D(.+?)D` -> `\1`
  // ---------------------------------------------------------------------------

  /**
   * `.+?` followed by `close` can stop after `j` characters of `t`: the content
   * `t[..j]` is non-empty, holds no line break, and `close` follows it.
   */
  predicate ClosesAt(t: string, close: string, j: int) {
    1 <= j && j + |close| <= |t| && '\n' !in t[..j] && t[j..j + |close|] == close
  }

  /**
   * The non-greedy search for the closing delimiter, trying content lengths
   * k, k + 1, ... up to the first line break; LazyCloseShortest states what it
   * finds.
   */
  function LazyClose(t: string, close: string, k: nat): (r: Option<nat>)
    requires 1 <= k
    ensures r.Some? ==> k <= r.value && r.value + |close| <= |t|
    decreases |t| - k
  {
    if k > |t| || t[k - 1] == '\n' then None
    else if k + |close| <= |t| && t[k..k + |close|] == close then Some(k)
    else LazyClose(t, close, k + 1)
  }

  /**
   * Started after content lengths that cannot close, the search returns the
   * SHORTEST content length at which `close` follows, and None exactly when
   * there is none.
   */
  lemma {:induction false} LazyCloseShortest(t: string, close: string, k: nat)
    requires 1 <= k <= |t| + 1 && '\n' !in t[..k - 1]
    requires forall j | 1 <= j < k :: !ClosesAt(t, close, j)
    ensures LazyClose(t, close, k).Some? ==> ClosesAt(t, close, LazyClose(t, close, k).value)
    ensures LazyClose(t, close, k).Some? ==>
      forall j | 1 <= j < LazyClose(t, close, k).value :: !ClosesAt(t, close, j)
    ensures LazyClose(t, close, k).None? ==> forall j :: !ClosesAt(t, close, j)
    decreases |t| - k
  {
    if k > |t| {
    } else if t[k - 1] == '\n' {
      forall j | j >= k ensures !ClosesAt(t, close, j) {
        if j <= |t| {
          assert t[..j][k - 1] == '\n';
        }
      }
    } else {
      assert t[..k] == t[..k - 1] + [t[k - 1]];
      if !(k + |close| <= |t| && t[k..k + |close|] == close) {
        LazyCloseShortest(t, close, k + 1);
      }
    }
  }

  /** `s` begins with `d`. */
  predicate StartsWith(s: string, d: string) {
    |d| <= |s| && s[..|d|] == d
  }

  /**
   * The pattern `D(.+?)D` tried at the start of `s`: the length of the
   * captured content, if the delimiter opens `s` and a closing one follows.
   */
  function PairAt(s: string, d: string): (r: Option<nat>)
    requires |d| >= 1
    ensures r.Some? ==> 1 <= r.value && |d| + r.value + |d| <= |s|
  {
    if StartsWith(s, d) then LazyClose(s[|d|..], d, 1) else None
  }

  /**
   * A match found at the start of `s` is the shortest one: `s` opens with the
   * delimiter and the content closes at the first place it can; None exactly
   * when no content length closes.
   */
  lemma PairAtShortest(s: string, d: string)
    requires |d| >= 1
    ensures PairAt(s, d).Some? ==> StartsWith(s, d) && ClosesAt(s[|d|..], d, PairAt(s, d).value)
    ensures PairAt(s, d).Some? ==> forall j | 1 <= j < PairAt(s, d).value :: !ClosesAt(s[|d|..], d, j)
    ensures PairAt(s, d).None? ==> !StartsWith(s, d) || forall j :: !ClosesAt(s[|d|..], d, j)
  {
    if StartsWith(s, d) {
      LazyCloseShortest(s[|d|..], d, 1);
    }
  }

  /** One pass of `re.sub(D(.+?)D, \1, s)` for the delimiter `d`. */
  function StripPair(s: string, d: string): string
    requires |d| >= 1
    decreases |s|
  {
    if s == [] then []
    else
      var m := PairAt(s, d);
      if m.Some? then s[|d|..|d| + m.value] + StripPair(s[|d| + m.value + |d|..], d)
      else [s[0]] + StripPair(s[1..], d)
  }

  /**
   * `b` arises from `a` by deleting characters, and only copies of `m`:
   * every other character keeps its count, `m` is never more frequent, and
   * `b` is never longer.
   */
  predicate KeepsBut(a: string, b: string, m: char) {
    |b| <= |a| && (forall c | c != m :: multiset(b)[c] == multiset(a)[c]) && multiset(b)[m] <= multiset(a)[m]
  }

  /** A pair pass deletes marker characters only. */
  lemma {:induction false} StripPairCounts(s: string, d: string)
    requires IsMarkerRun(d)
    ensures KeepsBut(s, StripPair(s, d), d[0])
    decreases |s|
  {
    if s != [] {
      if PairAt(s, d).Some? {
        var k := PairAt(s, d).value;
        var rest := s[|d| + k + |d|..];
        StripPairMatched(s, d, k);
        StripPairCounts(rest, d);
        PairStepCounts(s, d, k, StripPair(rest, d));
      } else {
        assert StripPair(s, d) == [s[0]] + StripPair(s[1..], d);
        StripPairCounts(s[1..], d);
        CopyStepCounts(s, d[0], StripPair(s[1..], d));
      }
    }
  }

  /** Replacing a match by its content, before a reduced remainder, deletes only markers. */
  lemma PairStepCounts(s: string, d: string, k: nat, r: string)
    requires IsMarkerRun(d) && PairAt(s, d) == Some(k)
    requires KeepsBut(s[|d| + k + |d|..], r, d[0])
    ensures KeepsBut(s, s[|d|..|d| + k] + r, d[0])
  {
    PairAtShortest(s, d);
    PairMatchCounts(s, d, k);
    var content := s[|d|..|d| + k];
    forall c ensures multiset(content + r)[c] == multiset(content)[c] + multiset(r)[c] { }
  }

  /** Copying the first character before a reduced remainder deletes only what the remainder lost. */
  lemma CopyStepCounts(s: string, m: char, r: string)
    requires s != [] && KeepsBut(s[1..], r, m)
    ensures KeepsBut(s, [s[0]] + r, m)
  {
    assert s == [s[0]] + s[1..];
    forall c ensures multiset([s[0]] + r)[c] == multiset([s[0]])[c] + multiset(r)[c] { }
  }

  /**
   * A match `d content d` at the start of `s` keeps the content and drops the
   * two delimiters: only marker characters go.
   */
  lemma PairMatchCounts(s: string, d: string, k: nat)
    requires IsMarkerRun(d) && StartsWith(s, d) && ClosesAt(s[|d|..], d, k)
    ensures forall c | c != d[0] ::
      multiset(s)[c] == multiset(s[|d|..|d| + k])[c] + multiset(s[|d| + k + |d|..])[c]
    ensures multiset(s)[d[0]] >= multiset(s[|d|..|d| + k])[d[0]] + multiset(s[|d| + k + |d|..])[d[0]]
  {
    var content, rest := s[|d|..|d| + k], s[|d| + k + |d|..];
    assert s == d + content + d + rest;
    MarkerRunCount(d);
  }

  /** A delimiter holds no character other than its marker. */
  lemma MarkerRunCount(d: string)
    requires IsMarkerRun(d)
    ensures forall c | c != d[0] :: multiset(d)[c] == 0
  {
    forall c | c != d[0] ensures multiset(d)[c] == 0 {
      assert c !in d;
    }
  }

  // ---------------------------------------------------------------------------
  // Pass 6: `\[([^\]]+)\]\([^)]+\)` -> `\1`
  // ---------------------------------------------------------------------------

  /** Length of the longest prefix of `s` free of `stop` (a greedy `[^stop]*`). */
  function SpanUntil(s: string, stop: char): (n: nat)
    ensures n <= |s|
  {
    if s == [] || s[0] == stop then 0 else 1 + SpanUntil(s[1..], stop)
  }

  /** The span holds no `stop`, and ends at one unless it reaches the end of `s`. */
  lemma {:induction false} SpanUntilStops(s: string, stop: char)
    ensures forall i | 0 <= i < SpanUntil(s, stop) :: s[i] != stop
    ensures SpanUntil(s, stop) < |s| ==> s[SpanUntil(s, stop)] == stop
    decreases |s|
  {
    if s != [] && s[0] != stop {
      SpanUntilStops(s[1..], stop);
    }
  }

  /**
   * `s` starts with a link whose anchor has `l` characters and whose target has
   * `u` characters: `[` anchor `]` `(` target `)`, the anchor free of `]`, the
   * target free of `)`, neither empty.
   */
  predicate IsLinkAt(s: string, l: int, u: int) {
    && 1 <= l && 1 <= u && 4 + l + u <= |s|
    && s[0] == '['
    && (forall i | 1 <= i < 1 + l :: s[i] != ']')
    && s[1 + l] == ']' && s[2 + l] == '('
    && (forall i | 3 + l <= i < 3 + l + u :: s[i] != ')')
    && s[3 + l + u] == ')'
  }

  /** The link the pattern matches at the start of `s`, as (anchor length, target length). */
  function LinkAt(s: string): (r: Option<(nat, nat)>)
    ensures r.Some? ==> 1 <= r.value.0 && 1 <= r.value.1 && 4 + r.value.0 + r.value.1 <= |s|
  {
    if |s| >= 1 && s[0] == '[' then
      var l := SpanUntil(s[1..], ']');
      if 1 <= l && 2 + l < |s| && s[2 + l] == '(' then
        var u := SpanUntil(s[3 + l..], ')');
        if 1 <= u && 3 + l + u < |s| then Some((l, u)) else None
      else None
    else None
  }

  /**
   * The link pattern finds a link at the start of `s` exactly when one is
   * there, and then the only one: the anchor ends at the first `]`, the
   * target at the first `)` after it.
   */
  lemma LinkAtMatches(s: string)
    ensures LinkAt(s).Some? ==> IsLinkAt(s, LinkAt(s).value.0, LinkAt(s).value.1)
    ensures forall l, u :: IsLinkAt(s, l, u) ==> LinkAt(s) == Some((l, u))
  {
    if |s| >= 1 {
      SpanUntilStops(s[1..], ']');
      var l := SpanUntil(s[1..], ']');
      if 2 + l < |s| {
        SpanUntilStops(s[3 + l..], ')');
      }
    }
  }

  /** One pass of the link rewrite: each `[anchor](target)` becomes `anchor`. */
  function StripLinks(s: string): string
    decreases |s|
  {
    if s == [] then []
    else if LinkAt(s).Some? then
      var l, u := LinkAt(s).value.0, LinkAt(s).value.1;
      s[1..1 + l] + StripLinks(s[4 + l + u..])
    else [s[0]] + StripLinks(s[1..])
  }

  /** The link pass only deletes characters: no count grows, nor the length. */
  lemma {:induction false} StripLinksCounts(s: string)
    ensures Shrinks(s, StripLinks(s))
    decreases |s|
  {
    if s != [] {
      if LinkAt(s).Some? {
        var l, u := LinkAt(s).value.0, LinkAt(s).value.1;
        StripLinksCounts(s[4 + l + u..]);
        StripLinksLinked(s);
        AnchorShrinks(s, l, u, StripLinks(s[4 + l + u..]));
      } else {
        StripLinksCounts(s[1..]);
        StripLinksCopied(s);
        CopyStepShrinks(s, StripLinks(s[1..]));
      }
    }
  }

  /** Where a link starts, the link pass keeps its anchor and goes on after the link. */
  lemma StripLinksLinked(s: string)
    requires s != [] && LinkAt(s).Some?
    ensures StripLinks(s) == s[1..1 + LinkAt(s).value.0] + StripLinks(s[4 + LinkAt(s).value.0 + LinkAt(s).value.1..])
  {
  }

  /** Where no link starts, the link pass copies the character. */
  lemma StripLinksCopied(s: string)
    requires s != [] && LinkAt(s).None?
    ensures StripLinks(s) == [s[0]] + StripLinks(s[1..])
  {
  }

  /**
   * Wherever `[label](target)` starts the text, the link pass emits the label
   * and resumes after the `)`.
   */
  lemma StripLinksAtLink(s: string, l: int, u: int)
    requires IsLinkAt(s, l, u)
    ensures StripLinks(s) == s[1..1 + l] + StripLinks(s[4 + l + u..])
  {
    LinkAtFinds(s, l, u);
    StripLinksStep(s, s[1..1 + l], s[4 + l + u..]);
  }

  lemma LinkAtFinds(s: string, l: int, u: int)
    requires IsLinkAt(s, l, u)
    ensures LinkAt(s).Some? && LinkAt(s).value.0 == l && LinkAt(s).value.1 == u
  {
    LinkAtMatches(s);
  }

  lemma StripLinksStep(s: string, anchor: string, rest: string)
    requires s != [] && LinkAt(s).Some?
    requires anchor == s[1..1 + LinkAt(s).value.0] && rest == s[4 + LinkAt(s).value.0 + LinkAt(s).value.1..]
    ensures StripLinks(s) == anchor + StripLinks(rest)
  {
    StripLinksLinked(s);
  }

  /** Where no `[label](target)` starts the text, the link pass copies one character and moves on. */
  lemma StripLinksNoLink(s: string)
    requires s != [] && forall l, u :: !IsLinkAt(s, l, u)
    ensures StripLinks(s) == [s[0]] + StripLinks(s[1..])
  {
    LinkAtMatches(s);
    StripLinksCopied(s);
  }

  /** Replacing a link by its anchor, before a shrunk remainder, only deletes characters. */
  lemma AnchorShrinks(s: string, l: nat, u: nat, r: string)
    requires 4 + l + u <= |s| && Shrinks(s[4 + l + u..], r)
    ensures Shrinks(s, s[1..1 + l] + r)
  {
    var anchor, rest := s[1..1 + l], s[4 + l + u..];
    assert s == s[..1] + anchor + s[1 + l..4 + l + u] + rest;
    forall c ensures multiset(anchor + r)[c] <= multiset(s)[c] {
      assert multiset(anchor + r)[c] == multiset(anchor)[c] + multiset(r)[c];
    }
  }

  /** Copying the first character before a shrunk remainder only deletes what the remainder lost. */
  lemma CopyStepShrinks(s: string, r: string)
    requires s != [] && Shrinks(s[1..], r)
    ensures Shrinks(s, [s[0]] + r)
  {
    assert s == [s[0]] + s[1..];
    forall c ensures multiset([s[0]] + r)[c] <= multiset(s)[c] {
      assert multiset([s[0]] + r)[c] == multiset([s[0]])[c] + multiset(r)[c];
    }
  }

  // ---------------------------------------------------------------------------
  // Passes 7-8: `(?<!\w)M(?!\w)` -> ``
  // ---------------------------------------------------------------------------

  /**
   * One pass deleting every `m` that has no word character immediately before
   * it and none immediately after it, both judged in the pass's own input.
   * `afterWord` says whether the character before `s` in that input is one.
   */
  function DropStandalone(s: string, m: char, afterWord: bool): string
    decreases |s|
  {
    if s == [] then []
    else if s[0] == m && !afterWord && !(|s| > 1 && IsWordChar(s[1])) then
      DropStandalone(s[1..], m, IsWordChar(s[0]))
    else
      [s[0]] + DropStandalone(s[1..], m, IsWordChar(s[0]))
  }

  /** A standalone-marker pass deletes that marker only. */
  lemma {:induction false} DropStandaloneCounts(s: string, m: char, afterWord: bool)
    ensures KeepsBut(s, DropStandalone(s, m, afterWord), m)
    decreases |s|
  {
    if s != [] {
      var r := DropStandalone(s[1..], m, IsWordChar(s[0]));
      DropStandaloneCounts(s[1..], m, IsWordChar(s[0]));
      if s[0] == m && !afterWord && !(|s| > 1 && IsWordChar(s[1])) {
        assert s == [m] + s[1..];
      } else {
        CopyStepCounts(s, m, r);
      }
    }
  }

  /** A marker with a space on each side is standalone: it goes, the spaces stay. */
  lemma DropStandaloneSpaced(m: char, rest: string, afterWord: bool)
    requires m != ' '
    ensures DropStandalone([' ', m, ' '] + rest, m, afterWord) == [' ', ' '] + DropStandalone(rest, m, false)
  {
    var s := [' ', m, ' '] + rest;
    var u := [m, ' '] + rest;
    var v := [' '] + rest;
    assert s[1..] == u && u[1..] == v && v[1..] == rest;
    assert DropStandalone(v, m, IsWordChar(m)) == [' '] + DropStandalone(rest, m, false);
    assert DropStandalone(u, m, false) == DropStandalone(v, m, IsWordChar(m));
  }

  /** A marker right after a word character (as in `snake_case`) is kept. */
  lemma DropStandaloneAfterWord(x: char, m: char, rest: string, afterWord: bool)
    requires IsWordChar(x)
    ensures DropStandalone([x, m] + rest, m, afterWord) == [x, m] + DropStandalone(rest, m, IsWordChar(m))
  {
    var s := [x, m] + rest;
    assert s[1..] == [m] + rest;
    assert ([m] + rest)[1..] == rest;
  }

  /** A marker right before a word character (as in `_private`) is kept. */
  lemma DropStandaloneBeforeWord(m: char, x: char, rest: string, afterWord: bool)
    requires IsWordChar(x)
    ensures DropStandalone([m, x] + rest, m, afterWord) == [m, x] + DropStandalone(rest, m, IsWordChar(x))
  {
    var s := [m, x] + rest;
    assert s[1..] == [x] + rest;
    assert ([x] + rest)[1..] == rest;
  }

  /**
   * The character at index `i` of `s` is a standalone `m`: neither the
   * character before it nor the one after it, where they exist, is a word
   * character.
   */
  predicate StandaloneAt(s: string, m: char, i: int)
    requires 0 <= i < |s|
  {
    s[i] == m && (i == 0 || !IsWordChar(s[i - 1])) && (i + 1 == |s| || !IsWordChar(s[i + 1]))
  }

  /** The characters of `s` from index `i` on, in order, less every standalone `m`. */
  function KeptFrom(s: string, m: char, i: nat): string
    requires i <= |s|
    decreases |s| - i
  {
    if i == |s| then []
    else (if StandaloneAt(s, m, i) then [] else [s[i]]) + KeptFrom(s, m, i + 1)
  }

  /** From any index on, the scan keeps what the filter keeps. */
  lemma {:induction false} DropStandaloneFrom(s: string, m: char, i: nat)
    requires i <= |s|
    ensures DropStandalone(s[i..], m, i > 0 && IsWordChar(s[i - 1])) == KeptFrom(s, m, i)
    decreases |s| - i
  {
    if i < |s| {
      var t := s[i..];
      assert t[0] == s[i] && t[1..] == s[i + 1..];
      if i + 1 < |s| {
        assert t[1] == s[i + 1];
      }
      DropStandaloneFrom(s, m, i + 1);
    }
  }

  /**
   * A standalone-marker pass deletes exactly the standalone copies of its
   * marker, at the ends of the text as well as inside it, and keeps every
   * other character in order.
   */
  lemma DropStandaloneExactly(s: string, m: char)
    ensures DropStandalone(s, m, false) == KeptFrom(s, m, 0)
  {
    DropStandaloneFrom(s, m, 0);
    assert s[0..] == s;
  }

  // ---------------------------------------------------------------------------
  // Pass 9: `(\d+)-(\d+)` -> `\1 to \2`
  // ---------------------------------------------------------------------------

  /** Length of the longest run of digits at the start of `s` (a greedy `\d*`). */
  function DigitRun(s: string): (n: nat)
    ensures n <= |s|
    ensures forall i | 0 <= i < n :: IsDigit(s[i])
    ensures n < |s| ==> !IsDigit(s[n])
  {
    if s != [] && IsDigit(s[0]) then 1 + DigitRun(s[1..]) else 0
  }

  /** `s` starts with `a` digits, a hyphen and `b` digits. */
  predicate IsRangeAt(s: string, a: int, b: int) {
    && 1 <= a && 1 <= b && a + 1 + b <= |s|
    && (forall i | 0 <= i < a :: IsDigit(s[i]))
    && s[a] == '-'
    && (forall i | a + 1 <= i < a + 1 + b :: IsDigit(s[i]))
  }

  /**
   * The range the pattern matches at the start of `s`, as the lengths of its
   * two numbers; the greedy second group takes every digit that follows.
   */
  function RangeAt(s: string): (r: Option<(nat, nat)>)
    ensures r.Some? ==> IsRangeAt(s, r.value.0, r.value.1)
    ensures r.Some? ==> var end := r.value.0 + 1 + r.value.1; end == |s| || !IsDigit(s[end])
    ensures r.None? ==> forall a, b :: !IsRangeAt(s, a, b)
  {
    var a := DigitRun(s);
    if 1 <= a < |s| && s[a] == '-' then
      var b := DigitRun(s[a + 1..]);
      if 1 <= b then Some((a, b)) else None
    else None
  }

  /** One pass of the range rewrite: each `<digits>-<digits>` becomes `<digits> to <digits>`. */
  function RewriteRanges(s: string): string
    decreases |s|
  {
    if s == [] then []
    else if RangeAt(s).Some? then
      var a, b := RangeAt(s).value.0, RangeAt(s).value.1;
      s[..a] + " to " + s[a + 1..a + 1 + b] + RewriteRanges(s[a + 1 + b..])
    else [s[0]] + RewriteRanges(s[1..])
  }

  /**
   * Each rewrite trades one hyphen for ` to `: the pass removes hyphens only,
   * and adds three characters per hyphen removed.
   */
  lemma {:induction false} RewriteRangesLength(s: string)
    ensures multiset(RewriteRanges(s))['-'] <= multiset(s)['-']
    ensures |RewriteRanges(s)| == |s| + 3 * (multiset(s)['-'] - multiset(RewriteRanges(s))['-'])
    decreases |s|
  {
    if s != [] {
      if RangeAt(s).Some? {
        var a, b := RangeAt(s).value.0, RangeAt(s).value.1;
        var rest := s[a + 1 + b..];
        RewriteRangesMatched(s, a, b);
        RangeRewriteHyphens(s, a, b, RewriteRanges(rest));
        RewriteRangesLength(rest);
      } else {
        assert s == [s[0]] + s[1..];
        RewriteRangesCopied(s);
        RewriteRangesLength(s[1..]);
      }
    }
  }

  /** The range pass at a match: the rewritten range, then the pass on what follows. */
  lemma RewriteRangesMatched(s: string, a: nat, b: nat)
    requires RangeAt(s) == Some((a, b))
    ensures RewriteRanges(s) == s[..a] + " to " + s[a + 1..a + 1 + b] + RewriteRanges(s[a + 1 + b..])
  {
    assert RangeAt(s).value.0 == a && RangeAt(s).value.1 == b;
    RewriteRangesStep(s, s[..a], s[a + 1..a + 1 + b], s[a + 1 + b..]);
  }

  lemma RewriteRangesStep(s: string, first: string, second: string, rest: string)
    requires s != [] && RangeAt(s).Some?
    requires var (a, b) := RangeAt(s).value;
      first == s[..a] && second == s[a + 1..a + 1 + b] && rest == s[a + 1 + b..]
    ensures RewriteRanges(s) == first + " to " + second + RewriteRanges(rest)
  {
    RewriteRangesUnfold(s);
  }

  /** The range pass where no range starts: the character, then the pass on the rest. */
  lemma RewriteRangesCopied(s: string)
    requires s != [] && RangeAt(s).None?
    ensures RewriteRanges(s) == [s[0]] + RewriteRanges(s[1..])
  {
  }

  /** Rewriting one range removes its hyphen and adds three characters. */
  lemma RangeRewriteHyphens(s: string, a: nat, b: nat, r: string)
    requires IsRangeAt(s, a, b)
    ensures multiset(s)['-'] == 1 + multiset(s[a + 1 + b..])['-']
    ensures multiset(s[..a] + " to " + s[a + 1..a + 1 + b] + r)['-'] == multiset(r)['-']
    ensures |s[..a] + " to " + s[a + 1..a + 1 + b] + r| == |s| + 3 + |r| - |s[a + 1 + b..]|
  {
    var first, second, rest := s[..a], s[a + 1..a + 1 + b], s[a + 1 + b..];
    assert s == first + "-" + second + rest;
    assert AllDigits(first) && AllDigits(second);
    DigitsHoldNoMarkup(first);
    DigitsHoldNoMarkup(second);
  }

  /** Rewriting one range keeps every character but the hyphen, the space, `t` and `o`. */
  lemma RangeRewriteKeeps(s: string, a: nat, b: nat, r: string)
    requires IsRangeAt(s, a, b)
    ensures forall c | c != '-' && c != ' ' && c != 't' && c != 'o' ::
      multiset(s[..a] + " to " + s[a + 1..a + 1 + b] + r)[c] + multiset(s[a + 1 + b..])[c]
      == multiset(s)[c] + multiset(r)[c]
  {
    var first, second, rest := s[..a], s[a + 1..a + 1 + b], s[a + 1 + b..];
    assert s == first + "-" + second + rest;
  }

  /**
   * `b` has as many of each character as `a`, except possibly for the hyphen
   * the range pass removes and the space, `t` and `o` it adds.
   */
  predicate KeepsOutsideRange(a: string, b: string) {
    forall c | c != '-' && c != ' ' && c != 't' && c != 'o' :: multiset(b)[c] == multiset(a)[c]
  }

  /**
   * The range pass keeps the count of every character other than the hyphen
   * it removes and the space, `t` and `o` it adds.
   */
  lemma {:induction false} RewriteRangesKeeps(s: string)
    ensures KeepsOutsideRange(s, RewriteRanges(s))
    decreases |s|
  {
    if s != [] {
      if RangeAt(s).Some? {
        var a, b := RangeAt(s).value.0, RangeAt(s).value.1;
        var rest := s[a + 1 + b..];
        RewriteRangesMatched(s, a, b);
        RewriteRangesKeeps(rest);
        RangeStepKeeps(s, a, b, RewriteRanges(rest));
      } else {
        RewriteRangesCopied(s);
        RewriteRangesKeeps(s[1..]);
        CopyStepKeeps(s, RewriteRanges(s[1..]));
      }
    }
  }

  /** A rewritten range before a remainder that kept its counts keeps the counts of the whole. */
  lemma RangeStepKeeps(s: string, a: nat, b: nat, r: string)
    requires IsRangeAt(s, a, b) && KeepsOutsideRange(s[a + 1 + b..], r)
    ensures KeepsOutsideRange(s, s[..a] + " to " + s[a + 1..a + 1 + b] + r)
  {
    RangeRewriteKeeps(s, a, b, r);
  }

  /** A copied first character before a remainder that kept its counts keeps the counts of the whole. */
  lemma CopyStepKeeps(s: string, r: string)
    requires s != [] && KeepsOutsideRange(s[1..], r)
    ensures KeepsOutsideRange(s, [s[0]] + r)
  {
    assert s == [s[0]] + s[1..];
  }

  // ---------------------------------------------------------------------------
  // The pipeline
  // ---------------------------------------------------------------------------

  /** The first eight passes: emphasis, code spans, links, then stray markers. */
  function Unmarked(text: string): string {
    var bold := StripPair(StripPair(text, "**"), "__");
    var italic := StripPair(StripPair(bold, "*"), "_");
    var code := StripPair(italic, "`");
    var linked := StripLinks(code);
    DropStandalone(DropStandalone(linked, '*', false), '_', false)
  }

  /** strip_markdown_for_tts: empty text is returned as it is; otherwise the nine passes in order. */
  function Strip(text: string): (r: string)
    ensures text == [] ==> r == []
  {
    if text == [] then text else RewriteRanges(Unmarked(text))
  }

  // ---------------------------------------------------------------------------
  // Properties
  // ---------------------------------------------------------------------------

  /** A pair pass leaves text without its marker character alone. */
  lemma {:induction false} StripPairUntouched(s: string, d: string)
    requires IsMarkerRun(d) && d[0] !in s
    ensures StripPair(s, d) == s
    decreases |s|
  {
    if s != [] {
      assert !StartsWith(s, d) by {
        if |d| <= |s| { assert s[..|d|][0] != d[0]; }
      }
      StripPairUntouched(s[1..], d);
    }
  }

  /** The link pass leaves text without `[` alone. */
  lemma {:induction false} StripLinksUntouched(s: string)
    requires '[' !in s
    ensures StripLinks(s) == s
    decreases |s|
  {
    if s != [] {
      StripLinksUntouched(s[1..]);
    }
  }

  /** A standalone-marker pass leaves text without its marker alone. */
  lemma {:induction false} DropStandaloneUntouched(s: string, m: char, afterWord: bool)
    requires m !in s
    ensures DropStandalone(s, m, afterWord) == s
    decreases |s|
  {
    if s != [] {
      DropStandaloneUntouched(s[1..], m, IsWordChar(s[0]));
    }
  }

  /** The range pass leaves text without a hyphen alone. */
  lemma {:induction false} RewriteRangesUntouched(s: string)
    requires '-' !in s
    ensures RewriteRanges(s) == s
    decreases |s|
  {
    if s != [] {
      RewriteRangesUntouched(s[1..]);
    }
  }

  /** Text with none of `*`, `_`, a backtick or `[` is only touched by the range rewrite. */
  lemma StripOnlyRanges(text: string)
    requires '*' !in text && '_' !in text && '`' !in text && '[' !in text
    ensures Strip(text) == RewriteRanges(text)
  {
    if text != [] {
      StripPairUntouched(text, "**");
      StripPairUntouched(text, "__");
      StripPairUntouched(text, "*");
      StripPairUntouched(text, "_");
      StripPairUntouched(text, "`");
      StripLinksUntouched(text);
      DropStandaloneUntouched(text, '*', false);
      DropStandaloneUntouched(text, '_', false);
    }
  }

  /** Text with none of `*`, `_`, a backtick, `[` or `-` passes through every stage unchanged. */
  lemma StripUntouched(text: string)
    requires '*' !in text && '_' !in text && '`' !in text && '[' !in text && '-' !in text
    ensures Strip(text) == text
  {
    StripOnlyRanges(text);
    RewriteRangesUntouched(text);
  }

  /** `b` is at most as long as `a` and holds no character more often than `a` does. */
  predicate Shrinks(a: string, b: string) {
    |b| <= |a| && forall c :: multiset(b)[c] <= multiset(a)[c]
  }

  lemma ShrinksTrans(a: string, b: string, c: string)
    requires Shrinks(a, b) && Shrinks(b, c)
    ensures Shrinks(a, c)
  {
  }

  lemma StripPairShrinks(s: string, d: string)
    requires IsMarkerRun(d)
    ensures Shrinks(s, StripPair(s, d))
  {
    StripPairCounts(s, d);
  }

  lemma DropStandaloneShrinks(s: string, m: char)
    ensures Shrinks(s, DropStandalone(s, m, false))
  {
    DropStandaloneCounts(s, m, false);
  }

  /** The four emphasis passes only delete characters. */
  lemma EmphasisShrinks(text: string)
    ensures Shrinks(text, StripPair(StripPair(StripPair(StripPair(text, "**"), "__"), "*"), "_"))
  {
    var p1 := StripPair(text, "**");
    var p2 := StripPair(p1, "__");
    var p3 := StripPair(p2, "*");
    StripPairShrinks(text, "**");
    StripPairShrinks(p1, "__");
    ShrinksTrans(text, p1, p2);
    StripPairShrinks(p2, "*");
    ShrinksTrans(text, p2, p3);
    StripPairShrinks(p3, "_");
    ShrinksTrans(text, p3, StripPair(p3, "_"));
  }

  /** The code, link and standalone-marker passes only delete characters. */
  lemma CleanupShrinks(s: string)
    ensures Shrinks(s, DropStandalone(DropStandalone(StripLinks(StripPair(s, "`")), '*', false), '_', false))
  {
    var p5 := StripPair(s, "`");
    var p6 := StripLinks(p5);
    var p7 := DropStandalone(p6, '*', false);
    StripPairShrinks(s, "`");
    StripLinksCounts(p5);
    ShrinksTrans(s, p5, p6);
    DropStandaloneShrinks(p6, '*');
    ShrinksTrans(s, p6, p7);
    DropStandaloneShrinks(p7, '_');
    ShrinksTrans(s, p7, DropStandalone(p7, '_', false));
  }

  /**
   * The first eight passes only delete characters: no character's count
   * grows, so neither does the length.
   */
  lemma UnmarkedDeletes(text: string)
    ensures |Unmarked(text)| <= |text|
    ensures forall c :: multiset(Unmarked(text))[c] <= multiset(text)[c]
  {
    var italic := StripPair(StripPair(StripPair(StripPair(text, "**"), "__"), "*"), "_");
    EmphasisShrinks(text);
    CleanupShrinks(italic);
    ShrinksTrans(text, italic, Unmarked(text));
  }

  /**
   * Without a hyphen in the input, the first eight passes cannot create one,
   * so the range pass finds nothing: the output keeps a subset of the input's
   * characters and is never longer.
   */
  lemma StripWithoutHyphenShrinks(text: string)
    requires '-' !in text
    ensures |Strip(text)| <= |text|
    ensures forall c :: multiset(Strip(text))[c] <= multiset(text)[c]
  {
    if text != [] {
      UnmarkedDeletes(text);
      var u := Unmarked(text);
      assert '-' !in u by {
        assert multiset(u)['-'] <= multiset(text)['-'] == 0;
      }
      RewriteRangesUntouched(u);
    }
  }

  /**
   * A span free of the marker and of line breaks, wrapped in the delimiter,
   * loses its delimiters and nothing else; the scan resumes after it.
   */
  lemma StripPairWrapped(d: string, w: string, rest: string)
    requires IsMarkerRun(d) && |w| >= 1 && d[0] !in w && '\n' !in w
    ensures StripPair(d + w + d + rest, d) == w + StripPair(rest, d)
  {
    var s := d + w + d + rest;
    WrappedSlices(d, w, rest);
    PairAtWrapped(d, w, rest);
    StripPairUnfold(s, d);
  }

  /** The content and the remainder of `d w d rest`, as slices. */
  lemma WrappedSlices(d: string, w: string, rest: string)
    ensures var s := d + w + d + rest; s[|d|..|d| + |w|] == w && s[|d| + |w| + |d|..] == rest
  {
  }

  /** The delimiter, such a span and the delimiter again match at the start, capturing the span. */
  lemma PairAtWrapped(d: string, w: string, rest: string)
    requires IsMarkerRun(d) && |w| >= 1 && d[0] !in w && '\n' !in w
    ensures PairAt(d + w + d + rest, d) == Some(|w|)
  {
    var s := d + w + d + rest;
    assert s[|d|..] == w + d + rest;
    LazyCloseAfterSpan(d, w, rest);
    assert s[..|d|] == d;
  }

  /** The non-greedy search over a span free of the marker and of line breaks stops right after it. */
  lemma LazyCloseAfterSpan(d: string, w: string, rest: string)
    requires IsMarkerRun(d) && |w| >= 1 && d[0] !in w && '\n' !in w
    ensures LazyClose(w + d + rest, d, 1) == Some(|w|)
  {
    var t := w + d + rest;
    assert ClosesAt(t, d, |w|) by {
      assert t[..|w|] == w;
      assert t[|w|..|w| + |d|] == d;
    }
    forall j | 1 <= j < |w| ensures !ClosesAt(t, d, j) {
      assert t[j..j + |d|][0] == w[j] != d[0];
    }
    LazyCloseShortest(t, d, 1);
  }

  /** The pair pass at a match: the content, then the pass on what follows the closing delimiter. */
  lemma StripPairMatched(s: string, d: string, k: nat)
    requires |d| >= 1 && PairAt(s, d) == Some(k)
    ensures StripPair(s, d) == s[|d|..|d| + k] + StripPair(s[|d| + k + |d|..], d)
  {
    assert PairAt(s, d).value == k;
    StripPairStep(s, d, s[|d|..|d| + k], s[|d| + k + |d|..]);
  }

  lemma StripPairStep(s: string, d: string, content: string, rest: string)
    requires |d| >= 1 && s != [] && PairAt(s, d).Some?
    requires content == s[|d|..|d| + PairAt(s, d).value] && rest == s[|d| + PairAt(s, d).value + |d|..]
    ensures StripPair(s, d) == content + StripPair(rest, d)
  {
    StripPairUnfold(s, d);
  }

  /** One step of a pair pass on non-empty text. */
  lemma StripPairUnfold(s: string, d: string)
    requires |d| >= 1 && s != []
    ensures StripPair(s, d) ==
      if PairAt(s, d).Some? then s[|d|..|d| + PairAt(s, d).value] + StripPair(s[|d| + PairAt(s, d).value + |d|..], d)
      else [s[0]] + StripPair(s[1..], d)
  {
  }

  /**
   * A link `[anchor](target)` with a non-empty anchor free of `]` and a
   * non-empty target free of `)` is replaced by its anchor.
   */
  lemma StripLinksWrapped(anchor: string, target: string, rest: string)
    requires |anchor| >= 1 && ']' !in anchor && |target| >= 1 && ')' !in target
    ensures StripLinks("[" + anchor + "](" + target + ")" + rest) == anchor + StripLinks(rest)
  {
    LinkSlices(anchor, target, rest);
    LinkAtSpelled(anchor, target, rest);
    StripLinksLinked("[" + anchor + "](" + target + ")" + rest);
  }

  /** The pieces of `[anchor](target)rest`, read back by position. */
  lemma LinkSlices(anchor: string, target: string, rest: string)
    ensures var s := "[" + anchor + "](" + target + ")" + rest;
      && s[1..1 + |anchor|] == anchor && s[4 + |anchor| + |target|..] == rest
  {
  }

  /** The link pattern at the start of `[anchor](target)rest` takes exactly the anchor and the target. */
  lemma LinkAtSpelled(anchor: string, target: string, rest: string)
    requires |anchor| >= 1 && ']' !in anchor && |target| >= 1 && ')' !in target
    ensures LinkAt("[" + anchor + "](" + target + ")" + rest) == Some((|anchor|, |target|))
  {
    var s := "[" + anchor + "](" + target + ")" + rest;
    var l, u := |anchor|, |target|;
    assert IsLinkAt(s, l, u) by {
      assert forall i | 1 <= i < 1 + l :: s[i] == anchor[i - 1];
      assert forall i | 3 + l <= i < 3 + l + u :: s[i] == target[i - 3 - l];
    }
    LinkAtMatches(s);
  }

  /**
   * Two numbers joined by a hyphen, not followed by a further digit, are
   * rewritten to `<first> to <second>`; the scan resumes after the second.
   */
  lemma RewriteRangesAt(a: string, b: string, rest: string)
    requires |a| >= 1 && AllDigits(a) && |b| >= 1 && AllDigits(b)
    requires rest == [] || !IsDigit(rest[0])
    ensures RewriteRanges(a + "-" + b + rest) == a + " to " + b + RewriteRanges(rest)
  {
    var s := a + "-" + b + rest;
    RangeSlices(a, b, rest);
    RangeAtSpelled(a, b, rest);
    RewriteRangesUnfold(s);
  }

  /** One step of the range pass on non-empty text. */
  lemma RewriteRangesUnfold(s: string)
    requires s != []
    ensures RewriteRanges(s) ==
      if RangeAt(s).Some? then
        s[..RangeAt(s).value.0] + " to "
          + s[RangeAt(s).value.0 + 1..RangeAt(s).value.0 + 1 + RangeAt(s).value.1]
          + RewriteRanges(s[RangeAt(s).value.0 + 1 + RangeAt(s).value.1..])
      else [s[0]] + RewriteRanges(s[1..])
  {
  }

  /** The pieces of `a-b rest`, read back by position. */
  lemma RangeSlices(a: string, b: string, rest: string)
    ensures var s := a + "-" + b + rest;
      && s[..|a|] == a && s[|a|] == '-'
      && s[|a| + 1..|a| + 1 + |b|] == b && s[|a| + 1 + |b|..] == rest
  {
  }

  /** The range pattern at the start of `a-b rest` takes exactly `a` and `b`. */
  lemma RangeAtSpelled(a: string, b: string, rest: string)
    requires |a| >= 1 && AllDigits(a) && |b| >= 1 && AllDigits(b)
    requires rest == [] || !IsDigit(rest[0])
    ensures RangeAt(a + "-" + b + rest) == Some((|a|, |b|))
  {
    var s := a + "-" + b + rest;
    var n, m := |a|, |b|;
    assert IsRangeAt(s, n, m) by {
      assert forall i | 0 <= i < n :: s[i] == a[i];
      assert forall i | n + 1 <= i < n + 1 + m :: s[i] == b[i - n - 1];
    }
    assert n + 1 + m == |s| || !IsDigit(s[n + 1 + m]);
    var r := RangeAt(s);
    assert r.Some?;
    var (n', m') := r.value;
  }

  /** A character that is not a digit cannot begin a range and is copied. */
  lemma RewriteRangesSkip(c: char, rest: string)
    requires !IsDigit(c)
    ensures RewriteRanges([c] + rest) == [c] + RewriteRanges(rest)
  {
    assert ([c] + rest)[1..] == rest;
  }

  /** Text that holds none of the characters any pass looks for. */
  predicate Plain(w: string) {
    '*' !in w && '_' !in w && '`' !in w && '[' !in w && '-' !in w && '\n' !in w
  }

  /** Plain text in bold, `**w**`, reads as `w`. */
  lemma StripBold(w: string)
    requires |w| >= 1 && Plain(w)
    ensures Strip("**" + w + "**") == w
  {
    StripPairWrapped("**", w, "");
    assert "**" + w + "**" + "" == "**" + w + "**";
    assert StripPair("", "**") == "";
    assert w + "" == w;
    StripPairUntouched(w, "__");
    StripPairUntouched(w, "*");
    StripPairUntouched(w, "_");
    StripPairUntouched(w, "`");
    StripLinksUntouched(w);
    DropStandaloneUntouched(w, '*', false);
    DropStandaloneUntouched(w, '_', false);
    RewriteRangesUntouched(w);
  }

  /** Text without emphasis markers or backticks is untouched by the first five passes. */
  lemma StripFromLinks(text: string)
    requires text != [] && '*' !in text && '_' !in text && '`' !in text
    ensures Strip(text) == RewriteRanges(DropStandalone(DropStandalone(StripLinks(text), '*', false), '_', false))
  {
    StripPairUntouched(text, "**");
    StripPairUntouched(text, "__");
    StripPairUntouched(text, "*");
    StripPairUntouched(text, "_");
    StripPairUntouched(text, "`");
  }

  /**
   * A link `[anchor](target)` reads as its anchor, when the anchor is plain
   * text without `]` and the target holds no `)` and no emphasis marker.
   */
  lemma StripLink(anchor: string, target: string)
    requires |anchor| >= 1 && Plain(anchor) && ']' !in anchor
    requires |target| >= 1 && ')' !in target && '*' !in target && '_' !in target && '`' !in target
    ensures Strip("[" + anchor + "](" + target + ")") == anchor
  {
    var s := "[" + anchor + "](" + target + ")";
    StripFromLinks(s);
    StripLinksWrapped(anchor, target, "");
    assert s + "" == s;
    assert StripLinks("") == "";
    assert anchor + "" == anchor;
    DropStandaloneUntouched(anchor, '*', false);
    DropStandaloneUntouched(anchor, '_', false);
    RewriteRangesUntouched(anchor);
  }

  /** A string of digits holds no character that a markdown pass looks for. */
  lemma DigitsHoldNoMarkup(a: string)
    requires AllDigits(a)
    ensures '*' !in a && '_' !in a && '`' !in a && '[' !in a && '-' !in a
  {
  }

  /** Two numbers joined by a hyphen read as `<first> to <second>`. */
  lemma StripRange(a: string, b: string)
    requires |a| >= 1 && AllDigits(a) && |b| >= 1 && AllDigits(b)
    ensures Strip(a + "-" + b) == a + " to " + b
  {
    DigitsHoldNoMarkup(a);
    DigitsHoldNoMarkup(b);
    StripOnlyRanges(a + "-" + b);
    RewriteRangesAt(a, b, "");
    assert a + "-" + b == a + "-" + b + "";
  }

  /** The range pass on three numbers joined by hyphens rewrites the first pair only. */
  lemma RewriteChainedRange(a: string, b: string, c: string)
    requires |a| >= 1 && AllDigits(a) && |b| >= 1 && AllDigits(b) && AllDigits(c)
    ensures RewriteRanges(a + "-" + b + "-" + c) == a + " to " + b + "-" + c
  {
    var tail := "-" + c;
    assert tail[0] == '-';
    RewriteRangesAt(a, b, tail);
    RewriteHyphenDigits(c);
    calc {
      RewriteRanges(a + "-" + b + "-" + c);
      { assert a + "-" + b + "-" + c == a + "-" + b + tail; }
      RewriteRanges(a + "-" + b + tail);
      a + " to " + b + RewriteRanges(tail);
      a + " to " + b + tail;
      { assert a + " to " + b + tail == a + " to " + b + "-" + c; }
      a + " to " + b + "-" + c;
    }
  }

  /** A hyphen followed by digits alone is not a range. */
  lemma RewriteHyphenDigits(c: string)
    requires AllDigits(c)
    ensures RewriteRanges("-" + c) == "-" + c
  {
    RewriteRangesSkip('-', c);
    DigitsHoldNoMarkup(c);
    RewriteRangesUntouched(c);
  }

  /**
   * Matches do not overlap: of three numbers joined by hyphens only the first
   * pair is rewritten, since the scan resumes after the second number.
   */
  lemma StripChainedRange(a: string, b: string, c: string)
    requires |a| >= 1 && AllDigits(a) && |b| >= 1 && AllDigits(b) && AllDigits(c)
    ensures Strip(a + "-" + b + "-" + c) == a + " to " + b + "-" + c
  {
    DigitsHoldNoMarkup(a);
    DigitsHoldNoMarkup(b);
    DigitsHoldNoMarkup(c);
    StripOnlyRanges(a + "-" + b + "-" + c);
    RewriteChainedRange(a, b, c);
  }

  /** A pair pass copies a prefix free of its marker character and goes on after it. */
  lemma {:induction false} StripPairPrefix(p: string, rest: string, d: string)
    requires IsMarkerRun(d) && d[0] !in p
    ensures StripPair(p + rest, d) == p + StripPair(rest, d)
    decreases |p|
  {
    if p == [] {
      assert p + rest == rest;
    } else {
      var s := p + rest;
      assert s[0] == p[0] && s[1..] == p[1..] + rest;
      assert !StartsWith(s, d) by {
        if |d| <= |s| {
          assert s[..|d|][0] != d[0];
        }
      }
      assert PairAt(s, d).None?;
      assert StripPair(s, d) == [s[0]] + StripPair(s[1..], d);
      StripPairPrefix(p[1..], rest, d);
      assert [p[0]] + (p[1..] + StripPair(rest, d)) == p + StripPair(rest, d);
    }
  }

  /**
   * A doubled delimiter finds nothing in a lone marker, a span free of it and
   * a lone marker again: the bold passes leave `*w*` and `_w_` alone.
   */
  lemma StripPairLone(m: char, w: string, d: string)
    requires IsMarkerRun(d) && |d| >= 2 && d[0] == m && |w| >= 1 && m !in w
    ensures StripPair([m] + w + [m], d) == [m] + w + [m]
  {
    var s := [m] + w + [m];
    assert s[1] == w[0] && s[1..] == w + [m];
    assert !StartsWith(s, d) by {
      if |d| <= |s| {
        assert s[..|d|][1] != d[1];
      }
    }
    StripPairPrefix(w, [m], d);
    assert !StartsWith([m], d);
    assert StripPair([m], d) == [m] + StripPair([m][1..], d);
    assert [m][1..] == [];
  }

  /** Plain text in italics, `*w*` or `_w_`, reads as `w`: the bold passes leave it to the italic ones. */
  lemma StripItalic(m: char, w: string)
    requires (m == '*' || m == '_') && |w| >= 1 && Plain(w)
    ensures Strip([m] + w + [m]) == w
  {
    if m == '*' {
      StripItalicStar(w);
    } else {
      StripItalicUnderscore(w);
    }
  }

  /** `*w*` reads as `w`. */
  lemma StripItalicStar(w: string)
    requires |w| >= 1 && Plain(w)
    ensures Strip(['*'] + w + ['*']) == w
  {
    var s := ['*'] + w + ['*'];
    StripPairLone('*', w, "**");
    StripPairUntouched(s, "__");
    StripPairWrapped("*", w, "");
    assert "*" + w + "*" + "" == s;
    assert StripPair("", "*") == "";
    assert w + "" == w;
    PlainUntouched(w);
  }

  /** `_w_` reads as `w`. */
  lemma StripItalicUnderscore(w: string)
    requires |w| >= 1 && Plain(w)
    ensures Strip(['_'] + w + ['_']) == w
  {
    var s := ['_'] + w + ['_'];
    StripPairUntouched(s, "**");
    StripPairLone('_', w, "__");
    StripPairUntouched(s, "*");
    StripPairWrapped("_", w, "");
    assert "_" + w + "_" + "" == s;
    assert StripPair("", "_") == "";
    assert w + "" == w;
    StripPairUntouched(w, "`");
    StripLinksUntouched(w);
    DropStandaloneUntouched(w, '*', false);
    DropStandaloneUntouched(w, '_', false);
    RewriteRangesUntouched(w);
  }

  /** Plain text is left alone by the passes from the italic underscore on. */
  lemma PlainUntouched(w: string)
    requires Plain(w)
    ensures RewriteRanges(DropStandalone(DropStandalone(StripLinks(StripPair(StripPair(w, "_"), "`")), '*', false), '_', false)) == w
  {
    StripPairUntouched(w, "_");
    StripPairUntouched(w, "`");
    StripLinksUntouched(w);
    DropStandaloneUntouched(w, '*', false);
    DropStandaloneUntouched(w, '_', false);
    RewriteRangesUntouched(w);
  }

  /** Plain text in a code span, `` `w` ``, reads as `w`. */
  lemma StripCode(w: string)
    requires |w| >= 1 && Plain(w)
    ensures Strip("`" + w + "`") == w
  {
    var s := "`" + w + "`";
    StripPairUntouched(s, "**");
    StripPairUntouched(s, "__");
    StripPairUntouched(s, "*");
    StripPairUntouched(s, "_");
    StripPairWrapped("`", w, "");
    assert s + "" == s;
    assert StripPair("", "`") == "";
    assert w + "" == w;
    StripLinksUntouched(w);
    DropStandaloneUntouched(w, '*', false);
    DropStandaloneUntouched(w, '_', false);
    RewriteRangesUntouched(w);
  }

  /** A character absent from two strings is absent from their concatenation. */
  lemma FreeConcat(c: char, x: string, y: string)
    requires c !in x && c !in y
    ensures c !in x + y
  {
  }

  /** `__a__ mid _b_`: the bold pass removes the double underscores and leaves the single ones. */
  lemma MixedBoldPass(a: string, mid: string, b: string)
    requires |a| >= 1 && Plain(a) && Plain(mid) && |b| >= 1 && Plain(b)
    ensures StripPair(StripPair("__" + a + "__" + mid + "_" + b + "_", "**"), "__") == a + mid + "_" + b + "_"
  {
    MixedRegroup(a, mid, b);
    MixedNoStar(a, mid, b);
    MixedDoubleUnderscore(a, mid, b);
  }

  /** The two groupings of the mixed text, before and after the bold pass, agree. */
  lemma MixedRegroup(a: string, mid: string, b: string)
    ensures "__" + a + "__" + mid + "_" + b + "_" == "__" + a + "__" + (mid + (['_'] + b + ['_']))
    ensures a + (mid + (['_'] + b + ['_'])) == a + mid + "_" + b + "_"
  {
    var italic := ['_'] + b + ['_'];
    assert "_" + b + "_" == italic;
    assert "__" + a + "__" + mid + italic == "__" + a + "__" + (mid + italic);
    assert a + mid + italic == a + (mid + italic);
  }

  /** The double-asterisk pass finds nothing in `__a__ mid _b_`. */
  lemma MixedNoStar(a: string, mid: string, b: string)
    requires Plain(a) && Plain(mid) && Plain(b)
    ensures var s := "__" + a + "__" + (mid + (['_'] + b + ['_'])); StripPair(s, "**") == s
  {
    var italic := ['_'] + b + ['_'];
    FreeConcat('*', "__", a);
    FreeConcat('*', "__" + a, "__");
    FreeConcat('*', ['_'], b);
    FreeConcat('*', ['_'] + b, ['_']);
    FreeConcat('*', mid, italic);
    FreeConcat('*', "__" + a + "__", mid + italic);
    StripPairUntouched("__" + a + "__" + (mid + italic), "**");
  }

  /** The double-underscore pass on `__a__ mid _b_` keeps `a`, `mid` and the single underscores. */
  lemma MixedDoubleUnderscore(a: string, mid: string, b: string)
    requires |a| >= 1 && Plain(a) && Plain(mid) && |b| >= 1 && Plain(b)
    ensures StripPair("__" + a + "__" + (mid + (['_'] + b + ['_'])), "__") == a + (mid + (['_'] + b + ['_']))
  {
    var italic := ['_'] + b + ['_'];
    StripPairWrapped("__", a, mid + italic);
    StripPairPrefix(mid, italic, "__");
    StripPairLone('_', b, "__");
  }

  /** `a mid _b_` with plain parts: the italic underscore pass removes the single underscores. */
  lemma MixedItalicPass(a: string, mid: string, b: string)
    requires Plain(a) && Plain(mid) && |b| >= 1 && Plain(b)
    ensures StripPair(StripPair(a + mid + "_" + b + "_", "*"), "_") == a + mid + b
  {
    var head := a + mid;
    var italic := "_" + b + "_" + "";
    var s := head + italic;
    assert a + mid + "_" + b + "_" == s;
    FreeConcat('*', a, mid);
    FreeConcat('_', a, mid);
    FreeConcat('*', head, italic);
    StripPairUntouched(s, "*");
    StripPairPrefix(head, italic, "_");
    StripPairWrapped("_", b, "");
    assert StripPair("", "_") == "";
    assert head + (b + "") == a + mid + b;
  }

  /** Bold and italic underscores in one text, `__a__ mid _b_`, read as `a mid b`. */
  lemma StripBoldThenItalic(a: string, mid: string, b: string)
    requires |a| >= 1 && Plain(a) && Plain(mid) && |b| >= 1 && Plain(b)
    ensures Strip("__" + a + "__" + mid + "_" + b + "_") == a + mid + b
  {
    MixedBoldPass(a, mid, b);
    MixedItalicPass(a, mid, b);
    var w := a + mid + b;
    assert Plain(w);
    StripPairUntouched(w, "`");
    StripLinksUntouched(w);
    DropStandaloneUntouched(w, '*', false);
    DropStandaloneUntouched(w, '_', false);
    RewriteRangesUntouched(w);
  }

  /** No range starts in a prefix without hyphens that does not end in a digit. */
  lemma NoRangeInPrefix(p: string, rest: string)
    requires p != [] && '-' !in p && !IsDigit(p[|p| - 1])
    ensures RangeAt(p + rest).None?
  {
    var s := p + rest;
    forall x, y ensures !IsRangeAt(s, x, y) {
      if 0 <= x < |p| {
        assert s[x] == p[x] && p[x] in p;
      } else if x >= |p| {
        assert s[|p| - 1] == p[|p| - 1];
      }
    }
  }

  /** The range pass copies a prefix without hyphens that does not end in a digit. */
  lemma {:induction false} RewriteRangesPrefix(p: string, rest: string)
    requires '-' !in p && (p == [] || !IsDigit(p[|p| - 1]))
    ensures RewriteRanges(p + rest) == p + RewriteRanges(rest)
    decreases |p|
  {
    if p == [] {
      assert p + rest == rest;
    } else {
      var s := p + rest;
      NoRangeInPrefix(p, rest);
      RewriteRangesCopied(s);
      assert s[0] == p[0] && s[1..] == p[1..] + rest;
      var tail := p[1..];
      assert '-' !in tail by {
        assert forall c | c in tail :: c in p;
      }
      assert tail == [] || tail[|tail| - 1] == p[|p| - 1];
      RewriteRangesPrefix(tail, rest);
      assert [p[0]] + (tail + RewriteRanges(rest)) == p + RewriteRanges(rest);
    }
  }

  /** `s` holds none of the characters the first eight passes look for. */
  predicate NoMarkup(s: string) {
    '*' !in s && '_' !in s && '`' !in s && '[' !in s
  }

  /** Text free of markup stays so when joined. */
  lemma NoMarkupConcat(x: string, y: string)
    requires NoMarkup(x) && NoMarkup(y)
    ensures NoMarkup(x + y)
  {
  }

  /**
   * A range inside a sentence: `p a-b q`, with `p` and `q` free of markup and
   * hyphens and no digit touching the range from outside, reads as
   * `p a to b q`.
   */
  lemma StripRangeInText(p: string, a: string, b: string, q: string)
    requires NoMarkup(p) && '-' !in p && (p == [] || !IsDigit(p[|p| - 1]))
    requires NoMarkup(q) && '-' !in q && (q == [] || !IsDigit(q[0]))
    requires |a| >= 1 && AllDigits(a) && |b| >= 1 && AllDigits(b)
    ensures Strip(p + a + "-" + b + q) == p + a + " to " + b + q
  {
    RangeTextRegroup(p, a, b, q);
    RangeTextNoMarkup(p, a, b, q);
    StripOnlyRanges(p + (a + "-" + b + q));
    RangeTextRewrite(p, a, b, q);
  }

  /** The sentence around a range, grouped as prefix and the rest, before and after the rewrite. */
  lemma RangeTextRegroup(p: string, a: string, b: string, q: string)
    ensures p + a + "-" + b + q == p + (a + "-" + b + q)
    ensures p + (a + " to " + b + q) == p + a + " to " + b + q
  {
  }

  /** A sentence around a range holds no emphasis, code or link character. */
  lemma RangeTextNoMarkup(p: string, a: string, b: string, q: string)
    requires NoMarkup(p) && NoMarkup(q) && AllDigits(a) && AllDigits(b)
    ensures NoMarkup(p + (a + "-" + b + q))
  {
    DigitsHoldNoMarkup(a);
    DigitsHoldNoMarkup(b);
    NoMarkupConcat(a, "-");
    NoMarkupConcat(a + "-", b);
    NoMarkupConcat(a + "-" + b, q);
    NoMarkupConcat(p, a + "-" + b + q);
  }

  /** The range pass on a sentence rewrites the range only. */
  lemma RangeTextRewrite(p: string, a: string, b: string, q: string)
    requires '-' !in p && (p == [] || !IsDigit(p[|p| - 1]))
    requires '-' !in q && (q == [] || !IsDigit(q[0]))
    requires |a| >= 1 && AllDigits(a) && |b| >= 1 && AllDigits(b)
    ensures RewriteRanges(p + (a + "-" + b + q)) == p + (a + " to " + b + q)
  {
    RewriteRangesPrefix(p, a + "-" + b + q);
    RewriteRangesAt(a, b, q);
    RewriteRangesUntouched(q);
  }

  /** `*italic*` reads as `italic`. */
  lemma StripItalicExample()
    ensures Strip("*" + "italic" + "*") == "italic"
  {
    StripItalic('*', "italic");
  }

  /** `` `code` `` reads as `code`. */
  lemma StripCodeExample()
    ensures Strip("`" + "code" + "`") == "code"
  {
    StripCode("code");
  }

  /** `__b__ and _i_` reads as `b and i`. */
  lemma StripBoldThenItalicExample()
    ensures Strip("__" + "b" + "__" + " and " + "_" + "i" + "_") == "b" + " and " + "i"
  {
    StripBoldThenItalic("b", " and ", "i");
  }

  /** `score 100-99 today` reads as `score 100 to 99 today`. */
  lemma StripRangeInTextExample()
    ensures Strip("score " + "100" + "-" + "99" + " today") == "score " + "100" + " to " + "99" + " today"
  {
    StripRangeInText("score ", "100", "99", " today");
  }

  /** `**bold**` reads as `bold`. */
  lemma StripBoldExample()
    ensures Strip("**" + "bold" + "**") == "bold"
  {
    StripBold("bold");
  }

  /** `[click here](http://x.com)` reads as `click here`. */
  lemma StripLinkExample()
    ensures Strip("[" + "click here" + "](" + "http://x.com" + ")") == "click here"
  {
    StripLink("click here", "http://x.com");
  }

  /** `30-23` reads as `30 to 23`. */
  lemma StripScoreExample()
    ensures Strip("30" + "-" + "23") == "30" + " to " + "23"
  {
    StripRange("30", "23");
  }

  /** `1-2-3` reads as `1 to 2-3`. */
  lemma StripChainedRangeExample()
    ensures Strip("1" + "-" + "2" + "-" + "3") == "1" + " to " + "2" + "-" + "3"
  {
    StripChainedRange("1", "2", "3");
  }

  /** `1 to 2-3`, the result of stripping `1-2-3`, still holds a range. */
  lemma StripChainedAgain()
    ensures Strip("1" + " to " + "2" + "-" + "3") == "1" + " to " + "2" + " to " + "3"
  {
    StripRangeInText("1" + " to ", "2", "3", "");
    assert ("1" + " to ") + "2" + "-" + "3" + "" == "1" + " to " + "2" + "-" + "3";
    assert ("1" + " to ") + "2" + " to " + "3" + "" == "1" + " to " + "2" + " to " + "3";
  }

  /**
   * Stripping is not idempotent: the second range of a chain survives one
   * application and is rewritten by the next.
   */
  lemma StripNotIdempotent()
    ensures Strip("1" + "-" + "2" + "-" + "3") == "1" + " to " + "2" + "-" + "3"
    ensures Strip(Strip("1" + "-" + "2" + "-" + "3")) == "1" + " to " + "2" + " to " + "3"
    ensures Strip(Strip("1" + "-" + "2" + "-" + "3")) != Strip("1" + "-" + "2" + "-" + "3")
  {
    StripChainedRangeExample();
    StripChainedAgain();
    assert |"1" + " to " + "2" + "-" + "3"| != |"1" + " to " + "2" + " to " + "3"|;
  }
}
