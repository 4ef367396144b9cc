/** Turning podcast episode titles into game names
    (`extract_game_names_from_episodes` in scripts/automated_tierlist_updater.py).

    Two regular-expression substitutions are applied, then `strip()`, then an
    exact-match alias table.  Each regular expression is described twice: as a
    declarative predicate saying which spans of the title its pattern matches,
    and as a scanning function that reproduces the engine's choice among them;
    the contracts of the scanning functions connect the two. */
module Titles {
  import opened Text

  /** One feed entry, as the feed reader hands it over. */
  datatype Episode = Episode(title: string, pubDate: string)

  // ---------------------------------------------------------------------
  // The episode-number prefix `^(Episode\s*\d+:?\s*|Ep\.?\s*\d+:?\s*)`

  /** `a`, `b`, `c` split `s[i..j]` into `\s*`, `\d+`, `:?` and `\s*`. */
  ghost predicate NumberTailWitness(s: string, i: nat, j: nat, a: nat, b: nat, c: nat) {
    && i <= a < b <= c <= j <= |s|
    && AllIn(PySpace, s, i, a)
    && AllIn(Digit, s, a, b)
    && (c == b || (c == b + 1 && s[b] == ':'))
    && AllIn(PySpace, s, c, j)
  }

  /** `\s*\d+:?\s*` matches `s[i..j]` exactly. */
  ghost predicate NumberTailSpans(s: string, i: nat, j: nat) {
    exists a: nat, b: nat, c: nat :: NumberTailWitness(s, i, j, a, b, c)
  }

  /** Whatever split a match of `\s*\d+:?\s*` at `i` uses, it ends no later
      than the greedy one: each greedy run stops at a character the next
      part of the pattern cannot absorb. */
  lemma NumberTailGreedy(s: string, i: nat, j: nat, a: nat, b: nat, c: nat)
    requires i <= |s|
    requires NumberTailWitness(s, i, j, a, b, c)
    ensures var a0 := SkipWhile(PySpace, s, i);
            var b0 := SkipWhile(Digit, s, a0);
            var c0 := if b0 < |s| && s[b0] == ':' then b0 + 1 else b0;
            a0 < b0 && j <= SkipWhile(PySpace, s, c0)
  {
    var a0 := SkipWhile(PySpace, s, i);
    var b0 := SkipWhile(Digit, s, a0);
    var c0 := if b0 < |s| && s[b0] == ':' then b0 + 1 else b0;
    var e0 := SkipWhile(PySpace, s, c0);
    assert IsDigit(s[a]) && !IsPySpace(s[a]);
    assert a0 < |s| ==> !IsPySpace(s[a0]);
    assert a == a0;
    assert b < b0 ==> IsDigit(s[b]) && !IsPySpace(s[b]) && s[b] != ':';
    assert b0 < |s| ==> !IsDigit(s[b0]);
    assert b == b0 || j == b;
    assert c0 == b0 + 1 ==> !IsPySpace(s[b0]);
    assert e0 < |s| ==> !IsPySpace(s[e0]);
    assert j <= e0;
  }

  /** End of the greedy match of `\s*\d+:?\s*` at `i`, if the pattern matches there. */
  function NumberTailEnd(s: string, i: nat): (r: Option<nat>)
    requires i <= |s|
    ensures r.Some? ==> i < r.value <= |s|
  {
    var a := SkipWhile(PySpace, s, i);
    var b := SkipWhile(Digit, s, a);
    var c := if b < |s| && s[b] == ':' then b + 1 else b;
    if a == b then None else Some(SkipWhile(PySpace, s, c))
  }

  /** The greedy scan finds a match exactly when there is one, and then the
      longest. */
  lemma NumberTailEndLongest(s: string, i: nat)
    requires i <= |s|
    ensures NumberTailEnd(s, i).Some? ==> NumberTailSpans(s, i, NumberTailEnd(s, i).value)
    ensures forall j: nat :: NumberTailSpans(s, i, j) ==> NumberTailEnd(s, i).Some? && j <= NumberTailEnd(s, i).value
  {
    var a := SkipWhile(PySpace, s, i);
    var b := SkipWhile(Digit, s, a);
    var c := if b < |s| && s[b] == ':' then b + 1 else b;
    var e := SkipWhile(PySpace, s, c);
    forall j: nat | NumberTailSpans(s, i, j) ensures a < b && j <= e {
      var a', b', c' :| NumberTailWitness(s, i, j, a', b', c');
      NumberTailGreedy(s, i, j, a', b', c');
    }
    if a < b {
      assert NumberTailWitness(s, i, e, a, b, c);
    }
  }

  /** `s[..j]` is matched by the episode-number pattern (case-insensitively). */
  ghost predicate EpisodePrefixSpans(s: string, j: nat) {
    || (LiteralAtIgnoreCase(s, 0, "episode") && NumberTailSpans(s, 7, j))
    || (LiteralAtIgnoreCase(s, 0, "ep") && NumberTailSpans(s, 2, j))
    || (LiteralAtIgnoreCase(s, 0, "ep") && 2 < |s| && s[2] == '.' && NumberTailSpans(s, 3, j))
  }

  /** End of the episode-number prefix when the pattern matches at the start
      of the title: the alternative that applies, matched greedily. */
  function EpisodePrefixEnd(s: string): (r: Option<nat>)
    ensures r.Some? ==> r.value <= |s|
  {
    if LiteralAtIgnoreCase(s, 0, "episode") then NumberTailEnd(s, 7)
    else if LiteralAtIgnoreCase(s, 0, "ep") && 2 < |s| && s[2] == '.' then NumberTailEnd(s, 3)
    else if LiteralAtIgnoreCase(s, 0, "ep") then NumberTailEnd(s, 2)
    else None
  }

  /** The first substitution of the title cleanup. */
  function StripEpisodePrefix(s: string): (r: string)
    ensures |r| <= |s| && r == s[|s| - |r|..]
  {
    match EpisodePrefixEnd(s)
    case None => s
    case Some(k) => s[k..]
  }

  /** The first substitution removes the longest prefix the episode-number
      pattern matches, or nothing when it matches no prefix.  The alternatives
      exclude each other (after "ep" the first needs an 'i', the second a
      space or digit, the third a '.'), so the engine's greedy choice is the
      longest match. */
  lemma StripEpisodePrefixRemovesLongestMatch(s: string)
    ensures var k := |s| - |StripEpisodePrefix(s)|;
      && (k == 0 || EpisodePrefixSpans(s, k))
      && forall j: nat :: k < j ==> !EpisodePrefixSpans(s, j)
  {
    EpisodePrefixEndLongest(s);
    var k := |s| - |StripEpisodePrefix(s)|;
    if EpisodePrefixEnd(s).Some? {
      assert k == EpisodePrefixEnd(s).value;
    } else {
      assert k == 0;
    }
  }

  /** The end the scan finds is that of the longest match of the pattern. */
  lemma EpisodePrefixEndLongest(s: string)
    ensures EpisodePrefixEnd(s).Some? ==> EpisodePrefixSpans(s, EpisodePrefixEnd(s).value)
    ensures forall j: nat :: EpisodePrefixSpans(s, j) ==> EpisodePrefixEnd(s).Some? && j <= EpisodePrefixEnd(s).value
  {
    var long := LiteralAtIgnoreCase(s, 0, "episode");
    var short := LiteralAtIgnoreCase(s, 0, "ep");
    var start: nat := if long then 7 else if short && 2 < |s| && s[2] == '.' then 3 else 2;
    if long || short {
      NumberTailEndLongest(s, start);
      assert EpisodePrefixEnd(s) == NumberTailEnd(s, start);
      forall j: nat | EpisodePrefixSpans(s, j)
        ensures NumberTailSpans(s, start, j)
      {
        EpisodeAlternativesExclusive(s, j);
      }
    }
  }

  /** At most one alternative of the episode-number pattern applies to a title. */
  lemma EpisodeAlternativesExclusive(s: string, j: nat)
    requires EpisodePrefixSpans(s, j)
    ensures LiteralAtIgnoreCase(s, 0, "episode") ==> NumberTailSpans(s, 7, j)
    ensures !LiteralAtIgnoreCase(s, 0, "episode") && 2 < |s| && s[2] == '.' ==> NumberTailSpans(s, 3, j)
    ensures !LiteralAtIgnoreCase(s, 0, "episode") && !(2 < |s| && s[2] == '.') ==> NumberTailSpans(s, 2, j)
  {
    if LiteralAtIgnoreCase(s, 0, "episode") {
      assert LowerChar(s[2]) == LowerChar("episode"[2]) == 'i';
      assert LowerChar(s[3]) == LowerChar("episode"[3]) == 's';
      NumberTailAtNonTail(s, 2, j);
      NumberTailAtNonTail(s, 3, j);
    } else if 2 < |s| && s[2] == '.' {
      NumberTailAtNonTail(s, 2, j);
    } else if 2 < |s| && NumberTailSpans(s, 3, j) {
      assert s[2] != '.';
    }
  }

  /** The number tail can start only at a space or a digit. */
  lemma NumberTailAtNonTail(s: string, i: nat, j: nat)
    requires i < |s| && !IsPySpace(s[i]) && !IsDigit(s[i])
    ensures !NumberTailSpans(s, i, j)
  {
  }

  // ---------------------------------------------------------------------
  // The review suffix `\s*-\s*(Review|Discussion|Podcast).*$`

  const SuffixKeywords: seq<string> := ["review", "discussion", "podcast"]

  /** `d` is the dash, `k` the keyword's start and `w` its index: together they
      show that the pattern matches `s[p..e]`, with `$` holding at `e` (the end
      of the title, or just before a final newline). */
  ghost predicate SuffixWitness(s: string, p: nat, e: nat, d: nat, k: nat, w: nat) {
    && p <= d < k <= e <= |s|
    && AllIn(PySpace, s, p, d)
    && s[d] == '-'
    && AllIn(PySpace, s, d + 1, k)
    && w < |SuffixKeywords|
    && LiteralAtIgnoreCase(s, k, SuffixKeywords[w])
    && k + |SuffixKeywords[w]| <= e
    && AllIn(NotNewline, s, k + |SuffixKeywords[w]|, e)
    && (e == |s| || (e + 1 == |s| && s[e] == '\n'))
  }

  ghost predicate SuffixSpans(s: string, p: nat, e: nat) {
    exists d: nat, k: nat, w: nat :: SuffixWitness(s, p, e, d, k, w)
  }

  /** The keyword, if any, that starts at `k`. */
  function KeywordAt(s: string, k: nat): (w: Option<nat>)
    ensures w.Some? ==> w.value < |SuffixKeywords| && LiteralAtIgnoreCase(s, k, SuffixKeywords[w.value])
    ensures w.None? ==> forall v :: 0 <= v < |SuffixKeywords| ==> !LiteralAtIgnoreCase(s, k, SuffixKeywords[v])
  {
    KeywordFrom(s, k, 0)
  }

  /** The first keyword from index `v` on that starts at `k`. */
  function KeywordFrom(s: string, k: nat, v: nat): (w: Option<nat>)
    requires v <= |SuffixKeywords|
    ensures w.Some? ==> v <= w.value < |SuffixKeywords| && LiteralAtIgnoreCase(s, k, SuffixKeywords[w.value])
    ensures w.None? ==> forall u :: v <= u < |SuffixKeywords| ==> !LiteralAtIgnoreCase(s, k, SuffixKeywords[u])
    decreases |SuffixKeywords| - v
  {
    if v == |SuffixKeywords| then None
    else if LiteralAtIgnoreCase(s, k, SuffixKeywords[v]) then Some(v)
    else KeywordFrom(s, k, v + 1)
  }

  /** The three keywords start with different letters, so at most one starts at `k`. */
  lemma KeywordUnique(s: string, k: nat, v: nat, w: nat)
    requires v < |SuffixKeywords| && w < |SuffixKeywords|
    requires LiteralAtIgnoreCase(s, k, SuffixKeywords[v]) && LiteralAtIgnoreCase(s, k, SuffixKeywords[w])
    ensures v == w
  {
    assert LowerChar(s[k]) == LowerChar(SuffixKeywords[v][0]) == LowerChar(SuffixKeywords[w][0]);
  }

  /** Every match of the suffix pattern at `p` uses the dash, the keyword and
      the end that the greedy scan finds: each run stops at a character the
      next part of the pattern cannot absorb. */
  lemma SuffixWitnessGreedy(s: string, p: nat, e: nat, d: nat, k: nat, w: nat)
    requires SuffixWitness(s, p, e, d, k, w)
    ensures d == SkipWhile(PySpace, s, p)
    ensures k == SkipWhile(PySpace, s, d + 1)
    ensures KeywordAt(s, k) == Some(w)
    ensures e == SkipWhile(NotNewline, s, k + |SuffixKeywords[w]|)
  {
    var d0 := SkipWhile(PySpace, s, p);
    assert !IsPySpace(s[d]);
    assert d0 < |s| ==> !IsPySpace(s[d0]);
    assert d == d0;
    var k0 := SkipWhile(PySpace, s, d + 1);
    KeywordStartsWithLetter(s, k, w);
    assert k0 < |s| ==> !IsPySpace(s[k0]);
    assert k == k0;
    var v := KeywordAt(s, k);
    assert v.Some?;
    KeywordUnique(s, k, v.value, w);
    var m := SkipWhile(NotNewline, s, k + |SuffixKeywords[w]|);
    if e < |s| {
      assert !InClass(NotNewline, s[e]);
    }
  }

  /** The greedy scan for the suffix pattern at `p`: spaces, a dash, spaces,
      a keyword, then everything up to the first newline, which must be the
      end of the title or its last character. */
  function ScanSuffix(s: string, p: nat): (r: Option<nat>)
    requires p <= |s|
    ensures r.Some? ==> p <= r.value <= |s|
  {
    var d := SkipWhile(PySpace, s, p);
    if d == |s| || s[d] != '-' then None else ScanAfterDash(s, d)
  }

  /** The rest of the scan after the dash at `d`. */
  function ScanAfterDash(s: string, d: nat): (r: Option<nat>)
    requires d < |s|
    ensures r.Some? ==> d < r.value <= |s|
  {
    var k := SkipWhile(PySpace, s, d + 1);
    match KeywordAt(s, k)
    case None => None
    case Some(w) => ScanToEnd(s, k + |SuffixKeywords[w]|)
  }

  /** The end of the line from `i`, if it is the end of the title or just
      before a final newline. */
  function ScanToEnd(s: string, i: nat): (r: Option<nat>)
    requires i <= |s|
    ensures r.Some? ==> i <= r.value <= |s|
  {
    var m := SkipWhile(NotNewline, s, i);
    if m == |s| || (m + 1 == |s| && s[m] == '\n') then Some(m) else None
  }

  lemma ScanSuffixSound(s: string, p: nat)
    requires p <= |s|
    ensures ScanSuffix(s, p).Some? ==> SuffixSpans(s, p, ScanSuffix(s, p).value)
  {
    if ScanSuffix(s, p).Some? {
      var e := ScanSuffix(s, p).value;
      var d, k, w := ScanSuffixParts(s, p);
      assert SuffixWitness(s, p, e, d, k, w);
    }
  }

  /** The dash, the keyword and the end a successful scan went through. */
  lemma ScanSuffixParts(s: string, p: nat) returns (d: nat, k: nat, w: nat)
    requires p <= |s| && ScanSuffix(s, p).Some?
    ensures d == SkipWhile(PySpace, s, p) && d < |s| && s[d] == '-'
    ensures k == SkipWhile(PySpace, s, d + 1) && KeywordAt(s, k) == Some(w) && w < |SuffixKeywords|
    ensures ScanSuffix(s, p).value == SkipWhile(NotNewline, s, k + |SuffixKeywords[w]|)
    ensures var e := ScanSuffix(s, p).value; e == |s| || (e + 1 == |s| && s[e] == '\n')
  {
    d := ScanSuffixDash(s, p);
    k, w := ScanAfterDashParts(s, d);
    ScanToEndParts(s, k + |SuffixKeywords[w]|);
  }

  lemma ScanSuffixDash(s: string, p: nat) returns (d: nat)
    requires p <= |s| && ScanSuffix(s, p).Some?
    ensures d == SkipWhile(PySpace, s, p) && d < |s| && s[d] == '-'
    ensures ScanAfterDash(s, d) == ScanSuffix(s, p)
  {
    d := SkipWhile(PySpace, s, p);
  }

  lemma ScanAfterDashParts(s: string, d: nat) returns (k: nat, w: nat)
    requires d < |s| && ScanAfterDash(s, d).Some?
    ensures k == SkipWhile(PySpace, s, d + 1) && KeywordAt(s, k) == Some(w) && w < |SuffixKeywords|
    ensures k + |SuffixKeywords[w]| <= |s| && ScanToEnd(s, k + |SuffixKeywords[w]|) == ScanAfterDash(s, d)
  {
    k := SkipWhile(PySpace, s, d + 1);
    w := KeywordAt(s, k).value;
  }

  lemma ScanToEndParts(s: string, i: nat)
    requires i <= |s| && ScanToEnd(s, i).Some?
    ensures ScanToEnd(s, i).value == SkipWhile(NotNewline, s, i)
    ensures var e := ScanToEnd(s, i).value; e == |s| || (e + 1 == |s| && s[e] == '\n')
  {
  }

  lemma ScanSuffixComplete(s: string, p: nat, e: nat, d: nat, k: nat, w: nat)
    requires SuffixWitness(s, p, e, d, k, w)
    ensures ScanSuffix(s, p) == Some(e)
  {
    SuffixWitnessGreedy(s, p, e, d, k, w);
    ScanSuffixOfParts(s, p, e, d, k, w);
  }

  /** The scan follows the dash, the keyword and the end it is handed. */
  lemma ScanSuffixOfParts(s: string, p: nat, e: nat, d: nat, k: nat, w: nat)
    requires p <= |s| && w < |SuffixKeywords|
    requires d == SkipWhile(PySpace, s, p) && d < |s| && s[d] == '-'
    requires k == SkipWhile(PySpace, s, d + 1) && KeywordAt(s, k) == Some(w)
    requires e == SkipWhile(NotNewline, s, k + |SuffixKeywords[w]|)
    requires e == |s| || (e + 1 == |s| && s[e] == '\n')
    ensures ScanSuffix(s, p) == Some(e)
  {
    ScanToEndOf(s, k + |SuffixKeywords[w]|, e);
    ScanAfterDashOf(s, d, k, w, e);
  }

  lemma ScanToEndOf(s: string, i: nat, e: nat)
    requires i <= |s| && e == SkipWhile(NotNewline, s, i)
    requires e == |s| || (e + 1 == |s| && s[e] == '\n')
    ensures ScanToEnd(s, i) == Some(e)
  {
  }

  lemma ScanAfterDashOf(s: string, d: nat, k: nat, w: nat, e: nat)
    requires d < |s| && k == SkipWhile(PySpace, s, d + 1) && KeywordAt(s, k) == Some(w) && w < |SuffixKeywords|
    requires k + |SuffixKeywords[w]| <= |s| && ScanToEnd(s, k + |SuffixKeywords[w]|) == Some(e)
    ensures ScanAfterDash(s, d) == Some(e)
  {
  }

  /** The scan at `p` finds exactly the match of the suffix pattern that
      starts there, when there is one: a match ends where the scan ends. */
  lemma ScanSuffixExact(s: string, p: nat)
    requires p <= |s|
    ensures ScanSuffix(s, p).Some? ==> SuffixSpans(s, p, ScanSuffix(s, p).value)
    ensures forall e: nat :: SuffixSpans(s, p, e) ==> ScanSuffix(s, p) == Some(e)
  {
    ScanSuffixSound(s, p);
    forall e: nat, d: nat, k: nat, w: nat | SuffixWitness(s, p, e, d, k, w)
      ensures ScanSuffix(s, p) == Some(e)
    {
      ScanSuffixComplete(s, p, e, d, k, w);
    }
  }

  lemma KeywordStartsWithLetter(s: string, k: nat, w: nat)
    requires w < |SuffixKeywords| && LiteralAtIgnoreCase(s, k, SuffixKeywords[w])
    ensures k < |s| && !IsPySpace(s[k])
  {
    assert LowerChar(s[k]) == LowerChar(SuffixKeywords[w][0]);
  }

  /** Where the suffix pattern's match starting at each position of `s`
      ends, for every start from 0 to `|s|`. */
  function SuffixMatches(s: string): (t: seq<Option<nat>>)
    ensures |t| == |s| + 1
  {
    seq(|s| + 1, q requires 0 <= q <= |s| => ScanSuffix(s, q))
  }

  /** The first position from `p` on where `t` holds a match, with the end
      of that match. */
  function FirstMatchFrom(t: seq<Option<nat>>, p: nat): (r: Option<(nat, nat)>)
    requires p <= |t|
    ensures r.Some? ==> p <= r.value.0 < |t| && t[r.value.0] == Some(r.value.1)
    ensures r.Some? ==> forall q :: p <= q < r.value.0 ==> t[q].None?
    ensures r.None? ==> forall q :: p <= q < |t| ==> t[q].None?
    decreases |t| - p
  {
    if p == |t| then None
    else
      match t[p]
      case Some(e) => Some((p, e))
      case None => FirstMatchFrom(t, p + 1)
  }

  /** No match of the suffix pattern starts past the end of the title. */
  lemma NoSuffixPastEnd(s: string, q: nat, e: nat)
    requires |s| <= q
    ensures !SuffixSpans(s, q, e)
  {
    forall d: nat, k: nat, w: nat | SuffixWitness(s, q, e, d, k, w) ensures false {
    }
  }

  /** The second substitution of the title cleanup: cuts the leftmost match
      of the suffix pattern.  A match runs to the end of the title (or to a
      final newline), so there is never a second one. */
  function StripReviewSuffix(s: string): (r: string)
    ensures |r| <= |s|
  {
    match FirstMatchFrom(SuffixMatches(s), 0)
    case None => s
    case Some((p, e)) =>
      assert SuffixMatches(s)[p] == ScanSuffix(s, p);
      s[..p] + s[e..]
  }

  /** The second substitution leaves a title the suffix pattern does not
      match unchanged, and otherwise cuts exactly the leftmost match. */
  lemma StripReviewSuffixCutsLeftmostMatch(s: string)
    ensures (forall p: nat, e: nat :: !SuffixSpans(s, p, e)) ==> StripReviewSuffix(s) == s
    ensures (exists p: nat, e: nat :: SuffixSpans(s, p, e)) ==>
      exists p: nat, e: nat :: SuffixSpans(s, p, e) && StripReviewSuffix(s) == s[..p] + s[e..]
        && forall q: nat, f: nat :: q < p ==> !SuffixSpans(s, q, f)
  {
    var r := FirstMatchFrom(SuffixMatches(s), 0);
    NoSuffixBeforeFirst(s);
    if r.Some? {
      assert SuffixMatches(s)[r.value.0] == ScanSuffix(s, r.value.0);
      ScanSuffixExact(s, r.value.0);
    }
  }

  /** No match of the suffix pattern starts before the one the scan finds. */
  lemma NoSuffixBeforeFirst(s: string)
    ensures var r := FirstMatchFrom(SuffixMatches(s), 0);
      forall q: nat, f: nat :: r.None? || q < r.value.0 ==> !SuffixSpans(s, q, f)
  {
    var t := SuffixMatches(s);
    var r := FirstMatchFrom(t, 0);
    forall q: nat, f: nat | r.None? || q < r.value.0 ensures !SuffixSpans(s, q, f) {
      if q > |s| {
        NoSuffixPastEnd(s, q, f);
      } else {
        assert t[q] == ScanSuffix(s, q);
        ScanSuffixExact(s, q);
      }
    }
  }

  // ---------------------------------------------------------------------
  // Aliases and the whole cleanup

  /** The hard-coded alias table: cleaned episode title to tier-list name. */
  const NameMappings: map<string, string> := map["Spelunky HD" := "Spelunky"]

  /** No whitespace at either end. */
  predicate Trimmed(r: string) {
    r == [] || (!IsPySpace(r[0]) && !IsPySpace(r[|r| - 1]))
  }

  /** The alias table is consulted once, with the exact cleaned title. */
  function ApplyNameMapping(name: string): (r: string)
    ensures name in NameMappings ==> r == NameMappings[name]
    ensures name !in NameMappings ==> r == name
    ensures r !in NameMappings
    ensures Trimmed(name) ==> Trimmed(r)
  {
    if name in NameMappings then NameMappings[name] else name
  }

  /** The game name one episode title yields; "" means the episode is skipped. */
  function CleanTitle(title: string): (r: string)
    ensures r !in NameMappings
    ensures r == [] || (!IsPySpace(r[0]) && !IsPySpace(r[|r| - 1]))
  {
    var name := PyStrip(StripReviewSuffix(StripEpisodePrefix(title)));
    assert Trimmed(name);
    ApplyNameMapping(PyStrip(StripReviewSuffix(StripEpisodePrefix(title))))
  }

  /** The cleaned title of every episode, in feed order. */
  function CleanTitles(episodes: seq<Episode>): (r: seq<string>)
    ensures |r| == |episodes|
    ensures forall i :: 0 <= i < |episodes| ==> r[i] == CleanTitle(episodes[i].title)
  {
    seq(|episodes|, i requires 0 <= i < |episodes| => CleanTitle(episodes[i].title))
  }

  /** The non-empty names of `names`, in order. */
  function NonEmpty(names: seq<string>): (r: seq<string>)
    ensures |r| <= |names|
    ensures forall i :: 0 <= i < |r| ==> r[i] != [] && r[i] in names
  {
    if names == [] then []
    else
      var rest := NonEmpty(names[1..]);
      assert forall n :: n in names[1..] ==> n in names;
      if names[0] == [] then rest else [names[0]] + rest
  }

  lemma {:induction false} NonEmptyAppend(a: seq<string>, b: seq<string>)
    ensures NonEmpty(a + b) == NonEmpty(a) + NonEmpty(b)
    decreases |a|
  {
    if a == [] {
      assert a + b == b;
    } else {
      assert (a + b)[0] == a[0];
      assert (a + b)[1..] == a[1..] + b;
      NonEmptyAppend(a[1..], b);
    }
  }

  /** `extract_game_names_from_episodes`: the non-empty cleaned titles, in
      feed order. */
  function ExtractGameNames(episodes: seq<Episode>): (names: seq<string>)
    ensures |names| <= |episodes|
    ensures forall i :: 0 <= i < |names| ==> names[i] != [] && names[i] !in NameMappings
  {
    var cleaned := CleanTitles(episodes);
    assert forall n :: n in cleaned ==> n !in NameMappings;
    NonEmpty(cleaned)
  }

  /** Every extracted name is the cleaned title of some episode. */
  lemma ExtractedNameHasEpisode(episodes: seq<Episode>, n: string)
    requires n in ExtractGameNames(episodes)
    ensures exists e :: e in episodes && n == CleanTitle(e.title)
  {
    var cleaned := CleanTitles(episodes);
    var i :| 0 <= i < |cleaned| && cleaned[i] == n;
    assert episodes[i] in episodes;
  }

  /** Extraction works episode by episode: the names of a concatenated feed
      are the names of its parts, in the same order. */
  lemma ExtractGameNamesAppend(a: seq<Episode>, b: seq<Episode>)
    ensures ExtractGameNames(a + b) == ExtractGameNames(a) + ExtractGameNames(b)
  {
    CleanTitlesAppend(a, b);
    NonEmptyAppend(CleanTitles(a), CleanTitles(b));
  }

  /** Cleaning works title by title. */
  lemma CleanTitlesAppend(a: seq<Episode>, b: seq<Episode>)
    ensures CleanTitles(a + b) == CleanTitles(a) + CleanTitles(b)
  {
    var ab := CleanTitles(a + b);
    var ca := CleanTitles(a);
    var cb := CleanTitles(b);
    forall i | 0 <= i < |a + b| ensures ab[i] == (ca + cb)[i] {
      if i < |a| {
        assert (a + b)[i] == a[i];
      } else {
        assert (a + b)[i] == b[i - |a|];
      }
    }
  }

  /** An episode yields a name exactly when its cleaned title is not empty. */
  lemma ExtractGameNamesSingle(e: Episode)
    ensures ExtractGameNames([e]) == (if CleanTitle(e.title) == [] then [] else [CleanTitle(e.title)])
  {
    assert CleanTitles([e]) == [CleanTitle(e.title)];
  }
}
