/** Character classes and string helpers shared by the Python scripts and the
    TypeScript components.  Python and JavaScript disagree on what counts as
    whitespace, so both classes are defined; letters, digits and case folding
    are ASCII only. */
module Text {

  datatype Option<+T> = None | Some(value: T)

  /** Whitespace as Python's `str.isspace` and the `\s` of `re` see it. */
  predicate IsPySpace(c: char) {
    || c == ' ' || '\t' <= c <= '\r' || '\U{1c}' <= c <= '\U{1f}'
    || c == '\U{85}' || c == '\U{a0}' || c == '\U{1680}'
    || '\U{2000}' <= c <= '\U{200a}' || c == '\U{2028}' || c == '\U{2029}'
    || c == '\U{202f}' || c == '\U{205f}' || c == '\U{3000}'
  }

  /** Whitespace as JavaScript's `\s` and `String.prototype.trim` see it. */
  predicate IsJsSpace(c: char) {
    || c == ' ' || '\t' <= c <= '\r' || c == '\U{a0}' || c == '\U{1680}'
    || '\U{2000}' <= c <= '\U{200a}' || c == '\U{2028}' || c == '\U{2029}'
    || c == '\U{202f}' || c == '\U{205f}' || c == '\U{3000}' || c == '\U{feff}'
  }

  predicate IsDigit(c: char) { '0' <= c <= '9' }

  predicate IsUpperLetter(c: char) { 'A' <= c <= 'Z' }

  predicate IsLowerLetter(c: char) { 'a' <= c <= 'z' }

  predicate IsLetter(c: char) { IsUpperLetter(c) || IsLowerLetter(c) }

  predicate IsAlnum(c: char) { IsLetter(c) || IsDigit(c) }

  /** The `\w` class of a regular expression: letters, digits and underscore. */
  predicate IsWordChar(c: char) { IsAlnum(c) || c == '_' }

  function LowerChar(c: char): (r: char)
    ensures IsLetter(c) ==> IsLowerLetter(r)
    ensures !IsLetter(c) ==> r == c
  {
    if IsUpperLetter(c) then (c as int + 32) as char else c
  }

  function UpperChar(c: char): (r: char)
    ensures IsLetter(c) ==> IsUpperLetter(r)
    ensures !IsLetter(c) ==> r == c
  {
    if IsLowerLetter(c) then (c as int - 32) as char else c
  }

  /** `str.lower()`, restricted to ASCII letters. */
  function Lower(s: string): (r: string)
    ensures |r| == |s|
    ensures forall i :: 0 <= i < |s| ==> r[i] == LowerChar(s[i])
  {
    seq(|s|, i requires 0 <= i < |s| => LowerChar(s[i]))
  }

  lemma LowerIdempotent(s: string)
    ensures Lower(Lower(s)) == Lower(s)
  {
  }

  /** Lower-casing works one character at a time, so it distributes over
      concatenation. */
  lemma LowerAppend(a: string, b: string)
    ensures Lower(a + b) == Lower(a) + Lower(b)
  {
    assert forall i :: 0 <= i < |a + b| ==> Lower(a + b)[i] == (Lower(a) + Lower(b))[i];
  }

  /** Case-insensitive equality of two strings, as a regular expression
      compiled with IGNORECASE compares a literal. */
  predicate EqualsIgnoreCase(a: string, b: string) {
    Lower(a) == Lower(b)
  }

  /** `lit` occurs at index `i` of `s`, letters compared without case. */
  predicate LiteralAtIgnoreCase(s: string, i: nat, lit: string) {
    i + |lit| <= |s| && forall j {:trigger lit[j]} :: 0 <= j < |lit| ==> LowerChar(s[i + j]) == LowerChar(lit[j])
  }

  predicate StartsWith(s: string, pre: string) {
    |pre| <= |s| && s[..|pre|] == pre
  }

  predicate EndsWith(s: string, suf: string) {
    |suf| <= |s| && s[|s| - |suf|..] == suf
  }

  predicate OccursAt(s: string, i: nat, pat: string) {
    i + |pat| <= |s| && s[i..i + |pat|] == pat
  }

  /** Python's `pat in s` and JavaScript's `s.includes(pat)`. */
  predicate Contains(s: string, pat: string) {
    exists i: nat :: i <= |s| && OccursAt(s, i, pat)
  }

  /** Index of the first occurrence of `pat` in `s` at or after `from`. */
  function FindFrom(s: string, pat: string, from: nat): (r: Option<nat>)
    requires from <= |s|
    ensures r.Some? ==> from <= r.value && OccursAt(s, r.value, pat)
    ensures r.Some? ==> forall j: nat :: from <= j < r.value ==> !OccursAt(s, j, pat)
    ensures r.None? ==> forall j: nat :: from <= j <= |s| ==> !OccursAt(s, j, pat)
    decreases |s| - from
  {
    if OccursAt(s, from, pat) then Some(from)
    else if from == |s| then None
    else FindFrom(s, pat, from + 1)
  }

  function Find(s: string, pat: string): (r: Option<nat>)
    ensures r.Some? ==> OccursAt(s, r.value, pat)
    ensures r.Some? ==> forall j: nat :: j < r.value ==> !OccursAt(s, j, pat)
    ensures r.None? <==> !Contains(s, pat)
  {
    FindFrom(s, pat, 0)
  }

  /** JavaScript's `s.replace(pat, rep)` with a string pattern: only the first
      occurrence is replaced, and `s` is returned unchanged when there is none. */
  function ReplaceFirst(s: string, pat: string, rep: string): (r: string)
    ensures !Contains(s, pat) ==> r == s
    ensures Contains(s, pat) ==>
      exists i: nat :: OccursAt(s, i, pat) && r == s[..i] + rep + s[i + |pat|..]
        && forall j: nat :: j < i ==> !OccursAt(s, j, pat)
  {
    match Find(s, pat)
    case None => s
    case Some(i) => s[..i] + rep + s[i + |pat|..]
  }

  /** The character classes that greedy runs and trimming skip over. */
  datatype CharClass = PySpace | JsSpace | Digit | NotNewline | LineBreak | NotLineBreak

  predicate InClass(k: CharClass, c: char) {
    match k
    case PySpace => IsPySpace(c)
    case JsSpace => IsJsSpace(c)
    case Digit => IsDigit(c)
    case NotNewline => c != '\n'
    case LineBreak => c == '\n' || c == '\r'
    case NotLineBreak => c != '\n' && c != '\r'
  }

  /** Every character of `s[i..j]` satisfies `p` (and the range is inside `s`). */
  predicate AllIn(p: CharClass, s: string, i: int, j: int) {
    forall k | i <= k < j :: 0 <= k < |s| && InClass(p, s[k])
  }

  /** The end of the longest run of characters satisfying `p` that starts at
      `i`: what a greedy `p*` consumes. */
  function SkipWhile(p: CharClass, s: string, i: nat): (j: nat)
    requires i <= |s|
    ensures i <= j <= |s|
    ensures AllIn(p, s, i, j)
    ensures j == |s| || !InClass(p, s[j])
    decreases |s| - i
  {
    if i == |s| || !InClass(p, s[i]) then i else SkipWhile(p, s, i + 1)
  }

  /** A run that stops at a character outside the class is the one `SkipWhile` finds. */
  lemma {:induction false} SkipWhileStopsAt(p: CharClass, s: string, i: nat, j: nat)
    requires i <= j <= |s| && AllIn(p, s, i, j)
    requires j == |s| || !InClass(p, s[j])
    ensures SkipWhile(p, s, i) == j
    decreases j - i
  {
    if i < j {
      SkipWhileStopsAt(p, s, i + 1, j);
    }
  }

  /** The start of the longest run of characters satisfying `p` that ends at
      `j` and does not reach below `lo`. */
  function SkipBackWhile(p: CharClass, s: string, lo: nat, j: nat): (i: nat)
    requires lo <= j <= |s|
    ensures lo <= i <= j
    ensures AllIn(p, s, i, j)
    ensures i == lo || !InClass(p, s[i - 1])
    decreases j
  {
    if j == lo || !InClass(p, s[j - 1]) then j else SkipBackWhile(p, s, lo, j - 1)
  }

  /** A run that starts just after a character outside the class (or at `lo`)
      is the one `SkipBackWhile` finds. */
  lemma {:induction false} SkipBackWhileStopsAt(p: CharClass, s: string, lo: nat, i: nat, j: nat)
    requires lo <= i <= j <= |s| && AllIn(p, s, i, j)
    requires i == lo || !InClass(p, s[i - 1])
    ensures SkipBackWhile(p, s, lo, j) == i
    decreases j - i
  {
    if i < j {
      SkipBackWhileStopsAt(p, s, lo, i, j - 1);
    }
  }

  /** Where the text kept by `Strip` starts and ends. */
  function StripStart(p: CharClass, s: string): nat
  {
    SkipWhile(p, s, 0)
  }

  function StripEnd(p: CharClass, s: string): nat
  {
    SkipBackWhile(p, s, SkipWhile(p, s, 0), |s|)
  }

  /** Removes leading and trailing characters satisfying `p`: what is left
      starts and ends with a kept character, and everything cut satisfies `p`. */
  function Strip(p: CharClass, s: string): (r: string)
    ensures StripStart(p, s) <= StripEnd(p, s) <= |s| && r == s[StripStart(p, s)..StripEnd(p, s)]
    ensures AllIn(p, s, 0, StripStart(p, s)) && AllIn(p, s, StripEnd(p, s), |s|)
    ensures r == [] || (!InClass(p, r[0]) && !InClass(p, r[|r| - 1]))
  {
    s[StripStart(p, s)..StripEnd(p, s)]
  }

  /** Python's `str.strip()`. */
  function PyStrip(s: string): string { Strip(PySpace, s) }

  /** JavaScript's `String.prototype.trim()`. */
  function JsTrim(s: string): string { Strip(JsSpace, s) }

  /** A string made only of characters satisfying `p` strips to "". */
  lemma StripAll(p: CharClass, s: string)
    requires AllIn(p, s, 0, |s|)
    ensures Strip(p, s) == []
  {
  }

  /** Stripping a string that starts and ends with kept characters changes nothing. */
  lemma StripUnchanged(p: CharClass, s: string)
    requires s == [] || (!InClass(p, s[0]) && !InClass(p, s[|s| - 1]))
    ensures Strip(p, s) == s
  {
  }

  /** Stripping a text padded on both sides with characters of the class gives
      the text back, when the text starts and ends outside the class. */
  lemma StripPadded(p: CharClass, u: string, m: string, v: string)
    requires AllIn(p, u, 0, |u|) && AllIn(p, v, 0, |v|)
    requires m != [] && !InClass(p, m[0]) && !InClass(p, m[|m| - 1])
    ensures Strip(p, u + m + v) == m
  {
    var s := u + m + v;
    var e := |u| + |m|;
    assert AllIn(p, s, 0, |u|) by {
      forall k | 0 <= k < |u| ensures s[k] == u[k] { }
    }
    assert s[|u|] == m[0];
    SkipWhileStopsAt(p, s, 0, |u|);
    assert AllIn(p, s, e, |s|) by {
      forall k | e <= k < |s| ensures s[k] == v[k - e] { }
    }
    assert s[e - 1] == m[|m| - 1];
    SkipBackWhileStopsAt(p, s, |u|, e, |s|);
    assert s[|u|..e] == m;
  }

  /** Characters of the class added around a text do not change what it
      strips to. */
  lemma StripIgnoresPadding(p: CharClass, u: string, x: string, v: string)
    requires AllIn(p, u, 0, |u|) && AllIn(p, v, 0, |v|)
    ensures Strip(p, u + x + v) == Strip(p, x)
  {
    var m := Strip(p, x);
    var l, r := StrippedParts(p, x);
    AllInAppend(p, u, l);
    AllInAppend(p, r, v);
    Regroup(u, l, m, r, v);
    if m == [] {
      StripOfPadding(p, u + l, r + v);
    } else {
      StripPadded(p, u + l, m, r + v);
    }
  }

  lemma Regroup(u: string, l: string, m: string, r: string, v: string)
    ensures u + (l + m + r) + v == (u + l) + m + (r + v)
  {
  }

  /** Two runs of class characters strip to "", with or without an empty
      text between them. */
  lemma StripOfPadding(p: CharClass, a: string, b: string)
    requires AllIn(p, a, 0, |a|) && AllIn(p, b, 0, |b|)
    ensures Strip(p, a + [] + b) == []
  {
    AllInAppend(p, a, b);
    assert a + [] + b == a + b;
    StripAll(p, a + b);
  }

  /** Two texts all in the class make one. */
  lemma AllInAppend(p: CharClass, a: string, b: string)
    requires AllIn(p, a, 0, |a|) && AllIn(p, b, 0, |b|)
    ensures AllIn(p, a + b, 0, |a + b|)
  {
    forall k | 0 <= k < |a + b| ensures InClass(p, (a + b)[k]) {
      if k >= |a| {
        assert (a + b)[k] == b[k - |a|];
      }
    }
  }

  /** Lower-casing and `str.strip()` commute: lower-casing neither creates
      nor removes whitespace. */
  lemma StripLowerCommute(s: string)
    ensures PyStrip(Lower(s)) == Lower(PyStrip(s))
  {
    var m := PyStrip(s);
    var u, v := StrippedParts(PySpace, s);
    LowerThree(u, m, v);
    LowerOfSpaces(u);
    LowerOfSpaces(v);
    StripLowered(u, m, v);
  }

  /** Stripping the lower-cased stripped part with its padding back around it
      gives the lower-cased stripped part. */
  lemma StripLowered(u: string, m: string, v: string)
    requires AllIn(PySpace, u, 0, |u|) && AllIn(PySpace, v, 0, |v|)
    requires m == [] || (!InClass(PySpace, m[0]) && !InClass(PySpace, m[|m| - 1]))
    ensures PyStrip(u + Lower(m) + v) == Lower(m)
  {
    if m == [] {
      assert Lower(m) == [];
      StripIgnoresPadding(PySpace, u, [], v);
    } else {
      LowerEnds(m);
      StripPadded(PySpace, u, Lower(m), v);
    }
  }

  /** A text is its leading whitespace, its stripped part and its trailing
      whitespace. */
  lemma StrippedParts(p: CharClass, s: string) returns (u: string, v: string)
    ensures s == u + Strip(p, s) + v
    ensures AllIn(p, u, 0, |u|) && AllIn(p, v, 0, |v|)
  {
    var a, b := StripStart(p, s), StripEnd(p, s);
    u, v := s[0..a], s[b..|s|];
    SliceAllIn(p, s, 0, a);
    SliceAllIn(p, s, b, |s|);
    SliceThree(s, a, b);
  }

  /** A slice whose characters are all in the class is all in the class. */
  lemma SliceAllIn(p: CharClass, s: string, i: nat, j: nat)
    requires i <= j <= |s| && AllIn(p, s, i, j)
    ensures AllIn(p, s[i..j], 0, j - i)
  {
    assert forall k :: 0 <= k < j - i ==> s[i..j][k] == s[i + k];
  }

  lemma SliceThree(s: string, a: nat, b: nat)
    requires a <= b <= |s|
    ensures s == s[0..a] + s[a..b] + s[b..|s|]
  {
  }

  lemma LowerThree(u: string, m: string, v: string)
    ensures Lower(u + m + v) == Lower(u) + Lower(m) + Lower(v)
  {
    LowerAppend(u + m, v);
    LowerAppend(u, m);
  }

  /** The ends of a lower-cased text are whitespace exactly when the ends of
      the text are. */
  lemma LowerEnds(m: string)
    requires m != [] && !InClass(PySpace, m[0]) && !InClass(PySpace, m[|m| - 1])
    ensures !InClass(PySpace, Lower(m)[0]) && !InClass(PySpace, Lower(m)[|m| - 1])
  {
  }

  /** Lower-casing leaves whitespace as it is. */
  lemma LowerOfSpaces(w: string)
    requires AllIn(PySpace, w, 0, |w|)
    ensures Lower(w) == w && AllIn(PySpace, Lower(w), 0, |w|)
  {
    assert forall i :: 0 <= i < |w| ==> Lower(w)[i] == w[i];
  }

  /** Stripping only removes characters: one absent before is absent after. */
  lemma StripKeepsAbsent(p: CharClass, s: string, c: char)
    requires c !in s
    ensures c !in Strip(p, s)
  {
  }

  /** Python's `s.split(sep)` and JavaScript's `s.split(sep)` for a one-character
      separator: the pieces between separators, "" included. */
  function Split(s: string, sep: char): (r: seq<string>)
    ensures |r| >= 1
    ensures forall k :: 0 <= k < |r| ==> sep !in r[k]
    decreases |s|
  {
    if sep !in s then [s]
    else
      var i := IndexOfChar(s, sep);
      [s[..i]] + Split(s[i + 1..], sep)
  }

  /** Concatenation of `parts` with `sep` between consecutive parts. */
  function Join(parts: seq<string>, sep: char): string
  {
    if |parts| == 0 then []
    else if |parts| == 1 then parts[0]
    else parts[0] + [sep] + Join(parts[1..], sep)
  }

  /** Splitting loses nothing: joining the pieces gives the input back. */
  lemma {:induction false} JoinSplit(s: string, sep: char)
    ensures Join(Split(s, sep), sep) == s
    decreases |s|
  {
    if sep in s {
      var i := IndexOfChar(s, sep);
      JoinSplit(s[i + 1..], sep);
      JoinCons(s[..i], Split(s[i + 1..], sep), sep);
      assert s == s[..i] + [sep] + s[i + 1..];
    }
  }

  /** Joining a first part onto a nonempty list puts one separator after it. */
  lemma JoinCons(a: string, rest: seq<string>, sep: char)
    requires |rest| >= 1
    ensures Join([a] + rest, sep) == a + [sep] + Join(rest, sep)
  {
    assert ([a] + rest)[1..] == rest;
  }

  /** Joining separator-free parts and splitting again gives the parts back. */
  lemma {:induction false} SplitJoin(parts: seq<string>, sep: char)
    requires |parts| >= 1
    requires forall k :: 0 <= k < |parts| ==> sep !in parts[k]
    ensures Split(Join(parts, sep), sep) == parts
    decreases |parts|
  {
    if |parts| > 1 {
      JoinFirstSeparator(parts, sep);
      SplitJoin(parts[1..], sep);
    }
  }

  /** The first separator of a join of separator-free parts ends the first part. */
  lemma JoinFirstSeparator(parts: seq<string>, sep: char)
    requires |parts| > 1 && sep !in parts[0]
    ensures var s := Join(parts, sep);
      && sep in s && IndexOfChar(s, sep) == |parts[0]|
      && s[..|parts[0]|] == parts[0] && s[|parts[0]| + 1..] == Join(parts[1..], sep)
  {
    var s := Join(parts, sep);
    assert s == parts[0] + [sep] + Join(parts[1..], sep);
    assert s[|parts[0]|] == sep;
    IndexOfCharAt(s, sep, |parts[0]|);
    assert s[..|parts[0]|] == parts[0];
    assert s[|parts[0]| + 1..] == Join(parts[1..], sep);
  }

  /** JavaScript's `indexOf` for one character, -1 when absent. */
  function IndexOfChar(s: string, c: char): (r: int)
    ensures -1 <= r < |s|
    ensures r == -1 <==> c !in s
    ensures r >= 0 ==> s[r] == c && c !in s[..r]
  {
    if |s| == 0 then -1
    else if s[0] == c then 0
    else
      var k := IndexOfChar(s[1..], c);
      assert s == [s[0]] + s[1..];
      if k == -1 then -1
      else
        assert s[..k + 1] == [s[0]] + s[1..][..k];
        k + 1
  }

  lemma IndexOfCharAt(s: string, c: char, i: nat)
    requires i < |s| && s[i] == c && c !in s[..i]
    ensures IndexOfChar(s, c) == i
  {
  }
}
