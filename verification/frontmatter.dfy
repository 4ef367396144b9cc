/** The `parseFrontmatter` helper that src/components/BlogList.tsx and
    src/components/BlogPost.tsx both define, character for character.

    The markdown is matched against `^---\s*\n([\s\S]*?)\n---\s*\n([\s\S]*)$`
    (no flags, so `^` and `$` are the ends of the text and `\s` is
    JavaScript's whitespace, line breaks included).  As for the other regular
    expressions of the model, a declarative predicate says which ways of
    matching exist and a scan reproduces the one the engine settles on. */
module FrontMatter {
  import opened Text

  // ---------------------------------------------------------------------
  // The front-matter pattern

  /** A way of matching the pattern: the newline ending the opening line is
      at `j1`, the closing "\n---" starts at `b`, and the newline ending the
      closing line is at `j2`.  The front matter is `s[j1 + 1..b]` and the
      content `s[j2 + 1..]`. */
  ghost predicate FrontWitness(s: string, j1: nat, b: nat, j2: nat) {
    && OpensWithFence(s)
    && 3 <= j1 < b && b + 4 <= j2 < |s|
    && AllIn(JsSpace, s, 3, j1) && s[j1] == '\n'
    && ClosingAt(s, b)
    && AllIn(JsSpace, s, b + 4, j2) && s[j2] == '\n'
  }

  /** The text starts with "---". */
  predicate OpensWithFence(s: string) {
    3 <= |s| && s[0] == '-' && s[1] == '-' && s[2] == '-'
  }

  /** "\n---" starts at `b`. */
  predicate ClosingAt(s: string, b: nat) {
    b + 4 <= |s| && s[b] == '\n' && s[b + 1] == '-' && s[b + 2] == '-' && s[b + 3] == '-'
  }

  /** The order in which the engine tries the ways of matching: the greedy
      `\s*` of the opening line gives back characters one at a time, the lazy
      group grows one character at a time, and the greedy `\s*` of the
      closing line gives back characters one at a time. */
  predicate TriedNoLater(x: (nat, nat, nat), y: (nat, nat, nat)) {
    x.0 > y.0 || (x.0 == y.0 && (x.1 < y.1 || (x.1 == y.1 && x.2 >= y.2)))
  }

  /** The last newline of the whitespace run starting at `i`: where a greedy
      `\s*` followed by `\n` stops. */
  function LastNewlineInRun(s: string, i: nat): (r: Option<nat>)
    requires i <= |s|
    ensures r.Some? ==> i <= r.value < |s| && AllIn(JsSpace, s, i, r.value) && s[r.value] == '\n'
    decreases |s| - i
  {
    if i == |s| || !IsJsSpace(s[i]) then None
    else
      match LastNewlineInRun(s, i + 1)
      case Some(j) => Some(j)
      case None => if s[i] == '\n' then Some(i) else None
  }

  /** Every newline the run reaches is at or before the one found. */
  lemma {:induction false} LastNewlineInRunIsLast(s: string, i: nat, j: nat)
    requires i <= j < |s| && AllIn(JsSpace, s, i, j) && s[j] == '\n'
    ensures LastNewlineInRun(s, i).Some? && j <= LastNewlineInRun(s, i).value
    decreases j - i
  {
    if i < j {
      assert InClass(JsSpace, s[i]);
      LastNewlineInRunIsLast(s, i + 1, j);
    }
  }

  /** The closing delimiter: the first `b` from `from` on where "\n---"
      starts and the whitespace after it reaches a newline. */
  function TryClose(s: string, from: nat): (r: Option<(nat, nat)>)
    requires from <= |s|
    ensures r.Some? ==> (from <= r.value.0 && ClosingAt(s, r.value.0)
      && LastNewlineInRun(s, r.value.0 + 4) == Some(r.value.1))
    decreases |s| - from
  {
    if from + 4 > |s| then None
    else if ClosingAt(s, from) && LastNewlineInRun(s, from + 4).Some? then
      Some((from, LastNewlineInRun(s, from + 4).value))
    else TryClose(s, from + 1)
  }

  /** No closing delimiter that works is skipped. */
  lemma {:induction false} TryCloseFirst(s: string, from: nat, b: nat)
    requires from <= b && b + 4 <= |s|
    requires ClosingAt(s, b) && LastNewlineInRun(s, b + 4).Some?
    ensures TryClose(s, from).Some? && TryClose(s, from).value.0 <= b
    decreases b - from
  {
    if from < b && !(ClosingAt(s, from) && LastNewlineInRun(s, from + 4).Some?) {
      TryCloseFirst(s, from + 1, b);
    }
  }

  /** The last position in `[lo, k)` that `t` marks. */
  function LastMarked(t: seq<bool>, lo: nat, k: nat): (r: Option<nat>)
    requires lo <= k <= |t|
    ensures r.Some? ==> lo <= r.value < k && t[r.value]
    ensures forall j :: lo <= j < k && t[j] ==> r.Some? && j <= r.value
    decreases k
  {
    if k == lo then None
    else if t[k - 1] then Some(k - 1)
    else LastMarked(t, lo, k - 1)
  }

  /** The newlines after which a closing delimiter is found. */
  function Openings(s: string): (t: seq<bool>)
    ensures |t| == |s|
  {
    seq(|s|, j requires 0 <= j < |s| => s[j] == '\n' && TryClose(s, j + 1).Some?)
  }

  /** Position `j` is an opening exactly when it holds a newline after which
      a closing line is found. */
  lemma OpeningsAt(s: string, j: nat)
    requires j < |s|
    ensures Openings(s)[j] <==> s[j] == '\n' && TryClose(s, j + 1).Some?
  {
  }

  /** The engine's match, as the triple `(j1, b, j2)` of `FrontWitness`. */
  function MatchFrontMatter(s: string): (r: Option<(nat, nat, nat)>)
    ensures r.Some? ==> r.value.0 < r.value.1 < r.value.2 < |s|
  {
    if !OpensWithFence(s) then None
    else
      match LastMarked(Openings(s), 3, SkipWhile(JsSpace, s, 3))
      case None => None
      case Some(j1) => CloseAfter(s, j1)
  }

  /** The match once the opening line ends at `j1`: the first closing line
      after it. */
  function CloseAfter(s: string, j1: nat): (r: Option<(nat, nat, nat)>)
    requires j1 < |s|
    ensures r.Some? ==> r.value.0 == j1 < r.value.1 < r.value.2 < |s|
  {
    var c := TryClose(s, j1 + 1);
    if c.None? then None else Some((j1, c.value.0, c.value.1))
  }

  /** What the engine returns is a way of matching. */
  lemma MatchFrontMatterSound(s: string)
    requires MatchFrontMatter(s).Some?
    ensures var m := MatchFrontMatter(s).value;
      FrontWitness(s, m.0, m.1, m.2)
  {
    var m := MatchFrontMatter(s).value;
    var e := SkipWhile(JsSpace, s, 3);
    OpeningsAt(s, m.0);
    assert AllIn(JsSpace, s, 3, m.0);
  }

  /** The engine finds a match whenever there is one, and it is the one it
      tries first. */
  lemma MatchFrontMatterFirst(s: string, j1: nat, b: nat, j2: nat)
    requires FrontWitness(s, j1, b, j2)
    ensures MatchFrontMatter(s).Some? && TriedNoLater(MatchFrontMatter(s).value, (j1, b, j2))
  {
    var o, c0, c1 := ScansFindFirst(s, j1, b, j2);
    MatchFrontMatterOf(s, o, c0, c1);
  }

  /** The scans stop at a way of matching tried no later than any other. */
  lemma ScansFindFirst(s: string, j1: nat, b: nat, j2: nat) returns (o: nat, c0: nat, c1: nat)
    requires FrontWitness(s, j1, b, j2)
    ensures OpensWithFence(s)
    ensures LastMarked(Openings(s), 3, SkipWhile(JsSpace, s, 3)) == Some(o)
    ensures o + 1 <= |s| && TryClose(s, o + 1) == Some((c0, c1))
    ensures TriedNoLater((o, c0, c1), (j1, b, j2))
  {
    o := OpeningChosen(s, j1, b, j2);
    var c := TryClose(s, o + 1).value;
    c0, c1 := c.0, c.1;
    if o == j1 {
      ClosingFound(s, j1 + 1, b, j2);
      assert c0 <= b && (c0 == b ==> j2 <= c1);
    }
    TriedNoLaterOf(o, c0, c1, j1, b, j2);
  }

  lemma TriedNoLaterOf(o: nat, c0: nat, c1: nat, j1: nat, b: nat, j2: nat)
    requires o > j1 || (o == j1 && c0 <= b && (c0 == b ==> j2 <= c1))
    ensures TriedNoLater((o, c0, c1), (j1, b, j2))
  {
  }

  /** The opening newline the engine settles on is the last one, inside the
      greedy run, after which a closing line is found. */
  lemma OpeningChosen(s: string, j1: nat, b: nat, j2: nat) returns (o: nat)
    requires FrontWitness(s, j1, b, j2)
    ensures LastMarked(Openings(s), 3, SkipWhile(JsSpace, s, 3)) == Some(o)
    ensures j1 <= o < |s| && TryClose(s, o + 1).Some?
  {
    var e := OpeningMarked(s, j1, b, j2);
    o := LastMarkedAtLeast(Openings(s), 3, e, j1);
    OpeningCloses(s, o);
  }

  /** The newline of a way of matching is an opening inside the greedy run. */
  lemma OpeningMarked(s: string, j1: nat, b: nat, j2: nat) returns (e: nat)
    requires FrontWitness(s, j1, b, j2)
    ensures e == SkipWhile(JsSpace, s, 3) && j1 < e <= |s| && Openings(s)[j1]
  {
    OpeningInsideRun(s, j1);
    ClosingFound(s, j1 + 1, b, j2);
    OpeningsAt(s, j1);
    e := SkipWhile(JsSpace, s, 3);
  }

  /** A marked position bounds the last marked one from below. */
  lemma LastMarkedAtLeast(t: seq<bool>, lo: nat, k: nat, j: nat) returns (o: nat)
    requires lo <= j < k <= |t| && t[j]
    ensures LastMarked(t, lo, k) == Some(o) && j <= o < k && t[o]
  {
    o := LastMarked(t, lo, k).value;
  }

  /** After an opening a closing line is found. */
  lemma OpeningCloses(s: string, o: nat)
    requires o < |s| && Openings(s)[o]
    ensures TryClose(s, o + 1).Some?
  {
    OpeningsAt(s, o);
  }

  /** The match is assembled from the opening newline and the closing line
      the scans find. */
  lemma MatchFrontMatterOf(s: string, o: nat, b: nat, j2: nat)
    requires OpensWithFence(s)
    requires LastMarked(Openings(s), 3, SkipWhile(JsSpace, s, 3)) == Some(o)
    requires o + 1 <= |s| && TryClose(s, o + 1) == Some((b, j2))
    ensures MatchFrontMatter(s) == Some((o, b, j2))
  {
    assert CloseAfter(s, o) == Some((o, b, j2));
  }

  /** A newline the opening `\s*` can stop before lies inside its greedy run. */
  lemma OpeningInsideRun(s: string, j1: nat)
    requires 3 <= j1 < |s| && AllIn(JsSpace, s, 3, j1) && s[j1] == '\n'
    ensures j1 < SkipWhile(JsSpace, s, 3)
  {
    assert InClass(JsSpace, s[j1]);
  }

  /** A closing line at `b` is found, at `b` or before, and if at `b` then
      with its last newline. */
  lemma ClosingFound(s: string, from: nat, b: nat, j2: nat)
    requires from <= b && ClosingAt(s, b)
    requires b + 4 <= j2 < |s| && AllIn(JsSpace, s, b + 4, j2) && s[j2] == '\n'
    ensures TryClose(s, from).Some? && TryClose(s, from).value.0 <= b
    ensures TryClose(s, from).value.0 == b ==> j2 <= TryClose(s, from).value.1
  {
    LastNewlineInRunIsLast(s, b + 4, j2);
    TryCloseFirst(s, from, b);
  }

  // ---------------------------------------------------------------------
  // The key-value lines

  predicate IsQuote(c: char) { c == '"' || c == '\'' }

  /** `.replace(/^["']|["']$/g, '')`: one quote is removed from the start and
      one from the end, independently; a lone quote is removed once.  The
      result is the value with nothing or one character cut from each end. */
  function StripQuotes(v: string): (r: string)
    ensures |v| - 2 <= |r| <= |v|
    ensures (OccursAt(v, 0, r) && |v| - 1 <= |r|) || (OccursAt(v, 1, r) && |v| - 2 <= |r|)
  {
    var start := if |v| > 0 && IsQuote(v[0]) then 1 else 0;
    var end := if |v| > start && IsQuote(v[|v| - 1]) then |v| - 1 else |v|;
    v[start..end]
  }

  /** Quotes need not be paired: each end loses exactly one quote on its own,
      whatever lies inside, and a value without a quote at either end is
      unchanged.  Every value has one of these four shapes, so this fixes
      `StripQuotes` on all values. */
  lemma StripQuotesEnds(w: string, q: char, p: char)
    requires IsQuote(q) && IsQuote(p)
    ensures StripQuotes([q] + w + [p]) == w
    ensures (w == [] || !IsQuote(w[|w| - 1])) ==> StripQuotes([q] + w) == w
    ensures (w == [] || !IsQuote(w[0])) ==> StripQuotes(w + [p]) == w
    ensures (w == [] || (!IsQuote(w[0]) && !IsQuote(w[|w| - 1]))) ==> StripQuotes(w) == w
  {
    assert ([q] + w + [p])[1..|w| + 1] == w;
    assert ([q] + w)[1..] == w;
    assert (w + [p])[..|w|] == w;
  }

  /** Only quotes are removed, and a quote is removed once: a doubled quote
      keeps its inner one. */
  lemma StripQuotesDoubled(w: string, q: char)
    requires IsQuote(q) && w != [] && !IsQuote(w[|w| - 1])
    ensures StripQuotes([q, q] + w) == [q] + w
  {
    assert ([q, q] + w)[|w| + 1] == w[|w| - 1];
    assert ([q, q] + w)[1..] == [q] + w;
  }

  /** The key "__proto__" goes through the object's prototype setter, which
      ignores a string, so it never becomes an own key. */
  const ProtoKey: string := "__proto__"

  /** The key and value one line contributes: the text before the first colon
      and the text after it, trimmed, and the value's quotes stripped. */
  function LineEntry(line: string): (r: Option<(string, string)>)
    ensures r.Some? <==> ':' in line
  {
    var i := IndexOfChar(line, ':');
    if i == -1 then None
    else Some((JsTrim(line[..i]), StripQuotes(JsTrim(line[i + 1..]))))
  }

  /** A key never holds a colon: the line is cut at its first one. */
  lemma LineKeyHasNoColon(line: string)
    requires ':' in line
    ensures ':' !in LineEntry(line).value.0
  {
    var i := IndexOfChar(line, ':');
    StripKeepsAbsent(JsSpace, line[..i], ':');
  }

  /** A line written as a colon-free key, a colon and a value reads back as
      that key and value, trimmed; the value may contain colons. */
  lemma LineEntryOfPair(key: string, value: string)
    requires ':' !in key
    ensures LineEntry(key + [':'] + value) == Some((JsTrim(key), StripQuotes(JsTrim(value))))
  {
    var line := key + [':'] + value;
    assert line[..|key|] == key;
    assert line[|key| + 1..] == value;
    IndexOfCharAt(line, ':', |key|);
  }

  /** What a line contributes, once its key and value are read. */
  type Entry = Option<(string, string)>

  /** The entry sets `k`. */
  predicate Sets(e: Entry, k: string) {
    e.Some? && e.value.0 == k
  }

  /** `data[key] = value`, a no-op for the prototype key. */
  function AddEntry(data: map<string, string>, e: Entry): map<string, string>
  {
    match e
    case None => data
    case Some((k, v)) => if k == ProtoKey then data else data[k := v]
  }

  /** The entries applied in order to an empty object. */
  function Apply(es: seq<Entry>): (data: map<string, string>)
    ensures ProtoKey !in data
  {
    if es == [] then map[]
    else AddEntry(Apply(es[..|es| - 1]), es[|es| - 1])
  }

  /** The entry of every line, in order. */
  function Entries(lines: seq<string>): (es: seq<Entry>)
    ensures |es| == |lines|
    ensures forall i :: 0 <= i < |lines| ==> es[i] == LineEntry(lines[i])
  {
    seq(|lines|, i requires 0 <= i < |lines| => LineEntry(lines[i]))
  }

  /** The lines applied in order to an empty object. */
  function ParseLines(lines: seq<string>): map<string, string>
  {
    Apply(Entries(lines))
  }

  /** The front matter text split at every newline and read line by line:
      every key is the text of one line before its first colon, so it holds
      neither a colon nor a newline, and the prototype key never appears. */
  function ParseData(text: string): (data: map<string, string>)
    ensures ProtoKey !in data
    ensures forall k :: k in data ==> ':' !in k && '\n' !in k
  {
    var lines := Split(text, '\n');
    ParsedKeys(lines);
    ParseLines(lines)
  }

  /** Keys read from newline-free lines are free of colons and newlines. */
  lemma ParsedKeys(lines: seq<string>)
    requires forall i :: 0 <= i < |lines| ==> '\n' !in lines[i]
    ensures forall k :: k in ParseLines(lines) ==> ':' !in k && '\n' !in k
  {
    forall k | k in ParseLines(lines) ensures ':' !in k && '\n' !in k {
      KeyPresentIffDefined(lines, k);
      var i :| 0 <= i < |lines| && Defines(lines[i], k);
      LineKeyHasNoColon(lines[i]);
      var c := IndexOfChar(lines[i], ':');
      assert '\n' !in lines[i][..c];
      StripKeepsAbsent(JsSpace, lines[i][..c], '\n');
    }
  }

  /** The line sets `k`. */
  predicate Defines(line: string, k: string) {
    Sets(LineEntry(line), k)
  }

  /** The last entry adds or replaces its own key and leaves every other key
      as the entries before it left it. */
  lemma ApplyLast(es: seq<Entry>, k: string)
    requires es != []
    ensures var before := Apply(es[..|es| - 1]);
      var e := es[|es| - 1];
      var after := Apply(es);
      && (k in after <==> k in before || (k != ProtoKey && Sets(e, k)))
      && (k != ProtoKey && Sets(e, k) ==> after[k] == e.value.1)
      && (!Sets(e, k) && k in before ==> after[k] == before[k])
  {
  }

  /** Some entry sets `k`. */
  predicate SetIn(es: seq<Entry>, k: string) {
    exists i :: 0 <= i < |es| && Sets(es[i], k)
  }

  /** A key is set by some entry when it is set by the last one or by one
      before it. */
  lemma SetInLast(es: seq<Entry>, k: string)
    requires es != []
    ensures SetIn(es, k) <==> SetIn(es[..|es| - 1], k) || Sets(es[|es| - 1], k)
  {
    var n := |es| - 1;
    var front := es[..n];
    if SetIn(front, k) {
      var i :| 0 <= i < n && Sets(front[i], k);
      assert es[i] == front[i];
    }
    if SetIn(es, k) {
      var i :| 0 <= i < |es| && Sets(es[i], k);
      if i < n {
        assert front[i] == es[i];
      }
    }
  }

  /** A key is present exactly when some entry sets it (the prototype key
      aside). */
  lemma {:induction false} KeyPresentIffSet(es: seq<Entry>, k: string)
    ensures k in Apply(es) <==> k != ProtoKey && SetIn(es, k)
    decreases |es|
  {
    if es != [] {
      KeyPresentIffSet(es[..|es| - 1], k);
      ApplyLast(es, k);
      SetInLast(es, k);
    }
  }

  /** A later entry setting a key overrides every earlier one: the value
      comes from the last entry that sets it. */
  lemma {:induction false} LastSetWins(es: seq<Entry>, k: string, i: nat)
    requires i < |es| && Sets(es[i], k) && k != ProtoKey
    requires forall j :: i < j < |es| ==> !Sets(es[j], k)
    ensures k in Apply(es) && Apply(es)[k] == es[i].value.1
    decreases |es|
  {
    var n := |es| - 1;
    var front := es[..n];
    ApplyLast(es, k);
    if i < n {
      assert front[i] == es[i];
      LastSetWins(front, k, i);
    }
  }

  /** A key is present exactly when some line defines it (the prototype key
      aside). */
  lemma KeyPresentIffDefined(lines: seq<string>, k: string)
    ensures k in ParseLines(lines) <==> k != ProtoKey && exists i :: 0 <= i < |lines| && Defines(lines[i], k)
  {
    var es := Entries(lines);
    KeyPresentIffSet(es, k);
    if SetIn(es, k) {
      var i :| 0 <= i < |es| && Sets(es[i], k);
      assert Defines(lines[i], k);
    }
  }

  /** A key no line defines is absent. */
  lemma UndefinedKeyAbsent(lines: seq<string>, k: string)
    requires forall j :: 0 <= j < |lines| ==> !Defines(lines[j], k)
    ensures k !in ParseLines(lines)
  {
    KeyPresentIffDefined(lines, k);
  }

  /** The value of a key comes from the last line that defines it. */
  lemma LastDefinitionWins(lines: seq<string>, k: string, i: nat)
    requires i < |lines| && Defines(lines[i], k) && k != ProtoKey
    requires forall j :: i < j < |lines| ==> !Defines(lines[j], k)
    ensures k in ParseLines(lines) && ParseLines(lines)[k] == LineEntry(lines[i]).value.1
  {
    LastSetWins(Entries(lines), k, i);
  }

  /** A line without a colon changes nothing. */
  lemma LineWithoutColonIgnored(lines: seq<string>, line: string)
    requires ':' !in line
    ensures ParseLines(lines + [line]) == ParseLines(lines)
  {
    var es := Entries(lines + [line]);
    assert es[..|lines|] == Entries(lines);
  }

  // ---------------------------------------------------------------------
  // The whole parser

  datatype Parsed = Parsed(data: map<string, string>, content: string)

  /** `parseFrontmatter`: without a match the data is empty and the content is
      the whole text; with one, the data is read from the text between the
      delimiter lines and the content is everything after the closing line,
      so the content is always a tail of the text, shorter when a block was
      found. */
  function ParseFrontmatter(markdown: string): (r: Parsed)
    ensures ProtoKey !in r.data
    ensures forall k :: k in r.data ==> ':' !in k && '\n' !in k
    ensures |r.content| <= |markdown| && r.content == markdown[|markdown| - |r.content|..]
    ensures MatchFrontMatter(markdown).Some? ==> |r.content| < |markdown|
  {
    match MatchFrontMatter(markdown)
    case None => Parsed(map[], markdown)
    case Some((j1, b, j2)) => Cut(markdown, j1, b, j2)
  }

  /** The data and content for a match of the pattern. */
  function Cut(markdown: string, j1: nat, b: nat, j2: nat): Parsed
    requires j1 < b < j2 < |markdown|
  {
    Parsed(ParseData(markdown[j1 + 1..b]), markdown[j2 + 1..])
  }

  /** A text the pattern cannot match yields no data and itself as content;
      a text it can match yields the parts of the first way of matching the
      engine tries. */
  lemma ParseFrontmatterMatches(markdown: string)
    ensures (forall j1: nat, b: nat, j2: nat :: !FrontWitness(markdown, j1, b, j2))
      ==> ParseFrontmatter(markdown) == Parsed(map[], markdown)
    ensures MatchFrontMatter(markdown).Some? ==>
      var m := MatchFrontMatter(markdown).value;
      && FrontWitness(markdown, m.0, m.1, m.2)
      && ParseFrontmatter(markdown) == Parsed(ParseData(markdown[m.0 + 1..m.1]), markdown[m.2 + 1..])
      && forall j1: nat, b: nat, j2: nat :: FrontWitness(markdown, j1, b, j2) ==> TriedNoLater(m, (j1, b, j2))
  {
    if MatchFrontMatter(markdown).Some? {
      MatchFrontMatterSound(markdown);
      forall j1: nat, b: nat, j2: nat | FrontWitness(markdown, j1, b, j2)
        ensures TriedNoLater(MatchFrontMatter(markdown).value, (j1, b, j2))
      {
        MatchFrontMatterFirst(markdown, j1, b, j2);
      }
    }
  }

  /** Writing a front matter block and a body in the usual layout and parsing
      it gives back the front matter's data and the body, provided the front
      matter does not start with whitespace or contain a closing delimiter,
      and the body does not start with whitespace. */
  lemma ParseComposed(fm: string, body: string)
    requires fm != [] && !IsJsSpace(fm[0])
    requires forall i :: 0 <= i < |fm| ==> !ClosingAt(fm + "\n---", i)
    requires body == [] || !IsJsSpace(body[0])
    ensures ParseFrontmatter("---\n" + fm + "\n---\n" + body) == Parsed(ParseData(fm), body)
  {
    var s := "---\n" + fm + "\n---\n" + body;
    var n := |fm|;
    ComposedMatch(fm, body);
    ParseFrontmatterOf(s, 3, 4 + n, 8 + n);
    ComposedParts(fm, body);
  }

  /** The front matter and the body sit where the layout puts them. */
  lemma ComposedParts(fm: string, body: string)
    ensures var s := "---\n" + fm + "\n---\n" + body;
      && |s| == 9 + |fm| + |body|
      && s[4..4 + |fm|] == fm && s[9 + |fm|..] == body
  {
    var s := "---\n" + fm + "\n---\n" + body;
    assert s[4..4 + |fm|] == fm;
    assert s[9 + |fm|..] == body;
  }

  /** The engine's match of the composed text is the intended one. */
  lemma ComposedMatch(fm: string, body: string)
    requires fm != [] && !IsJsSpace(fm[0])
    requires forall i :: 0 <= i < |fm| ==> !ClosingAt(fm + "\n---", i)
    requires body == [] || !IsJsSpace(body[0])
    ensures MatchFrontMatter("---\n" + fm + "\n---\n" + body) == Some((3, 4 + |fm|, 8 + |fm|))
  {
    var s := "---\n" + fm + "\n---\n" + body;
    var n := |fm|;
    ComposedWitness(fm, body);
    MatchFrontMatterFirst(s, 3, 4 + n, 8 + n);
    var m := MatchFrontMatter(s).value;
    MatchFrontMatterSound(s);
    ComposedMatchIsUnique(s, fm, body, m.0, m.1, m.2);
  }

  /** The parts cut out of the text are those of the engine's match. */
  lemma ParseFrontmatterOf(s: string, j1: nat, b: nat, j2: nat)
    requires MatchFrontMatter(s) == Some((j1, b, j2))
    ensures j1 < b < j2 < |s|
    ensures ParseFrontmatter(s) == Parsed(ParseData(s[j1 + 1..b]), s[j2 + 1..])
  {
    assert ParseFrontmatter(s) == Cut(s, j1, b, j2);
  }

  /** A whitespace run cannot reach past a character that is not whitespace. */
  lemma RunEndsBefore(s: string, i: nat, j: nat, k: nat)
    requires AllIn(JsSpace, s, i, j) && i <= k < |s| && !IsJsSpace(s[k])
    ensures j <= k
  {
  }

  /** The usual layout is a way of matching. */
  lemma ComposedWitness(fm: string, body: string)
    ensures FrontWitness("---\n" + fm + "\n---\n" + body, 3, 4 + |fm|, 8 + |fm|)
  {
    var s := "---\n" + fm + "\n---\n" + body;
    var n := |fm|;
    assert s[..4] == "---\n";
    assert s[4 + n..9 + n] == "\n---\n";
  }

  /** In the composed text every way of matching that the engine could
      prefer is the intended one. */
  lemma ComposedMatchIsUnique(s: string, fm: string, body: string, j1: nat, b: nat, j2: nat)
    requires s == "---\n" + fm + "\n---\n" + body
    requires fm != [] && !IsJsSpace(fm[0])
    requires forall i :: 0 <= i < |fm| ==> !ClosingAt(fm + "\n---", i)
    requires body == [] || !IsJsSpace(body[0])
    requires FrontWitness(s, j1, b, j2)
    requires TriedNoLater((j1, b, j2), (3, 4 + |fm|, 8 + |fm|))
    ensures j1 == 3 && b == 4 + |fm| && j2 == 8 + |fm|
  {
    var n := |fm|;
    assert s[4] == fm[0];
    if j1 > 3 {
      assert IsJsSpace(s[4]);
    }
    assert b <= 4 + n;
    if b < 4 + n {
      var t := fm + "\n---";
      assert s[4..] == t + "\n" + body;
      assert s[b..b + 4] == t[b - 4..b];
      assert ClosingAt(t, b - 4);
    }
    assert 8 + n <= j2;
    if body != [] {
      assert s[9 + n] == body[0];
      RunEndsBefore(s, 8 + n, j2, 9 + n);
    }
  }
}
