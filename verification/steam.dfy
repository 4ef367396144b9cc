/** The Steam side of scripts/tier_list_generator.py: finding a game's app id
    with the store search (`search_steam_game`), the in-memory id cache, the
    file name an image is cached under, and the order in which
    `get_steam_header_image` tries a cached file, a download and a
    placeholder.  The search response, the download and the state of the
    image file are inputs; writing the cache file to disk is not modelled. */
module Steam {
  import opened Text
  import opened Similarity
  import opened Picks

  /** One entry of the search response's `items`. A key the entry lacks is
      `None`; an entry with no keys at all (`{}`) has neither. */
  datatype SteamItem = SteamItem(id: Option<int>, name: Option<string>)

  /** The name the scoring loop reads: `item.get('name', '')`. */
  function ScoredName(item: SteamItem): string {
    if item.name.Some? then item.name.value else ""
  }

  /** What the store search gave back: `RequestFailed` covers every raised
      exception (network, HTTP status, malformed JSON), and a response
      without `items` is `Results([])`. */
  datatype SearchResponse = RequestFailed | Results(items: seq<SteamItem>)

  /** The game-id cache: lower-cased, stripped name to app id. */
  type IdCache = map<string, int>

  // ---------------------------------------------------------------------
  // Scoring the search results

  /** The substrings whose presence marks a name as a sequel. */
  const SequelTokens: seq<string> := ["2", "3", "4", "5", "ii", "iii", "iv", "v"]

  predicate HasSequelToken(s: string) {
    exists k :: 0 <= k < |SequelTokens| && Contains(s, SequelTokens[k])
  }

  /** Any name with a letter "v" in it counts as a sequel, since "v" is one
      of the tokens and tokens are matched as plain substrings. */
  lemma LetterVMarksSequel(s: string, i: nat)
    requires i < |s| && s[i] == 'v'
    ensures HasSequelToken(s)
  {
    assert SequelTokens[7] == "v";
    assert OccursAt(s, i, SequelTokens[7]);
  }

  /** The bonus for an exact or a substring match of the lower-cased names. */
  function Bonus(query: string, name: string): (b: real)
    ensures b == 1.0 <==> query == name
    ensures b == 0.5 <==> query != name && (Contains(name, query) || Contains(query, name))
    ensures b == 0.0 || b == 0.5 || b == 1.0
  {
    if query == name then 1.0
    else if Contains(name, query) || Contains(query, name) then 0.5
    else 0.0
  }

  /** The sequel penalty: only a candidate with a sequel token, and only when
      the query has none. */
  function Penalty(query: string, name: string): (p: real)
    ensures p == 0.3 <==> !HasSequelToken(query) && HasSequelToken(name)
    ensures p == 0.0 || p == 0.3
  {
    if !HasSequelToken(query) && HasSequelToken(name) then 0.3 else 0.0
  }

  /** The score of one search result for `game`: every score lies in
      [-0.3, 2.0], only the exact name (up to letter case) scores above 1.5,
      and the exact name scores exactly 2.0. */
  function Score(ratio: (string, string) -> real, game: string, item: SteamItem): (s: real)
    ensures RatioAxioms(ratio) ==> -0.3 <= s <= 2.0
    ensures RatioAxioms(ratio) && s > 1.5 ==> Lower(ScoredName(item)) == Lower(game)
    ensures RatioAxioms(ratio) && Lower(ScoredName(item)) == Lower(game) ==> s == 2.0
  {
    var query := Lower(game);
    var name := Lower(ScoredName(item));
    assert RatioAxioms(ratio) ==> 0.0 <= ratio(query, name) <= 1.0 && ratio(query, query) == 1.0;
    ratio(query, name) + Bonus(query, name) - Penalty(query, name)
  }

  function ItemScores(ratio: (string, string) -> real, game: string, items: seq<SteamItem>): (r: seq<real>)
    ensures |r| == |items|
    ensures forall k :: 0 <= k < |items| ==> r[k] == Score(ratio, game, items[k])
  {
    seq(|items|, k requires 0 <= k < |items| => Score(ratio, game, items[k]))
  }

  /** The index of the chosen result, as in the matching loop of the
      generator: a result is chosen exactly when some result scores above 0;
      the chosen one scores at least as much as every other, and more than
      every earlier one. */
  function PickItem(ratio: (string, string) -> real, game: string, items: seq<SteamItem>): (p: Option<nat>)
    ensures p.None? <==> forall k :: 0 <= k < |items| ==> Score(ratio, game, items[k]) <= 0.0
    ensures p.Some? ==> p.value < |items| && 0.0 < Score(ratio, game, items[p.value])
    ensures p.Some? ==> forall k :: 0 <= k < |items| ==> Score(ratio, game, items[k]) <= Score(ratio, game, items[p.value])
    ensures p.Some? ==> forall k :: 0 <= k < p.value ==> Score(ratio, game, items[k]) < Score(ratio, game, items[p.value])
  {
    FirstBest(ItemScores(ratio, game, items), 0.0)
  }

  /** If some result carries the game's name (up to letter case), the pick is
      the first such result. */
  lemma ExactNameWins(ratio: (string, string) -> real, game: string, items: seq<SteamItem>, j: nat)
    requires RatioAxioms(ratio)
    requires j < |items| && Lower(ScoredName(items[j])) == Lower(game)
    ensures var p := PickItem(ratio, game, items);
      && p.Some? && p.value <= j && Lower(ScoredName(items[p.value])) == Lower(game)
      && forall k :: 0 <= k < p.value ==> Lower(ScoredName(items[k])) != Lower(game)
  {
    var p := PickItem(ratio, game, items);
    assert Score(ratio, game, items[j]) == 2.0;
    assert p.Some?;
    var q := p.value;
    assert Score(ratio, game, items[q]) == 2.0;
    forall k | 0 <= k < q ensures Lower(ScoredName(items[k])) != Lower(game) {
      assert Score(ratio, game, items[k]) < 2.0;
    }
  }

  // ---------------------------------------------------------------------
  // Searching with the id cache

  /** The cache key of a game: lower-cased, then stripped.  It has no
      upper-case letter and no surrounding whitespace. */
  function CacheKey(game: string): (key: string)
    ensures forall i :: 0 <= i < |key| ==> !IsUpperLetter(key[i])
    ensures key == [] || (!InClass(PySpace, key[0]) && !InClass(PySpace, key[|key| - 1]))
  {
    var lowered := Lower(game);
    NoUpperInSlice(lowered, StripStart(PySpace, lowered), StripEnd(PySpace, lowered));
    PyStrip(lowered)
  }

  /** A piece of a lower-cased text has no upper-case letter either. */
  lemma NoUpperInSlice(s: string, a: nat, b: nat)
    requires a <= b <= |s|
    requires forall i :: 0 <= i < |s| ==> !IsUpperLetter(s[i])
    ensures forall i :: 0 <= i < b - a ==> !IsUpperLetter(s[a..b][i])
  {
    forall i | 0 <= i < b - a ensures !IsUpperLetter(s[a..b][i]) {
      assert s[a..b][i] == s[a + i];
    }
  }

  /** A key is its own key. */
  lemma CacheKeyIdempotent(game: string)
    ensures CacheKey(CacheKey(game)) == CacheKey(game)
  {
    var key := CacheKey(game);
    assert Lower(key) == key;
    StripUnchanged(PySpace, key);
  }

  /** Lower-casing and stripping commute: the key is the game's stripped name,
      lower-cased. */
  lemma CacheKeyLowersStrippedName(game: string)
    ensures CacheKey(game) == Lower(PyStrip(game))
  {
    StripLowerCommute(game);
  }

  /** Two names that differ only in letter case and surrounding whitespace
      share their key. */
  lemma CacheKeySharedUpToCaseAndSpace(game: string, other: string, before: string, after: string)
    requires EqualsIgnoreCase(game, other)
    requires AllIn(PySpace, before, 0, |before|) && AllIn(PySpace, after, 0, |after|)
    ensures CacheKey(before + other + after) == CacheKey(game)
  {
    LowerThree(before, other, after);
    LowerOfSpaces(before);
    LowerOfSpaces(after);
    StripIgnoresPadding(PySpace, before, Lower(other), after);
  }

  /** The item the search response leads to: the chosen result, if the
      request worked and some result scored above 0. */
  function Chosen(ratio: (string, string) -> real, game: string, response: SearchResponse): (c: Option<nat>)
    ensures c.Some? ==> response.Results? && c.value < |response.items|
    ensures response.RequestFailed? ==> c.None?
  {
    match response
    case RequestFailed => None
    case Results(items) => PickItem(ratio, game, items)
  }

  /** `search_steam_game`: the app id found (if any) and the cache after the
      call.  A cached key is answered without searching.  For a chosen
      result, `best_match['id']` is read first (a missing `id` raises, and
      the handler returns nothing); the id is then stored under the key, and
      only after that is `best_match['name']` read for the log line, so a
      nameless result is remembered but not returned. */
  function SearchSteamGame(ratio: (string, string) -> real, cache: IdCache, game: string, response: SearchResponse)
    : (r: (Option<int>, IdCache))
    ensures CacheKey(game) in cache ==> r == (Some(cache[CacheKey(game)]), cache)
    ensures r.0.Some? ==> CacheKey(game) in r.1 && r.1[CacheKey(game)] == r.0.value
    ensures forall k :: k in cache ==> k in r.1 && r.1[k] == cache[k]
    ensures forall k :: k in r.1 && k !in cache ==> k == CacheKey(game)
  {
    var key := CacheKey(game);
    if key in cache then (Some(cache[key]), cache)
    else
      match Chosen(ratio, game, response)
      case None => (None, cache)
      case Some(k) =>
        var item := response.items[k];
        if item.id.None? then (None, cache)
        else
          var cache' := cache[key := item.id.value];
          if item.name.None? then (None, cache') else (Some(item.id.value), cache')
  }

  /** A cached key is answered the same whatever the search would return. */
  lemma CacheHitIgnoresSearch(ratio: (string, string) -> real, cache: IdCache, game: string, r1: SearchResponse, r2: SearchResponse)
    requires CacheKey(game) in cache
    ensures SearchSteamGame(ratio, cache, game, r1) == SearchSteamGame(ratio, cache, game, r2)
  {
  }

  /** Once an id was found, every later search for a name with the same key
      returns it from the cache and leaves the cache as it is. */
  lemma FoundIdIsRemembered(ratio: (string, string) -> real, cache: IdCache, game: string, response: SearchResponse,
                            again: string, later: SearchResponse)
    requires SearchSteamGame(ratio, cache, game, response).0.Some?
    requires CacheKey(again) == CacheKey(game)
    ensures var first := SearchSteamGame(ratio, cache, game, response);
      SearchSteamGame(ratio, first.1, again, later) == first
  {
  }

  /** On a cache miss: nothing is found and nothing is cached when the
      request failed, no result scored above 0, or the chosen result has no
      `id`; otherwise the chosen result's id is cached under the key, and it
      is returned exactly when that result also has a `name`. */
  lemma SearchMissPicks(ratio: (string, string) -> real, cache: IdCache, game: string, response: SearchResponse)
    requires CacheKey(game) !in cache
    ensures var r := SearchSteamGame(ratio, cache, game, response);
      var c := Chosen(ratio, game, response);
      (c.None? || response.items[c.value].id.None?) ==> r == (None, cache)
    ensures var r := SearchSteamGame(ratio, cache, game, response);
      var c := Chosen(ratio, game, response);
      c.Some? && response.items[c.value].id.Some? ==> r.1 == cache[CacheKey(game) := response.items[c.value].id.value]
    ensures var r := SearchSteamGame(ratio, cache, game, response);
      var c := Chosen(ratio, game, response);
      r.0.Some? <==> c.Some? && response.items[c.value].id.Some? && response.items[c.value].name.Some?
    ensures var r := SearchSteamGame(ratio, cache, game, response);
      var c := Chosen(ratio, game, response);
      r.0.Some? ==> r.0.value == response.items[c.value].id.value
  {
  }

  /** A chosen result without a `name` is not returned, but its id is cached,
      so the next search for the game returns it from the cache. */
  lemma NamelessPickFoundNextTime(ratio: (string, string) -> real, cache: IdCache, game: string, response: SearchResponse,
                                  later: SearchResponse)
    requires CacheKey(game) !in cache
    requires var c := Chosen(ratio, game, response);
      c.Some? && response.items[c.value].id.Some? && response.items[c.value].name.None?
    ensures var first := SearchSteamGame(ratio, cache, game, response);
      var id := response.items[Chosen(ratio, game, response).value].id.value;
      && first.0.None?
      && SearchSteamGame(ratio, first.1, game, later) == (Some(id), first.1)
  {
  }

  // ---------------------------------------------------------------------
  // The image file name

  /** Characters the first substitution keeps: word characters, whitespace and `-`. */
  predicate Kept(c: char) {
    IsWordChar(c) || IsSeparator(c)
  }

  /** The characters of the class `[-\s]`. */
  predicate IsSeparator(c: char) {
    c == '-' || IsPySpace(c)
  }

  predicate AllSeparators(s: string) {
    forall i :: 0 <= i < |s| ==> IsSeparator(s[i])
  }

  /** The end of the run of separators that starts at `i`. */
  function SeparatorRunEnd(s: string, i: nat): (j: nat)
    requires i <= |s|
    ensures i <= j <= |s|
    ensures AllSeparators(s[i..j])
    ensures j == |s| || !IsSeparator(s[j])
    decreases |s| - i
  {
    if i == |s| || !IsSeparator(s[i]) then i
    else
      var j := SeparatorRunEnd(s, i + 1);
      assert s[i..j] == [s[i]] + s[i + 1..j];
      j
  }

  predicate AllKept(s: string) {
    forall i :: 0 <= i < |s| ==> Kept(s[i])
  }

  /** `re.sub(r'[^\w\s-]', '', name)`: what survives is word characters,
      whitespace and `-`, and a text made only of those survives whole. */
  function DropSpecials(s: string): (r: string)
    ensures |r| <= |s|
    ensures AllKept(r)
    ensures AllKept(s) ==> r == s
  {
    if s == [] then []
    else (if Kept(s[0]) then [s[0]] else []) + DropSpecials(s[1..])
  }

  /** `re.sub(r'[-\s]+', '_', s)`: each maximal run of `-` and whitespace
      becomes one `_`. */
  function CollapseSeparators(s: string): (r: string)
    ensures |r| <= |s|
    ensures NoSeparators(r)
    ensures NoSeparators(s) ==> r == s
    decreases |s|
  {
    if s == [] then []
    else if IsSeparator(s[0]) then ['_'] + CollapseSeparators(s[SeparatorRunEnd(s, 0)..])
    else [s[0]] + CollapseSeparators(s[1..])
  }

  predicate NoSeparators(s: string) {
    forall i :: 0 <= i < |s| ==> !IsSeparator(s[i])
  }

  /** Removing the special characters of a concatenation removes them from
      each part, so every kept character survives in place. */
  lemma {:induction false} DropSpecialsAppend(a: string, b: string)
    ensures DropSpecials(a + b) == DropSpecials(a) + DropSpecials(b)
    decreases |a|
  {
    if a != [] {
      assert (a + b)[0] == a[0];
      assert (a + b)[1..] == a[1..] + b;
      DropSpecialsAppend(a[1..], b);
    } else {
      assert a + b == b;
    }
  }

  /** One character is kept exactly when it is a word character, whitespace
      or `-`. */
  lemma DropSpecialsChar(c: char)
    ensures DropSpecials([c]) == (if Kept(c) then [c] else [])
  {
    assert [c][1..] == [];
  }

  /** A separator run that stops at a non-separator ends there. */
  lemma {:induction false} SeparatorRunEndAt(s: string, i: nat, j: nat)
    requires i <= j <= |s| && AllSeparators(s[i..j])
    requires j == |s| || !IsSeparator(s[j])
    ensures SeparatorRunEnd(s, i) == j
    decreases j - i
  {
    if i < j {
      assert s[i..j][0] == s[i];
      var run, rest := s[i..j], s[i + 1..j];
      assert AllSeparators(rest) by {
        forall k | 0 <= k < |rest| ensures IsSeparator(rest[k]) {
          assert rest[k] == run[k + 1];
        }
      }
      SeparatorRunEndAt(s, i + 1, j);
    }
  }

  /** `re.sub(r'[-\s]+', '_', ...)` writes one `_` for a whole run: a part
      without separators, then a run of them, then a rest that does not start
      with one, becomes the part, one `_` and the collapsed rest. */
  lemma {:induction false} CollapseRun(w: string, run: string, rest: string)
    requires NoSeparators(w) && run != [] && AllSeparators(run)
    requires rest == [] || !IsSeparator(rest[0])
    ensures CollapseSeparators(w + run + rest) == w + "_" + CollapseSeparators(rest)
    decreases |w|
  {
    if w == [] {
      assert w + run + rest == run + rest;
      CollapseLeadingRun(run, rest);
    } else {
      var s := w + run + rest;
      assert s[0] == w[0];
      assert s[1..] == w[1..] + run + rest;
      CollapseRun(w[1..], run, rest);
    }
  }

  /** A text that starts with a separator run collapses it to one `_`. */
  lemma CollapseLeadingRun(run: string, rest: string)
    requires run != [] && AllSeparators(run)
    requires rest == [] || !IsSeparator(rest[0])
    ensures CollapseSeparators(run + rest) == "_" + CollapseSeparators(rest)
  {
    var s := run + rest;
    assert s[0] == run[0];
    assert s[0..|run|] == run;
    SeparatorRunEndAt(s, 0, |run|);
    assert s[|run|..] == rest;
  }

  /** A list of words, each non-empty and made of word characters. */
  predicate WordList(words: seq<string>) {
    |words| >= 1 && forall k :: 0 <= k < |words| ==> words[k] != [] && AllWordChars(words[k])
  }

  /** Words of word characters written with single spaces between them have
      the same words joined by `_` as their file name. */
  lemma SafeNameOfWords(words: seq<string>)
    requires WordList(words)
    ensures SafeName(Join(words, ' ')) == Join(words, '_')
  {
    JoinedWordsShape(words);
    JoinedWordsCollapse(words);
    SafeNameOfKept(Join(words, ' '));
  }

  /** A word character is not whitespace. */
  lemma WordCharNotSpace(c: char)
    requires IsWordChar(c)
    ensures !InClass(PySpace, c)
  {
  }

  /** A text of word characters has no separator. */
  lemma WordNoSeparators(w: string)
    requires AllWordChars(w)
    ensures NoSeparators(w)
  {
    forall i | 0 <= i < |w| ensures !IsSeparator(w[i]) {
      WordCharNotSpace(w[i]);
    }
  }

  /** A text of kept characters that starts and ends with a word character
      only has its separator runs collapsed. */
  lemma SafeNameOfKept(s: string)
    requires s != [] && IsWordChar(s[0]) && IsWordChar(s[|s| - 1]) && AllKept(s)
    ensures SafeName(s) == CollapseSeparators(s)
  {
    assert DropSpecials(s) == s;
    WordCharNotSpace(s[0]);
    WordCharNotSpace(s[|s| - 1]);
    StripUnchanged(PySpace, s);
    assert PyStrip(DropSpecials(s)) == s;
  }

  lemma WordListTail(words: seq<string>)
    requires WordList(words) && |words| > 1
    ensures WordList(words[1..]) && words == [words[0]] + words[1..]
  {
    forall k | 0 <= k < |words| - 1 ensures words[1..][k] != [] && AllWordChars(words[1..][k]) {
      assert words[1..][k] == words[k + 1];
    }
  }

  /** A space-joined text of words is kept whole by the first substitution
      and starts and ends with a word character. */
  lemma {:induction false} JoinedWordsShape(words: seq<string>)
    requires WordList(words)
    ensures var s := Join(words, ' ');
      s != [] && IsWordChar(s[0]) && IsWordChar(s[|s| - 1]) && AllKept(s)
    decreases |words|
  {
    var w := words[0];
    assert w != [] && AllWordChars(w);
    if |words| == 1 {
      assert Join(words, ' ') == w;
    } else {
      WordListTail(words);
      JoinedWordsShape(words[1..]);
      var tail := Join(words[1..], ' ');
      JoinCons(w, words[1..], ' ');
      WordsAroundSpace(w, tail);
    }
  }

  /** A word, a space and a kept text bounded by word characters make a kept
      text bounded by word characters. */
  lemma WordsAroundSpace(w: string, tail: string)
    requires w != [] && AllWordChars(w)
    requires tail != [] && IsWordChar(tail[|tail| - 1]) && AllKept(tail)
    ensures var s := w + [' '] + tail;
      IsWordChar(s[0]) && IsWordChar(s[|s| - 1]) && AllKept(s)
  {
    var s := w + [' '] + tail;
    assert s[0] == w[0];
    assert s[|s| - 1] == tail[|tail| - 1];
    forall i | 0 <= i < |s| ensures Kept(s[i]) {
      if i < |w| {
        assert s[i] == w[i];
      } else if i > |w| {
        assert s[i] == tail[i - |w| - 1];
      }
    }
  }

  /** A space-joined text of words collapses to the `_`-joined text. */
  lemma {:induction false} JoinedWordsCollapse(words: seq<string>)
    requires WordList(words)
    ensures CollapseSeparators(Join(words, ' ')) == Join(words, '_')
    decreases |words|
  {
    var w := words[0];
    assert w != [] && AllWordChars(w);
    WordNoSeparators(w);
    if |words| == 1 {
      assert Join(words, ' ') == w;
      assert Join(words, '_') == w;
    } else {
      WordListTail(words);
      JoinedWordsShape(words[1..]);
      JoinedWordsCollapse(words[1..]);
      var tail := Join(words[1..], ' ');
      JoinCons(w, words[1..], ' ');
      JoinCons(w, words[1..], '_');
      assert AllSeparators(" ");
      assert !IsSeparator(tail[0]);
      CollapseRun(w, " ", tail);
    }
  }

  /** The file name of a game with a space in its name: the space becomes
      `_` rather than disappearing. */
  lemma SafeNameExample(game: string)
    requires game == "Hades II"
    ensures SafeName(game) == "Hades_II"
  {
    SafeNameExampleKept(game);
    SafeNameExampleCollapses(game);
    SafeNameOfKept(game);
  }

  lemma SafeNameExampleKept(game: string)
    requires game == "Hades II"
    ensures game != [] && IsWordChar(game[0]) && IsWordChar(game[|game| - 1]) && AllKept(game)
  {
  }

  lemma SafeNameExampleCollapses(game: string)
    requires game == "Hades II"
    ensures CollapseSeparators(game) == "Hades_II"
  {
    CollapseTwoWords("Hades", "II");
    assert "Hades" + " " + "II" == game;
    assert "Hades" + "_" + "II" == "Hades_II";
  }

  /** Two words with one space between them collapse to the words with `_`. */
  lemma CollapseTwoWords(w1: string, w2: string)
    requires AllWordChars(w1) && AllWordChars(w2) && w2 != []
    ensures CollapseSeparators(w1 + " " + w2) == w1 + "_" + w2
  {
    WordNoSeparators(w1);
    WordNoSeparators(w2);
    WordCharNotSpace(w2[0]);
    assert AllSeparators(" ");
    CollapseRun(w1, " ", w2);
  }

  /** The base name of the cached image file: made of word characters only,
      and keeping the letters and digits of the game's name in order. */
  function SafeName(game: string): (r: string)
    ensures AllWordChars(r)
    ensures Alnums(r) == Alnums(game)
  {
    var d := DropSpecials(game);
    var t := PyStrip(d);
    assert forall i :: 0 <= i < |t| ==> Kept(t[i]);
    CollapseGivesWordChars(t);
    DropSpecialsKeepsAlnums(game);
    StripKeepsAlnums(d);
    CollapseKeepsAlnums(t);
    CollapseSeparators(t)
  }

  predicate AllWordChars(s: string) {
    forall i :: 0 <= i < |s| ==> IsWordChar(s[i])
  }

  /** The letters and digits of `s`, in order. */
  function Alnums(s: string): (r: string)
    ensures |r| <= |s|
  {
    if s == [] then []
    else (if IsAlnum(s[0]) then [s[0]] else []) + Alnums(s[1..])
  }

  lemma {:induction false} AlnumsAppend(a: string, b: string)
    ensures Alnums(a + b) == Alnums(a) + Alnums(b)
    decreases |a|
  {
    if a == [] {
      assert a + b == b;
    } else {
      var head := if IsAlnum(a[0]) then [a[0]] else [];
      assert (a + b)[0] == a[0];
      assert (a + b)[1..] == a[1..] + b;
      assert Alnums(a + b) == head + Alnums(a[1..] + b);
      assert Alnums(a) == head + Alnums(a[1..]);
      AlnumsAppend(a[1..], b);
    }
  }

  /** A run of separators has no letters or digits. */
  lemma {:induction false} AlnumsOfSeparators(s: string)
    requires AllSeparators(s)
    ensures Alnums(s) == []
    decreases |s|
  {
    if s != [] {
      assert IsSeparator(s[0]);
      assert AllSeparators(s[1..]);
      AlnumsOfSeparators(s[1..]);
    }
  }

  lemma {:induction false} DropSpecialsKeepsAlnums(s: string)
    ensures Alnums(DropSpecials(s)) == Alnums(s)
    decreases |s|
  {
    if s != [] {
      var head := if Kept(s[0]) then [s[0]] else [];
      AlnumsAppend(head, DropSpecials(s[1..]));
      DropSpecialsKeepsAlnums(s[1..]);
    }
  }

  lemma StripKeepsAlnums(s: string)
    ensures Alnums(PyStrip(s)) == Alnums(s)
  {
    AlnumsOfTrimmed(s, StripStart(PySpace, s), StripEnd(PySpace, s));
  }

  /** Cutting runs of spaces off both ends keeps the letters and digits. */
  lemma AlnumsOfTrimmed(s: string, a: nat, b: nat)
    requires a <= b <= |s| && AllIn(PySpace, s, 0, a) && AllIn(PySpace, s, b, |s|)
    ensures Alnums(s[a..b]) == Alnums(s)
  {
    SpacesAreSeparators(s, 0, a);
    SpacesAreSeparators(s, b, |s|);
    AlnumsAroundSeparators(s[0..a], s[a..b], s[b..|s|]);
    SliceThree(s, a, b);
  }

  /** A run of spaces is a run of separators. */
  lemma SpacesAreSeparators(s: string, lo: nat, hi: nat)
    requires lo <= hi <= |s| && AllIn(PySpace, s, lo, hi)
    ensures AllSeparators(s[lo..hi])
  {
    forall i | 0 <= i < hi - lo ensures IsSeparator(s[lo..hi][i]) {
      assert InClass(PySpace, s[lo + i]);
    }
  }

  /** Separators around a string add no letters or digits. */
  lemma AlnumsAroundSeparators(x: string, m: string, y: string)
    requires AllSeparators(x) && AllSeparators(y)
    ensures Alnums(x + m + y) == Alnums(m)
  {
    AlnumsAppend(x + m, y);
    AlnumsAppend(x, m);
    AlnumsOfSeparators(x);
    AlnumsOfSeparators(y);
  }

  lemma {:induction false} CollapseKeepsAlnums(s: string)
    ensures Alnums(CollapseSeparators(s)) == Alnums(s)
    decreases |s|
  {
    if s != [] {
      if IsSeparator(s[0]) {
        var j := SeparatorRunEnd(s, 0);
        assert s == s[..j] + s[j..];
        AlnumsAppend(s[..j], s[j..]);
        assert s[..j] == s[0..j];
        AlnumsOfSeparators(s[..j]);
        AlnumsAppend(['_'], CollapseSeparators(s[j..]));
        CollapseKeepsAlnums(s[j..]);
      } else {
        AlnumsAppend([s[0]], CollapseSeparators(s[1..]));
        CollapseKeepsAlnums(s[1..]);
      }
    }
  }

  /** Only word characters survive: what is left of the first substitution
      is word characters and separators, and every separator run becomes `_`. */
  lemma {:induction false} CollapseGivesWordChars(s: string)
    requires forall i :: 0 <= i < |s| ==> Kept(s[i])
    ensures AllWordChars(CollapseSeparators(s))
    decreases |s|
  {
    if s != [] {
      if IsSeparator(s[0]) {
        var j := SeparatorRunEnd(s, 0);
        CollapseGivesWordChars(s[j..]);
      } else {
        CollapseGivesWordChars(s[1..]);
      }
    }
  }

  /** A name of word characters only is its own file name. */
  lemma SafeNameFixesWordNames(s: string)
    requires AllWordChars(s)
    ensures SafeName(s) == s
  {
    assert AllKept(s);
    StripUnchanged(PySpace, s);
    assert NoSeparators(s);
  }

  /** Cleaning a file name twice changes nothing more. */
  lemma SafeNameIdempotent(game: string)
    ensures SafeName(SafeName(game)) == SafeName(game)
  {
    SafeNameFixesWordNames(SafeName(game));
  }

  // ---------------------------------------------------------------------
  // Choosing the header image

  /** The state of the image file `steam_images/<SafeName>.jpg`. */
  datatype FileState = NoFile | ReadableFile | CorruptFile

  /** The one download attempt: the request failed (nothing written), or the
      bytes were saved and then did or did not open as an image. */
  datatype Download = DownloadFailed | Saved(opens: bool)

  datatype Header = CachedImage | DownloadedImage(appId: int) | Placeholder

  datatype HeaderResult = HeaderResult(image: Header, file: FileState, cache: IdCache)

  /** Python's truth value of the app id: `None` and 0 are false. */
  predicate Usable(id: Option<int>) {
    id.Some? && id.value != 0
  }

  /** `get_steam_header_image`: a readable cached file first; a corrupt one
      is deleted and the search goes on; then one download for a usable app
      id; otherwise the placeholder. */
  function HeaderImage(ratio: (string, string) -> real, cache: IdCache, game: string, file: FileState,
                       response: SearchResponse, download: Download): (r: HeaderResult)
    ensures r.image.DownloadedImage? ==> r.file == ReadableFile
  {
    if file == ReadableFile then HeaderResult(CachedImage, ReadableFile, cache)
    else
      var found := SearchSteamGame(ratio, cache, game, response);
      if !Usable(found.0) then HeaderResult(Placeholder, NoFile, found.1)
      else
        match download
        case DownloadFailed => HeaderResult(Placeholder, NoFile, found.1)
        case Saved(opens) =>
          if opens then HeaderResult(DownloadedImage(found.0.value), ReadableFile, found.1)
          else HeaderResult(Placeholder, CorruptFile, found.1)
  }

  /** A readable cached file is used without searching or downloading. */
  lemma ReadableFileFirst(ratio: (string, string) -> real, cache: IdCache, game: string,
                          response: SearchResponse, download: Download)
    ensures HeaderImage(ratio, cache, game, ReadableFile, response, download) == HeaderResult(CachedImage, ReadableFile, cache)
  {
  }

  /** A corrupt file is as good as none: it is deleted and the search runs. */
  lemma CorruptFileIsReplaced(ratio: (string, string) -> real, cache: IdCache, game: string,
                              response: SearchResponse, download: Download)
    ensures HeaderImage(ratio, cache, game, CorruptFile, response, download)
         == HeaderImage(ratio, cache, game, NoFile, response, download)
  {
  }

  /** The downloaded image is the header of the app id the search found, and
      it is used exactly when that id is usable and the one download worked;
      in every other case without a readable file the placeholder is drawn. */
  lemma DownloadIffUsableIdAndSaved(ratio: (string, string) -> real, cache: IdCache, game: string, file: FileState,
                                    response: SearchResponse, download: Download)
    requires file != ReadableFile
    ensures var r := HeaderImage(ratio, cache, game, file, response, download);
      var found := SearchSteamGame(ratio, cache, game, response);
      && (r.image.DownloadedImage? <==> Usable(found.0) && download == Saved(true))
      && (r.image.DownloadedImage? ==> r.image.appId == found.0.value)
      && (r.image == Placeholder <==> !r.image.DownloadedImage?)
      && r.cache == found.1
  {
  }

  /** Without a usable id the download is never consulted. */
  lemma NoIdNoDownload(ratio: (string, string) -> real, cache: IdCache, game: string, file: FileState,
                       response: SearchResponse, d1: Download, d2: Download)
    requires !Usable(SearchSteamGame(ratio, cache, game, response).0)
    ensures HeaderImage(ratio, cache, game, file, response, d1) == HeaderImage(ratio, cache, game, file, response, d2)
  {
  }

  /** After a successful download the next request for the game is served
      from the file, with the cache as the first request left it. */
  lemma DownloadedImageIsReused(ratio: (string, string) -> real, cache: IdCache, game: string, file: FileState,
                                response: SearchResponse, download: Download, later: SearchResponse, again: Download)
    requires HeaderImage(ratio, cache, game, file, response, download).image.DownloadedImage?
    ensures var r := HeaderImage(ratio, cache, game, file, response, download);
      HeaderImage(ratio, r.cache, game, r.file, later, again).image == CachedImage
  {
  }
}
