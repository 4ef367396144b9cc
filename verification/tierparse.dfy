/** Reading the tier list out of the document text
    (`parse_tier_list_from_content` in scripts/automated_tierlist_updater.py).

    The text is searched with `([A-Z])\s*Tier:\s*([^\n\r]+)` under IGNORECASE,
    all non-overlapping matches from left to right; each match gives a tier
    letter and a comma-separated list of names. */
module TierParse {
  import opened Text
  import opened TierLists

  // ---------------------------------------------------------------------
  // One match of the tier pattern

  /** `s[p..e]` is matched by the tier pattern with the keyword "tier:" at
      `a` and the names group `s[q..e]`. */
  ghost predicate TierWitness(s: string, p: nat, a: nat, q: nat, e: nat) {
    && p < a && a + 5 <= q < e <= |s|
    && IsLetter(s[p])
    && AllIn(PySpace, s, p + 1, a)
    && LiteralAtIgnoreCase(s, a, "tier:")
    && AllIn(PySpace, s, a + 5, q)
    && AllIn(NotLineBreak, s, q, e)
  }

  /** The pattern can match at `p` with the names group `s[q..e]`. */
  ghost predicate TierSpans(s: string, p: nat, q: nat, e: nat) {
    exists a: nat :: TierWitness(s, p, a, q, e)
  }

  /** The order in which the engine tries the ways of matching at one start:
      the greedy `\s*` before the group first, then the greedy group. */
  predicate TriedLater(x: (nat, nat), y: (nat, nat)) {
    x.0 < y.0 || (x.0 == y.0 && x.1 <= y.1)
  }

  /** The engine's match at `p`, as the names group `(q, e)`.  After the
      colon `\s*` takes every space, line breaks included; if nothing but
      spaces follows up to the end of the text, it gives back characters
      until the group can take a single one that is not a line break. */
  function TierMatchAt(s: string, p: nat): (r: Option<(nat, nat)>)
    requires p <= |s|
    ensures r.Some? ==> p < |s| && IsLetter(s[p]) && p < r.value.0 < r.value.1 <= |s|
    ensures r.Some? ==> AllIn(NotLineBreak, s, r.value.0, r.value.1)
  {
    if p == |s| || !IsLetter(s[p]) then None
    else TierGroupAt(s, SkipWhile(PySpace, s, p + 1))
  }

  /** The rest of the engine's match once the spaces after the letter are
      taken: the keyword at `a`, then the names group. */
  function TierGroupAt(s: string, a: nat): (r: Option<(nat, nat)>)
    requires a <= |s|
    ensures r.Some? ==> a + 5 <= r.value.0 < r.value.1 <= |s|
    ensures r.Some? ==> AllIn(NotLineBreak, s, r.value.0, r.value.1)
  {
    if !LiteralAtIgnoreCase(s, a, "tier:") then None
    else
      var q := SkipWhile(PySpace, s, a + 5);
      if q < |s| then Some((q, SkipWhile(NotLineBreak, s, q)))
      else
        var i := SkipBackWhile(LineBreak, s, a + 5, |s|);
        if i == a + 5 then None else Some((i - 1, i))
  }

  /** What the group scan returns follows the keyword and the spaces after it. */
  lemma TierGroupAtSound(s: string, a: nat)
    requires a <= |s|
    ensures TierGroupAt(s, a).Some? ==>
      LiteralAtIgnoreCase(s, a, "tier:") && AllIn(PySpace, s, a + 5, TierGroupAt(s, a).value.0)
  {
    if LiteralAtIgnoreCase(s, a, "tier:") {
      var q := SkipWhile(PySpace, s, a + 5);
      if q >= |s| {
        var i := SkipBackWhile(LineBreak, s, a + 5, |s|);
        if i > a + 5 {
          assert AllIn(PySpace, s, a + 5, i - 1);
        }
      }
    }
  }

  /** Any way of matching at `p` is one the engine tries no earlier than the
      one it returns: each greedy run stops at a character the rest of the
      pattern cannot use. */
  lemma TierWitnessTriedFirst(s: string, p: nat, a: nat, q: nat, e: nat)
    requires TierWitness(s, p, a, q, e)
    ensures TierMatchAt(s, p).Some? && TriedLater((q, e), TierMatchAt(s, p).value)
  {
    var a0 := SkipWhile(PySpace, s, p + 1);
    assert LowerChar(s[a]) == LowerChar("tier:"[0]) == 't';
    assert !IsPySpace(s[a]);
    assert a0 < |s| ==> !IsPySpace(s[a0]);
    assert a == a0;
    var q0 := SkipWhile(PySpace, s, a + 5);
    assert q0 < |s| ==> !IsPySpace(s[q0]);
    assert q <= q0;
    if q0 < |s| {
      var e0 := SkipWhile(NotLineBreak, s, q0);
      assert e0 < |s| ==> !InClass(NotLineBreak, s[e0]);
      assert q == q0 ==> e <= e0;
    } else {
      var i := SkipBackWhile(LineBreak, s, a + 5, |s|);
      assert !InClass(LineBreak, s[q]);
      assert q < i;
      assert i < |s| ==> InClass(LineBreak, s[i]);
      assert q == i - 1 ==> e <= i;
    }
  }

  /** What the engine returns at `p` is a way of matching there. */
  lemma TierMatchAtSound(s: string, p: nat)
    requires p <= |s|
    ensures TierMatchAt(s, p).Some? ==> TierSpans(s, p, TierMatchAt(s, p).value.0, TierMatchAt(s, p).value.1)
  {
    if p < |s| && IsLetter(s[p]) {
      var a := SkipWhile(PySpace, s, p + 1);
      TierGroupAtSound(s, a);
      var r := TierGroupAt(s, a);
      assert TierMatchAt(s, p) == r;
      if r.Some? {
        TierWitnessOfRun(s, p, a, r.value.0, r.value.1);
      }
    }
  }

  /** The pieces the engine's scan finds make up a match. */
  lemma TierWitnessOfRun(s: string, p: nat, a: nat, q: nat, e: nat)
    requires p < a && a + 5 <= q < e <= |s| && IsLetter(s[p])
    requires AllIn(PySpace, s, p + 1, a) && LiteralAtIgnoreCase(s, a, "tier:")
    requires AllIn(PySpace, s, a + 5, q) && AllIn(NotLineBreak, s, q, e)
    ensures TierSpans(s, p, q, e)
  {
    assert TierWitness(s, p, a, q, e);
  }

  /** The engine's match at `p`: it exists exactly when the pattern can
      match there, and it is the way of matching the engine tries first. */
  lemma TierMatchAtFirstTried(s: string, p: nat)
    requires p <= |s|
    ensures TierMatchAt(s, p).Some? ==> TierSpans(s, p, TierMatchAt(s, p).value.0, TierMatchAt(s, p).value.1)
    ensures forall q: nat, e: nat :: TierSpans(s, p, q, e) ==>
      TierMatchAt(s, p).Some? && TriedLater((q, e), TierMatchAt(s, p).value)
  {
    TierMatchAtSound(s, p);
    forall q: nat, e: nat, a: nat | TierWitness(s, p, a, q, e)
      ensures TierMatchAt(s, p).Some? && TriedLater((q, e), TierMatchAt(s, p).value)
    {
      TierWitnessTriedFirst(s, p, a, q, e);
    }
  }

  // ---------------------------------------------------------------------
  // All matches

  /** `re.findall` from `p` on: the letter and the names group of each
      match, scanning left to right and resuming after each match. */
  function FindTierMatches(s: string, p: nat): (ms: seq<(char, string)>)
    requires p <= |s|
    ensures forall k :: 0 <= k < |ms| ==> IsLetter(ms[k].0) && ms[k].1 != []
    ensures forall k :: 0 <= k < |ms| ==> '\n' !in ms[k].1 && '\r' !in ms[k].1
    decreases |s| - p
  {
    if p == |s| then []
    else
      match TierMatchAt(s, p)
      case Some((q, e)) =>
        assert forall c :: c in s[q..e] ==> InClass(NotLineBreak, c);
        [(s[p], s[q..e])] + FindTierMatches(s, e)
      case None => FindTierMatches(s, p + 1)
  }

  // ---------------------------------------------------------------------
  // Names and the dictionary

  /** A name as the parser keeps it: not empty, no surrounding spaces, no comma. */
  predicate IsName(n: string) {
    n != [] && !IsPySpace(n[0]) && !IsPySpace(n[|n| - 1]) && ',' !in n
  }

  /** The stripped pieces that are not empty, in order. */
  function KeepNames(pieces: seq<string>): (names: seq<string>)
    requires forall k :: 0 <= k < |pieces| ==> ',' !in pieces[k]
    ensures |names| <= |pieces|
    ensures forall k :: 0 <= k < |names| ==> IsName(names[k])
  {
    if pieces == [] then []
    else
      var n := PyStrip(pieces[0]);
      StripKeepsAbsent(PySpace, pieces[0], ',');
      (if n == [] then [] else [n]) + KeepNames(pieces[1..])
  }

  /** `[game.strip() for game in games_str.split(',') if game.strip()]`. */
  function SplitNames(g: string): (names: seq<string>)
    ensures forall k :: 0 <= k < |names| ==> IsName(names[k])
  {
    KeepNames(Split(g, ','))
  }

  /** Names written out with commas are read back unchanged. */
  lemma {:induction false} KeepNamesOfNames(names: seq<string>)
    requires forall k :: 0 <= k < |names| ==> IsName(names[k])
    ensures forall k :: 0 <= k < |names| ==> ',' !in names[k]
    ensures KeepNames(names) == names
  {
    if names != [] {
      StripUnchanged(PySpace, names[0]);
      KeepNamesOfNames(names[1..]);
    }
  }

  lemma SplitNamesJoin(names: seq<string>)
    requires |names| >= 1
    requires forall k :: 0 <= k < |names| ==> IsName(names[k])
    ensures SplitNames(Join(names, ',')) == names
  {
    SplitJoin(names, ',');
    KeepNamesOfNames(names);
  }

  /** A row as the parser produces it: an upper-case letter and clean names. */
  predicate ParsedRow(t: Tier) {
    IsUpperLetter(t.letter) && forall k :: 0 <= k < |t.games| ==> IsName(t.games[k])
  }

  /** The assignment each match makes: its letter upper-cased, its names split. */
  function MatchRows(ms: seq<(char, string)>): (rows: seq<Tier>)
    requires forall k :: 0 <= k < |ms| ==> IsLetter(ms[k].0)
    ensures |rows| == |ms|
    ensures forall k :: 0 <= k < |ms| ==> rows[k] == Tier(UpperChar(ms[k].0), SplitNames(ms[k].1))
    ensures forall k :: 0 <= k < |ms| ==> ParsedRow(rows[k])
  {
    seq(|ms|, k requires 0 <= k < |ms| => Tier(UpperChar(ms[k].0), SplitNames(ms[k].1)))
  }

  /** `parse_tier_list_from_content`. */
  function ParseTierList(content: string): (tl: TierList)
    ensures UniqueLetters(tl)
    ensures forall t :: t in tl ==> ParsedRow(t)
  {
    var rows := MatchRows(FindTierMatches(content, 0));
    AssignAllUnique(rows);
    AssignAllRows(rows);
    AssignAll(rows)
  }

  /** A tier is present exactly when some match of the pattern carries its
      letter, in either case. */
  lemma ParseTierListLetters(content: string, c: char)
    ensures var ms := FindTierMatches(content, 0);
      Get(ParseTierList(content), c).Some? <==> exists i :: 0 <= i < |ms| && UpperChar(ms[i].0) == c
  {
    var ms := FindTierMatches(content, 0);
    var rows := MatchRows(ms);
    ParseTierListIsAssignAll(content);
    AssignAllLetters(rows, c);
    if exists i :: 0 <= i < |rows| && rows[i].letter == c {
      var i :| 0 <= i < |rows| && rows[i].letter == c;
      assert UpperChar(ms[i].0) == c;
    }
    if exists i :: 0 <= i < |ms| && UpperChar(ms[i].0) == c {
      var i :| 0 <= i < |ms| && UpperChar(ms[i].0) == c;
      assert rows[i].letter == c;
    }
  }

  /** The parsed tier list is the rows of the matches assigned in turn. */
  lemma ParseTierListIsAssignAll(content: string)
    ensures ParseTierList(content) == AssignAll(MatchRows(FindTierMatches(content, 0)))
  {
  }

  /** A tier holds the names of the last match carrying its letter: a
      repeated tier replaces the earlier list. */
  lemma ParseTierListLastWins(content: string, i: nat)
    requires i < |FindTierMatches(content, 0)|
    requires var ms := FindTierMatches(content, 0);
      forall j :: i < j < |ms| ==> UpperChar(ms[j].0) != UpperChar(ms[i].0)
    ensures var ms := FindTierMatches(content, 0);
      Get(ParseTierList(content), UpperChar(ms[i].0)) == Some(SplitNames(ms[i].1))
  {
    var ms := FindTierMatches(content, 0);
    var rows := MatchRows(ms);
    ParseTierListIsAssignAll(content);
    AssignAllLastWins(rows, i);
  }

  /** A name list without commas is read as one name. */
  lemma SplitNamesSingle(g: string)
    requires IsName(g)
    ensures SplitNames(g) == [g]
  {
    assert Split(g, ',') == [g];
    StripUnchanged(PySpace, g);
  }

  /** The match at `p` of a letter, "Tier:" and a name list ending the text:
      the group runs from the first character that is not a space. */
  lemma TierMatchOnLastLine(s: string, p: nat, q: nat)
    requires p + 7 <= q < |s| && IsLetter(s[p]) && s[p + 1] == ' '
    requires LiteralAtIgnoreCase(s, p + 2, "tier:")
    requires AllIn(PySpace, s, p + 7, q) && !IsPySpace(s[q])
    requires AllIn(NotLineBreak, s, q, |s|)
    ensures TierMatchAt(s, p) == Some((q, |s|))
  {
    assert !IsPySpace(s[p + 2]) by {
      assert LowerChar(s[p + 2]) == LowerChar("tier:"[0]);
    }
    SkipWhileStopsAt(PySpace, s, p + 1, p + 2);
    SkipWhileStopsAt(PySpace, s, p + 7, q);
    SkipWhileStopsAt(NotLineBreak, s, q, |s|);
  }

  lemma SwallowedLineMatches(letter: char, next: string)
    requires IsLetter(letter) && next != [] && !IsPySpace(next[0])
    requires '\n' !in next && '\r' !in next
    ensures var s := [letter] + " Tier:\n" + next;
      FindTierMatches(s, 0) == [(letter, next)]
  {
    var s := [letter] + " Tier:\n" + next;
    assert LiteralAtIgnoreCase(s, 2, "tier:");
    assert s[8..] == next;
    assert AllIn(NotLineBreak, s, 8, |s|) by {
      forall k | 8 <= k < |s| ensures InClass(NotLineBreak, s[k]) {
        assert s[k] == next[k - 8];
      }
    }
    TierMatchOnLastLine(s, 0, 8);
    assert s[0] == letter && s[8..|s|] == next;
    assert FindTierMatches(s, |s|) == [];
  }

  /** A tier line whose list is empty swallows the next line: `\s*` after
      the colon runs over the line break, so with "S Tier:" followed by the
      line "A Tier: Hades", that whole line becomes the one name of tier S
      and tier A does not appear. */
  lemma EmptyTierLineSwallowsNext(letter: char, next: string)
    requires IsLetter(letter) && IsName(next)
    requires '\n' !in next && '\r' !in next
    ensures ParseTierList([letter] + " Tier:\n" + next) == [Tier(UpperChar(letter), [next])]
  {
    var row := Tier(UpperChar(letter), [next]);
    SwallowedLineMatches(letter, next);
    SplitNamesSingle(next);
    assert MatchRows([(letter, next)]) == [row];
    assert AssignAll([row]) == Put([], row.letter, [next]) == [row];
  }
}
