/** Correlating the ranked names with the released episodes
    (`fuzzy_match_games` and `filter_tier_list` in
    scripts/automated_tierlist_updater.py). */
module Matching {
  import opened Text
  import opened Similarity
  import opened Picks
  import opened TierLists

  /** A ranked name counts as released when its best similarity reaches this. */
  const Threshold: real := 0.6

  /** One entry of `match_details`. */
  datatype MatchDetail = MatchDetail(tierGame: string, episodeTitle: string, similarity: real)

  /** The similarity of `tierGame` to each released name, in order. */
  function Scores(ratio: (string, string) -> real, tierGame: string, released: seq<string>): (r: seq<real>)
    ensures |r| == |released|
    ensures forall j :: 0 <= j < |released| ==> r[j] == Sim(ratio, tierGame, released[j])
  {
    seq(|released|, j requires 0 <= j < |released| => Sim(ratio, tierGame, released[j]))
  }

  /** The released name recorded as the best match of `tierGame`: none when
      no released name scores above 0.0, otherwise one that scores at least
      as much as every released name and more than every earlier one. */
  function BestMatch(ratio: (string, string) -> real, tierGame: string, released: seq<string>): (m: Option<nat>)
    ensures m.None? <==> forall j :: 0 <= j < |released| ==> Sim(ratio, tierGame, released[j]) <= 0.0
    ensures m.Some? ==> m.value < |released| && 0.0 < Sim(ratio, tierGame, released[m.value])
    ensures m.Some? ==> forall j :: 0 <= j < |released| ==> Sim(ratio, tierGame, released[j]) <= Sim(ratio, tierGame, released[m.value])
    ensures m.Some? ==> forall j :: 0 <= j < m.value ==> Sim(ratio, tierGame, released[j]) < Sim(ratio, tierGame, released[m.value])
  {
    FirstBest(Scores(ratio, tierGame, released), 0.0)
  }

  /** The best score the loop ends with: the score of the best match, or
      0.0 when there is none. */
  function BestSim(ratio: (string, string) -> real, tierGame: string, released: seq<string>): (b: real)
    ensures var m := BestMatch(ratio, tierGame, released);
      && (m.None? ==> b == 0.0)
      && (m.Some? ==> b == Sim(ratio, tierGame, released[m.value]))
  {
    BestScore(Scores(ratio, tierGame, released), 0.0)
  }

  /** A ranked name is matched exactly when some released name is similar
      enough: the best score reaches the threshold iff some score does. */
  lemma MatchedIffSomeSimilar(ratio: (string, string) -> real, tierGame: string, released: seq<string>)
    ensures BestSim(ratio, tierGame, released) >= Threshold
      <==> exists j :: 0 <= j < |released| && Sim(ratio, tierGame, released[j]) >= Threshold
  {
    var scores := Scores(ratio, tierGame, released);
    if exists j :: 0 <= j < |released| && Sim(ratio, tierGame, released[j]) >= Threshold {
      var j :| 0 <= j < |released| && Sim(ratio, tierGame, released[j]) >= Threshold;
      assert scores[j] >= Threshold;
    }
  }

  /** `fuzzy_match_games`: the set of matched ranked names and, in ranked
      order, one detail per matched occurrence. */
  function FuzzyMatch(ratio: (string, string) -> real, released: seq<string>, tierGames: seq<string>)
    : (r: (set<string>, seq<MatchDetail>))
    ensures r.0 <= set t | t in tierGames
    ensures |r.1| <= |tierGames|
    ensures forall t :: t in r.0 <==> t in tierGames && BestSim(ratio, t, released) >= Threshold
    ensures forall d :: d in r.1 ==> d.tierGame in r.0
  {
    if tierGames == [] then ({}, [])
    else
      var t := tierGames[0];
      var rest := FuzzyMatch(ratio, released, tierGames[1..]);
      assert forall u :: u in tierGames[1..] ==> u in tierGames;
      match BestMatch(ratio, t, released)
      case Some(j) =>
        var score := BestSim(ratio, t, released);
        if score >= Threshold then
          (rest.0 + {t}, [MatchDetail(t, released[j], score)] + rest.1)
        else rest
      case None => rest
  }

  /** `d` names a released episode and records its similarity, which
      reaches the threshold, and that episode is the first released name
      with the greatest score. */
  predicate IsBestDetail(ratio: (string, string) -> real, released: seq<string>, d: MatchDetail) {
    exists j :: 0 <= j < |released| && d.episodeTitle == released[j]
      && d.similarity == Sim(ratio, d.tierGame, released[j]) >= Threshold
      && (forall i :: 0 <= i < |released| ==> Sim(ratio, d.tierGame, released[i]) <= d.similarity)
      && (forall i :: 0 <= i < j ==> Sim(ratio, d.tierGame, released[i]) < d.similarity)
  }

  /** Every detail is the best match of its ranked name. */
  lemma {:induction false} MatchDetailsAreBest(ratio: (string, string) -> real, released: seq<string>, tierGames: seq<string>, k: nat)
    requires k < |FuzzyMatch(ratio, released, tierGames).1|
    ensures IsBestDetail(ratio, released, FuzzyMatch(ratio, released, tierGames).1[k])
    decreases |tierGames|
  {
    var t := tierGames[0];
    var rest := FuzzyMatch(ratio, released, tierGames[1..]).1;
    var details := FuzzyMatch(ratio, released, tierGames).1;
    var best := BestMatch(ratio, t, released);
    FuzzyMatchHead(ratio, released, tierGames);
    if best.Some? && BestSim(ratio, t, released) >= Threshold {
      var d := MatchDetail(t, released[best.value], BestSim(ratio, t, released));
      if k > 0 {
        assert details[k] == rest[k - 1];
        MatchDetailsAreBest(ratio, released, tierGames[1..], k - 1);
      } else {
        assert details[k] == d;
        BestDetail(ratio, released, t);
      }
    } else {
      MatchDetailsAreBest(ratio, released, tierGames[1..], k);
    }
  }

  /** The details of a list: the head's, when it is matched, followed by
      those of the rest. */
  lemma FuzzyMatchHead(ratio: (string, string) -> real, released: seq<string>, tierGames: seq<string>)
    requires tierGames != []
    ensures var t := tierGames[0];
      var best := BestMatch(ratio, t, released);
      var rest := FuzzyMatch(ratio, released, tierGames[1..]).1;
      && (best.Some? && BestSim(ratio, t, released) >= Threshold ==>
            FuzzyMatch(ratio, released, tierGames).1
              == [MatchDetail(t, released[best.value], BestSim(ratio, t, released))] + rest)
      && (!(best.Some? && BestSim(ratio, t, released) >= Threshold) ==>
            FuzzyMatch(ratio, released, tierGames).1 == rest)
  {
  }

  /** The detail recorded for a matched name is its best match. */
  lemma BestDetail(ratio: (string, string) -> real, released: seq<string>, t: string)
    requires BestMatch(ratio, t, released).Some? && BestSim(ratio, t, released) >= Threshold
    ensures var j := BestMatch(ratio, t, released).value;
      IsBestDetail(ratio, released, MatchDetail(t, released[j], BestSim(ratio, t, released)))
  {
    var j := BestMatch(ratio, t, released).value;
    assert Sim(ratio, t, released[j]) == BestSim(ratio, t, released);
  }

  /** With no released names nothing is matched. */
  lemma NothingReleasedNothingMatched(ratio: (string, string) -> real, tierGames: seq<string>)
    ensures FuzzyMatch(ratio, [], tierGames).0 == {}
  {
    forall t | t in tierGames ensures BestSim(ratio, t, []) < Threshold {
      MatchedIffSomeSimilar(ratio, t, []);
    }
  }

  /** A ranked name that equals a released name up to letter case is always
      matched. */
  lemma EqualNameIsMatched(ratio: (string, string) -> real, released: seq<string>, tierGames: seq<string>, t: string, j: nat)
    requires RatioAxioms(ratio)
    requires t in tierGames && j < |released| && EqualsIgnoreCase(t, released[j])
    ensures t in FuzzyMatch(ratio, released, tierGames).0
  {
    SimilarityOfEqualNames(ratio, t, released[j]);
    MatchedIffSomeSimilar(ratio, t, released);
  }

  // ---------------------------------------------------------------------
  // Filtering the tier list

  /** The names of `xs` that are in `keep`, in their original order. */
  function KeepIn(xs: seq<string>, keep: set<string>): (r: seq<string>)
    ensures |r| <= |xs|
    ensures forall x :: x in r <==> x in xs && x in keep
  {
    if xs == [] then []
    else (if xs[0] in keep then [xs[0]] else []) + KeepIn(xs[1..], keep)
  }

  /** Filtering works element by element: filtering a concatenation is
      concatenating the filtered parts, so the original order is kept. */
  lemma {:induction false} KeepInAppend(xs: seq<string>, ys: seq<string>, keep: set<string>)
    ensures KeepIn(xs + ys, keep) == KeepIn(xs, keep) + KeepIn(ys, keep)
    decreases |xs|
  {
    if xs == [] {
      assert xs + ys == ys;
    } else {
      assert (xs + ys)[0] == xs[0];
      assert (xs + ys)[1..] == xs[1..] + ys;
      KeepInAppend(xs[1..], ys, keep);
    }
  }

  /** Each row filtered to the kept names; rows left empty are dropped. */
  function KeepRows(tl: TierList, keep: set<string>): (r: TierList)
    ensures |r| <= |tl|
    ensures forall t :: t in r ==> t.games != [] && exists u :: u in tl && t == Tier(u.letter, KeepIn(u.games, keep))
  {
    if tl == [] then []
    else
      var games := KeepIn(tl[0].games, keep);
      var rest := KeepRows(tl[1..], keep);
      assert forall u :: u in tl[1..] ==> u in tl;
      (if games == [] then [] else [Tier(tl[0].letter, games)]) + rest
  }

  /** A tier survives exactly when one of its names is kept, and then holds
      exactly its kept names in their original order. */
  lemma {:induction false} KeepRowsGet(tl: TierList, keep: set<string>, c: char)
    requires UniqueLetters(tl)
    ensures Get(KeepRows(tl, keep), c) == KeptEntry(Get(tl, c), keep)
    decreases |tl|
  {
    if tl != [] {
      var games := KeepIn(tl[0].games, keep);
      var rest := KeepRows(tl[1..], keep);
      var r := KeepRows(tl, keep);
      assert r == (if games == [] then [] else [Tier(tl[0].letter, games)]) + rest;
      assert UniqueLetters(tl[1..]);
      assert [tl[0]] + tl[1..] == tl;
      GetCons(tl[0], tl[1..], c);
      if games != [] {
        GetCons(Tier(tl[0].letter, games), rest, c);
      } else {
        assert r == rest;
      }
      if tl[0].letter == c {
        assert Get(tl, c) == Some(tl[0].games);
        if games == [] {
          assert c !in Letters(tl[1..]);
          KeepRowsLetters(tl[1..], keep);
          assert Get(rest, c) == None;
        }
      } else {
        assert Get(tl, c) == Get(tl[1..], c);
        assert Get(r, c) == Get(rest, c);
        KeepRowsGet(tl[1..], keep, c);
      }
    }
  }

  /** What a tier's entry becomes when only the names in `keep` stay: an
      entry left with no names is dropped. */
  function KeptEntry(entry: Option<seq<string>>, keep: set<string>): Option<seq<string>>
  {
    match entry
    case None => None
    case Some(g) => if KeepIn(g, keep) == [] then None else Some(KeepIn(g, keep))
  }

  /** Looking up in a list with one more row in front. */
  lemma GetCons(t: Tier, tl: TierList, c: char)
    ensures Get([t] + tl, c) == if t.letter == c then Some(t.games) else Get(tl, c)
  {
    assert ([t] + tl)[1..] == tl;
  }

  /** Filtering keeps the letters distinct and in their order. */
  lemma {:induction false} KeepRowsLetters(tl: TierList, keep: set<string>)
    requires UniqueLetters(tl)
    ensures UniqueLetters(KeepRows(tl, keep))
    ensures forall c :: c in Letters(KeepRows(tl, keep)) ==> c in Letters(tl)
    decreases |tl|
  {
    if tl != [] {
      UniqueTail(tl);
      KeepRowsLetters(tl[1..], keep);
      var rest := KeepRows(tl[1..], keep);
      var games := KeepIn(tl[0].games, keep);
      KeepRowsCons(tl, keep);
      LettersCons(tl[0], tl[1..]);
      if games != [] {
        var head := Tier(tl[0].letter, games);
        LettersCons(head, rest);
        UniqueCons(head, rest);
      }
    }
  }

  /** One step of `KeepRows`: the first tier, if any of its names is kept,
      followed by the filtered rest. */
  lemma KeepRowsCons(tl: TierList, keep: set<string>)
    requires tl != []
    ensures KeepRows(tl, keep) ==
      (if KeepIn(tl[0].games, keep) == [] then [] else [Tier(tl[0].letter, KeepIn(tl[0].games, keep))])
      + KeepRows(tl[1..], keep)
  {
  }

  /** A dictionary without its first entry is still one, and the first
      letter does not come back. */
  lemma UniqueTail(tl: TierList)
    requires tl != [] && UniqueLetters(tl)
    ensures UniqueLetters(tl[1..])
    ensures tl[0].letter !in Letters(tl[1..])
  {
    forall i, j | 0 <= i < j < |tl| - 1 ensures tl[1..][i].letter != tl[1..][j].letter {
      assert tl[1..][i] == tl[i + 1] && tl[1..][j] == tl[j + 1];
    }
  }

  /** Putting a new letter in front of a dictionary keeps it one. */
  lemma UniqueCons(t: Tier, tl: TierList)
    requires UniqueLetters(tl) && t.letter !in Letters(tl)
    ensures UniqueLetters([t] + tl)
  {
    forall i, j | 0 <= i < j < |tl| + 1 ensures ([t] + tl)[i].letter != ([t] + tl)[j].letter {
      if i == 0 {
        assert ([t] + tl)[j] == tl[j - 1];
        assert Letters(tl)[j - 1] == tl[j - 1].letter;
      } else {
        assert ([t] + tl)[i] == tl[i - 1] && ([t] + tl)[j] == tl[j - 1];
      }
    }
  }

  lemma LettersCons(t: Tier, tl: TierList)
    ensures Letters([t] + tl) == [t.letter] + Letters(tl)
  {
    assert ([t] + tl)[1..] == tl;
  }

  /** `filter_tier_list`: match every ranked name against the released names,
      then keep the matched names of each tier. */
  function FilterTierList(ratio: (string, string) -> real, tl: TierList, released: seq<string>)
    : (r: (TierList, seq<MatchDetail>))
    ensures forall t :: t in r.0 ==> t.games != []
    ensures forall t, n :: t in r.0 && n in t.games ==>
      exists u :: u in tl && u.letter == t.letter && n in u.games
    ensures forall t, n :: t in r.0 && n in t.games ==>
      exists j :: 0 <= j < |released| && Sim(ratio, n, released[j]) >= Threshold
  {
    var m := FuzzyMatch(ratio, released, AllGames(tl));
    var kept := KeepRows(tl, m.0);
    assert forall n :: n in m.0 ==> exists j :: 0 <= j < |released| && Sim(ratio, n, released[j]) >= Threshold by {
      forall n | n in m.0 ensures exists j :: 0 <= j < |released| && Sim(ratio, n, released[j]) >= Threshold {
        MatchedIffSomeSimilar(ratio, n, released);
      }
    }
    (kept, m.1)
  }

  /** A tier is kept exactly when one of its names is matched, and holds its
      matched names in their original order. */
  lemma FilterTierListGet(ratio: (string, string) -> real, tl: TierList, released: seq<string>, c: char)
    requires UniqueLetters(tl)
    ensures var matched := FuzzyMatch(ratio, released, AllGames(tl)).0;
      Get(FilterTierList(ratio, tl, released).0, c) == KeptEntry(Get(tl, c), matched)
  {
    KeepRowsGet(tl, FuzzyMatch(ratio, released, AllGames(tl)).0, c);
  }
}
