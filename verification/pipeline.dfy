/** The driver `update_tier_list` of scripts/automated_tierlist_updater.py,
    up to the call of the image generator.  The feed and the document are
    fetched by the caller: `episodes` is what the feed reader returned (empty
    on failure) and `docContent` the document text ("" when neither the
    document service nor the local fallback file gave any). */
module Pipeline {
  import opened Text
  import opened Similarity
  import opened Titles
  import opened TierLists
  import opened TierParse
  import opened Matching

  /** The stage whose empty result stops the run before anything is drawn. */
  datatype Stage = NoEpisodes | NoGameNames | NoDocContent | NoTiers | NoMatches

  /** `Render` is the call of the generator with the filtered tier list. */
  datatype Outcome = Halted(stage: Stage) | Render(tiers: TierList, details: seq<MatchDetail>)

  function UpdateTierList(ratio: (string, string) -> real, episodes: seq<Episode>, docContent: string): (o: Outcome)
    ensures o.Render? ==> o.tiers != [] && UniqueLetters(o.tiers)
    ensures o.Render? ==> forall t :: t in o.tiers ==> t.games != [] && IsUpperLetter(t.letter)
  {
    if episodes == [] then Halted(NoEpisodes)
    else
      var released := ExtractGameNames(episodes);
      if released == [] then Halted(NoGameNames)
      else if docContent == [] then Halted(NoDocContent)
      else
        var full := ParseTierList(docContent);
        if full == [] then Halted(NoTiers)
        else
          var filtered := FilterTierList(ratio, full, released);
          FilteredRowsParsed(ratio, full, released);
          if filtered.0 == [] then Halted(NoMatches)
          else
            Render(filtered.0, filtered.1)
  }

  /** Filtering a parsed tier list keeps its letters distinct and upper case. */
  lemma FilteredRowsParsed(ratio: (string, string) -> real, full: TierList, released: seq<string>)
    requires UniqueLetters(full) && forall u :: u in full ==> ParsedRow(u)
    ensures var rows := FilterTierList(ratio, full, released).0;
      UniqueLetters(rows) && forall t :: t in rows ==> IsUpperLetter(t.letter)
  {
    var rows := FilterTierList(ratio, full, released).0;
    KeepRowsLetters(full, FuzzyMatch(ratio, released, AllGames(full)).0);
    forall t | t in rows ensures IsUpperLetter(t.letter) {
      var u :| u in full && u.letter == t.letter && t.games != [] && t.games[0] in u.games;
      assert ParsedRow(u);
    }
  }

  /** The run reaches the generator exactly when every stage produced
      something, and then it draws the filtered tier list. */
  lemma RendersIffEveryStageNonEmpty(ratio: (string, string) -> real, episodes: seq<Episode>, docContent: string)
    ensures var released := ExtractGameNames(episodes);
      UpdateTierList(ratio, episodes, docContent).Render? <==>
        && episodes != [] && released != [] && docContent != []
        && ParseTierList(docContent) != []
        && FilterTierList(ratio, ParseTierList(docContent), released).0 != []
  {
  }

  /** The run stops at the first stage that comes back empty, in the order
      feed, names, document, tiers, matches. */
  lemma HaltsAtFirstEmptyStage(ratio: (string, string) -> real, episodes: seq<Episode>, docContent: string)
    ensures var o := UpdateTierList(ratio, episodes, docContent);
      && (o == Halted(NoEpisodes) <==> episodes == [])
      && (o == Halted(NoGameNames) <==> episodes != [] && ExtractGameNames(episodes) == [])
      && (o == Halted(NoDocContent) <==> episodes != [] && ExtractGameNames(episodes) != [] && docContent == [])
      && (o == Halted(NoTiers) <==>
            episodes != [] && ExtractGameNames(episodes) != [] && docContent != [] && ParseTierList(docContent) == [])
      && (o == Halted(NoMatches) <==>
            episodes != [] && ExtractGameNames(episodes) != [] && docContent != [] && ParseTierList(docContent) != []
            && FilterTierList(ratio, ParseTierList(docContent), ExtractGameNames(episodes)).0 == [])
  {
  }

  /** Every name drawn is a name of the document's tier list, filed under the
      same letter, and is similar enough to the cleaned title of an episode. */
  lemma RenderedNamesAreRankedAndReleased(ratio: (string, string) -> real, episodes: seq<Episode>, docContent: string, t: Tier, n: string)
    requires UpdateTierList(ratio, episodes, docContent).Render?
    requires t in UpdateTierList(ratio, episodes, docContent).tiers && n in t.games
    ensures exists u :: u in ParseTierList(docContent) && u.letter == t.letter && n in u.games
    ensures exists e :: e in episodes && Sim(ratio, n, CleanTitle(e.title)) >= Threshold
  {
    var released := ExtractGameNames(episodes);
    var f := FilterTierList(ratio, ParseTierList(docContent), released);
    assert UpdateTierList(ratio, episodes, docContent).tiers == f.0;
    assert t in f.0;
    var j :| 0 <= j < |released| && Sim(ratio, n, released[j]) >= Threshold;
    ExtractedNameHasEpisode(episodes, released[j]);
  }
}
