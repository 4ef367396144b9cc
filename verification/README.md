# Podcast tier list and blog: a Dafny model

The repository runs a podcast site. Its core logic has two halves.

The tier-list half has two Python scripts:

- `scripts/automated_tierlist_updater.py` reads the episode titles of the
  podcast feed and turns each title into a game name. It parses the host's
  ranked tier list (lines such as `S Tier: Hades, Balatro`) out of a text
  document. It keeps only the ranked games whose names are similar enough to
  a released episode, and stops at the first stage that comes back empty.
- `scripts/tier_list_generator.py` draws the filtered tier list. It finds
  each game's Steam app id with the store search, caching the id. It finds
  or downloads the game's header image under a sanitised file name, and
  stacks the tiers S to F as bands of rows of nine images, with separator
  lines.

The blog half has three pieces:

- `scripts/generate-blog-index.js` lists the markdown posts.
- `src/components/BlogList.tsx` fetches every post, reads its YAML-like
  front matter, drops unpublished posts and sorts the rest newest first.
- `src/components/BlogPost.tsx` reads a single post's front matter.

The model is written in Dafny as pure functions over immutable data, with
one module per concern:

| module | models |
|---|---|
| `Text` | the string built-ins the code relies on (`strip`/`trim`, `split`, `lower`, `indexOf`, `replace`), and greedy character runs |
| `Titles` | episode title to game name: the two regular-expression substitutions, `strip()` and the alias table |
| `TierLists` | the Python dictionary letter → names, as an insertion-ordered list of rows |
| `TierParse` | `parse_tier_list_from_content`: the tier regular expression, `findall`, splitting and the dictionary assignment |
| `Similarity` | the `SequenceMatcher(...).ratio()` comparison, as a parameter |
| `Picks` | the "strictly better than the best so far" selection loop both scripts use |
| `Matching` | `fuzzy_match_games` and `filter_tier_list` |
| `Pipeline` | `update_tier_list` up to the call of the generator |
| `Layout` | the integer geometry of `generate_tier_list`: rows, band heights, stacking, item placement, separators |
| `Steam` | `search_steam_game`, the id cache, the safe file name, and the decision order of `get_steam_header_image` |
| `FrontMatter` | `parseFrontmatter` (identical in `BlogList.tsx` and `BlogPost.tsx`) |
| `Blog` | `loadPosts` of `BlogList.tsx`: preview, published filter, stable newest-first sort |
| `BlogIndex` | the index script |

Every regular expression is modelled twice:

- a declarative predicate says which spans the pattern can match;
- a scanning function reproduces the span the backtracking engine settles on.

Lemmas connect the two. The engine's result is a match, a match exists only
if the engine finds one, and the engine's is the one it tries first.

## Model

| member | source | states |
|---|---|---|
| Text.Lower | scripts/automated_tierlist_updater.py:257 | lower-casing keeps the length and maps each character on its own, letters to lower case, everything else unchanged |
| Text.LowerIdempotent | scripts/tier_list_generator.py:63 | lower-casing an already lower-cased name changes nothing |
| Text.LowerAppend | scripts/tier_list_generator.py:63 | lower-casing a concatenation lower-cases each part |
| Text.StripLowerCommute | scripts/tier_list_generator.py:63 | `lower().strip()` equals `strip().lower()`: lower-casing neither creates nor removes whitespace |
| Text.Strip | scripts/automated_tierlist_updater.py:167 | `strip()` keeps one contiguous slice, everything cut off is whitespace, and the result starts and ends with non-whitespace |
| Text.StripUnchanged | scripts/automated_tierlist_updater.py:167 | a string already starting and ending with non-whitespace is left unchanged by stripping |
| Text.StripAll | scripts/automated_tierlist_updater.py:242 | a string made only of whitespace strips to "", so it is dropped as a name |
| Text.StripPadded | scripts/tier_list_generator.py:63 | stripping a text wrapped in whitespace gives back the text, when it starts and ends with non-whitespace |
| Text.StripIgnoresPadding | scripts/tier_list_generator.py:63 | whitespace added around a name does not change what it strips to |
| Text.Split | scripts/automated_tierlist_updater.py:242 | `split(',')` yields at least one piece and no piece contains the separator |
| Text.JoinSplit | scripts/automated_tierlist_updater.py:242 | splitting loses nothing: joining the pieces with the separator gives back the input |
| Text.SplitJoin | src/components/BlogList.tsx:26 | joining separator-free parts and splitting again gives back the parts |
| Text.IndexOfChar | src/components/BlogList.tsx:27 | `indexOf` gives -1 exactly when the character is absent, and otherwise the first position holding it |
| Text.Find | scripts/generate-blog-index.js:10 | the first occurrence of a pattern; none exactly when the pattern does not occur |
| Text.ReplaceFirst | scripts/generate-blog-index.js:10 | a string-pattern `replace` changes only the first occurrence, and leaves a string without one unchanged |
| Text.SkipWhile | scripts/automated_tierlist_updater.py:161 | a greedy run ends at the first character outside the class, and everything it covers is in the class |
| Text.SkipWhileStopsAt | scripts/automated_tierlist_updater.py:161 | any run that stops at a character outside the class is the greedy run |
| Titles.NumberTailGreedy | scripts/automated_tierlist_updater.py:161 | every way `\s*\d+:?\s*` can match ends no later than the greedy match |
| Titles.NumberTailEndLongest | scripts/automated_tierlist_updater.py:161 | the greedy scan of `\s*\d+:?\s*` finds a match exactly when one exists, and then the longest |
| Titles.StripEpisodePrefix | scripts/automated_tierlist_updater.py:161 | the first substitution removes a prefix of the title and nothing else |
| Titles.EpisodePrefixEndLongest | scripts/automated_tierlist_updater.py:161 | the prefix scan finds a match of the episode-number pattern whenever one exists, and the longest |
| Titles.StripEpisodePrefixRemovesLongestMatch | scripts/automated_tierlist_updater.py:161 | the substitution removes the longest prefix the case-insensitive episode pattern matches, or nothing when none matches |
| Titles.EpisodeAlternativesExclusive | scripts/automated_tierlist_updater.py:161 | "Episode", "Ep." and "Ep" exclude each other, so one alternative decides where the number tail starts |
| Titles.NumberTailAtNonTail | scripts/automated_tierlist_updater.py:161 | the number tail cannot start at a character that is neither whitespace nor a digit |
| Titles.KeywordAt | scripts/automated_tierlist_updater.py:164 | reports which of Review/Discussion/Podcast starts at a position, case-insensitively, and none exactly when none does |
| Titles.KeywordUnique | scripts/automated_tierlist_updater.py:164 | at most one suffix keyword starts at any position |
| Titles.SuffixWitnessGreedy | scripts/automated_tierlist_updater.py:164 | every match of the suffix pattern at a position uses the dash, keyword and end of the greedy scan |
| Titles.ScanSuffixExact | scripts/automated_tierlist_updater.py:164 | the suffix scan at a position returns exactly the end of the pattern's match there, and nothing when there is none |
| Titles.StripReviewSuffix | scripts/automated_tierlist_updater.py:164 | the second substitution never lengthens the title |
| Titles.StripReviewSuffixCutsLeftmostMatch | scripts/automated_tierlist_updater.py:164 | a title without a match is unchanged, and otherwise exactly the leftmost match of the suffix pattern (a dash, then Review, Discussion or Podcast, to the end of the title) is cut |
| Titles.ApplyNameMapping | scripts/automated_tierlist_updater.py:169-172 | a mapped title becomes its alias and any other title stays; the result is never itself a mapped title, and stays trimmed |
| Titles.CleanTitle | scripts/automated_tierlist_updater.py:158-172 | a cleaned title is never a key of the alias table and has no surrounding whitespace |
| Titles.CleanTitles | scripts/automated_tierlist_updater.py:152-172 | one cleaned title per episode, in feed order |
| Titles.NonEmpty | scripts/automated_tierlist_updater.py:175-176 | keeps only non-empty names, each taken from the input |
| Titles.ExtractGameNames | scripts/automated_tierlist_updater.py:148-180 | at most one name per episode; every name is non-empty and already mapped |
| Titles.ExtractedNameHasEpisode | scripts/automated_tierlist_updater.py:152-176 | every extracted name is the cleaned title of some episode |
| Titles.CleanTitlesAppend | scripts/automated_tierlist_updater.py:152-172 | titles are cleaned one by one, so cleaning a concatenated feed concatenates the results |
| Titles.ExtractGameNamesAppend | scripts/automated_tierlist_updater.py:152-177 | extraction goes episode by episode and keeps the feed order |
| Titles.ExtractGameNamesSingle | scripts/automated_tierlist_updater.py:175-176 | an episode yields a name exactly when its cleaned title is not empty |
| TierLists.Get | scripts/tier_list_generator.py:238-240 | a letter is absent exactly when no row carries it; a found list is that of a row with the letter |
| TierLists.GetUnique | scripts/tier_list_generator.py:238-240 | in a dictionary every row is what the lookup of its letter returns |
| TierLists.Put | scripts/automated_tierlist_updater.py:243 | an assignment adds at most one row |
| TierLists.PutGet | scripts/automated_tierlist_updater.py:243 | after `tiers[c] = g` the letter holds `g` and every other letter what it held before |
| TierLists.PutLetters | scripts/automated_tierlist_updater.py:243 | reassigning keeps the key order; a new key goes last |
| TierLists.PutRows | scripts/automated_tierlist_updater.py:243 | every row after an assignment is an old row or the new one |
| TierLists.PutUnique | scripts/automated_tierlist_updater.py:243 | assignment keeps the letters distinct |
| TierLists.AssignAllUnique | scripts/automated_tierlist_updater.py:239-243 | assigning rows one after another yields distinct letters |
| TierLists.AssignAllRows | scripts/automated_tierlist_updater.py:239-243 | every resulting row is one that was assigned |
| TierLists.AssignAllLetters | scripts/automated_tierlist_updater.py:239-243 | a letter is present exactly when some assigned row carries it |
| TierLists.AssignAllLastWins | scripts/automated_tierlist_updater.py:239-243 | a letter holds the list of the last row assigning it |
| TierLists.AllGames | scripts/automated_tierlist_updater.py:288-290 | `all_tier_games` holds exactly the names found in some tier |
| TierParse.TierMatchAt | scripts/automated_tierlist_updater.py:236-237 | a match at a position starts with a letter, and its name group is non-empty and free of line breaks |
| TierParse.TierGroupAtSound | scripts/automated_tierlist_updater.py:236 | a found name group follows "Tier:" (any case) and whitespace only |
| TierParse.TierMatchAtSound | scripts/automated_tierlist_updater.py:236 | what the engine returns at a position is a way the pattern can match there |
| TierParse.TierWitnessTriedFirst | scripts/automated_tierlist_updater.py:236-237 | any way of matching at a position is tried no earlier than the one the engine returns |
| TierParse.TierMatchAtFirstTried | scripts/automated_tierlist_updater.py:236-237 | the engine matches at a position exactly when the pattern can, and returns the way it tries first |
| TierParse.FindTierMatches | scripts/automated_tierlist_updater.py:237 | every `findall` result has a letter and a non-empty name list without line breaks |
| TierParse.KeepNames | scripts/automated_tierlist_updater.py:242 | the kept pieces are non-empty, stripped and comma-free, and there are no more of them than pieces |
| TierParse.SplitNames | scripts/automated_tierlist_updater.py:242 | every name read from a list is non-empty, stripped and comma-free |
| TierParse.KeepNamesOfNames | scripts/automated_tierlist_updater.py:242 | clean names pass the strip-and-filter step unchanged |
| TierParse.SplitNamesJoin | scripts/automated_tierlist_updater.py:242 | names written out with commas are read back exactly |
| TierParse.SplitNamesSingle | scripts/automated_tierlist_updater.py:242 | a list without commas is one name |
| TierParse.MatchRows | scripts/automated_tierlist_updater.py:239-242 | each match gives its upper-cased letter and split names, in order |
| TierParse.ParseTierList | scripts/automated_tierlist_updater.py:231-249 | the parsed dictionary has distinct upper-case letters and clean names |
| TierParse.ParseTierListLetters | scripts/automated_tierlist_updater.py:237-243 | a tier is present exactly when some match carries its letter in either case |
| TierParse.ParseTierListLastWins | scripts/automated_tierlist_updater.py:239-243 | a repeated tier holds the names of its last occurrence |
| TierParse.TierMatchOnLastLine | scripts/automated_tierlist_updater.py:236-237 | "X Tier: names" at the end of the text matches with the group from the first non-space character to the end |
| TierParse.SwallowedLineMatches | scripts/automated_tierlist_updater.py:236-237 | after a tier line with an empty list, `\s*` crosses the line break and the next line becomes the group |
| TierParse.EmptyTierLineSwallowsNext | scripts/automated_tierlist_updater.py:236-243 | an empty tier line swallows the next line: "S Tier:" then "A Tier: Hades" gives tier S the one name "A Tier: Hades" |
| Similarity.Sim | scripts/automated_tierlist_updater.py:256-257 | the similarity of two names is between 0 and 1 |
| Similarity.SimOfLowered | scripts/automated_tierlist_updater.py:256-257 | lower-casing the names beforehand does not change their similarity |
| Similarity.SimilarityOfEqualNames | scripts/automated_tierlist_updater.py:256-257 | names equal up to case have similarity 1 |
| Picks.FirstBest | scripts/automated_tierlist_updater.py:260-268 | nothing is chosen exactly when no score beats the floor; otherwise the chosen score is maximal and strictly above every earlier one |
| Picks.BestScore | scripts/automated_tierlist_updater.py:260-268 | the final best score is the floor or some candidate's score, and bounds every score from above |
| Picks.PickFirstBest | scripts/tier_list_generator.py:81-106 | the scripts' loop computes the first strictly best candidate and its score |
| Matching.Scores | scripts/automated_tierlist_updater.py:264-265 | one similarity per released name, in order |
| Matching.BestMatch | scripts/automated_tierlist_updater.py:261-268 | no best match exactly when no released name scores above 0; otherwise the first released name with the greatest score |
| Matching.BestSim | scripts/automated_tierlist_updater.py:262-268 | the best score is that of the best match, or 0 when there is none |
| Matching.MatchedIffSomeSimilar | scripts/automated_tierlist_updater.py:260-271 | the best score reaches 0.6 exactly when some released name's score does |
| Matching.FuzzyMatch | scripts/automated_tierlist_updater.py:251-283 | a ranked name is matched exactly when its best similarity reaches 0.6; each detail is about a matched name, and there are no more details than ranked names |
| Matching.MatchDetailsAreBest | scripts/automated_tierlist_updater.py:260-277 | each detail records a released name, its similarity of at least 0.6, and that name is the first with the greatest similarity |
| Matching.NothingReleasedNothingMatched | scripts/automated_tierlist_updater.py:260-272 | with no released names nothing matches |
| Matching.EqualNameIsMatched | scripts/automated_tierlist_updater.py:256-272 | a ranked name equal up to case to a released name is always matched |
| Matching.KeepIn | scripts/automated_tierlist_updater.py:299 | the filtered list holds exactly the names that are kept |
| Matching.KeepInAppend | scripts/automated_tierlist_updater.py:299 | filtering goes name by name, so the original order is kept |
| Matching.KeepRows | scripts/automated_tierlist_updater.py:298-301 | every surviving tier is non-empty and is an original tier restricted to the kept names |
| Matching.KeepRowsGet | scripts/automated_tierlist_updater.py:298-301 | a tier survives exactly when one of its names is kept, and then holds exactly its kept names in order |
| Matching.KeepRowsLetters | scripts/automated_tierlist_updater.py:296-301 | filtering keeps the letters distinct and adds none |
| Matching.FilterTierList | scripts/automated_tierlist_updater.py:285-313 | every kept name comes from the same tier of the input and is similar enough to a released name; no kept tier is empty |
| Matching.FilterTierListGet | scripts/automated_tierlist_updater.py:285-301 | a tier is kept exactly when one of its names is matched, and it holds its matched names in order |
| Pipeline.UpdateTierList | scripts/automated_tierlist_updater.py:329-377 | the generator only ever receives a non-empty dictionary of non-empty, upper-case tiers |
| Pipeline.FilteredRowsParsed | scripts/automated_tierlist_updater.py:353-359 | filtering a parsed tier list keeps its letters distinct and upper case |
| Pipeline.RendersIffEveryStageNonEmpty | scripts/automated_tierlist_updater.py:334-377 | the image is drawn exactly when feed, names, document, tiers and matches are all non-empty |
| Pipeline.HaltsAtFirstEmptyStage | scripts/automated_tierlist_updater.py:334-362 | the run stops at the first empty stage, in the order feed, names, document, tiers, matches |
| Pipeline.RenderedNamesAreRankedAndReleased | scripts/automated_tierlist_updater.py:353-377 | every drawn name is in the document under the same letter and is similar enough to some episode's cleaned title |
| Layout.Rows | scripts/tier_list_generator.py:241 | the row count is the ceiling of games over nine: the fewest rows of nine that hold them, 0 for no games |
| Layout.BandHeightExamples | scripts/test_tierlist_fixes.py:24-58 | nine games take one row of 120 pixels; fourteen take two rows and 250 pixels; an empty tier gets -10 |
| Layout.BandHeight | scripts/tier_list_generator.py:240-242 | a tier with a game gets a band at least 120 pixels high, exactly 120 for up to nine games, and an empty tier gets -10 |
| Layout.CanvasWidthValue | scripts/tier_list_generator.py:224-228 | the canvas is 2404 pixels wide whatever the tiers |
| Layout.CanvasHeight | scripts/tier_list_generator.py:233-244 | the canvas height is where the last drawn band ends, and 0 when no tier is drawn |
| Layout.Rank | scripts/tier_list_generator.py:236 | the drawing position of a letter; 7 exactly for letters outside S..F |
| Layout.PresentIn | scripts/tier_list_generator.py:237-239 | the drawn letters are exactly the letters of the order that the dictionary holds |
| Layout.PresentInOrder | scripts/tier_list_generator.py:275-277 | drawn tiers appear strictly in the order S, A, B, C, D, E, F |
| Layout.Stack | scripts/tier_list_generator.py:272-330 | one band per drawn letter, in order, each as tall as its tier needs |
| Layout.StackElements | scripts/tier_list_generator.py:272-330 | band `i` holds letter `i`, has its tier's height, and starts at the summed height of the bands above |
| Layout.StackContiguous | scripts/tier_list_generator.py:272-330 | bands start at 0, each next one where the previous ends, and the last ends at the summed height |
| Layout.StackFillsCanvas | scripts/tier_list_generator.py:233-330 | with non-empty tiers the bands lie inside the summed height, one below the other, none overlapping |
| Layout.SeparatorLines | scripts/tier_list_generator.py:324-328 | the intended rule draws one line fewer than there are bands |
| Layout.SeparatorLinesAreBoundaries | scripts/tier_list_generator.py:324-328 | each intended separator lies on the top edge of the next band |
| Layout.SeparatorMissingBetweenAAndB | scripts/tier_list_generator.py:325 | with only tiers A and B the rule as written draws no line, although one boundary is intended |
| Layout.LinesAsWritten | scripts/tier_list_generator.py:324-328 | the rule as written draws at most one line per band, each at the bottom of a band whose index in the full order S..F is below the number of drawn tiers minus one |
| Layout.LinesAsWrittenAreBoundaries | scripts/tier_list_generator.py:325-328 | the rule as written only leaves lines out: every line it draws is an intended one |
| Layout.PlaceItems | scripts/tier_list_generator.py:302-322 | the paste loop puts item `i` at its row below the earlier rows and right after the earlier items of its row |
| Layout.ItemStep | scripts/tier_list_generator.py:309-322 | every ninth item starts a new row at the label edge 130 pixels lower; any other sits right of its predecessor |
| Layout.ItemsPacked | scripts/test_tierlist_fixes.py:56-59 | the first item of a row is at the label's edge and the items of a row touch with no gap |
| Layout.ItemsInsideBand | scripts/tier_list_generator.py:302-322 | every item lies vertically inside its tier's band |
| Layout.LastRowEndsBand | scripts/tier_list_generator.py:302-322 | the last item's row ends exactly on the band's bottom edge, so a band is `rows·120 + (rows−1)·10` pixels because its rows are |
| Layout.ItemsInsideCanvasWidth | scripts/tier_list_generator.py:224-228 | with images no wider than a resized header, every row fits inside the canvas width |
| Layout.ResizedWidth | scripts/tier_list_generator.py:206-212 | the resized width is the truncated width that keeps the aspect ratio at height 120 |
| Layout.HeaderResizesToEstimate | scripts/tier_list_generator.py:224 | a 460×215 header resizes to exactly the estimated width of 256 |
| Layout.DrawPlan | scripts/tier_list_generator.py:233-330 | the two loops compute the summed canvas height, the stacked bands, and the separators as written |
| Layout.StackBands | scripts/tier_list_generator.py:272-330 | the drawing loop stacks the bands of the present tiers and draws the separators as written |
| Layout.DrawTier | scripts/tier_list_generator.py:275-330 | one pass extends the bands, the current y and the lines by the tier at that index, if present |
| Layout.DrawSeparator | scripts/tier_list_generator.py:324-328 | the separator test adds a line under a band exactly as the rule as written does |
| Layout.LayoutFits | scripts/tier_list_generator.py:233-330 | with non-empty tiers every band lies inside the canvas, at least one game high, without overlaps |
| Layout.SeparatorsInsideCanvas | scripts/tier_list_generator.py:324-330 | with non-empty tiers every intended separator lies on the top edge of a band, strictly inside the canvas |
| Layout.RankedTierIsDrawn | scripts/tier_list_generator.py:236-239 | a tier list holding any of S to F draws at least one band |
| Layout.RenderedLayoutFits | scripts/automated_tierlist_updater.py:359-377 | what the updater renders fits the canvas, some band is drawn when a tier is S to F, and intended separators lie inside the canvas on band edges |
| Steam.LetterVMarksSequel | scripts/tier_list_generator.py:98-100 | any name containing the letter "v" counts as a sequel |
| Steam.Bonus | scripts/tier_list_generator.py:91-95 | the bonus is 1 exactly for equal names, 0.5 exactly for a substring match, and 0 otherwise |
| Steam.Penalty | scripts/tier_list_generator.py:97-100 | the 0.3 penalty applies exactly when the result has a sequel token and the query has none |
| Steam.Score | scripts/tier_list_generator.py:84-100 | scores lie in [-0.3, 2]; only the exact name up to case scores above 1.5, and it scores exactly 2 |
| Steam.ItemScores | scripts/tier_list_generator.py:84-100 | one score per search result, in order |
| Steam.PickItem | scripts/tier_list_generator.py:81-106 | a result is chosen exactly when some score is above 0, and it is the first with the greatest score |
| Steam.ExactNameWins | scripts/tier_list_generator.py:84-106 | when some result has the game's name up to case, the first such result is chosen |
| Steam.CacheKey | scripts/tier_list_generator.py:63 | a cache key has no upper-case letter and no surrounding whitespace |
| Steam.CacheKeyIdempotent | scripts/tier_list_generator.py:63 | the key of a key is the key itself |
| Steam.CacheKeyLowersStrippedName | scripts/tier_list_generator.py:63 | the key is the game's name with surrounding whitespace stripped, then lower-cased: the two steps commute |
| Steam.CacheKeySharedUpToCaseAndSpace | scripts/tier_list_generator.py:63 | two names differing only in letter case and surrounding whitespace share one cache entry |
| Steam.SearchSteamGame | scripts/tier_list_generator.py:60-126 | a cached key is answered from the cache; a returned id is cached under the key; old entries stay and only the game's key is added |
| Steam.CacheHitIgnoresSearch | scripts/tier_list_generator.py:63-66 | a cached key's answer does not depend on the search response |
| Steam.FoundIdIsRemembered | scripts/tier_list_generator.py:108-116 | once found, an id is returned from the cache for every later query with the same key |
| Steam.SearchMissPicks | scripts/tier_list_generator.py:70-126 | on a miss: a failed request, no positive score or a chosen result without `id` gives nothing and leaves the cache; otherwise the chosen id is cached, and returned exactly when the result also has a `name` |
| Steam.NamelessPickFoundNextTime | scripts/tier_list_generator.py:108-126 | a chosen result without `name` is not returned, but its cached id is returned by the next search for the game |
| Steam.DropSpecials | scripts/tier_list_generator.py:136 | the first substitution keeps only word characters, whitespace and "-", and a text made only of those survives whole |
| Steam.DropSpecialsAppend | scripts/tier_list_generator.py:136 | the substitution works on each part of a concatenation separately |
| Steam.DropSpecialsChar | scripts/tier_list_generator.py:136 | one character survives exactly when it is a word character, whitespace or "-" |
| Steam.CollapseSeparators | scripts/tier_list_generator.py:137 | the result holds no "-" or whitespace, is no longer than the input, and a text without them is unchanged |
| Steam.CollapseRun | scripts/tier_list_generator.py:137 | each maximal run of "-" and whitespace becomes exactly one "_", the text before it unchanged |
| Steam.DropSpecialsKeepsAlnums | scripts/tier_list_generator.py:136 | dropping special characters keeps every letter and digit, in order |
| Steam.StripKeepsAlnums | scripts/tier_list_generator.py:136 | stripping keeps every letter and digit, in order |
| Steam.CollapseKeepsAlnums | scripts/tier_list_generator.py:137 | collapsing separator runs keeps every letter and digit, in order |
| Steam.CollapseGivesWordChars | scripts/tier_list_generator.py:136-137 | after both substitutions only word characters remain |
| Steam.SafeName | scripts/tier_list_generator.py:136-137 | a safe file name is word characters only and keeps the game name's letters and digits in order |
| Steam.SafeNameFixesWordNames | scripts/tier_list_generator.py:136-137 | a name of word characters is its own file name |
| Steam.SafeNameIdempotent | scripts/tier_list_generator.py:136-137 | sanitising a file name twice changes nothing more |
| Steam.SafeNameOfWords | scripts/tier_list_generator.py:136-138 | words of word characters separated by single spaces are saved under the same words joined by "_" |
| Steam.SafeNameExample | scripts/tier_list_generator.py:136-138 | "Hades II" is cached as "Hades_II": the space becomes "_" rather than disappearing |
| Steam.HeaderImage | scripts/tier_list_generator.py:133-174 | a downloaded image always leaves a readable file behind |
| Steam.ReadableFileFirst | scripts/tier_list_generator.py:140-144 | a readable cached file is used without searching or downloading |
| Steam.CorruptFileIsReplaced | scripts/tier_list_generator.py:145-147 | a corrupt file behaves exactly as no file |
| Steam.DownloadIffUsableIdAndSaved | scripts/tier_list_generator.py:150-174 | without a readable file, the download is used exactly when the id is truthy and the download opens; otherwise the placeholder |
| Steam.NoIdNoDownload | scripts/tier_list_generator.py:152 | without a truthy id the download never matters |
| Steam.DownloadedImageIsReused | scripts/tier_list_generator.py:141-167 | after a successful download the next request is served from the file |
| FrontMatter.LastNewlineInRun | src/components/BlogList.tsx:15 | where a greedy `\s*` before `\n` stops: a newline inside the whitespace run |
| FrontMatter.LastNewlineInRunIsLast | src/components/BlogList.tsx:15 | no newline of the run lies after the one found |
| FrontMatter.TryClose | src/components/BlogList.tsx:15 | a found closing delimiter is "\n---" followed by whitespace reaching a newline |
| FrontMatter.TryCloseFirst | src/components/BlogList.tsx:15 | the lazy group stops at the first working closing delimiter |
| FrontMatter.MatchFrontMatter | src/components/BlogList.tsx:15-16 | the opening newline, the closing delimiter and the final newline come in order inside the text |
| FrontMatter.MatchFrontMatterSound | src/components/BlogList.tsx:15-16 | what the engine returns is a way of matching the front-matter pattern |
| FrontMatter.MatchFrontMatterFirst | src/components/BlogList.tsx:15-16 | the engine matches whenever the pattern can, with the way of matching it tries first |
| FrontMatter.ScansFindFirst | src/components/BlogList.tsx:15 | the opening and closing scans stop at a way of matching tried no later than any other |
| FrontMatter.StripQuotes | src/components/BlogList.tsx:30 | the result is the value with nothing or one character cut from each end |
| FrontMatter.StripQuotesEnds | src/components/BlogList.tsx:30 | for every value: a quote at each end is removed once whatever lies inside, a quote at one end is removed on its own, and a value without quotes at its ends is unchanged |
| FrontMatter.StripQuotesDoubled | src/components/BlogList.tsx:30 | a doubled leading quote loses only one quote: `""a` becomes `"a` |
| FrontMatter.LineEntry | src/components/BlogList.tsx:27-30 | a line gives an entry exactly when it contains a colon |
| FrontMatter.LineKeyHasNoColon | src/components/BlogList.tsx:27-29 | a key never contains a colon: the line is cut at its first colon |
| FrontMatter.LineEntryOfPair | src/components/BlogList.tsx:27-30 | "key: value" reads back as the trimmed key and the trimmed, unquoted value; the value may hold colons |
| FrontMatter.Entries | src/components/BlogList.tsx:26-33 | one entry per line, in order |
| FrontMatter.Apply | src/components/BlogList.tsx:25-33 | the key "__proto__" never becomes a key of the data |
| FrontMatter.ApplyLast | src/components/BlogList.tsx:31 | the last entry adds or replaces its key and leaves every other key alone |
| FrontMatter.KeyPresentIffSet | src/components/BlogList.tsx:26-33 | a key is present exactly when some entry sets it, "__proto__" aside |
| FrontMatter.LastSetWins | src/components/BlogList.tsx:31 | a key holds the value of the last entry setting it |
| FrontMatter.KeyPresentIffDefined | src/components/BlogList.tsx:26-33 | a key is present exactly when some line defines it, "__proto__" aside |
| FrontMatter.LastDefinitionWins | src/components/BlogList.tsx:26-33 | a key's value comes from the last line defining it |
| FrontMatter.LineWithoutColonIgnored | src/components/BlogList.tsx:27-28 | a line without a colon changes nothing |
| FrontMatter.ParseData | src/components/BlogList.tsx:25-33 | no key holds a colon or a newline, and "__proto__" never becomes a key |
| FrontMatter.UndefinedKeyAbsent | src/components/BlogList.tsx:26-32 | a key no line defines is absent |
| FrontMatter.ParseFrontmatter | src/components/BlogList.tsx:14-36 | the content is always a tail of the text, shorter when a block was found, and the keys are those of the data lines |
| FrontMatter.ParseFrontmatterMatches | src/components/BlogList.tsx:14-36 | without a match the data is empty and the content is the whole text; with one, they are the parts of the engine's preferred match |
| FrontMatter.ParseComposed | src/components/BlogPost.tsx:15-37 | parsing "---", front matter, "---" and a body gives back the front matter's data and the body (round trip) |
| FrontMatter.ComposedMatchIsUnique | src/components/BlogPost.tsx:16 | in such a composed text the engine can prefer no other way of matching than the intended one |
| Blog.Field | src/components/BlogList.tsx:55-59 | a field is present exactly when the front matter defines it, with its value |
| Blog.ToPreview | src/components/BlogList.tsx:54-61 | a post is published exactly when "published" is the string "true"; the other fields are those of the front matter |
| Blog.PublishedByLastLine | src/components/BlogList.tsx:26-60 | the last line defining "published" decides whether the post is published |
| Blog.UnpublishedWithoutLine | src/components/BlogList.tsx:26-60 | a post whose front matter never defines "published" is not published |
| Blog.Published | src/components/BlogList.tsx:67 | the filter never adds posts |
| Blog.PublishedAppend | src/components/BlogList.tsx:67 | the filter works piece by piece, keeping the order |
| Blog.PublishedMembers | src/components/BlogList.tsx:67 | a post is kept exactly when it is published |
| Blog.PublishedKeepsCount | src/components/BlogList.tsx:67 | each published post is kept as often as it occurs |
| Blog.Insert | src/components/BlogList.tsx:70 | insertion adds exactly the one post |
| Blog.InsertKeepsOrder | src/components/BlogList.tsx:70 | inserting into a newest-first list keeps it newest first |
| Blog.SortNewestFirst | src/components/BlogList.tsx:70 | the sort is a permutation and its result is newest first |
| Blog.SortIsStable | src/components/BlogList.tsx:70 | posts of the same date keep their relative order |
| Blog.SortKeepsOrdered | src/components/BlogList.tsx:70 | an already newest-first list is left as it is |
| Blog.Texts | src/components/BlogList.tsx:49-51 | one fetched text per index name, in index order |
| Blog.Previews | src/components/BlogList.tsx:49-61 | one preview per text, read from its front matter |
| Blog.LoadPosts | src/components/BlogList.tsx:43-77 | the list is newest first, only published, and no longer than the index; a rejected fetch or an index body that is not a JSON array leaves it empty, while a post answered with an error status is read as text like any other |
| Blog.LoadPostsContents | src/components/BlogList.tsx:49-72 | when every request succeeds, each published preview appears as often as listed, and posts of one date keep index order |
| BlogIndex.EntryAsWritten | scripts/generate-blog-index.js:10 | the first ".md" is removed wherever it is, or nothing when there is none |
| BlogIndex.Entry | scripts/generate-blog-index.js:10 | the intended name gives back the file name when ".md" is appended |
| BlogIndex.IndexAsWritten | scripts/generate-blog-index.js:8-10 | the index as written has at most one entry per file |
| BlogIndex.Index | scripts/generate-blog-index.js:8-10 | the intended index has at most one entry per file |
| BlogIndex.IndexAppend | scripts/generate-blog-index.js:8-10 | the index keeps the directory's order |
| BlogIndex.IndexAsWrittenAppend | scripts/generate-blog-index.js:8-10 | the index as written also keeps the directory's order |
| BlogIndex.IndexAsWrittenMembers | scripts/generate-blog-index.js:9-10 | a name is listed as written exactly when the first replacement makes it of some post file of the directory |
| BlogIndex.IndexAsWrittenAgreesWithIndex | scripts/generate-blog-index.js:8-10 | when no post file holds ".md" before its extension, the index as written is the intended one |
| BlogIndex.IndexMembers | scripts/generate-blog-index.js:9-10 | a name is listed exactly when its markdown file, other than the template, is in the directory |
| BlogIndex.TemplateNeverListed | scripts/generate-blog-index.js:9 | the template is never listed, and every listed name has its markdown file |
| BlogIndex.EntryAsWrittenAgrees | scripts/generate-blog-index.js:10 | where ".md" occurs only as the extension, the code as written gives the intended name |
| BlogIndex.EntryAsWrittenDropsInnerExtension | scripts/generate-blog-index.js:10 | "x.mdy.md" is listed as "xy.md", which does not name the file |

## Left out

- Network and file I/O are inputs of the model. This covers the RSS fetch, the Google Docs API and its local fallback file, the Steam store search, the image download, the directory listing and the `fetch` calls. Episodes, document text, search responses, download outcomes, file states and fetched texts are parameters.
- The RSS parsing of `fetch_rss_episodes` and its retry loop, and the document-to-text extraction, are left out. The model starts from their results.
- Pixels, colours, fonts and PIL drawing are left out: label text, centring, background fills and the placeholder's drawing (`create_placeholder_image`). The layout is modelled in integer coordinates only.
- Steam.Score: scores are exact reals, but the source adds binary floats, and float rounding can break a tie the other way. Example: an earlier result with ratio 0.6 and no adjustment, then a later one with ratio 0.4, the substring bonus and the sequel penalty. In Python `0.4 + 0.5 - 0.3` is `0.6000000000000001`, so the later result wins; in the model both score 0.6 and the earlier one wins. Floating-point arithmetic is not modelled.
- `resize_image` computes in floating point. The model uses the exact rational width, truncated. The two agree except where floating-point rounding crosses an integer.
- difflib's `SequenceMatcher.ratio()` is not modelled. It is a parameter `ratio`, assumed to lie in [0, 1] and to give 1 for any string compared with itself.
- Letters, digits and case folding are ASCII only: `\w`, `\d`, `lower()`, `upper()` and `IGNORECASE` treat non-ASCII letters as other characters. Whitespace follows each language's own definition, in `Text.IsPySpace` and `Text.IsJsSpace`.
- Writing the Steam id cache to `game_ids.json`, and loading it, are left out. The cache is a map passed in and returned.
- A search item's other keys are not modelled. The chosen item is `{}` only when it has neither `id` nor `name`, and then the code returns nothing and caches nothing, as for a missing `id`.
- An error while writing the id cache file (`save_game_id_cache`, called after the id is stored in memory) is left out. It would return nothing and keep the in-memory entry.
- `get_steam_header_image` downloads at most once, and no app id is overridden except through the id cache.
- A search result's `id` is an integer and its `name` a string; other JSON types are not modelled. A JSON `null` name makes `item.get('name', '').lower()` raise, so the search returns nothing and caches nothing; `Option<string>` cannot express a present `null`.
- Debug dumps (`save_debug_info`), console output, verbose logging, the command-line `main` functions and the test scripts' printing are left out.
- An exception raised while drawing in `update_tier_list` is left out; the model ends at the call of the generator.
- React state, loading flags and rendering are left out, and so is the markdown rendering of a post.
- The rest of the `BlogPost.tsx` page beyond `parseFrontmatter` is left out.
- Parsing a date (`new Date(date).getTime()`) is an abstract function `time` from the optional date string to an integer.
  - A comparator returning `NaN` for invalid dates is not modelled.
  - The sort is modelled as a stable insertion sort. ECMAScript requires `Array.prototype.sort` to be stable, so this agrees with the code.
- `Promise.all` is modelled as "every fetch succeeded, or the list is empty". The order in which requests settle does not matter to the result.

## Findings

| source | as written | input that shows it | evidently intended | confidence | as-written member | corrected member |
|---|---|---|---|---|---|---|
| scripts/tier_list_generator.py:325 | the separator test compares `tier_index`, the position in the full order S..F, with the number of drawn tiers minus one | a tier list with only tiers A and B: A has index 1 and B index 2, neither is below 2 - 1, so the two touching bands get no line between them | one line under every drawn tier except the last | not executed | Layout.SeparatorMissingBetweenAAndB | Layout.SeparatorLinesAreBoundaries |
| scripts/generate-blog-index.js:10 | `file.replace('.md', '')` removes the first ".md" anywhere in the name | the file "x.mdy.md" is listed as "xy.md", so the post list fetches "xy.md.md", which does not exist | strip the final ".md" extension | not executed | BlogIndex.EntryAsWrittenDropsInnerExtension | BlogIndex.IndexMembers |
