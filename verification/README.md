# Pokémon TCG Pocket match tracker — a Dafny model of its core logic

This project models the decision logic of the match tracker, a desktop
application. The tracker watches the MuMu Player emulator window, works out
which phase of a Pokémon TCG Pocket match is on screen, and reads the
end-of-match screen. It stores each match in a local database and shows
statistics in a web-view interface.

The model is written in Dafny as immutable datatypes and pure functions. It
covers:

- **The capture state machine** (`Detector`). The states are IDLE, PRE_QUEUE,
  IN_COMBAT and END_SCREEN, with the transition rules of
  `_compute_next_state`. One polling tick is modelled as a step function. It
  takes the loop record (state, window present) and what the tick observed,
  and returns the new record plus the callbacks fired (`on_mumu_detected`,
  `on_mumu_lost`, `on_state_changed`).
- **The end-screen text parser** (`Ocr`). It covers the confidence gate, the
  win and loss phrase sets, first-match-wins ordering, the `"?"` sentinel,
  and a reader failure degrading to no detections.
- **The match store** (`Models`). The `matches` table is an in-memory sequence
  of rows. The model covers the insert defaults, the two filters and ordering
  of `get_matches`, `get_seasons`, `delete_match`, and the whitelisted
  `update_match_field`. For `get_stats` it covers the counts, the win-rate
  guard, the current streak and the best win streak.
- **Small services:**
  - version comparison and the update decision (`Updater`);
  - backup naming and pruning (`Backup`);
  - the configuration defaults merge and save (`Config`);
  - the bridge's validation and precondition chains (`Api`);
  - the drag-rectangle rule of the region selector (`Screen`).
- **The interface's pure helpers:**
  - the two HTML escapers (`Html`);
  - the per-key aggregation shared by three components (`Tally`);
  - the per-opponent tab and matchup view (`DetailPanel`);
  - the history table's filters and cells (`MatchTable`);
  - the top-ten opponents chart (`ChartOpponents`);
  - the per-season table (`SeasonStats`);
  - the deck form (`DeckManager`).

Shared helpers:

- `Wrappers`: `Option` and `Result`.
- `Strings`:
  - ASCII `strip` (Python's whitespace, which includes the separators 0x1c..0x1f) and `trim` (JavaScript's, which does not), `upper` and `lstrip`;
  - split and join;
  - digit parsing and decimal printing.
- `StringOrder`: lexicographic order on code points.
- `Sorting`: insertion sorts by a string key or a numeric key.
- `Json`: configuration values and Python truthiness.
- `JsValues`: JavaScript `||` and `String(...)` on nullable values.

## Model

| member | source | states |
|---|---|---|
| Detector.ClassifyFollowsRules | tracker/capture/detector.py:202-232 | When every predicate answers, the transition always yields exactly one state. That state is the target of the first applicable rule: IDLE goes to PRE_QUEUE iff pre-queue holds; PRE_QUEUE goes to IN_COMBAT when in-combat holds, else to IDLE when pre-queue fails; IN_COMBAT goes to END_SCREEN iff end-screen holds; END_SCREEN goes to IDLE iff end-screen fails; in every other case the current state is returned. |
| Detector.ClassifyConsultsOnly | tracker/capture/detector.py:214-230 | Only the predicates a state consults affect the outcome. In PRE_QUEUE a true in-combat answer wins whatever pre-queue says. |
| Detector.ChangesFollowEdges | tracker/capture/detector.py:202-232 | Every change of state follows one of the five edges of the machine, and END_SCREEN is entered only from IN_COMBAT. |
| Detector.SteadyFramesSettle | tracker/capture/detector.py:202-232 | If the detector keeps answering alike, the machine reaches a fixed point within three transitions. |
| Detector.Step | tracker/capture/detector.py:150-200 | After a tick, presence equals whether the window was found. `on_mumu_detected` fires iff the window appeared, and `on_mumu_lost` fires iff it disappeared. A loss forces IDLE and fires nothing else. Every `on_state_changed` carries the old and the new state, which differ, and it fires whenever the window is present and the state changed. At most two callbacks fire, the detection callback first. |
| Detector.SkippedTickKeepsState | tracker/capture/detector.py:173-192 | With no config or detector, a falsy region, a failed capture, or a consulted predicate that raised, the state is unchanged and `on_state_changed` does not fire. |
| Detector.ClassifyingTickTransitions | tracker/capture/detector.py:187-200 | When the tick classifies, the new state is the transition's result, and `on_state_changed(prev, next)` fires iff next differs from the current state. |
| Detector.SteadyPresenceIsSilent | tracker/capture/detector.py:156-171 | When presence does not change, no presence callback fires. |
| Detector.StepKeepsConsistent | tracker/capture/detector.py:156-165 | A tick preserves the invariant "window absent implies IDLE". |
| Detector.RunKeepsConsistent | tracker/capture/detector.py:142-148 | Any sequence of ticks from a consistent record, including a fresh loop, keeps "window absent implies IDLE". |
| Detector.RunChangesFollowEdges | tracker/capture/detector.py:142-148 | Over any run, every reported change follows an edge. `on_state_changed(IDLE or PRE_QUEUE, END_SCREEN)` never fires. |
| Ocr.Verdicts | tracker/capture/ocr.py:125-132 | There is one verdict per detection, in reader order. Each is the verdict of the detection's upper-cased text stripped of Python whitespace, separators 0x1c..0x1f included. |
| Ocr.VerdictGate | tracker/capture/ocr.py:125-132 | A detection below confidence 0.5 has no verdict. At 0.5 or above, it says win iff its upper-cased text, stripped of Python whitespace (0x1c..0x1f included), is one of the five win phrases, and loss iff it is one of the five loss phrases. |
| Ocr.ConfidenceGate | tracker/capture/ocr.py:19 | The gate sits exactly at 0.5. A lone winning phrase gives "W" at confidence 0.5 or more, and "?" below it. |
| Ocr.ParseResultIsFirstVerdict | tracker/capture/ocr.py:117-133 | The result is undecided iff no detection has a verdict. Otherwise it is the verdict of the first detection that has one, and all earlier detections have none. |
| Ocr.FirstVerdictWins | tracker/capture/ocr.py:125-133 | Once a prefix of the detections decides the result, later detections are irrelevant. Otherwise only the later ones decide it. |
| Ocr.VerdictIgnoresCaseAndPadding | tracker/capture/ocr.py:128-131 | Upper-casing the text and padding it with Python whitespace (so also "WIN" followed by 0x1f) does not change a detection's verdict. |
| Ocr.RawPayload | tracker/capture/ocr.py:63-66 | The raw payload lists exactly the (text, confidence) pairs in reader order, with bounding boxes dropped. |
| Ocr.ExtractEndScreenData | tracker/capture/ocr.py:47-74 | The result is always "W", "L" or "?". It is the first verdict's code. Opponent and first player are always "?". A reader failure gives "?" and an empty payload. Otherwise the payload has one entry per detection. |
| Ocr.ExtractDeckFromPrequeue | tracker/capture/ocr.py:76-94 | The fallback deck id comes back unchanged for any image, including a missing one. |
| Models.SaveMatch | tracker/db/models.py:81-106 | The new row is appended under the next id. A missing result, opponent or first player is stored as "?". An explicitly supplied null is kept. A missing season is null, and a missing capture time is the current time. An explicit null capture time violates NOT NULL and fails with nothing stored. |
| Models.SaveMatchKeepsValid | tracker/db/models.py:81-104 | Inserting keeps ids unique and below the next id. |
| Models.Keep | tracker/db/models.py:115-122 | Each row satisfying both optional filters (season, deck id) is kept as often as it occurs; every other row is dropped. |
| Models.GetMatches | tracker/db/models.py:108-127 | The result holds exactly the rows passing both filters, with multiplicity, ordered by capture time descending. |
| Models.UnfilteredGetMatchesIsTable | tracker/db/models.py:115-125 | With no filter, every row is returned. |
| Models.SavedMatchIsListed | tracker/db/models.py:81-125 | A saved match appears in the unfiltered listing, exactly once more than it was stored before. |
| Models.GetSeasons | tracker/db/models.py:139-148 | A season is listed iff some row has it (non-null). The list is strictly descending, so there are no duplicates. |
| Models.DeleteMatch | tracker/db/models.py:129-137 | The answer is true iff a row with that id existed. Exactly the rows with that id are removed, the others keep their order (through Models.WithoutConcat), and the id counter is untouched. |
| Models.WithoutConcat | tracker/db/models.py:129-137 | Removal by id works part by part on a concatenation, so the rows that stay keep their relative order. |
| Models.WithoutSingle | tracker/db/models.py:129-137 | A single row is removed iff it carries the id. |
| Models.DeleteMatchKeepsValid | tracker/db/models.py:129-137 | Deleting keeps the table valid. A second delete of the same id answers false. |
| Models.SetFieldChangesOnlyThatField | tracker/db/models.py:156-158 | Setting a whitelisted column gives it the new value and changes no other column. |
| Models.UpdateMatchField | tracker/db/models.py:150-163 | A column outside {result, opponent, first_player, season, notes, tags} is refused with false and nothing changes. Otherwise exactly the rows with that id get the value, and the answer says whether such a row exists. |
| Models.UpdateMatchFieldKeepsValid | tracker/db/models.py:150-163 | An update keeps the table valid. |
| Models.WinsAndLossesFitInTotal | tracker/db/models.py:175-188 | wins + losses ≤ total. |
| Models.Winrate | tracker/db/models.py:188-189 | The win rate is 0 with no decided match. Otherwise it is the exact percentage of wins among decided matches, between 0 and 100. |
| Models.BestWinStreak | tracker/db/models.py:240-255 | The best streak is the length of an actual run of consecutive wins, and no run of wins is longer. It is 0 without wins. |
| Models.CurrentStreak | tracker/db/models.py:223-238 | With no W/L row the streak is (none, 0). Otherwise the type is the newest result, and the count is the length of the run of equal results it opens, which stops at the first different one. |
| Models.RecentStreak | tracker/db/models.py:223-238 | For some newest-first order of the rows (ties in any order), the streak is the head run of the first 50 W/L results. There is a streak type iff some row is W or L; the type is W or L and the count is 1 to 50. |
| Models.LongestWinStreak | tracker/db/models.py:240-255 | For some oldest-first order of the rows, the best streak is the longest run of wins among the W/L results, and it is at most the number of wins. |
| Models.GetStats | tracker/db/models.py:169-255 | Total, wins and losses count the rows in the season filter, and wins + losses ≤ total. The win rate is the guarded ratio. The current streak is the head run of the newest 50 W/L rows, and the best win streak is the longest win run of the oldest-first W/L rows, each for an order the `ORDER BY captured_at` query may return. There is a streak type iff there is a decided match. |
| Models.WinRunCountsWins | tracker/db/models.py:240-255 | A run of wins is never longer than the number of W rows. |
| Updater.Pieces | tracker/updater.py:17 | Leading "v"s are dropped, the text is cut at dots, and exactly the first three pieces (all of them when there are fewer) are kept, none of which contains a dot. |
| Updater.ParseAll | tracker/updater.py:17-20 | Parsing succeeds iff every piece is a non-empty digit string, and then yields each piece's value. |
| Updater.IsNewer | tracker/updater.py:13-20 | The answer is true iff both versions parse and the current tuple is lexicographically smaller. Any parse failure gives false. |
| Updater.PrefixIsOlder | tracker/updater.py:18 | A tuple is older than any proper extension of it, so 1.0 is older than 1.0.0. |
| Updater.IsNewerIrreflexive | tracker/updater.py:13-20 | No version is newer than itself. |
| Updater.IsNewerAsymmetric | tracker/updater.py:13-20 | Two versions are never each newer than the other. |
| Updater.LeadingVIgnored | tracker/updater.py:17 | A leading "v" changes neither the stripped text nor the parsed version. |
| Updater.PrintedVersionParses | tracker/updater.py:17 | One to three numbers printed with dots parse back to those numbers. |
| Updater.ExtraComponentsIgnored | tracker/updater.py:17 | Components after the third are never parsed, so they cannot spoil the comparison. |
| Updater.IsNewerOnPrinted | tracker/updater.py:18 | On printed versions, "newer" is exactly tuple order. |
| Updater.CheckForUpdate | tracker/updater.py:23-42 | An update is reported iff the response is an object whose v-stripped string tag is non-empty, whose URL is truthy, and whose tag is newer than the current version. It reports the stripped tag and the URL. |
| Updater.SameReleaseIsNoUpdate | tracker/updater.py:36-39 | A release is never reported as an update to itself. |
| Backup.Pad | tracker/backup.py:23 | A zero-padded field has exactly its width and holds only digits. |
| Backup.Stamp | tracker/backup.py:23 | A time stamp is 19 characters long. |
| Backup.BackupName | tracker/backup.py:24 | A new backup's name is itself a pruning candidate. |
| Backup.PadOrder | tracker/backup.py:23 | Fixed-width zero-padded numbers compare as strings the way they compare as numbers. |
| Backup.StampOrder | tracker/backup.py:23 | For well-formed date-times, stamp order is time order, and equal stamps mean equal times. |
| Backup.NameOrderIsChronological | tracker/backup.py:23-24 | For well-formed date-times, backup-name order is time order, so "greatest name" means "newest backup". |
| Backup.Candidates | tracker/backup.py:28-32 | Exactly the names starting "tracker_" and ending ".db" are candidates, with their multiplicity. |
| Backup.SortedCandidates | tracker/backup.py:28-32 | The sorted candidates are exactly the candidate names of the listing, strictly ascending and without duplicates. |
| Backup.AllButLast | tracker/backup.py:33 | `xs[:-5]` is empty for five or fewer elements. Otherwise it is the prefix that leaves out the last five. |
| Backup.BackupDb | tracker/backup.py:12-37 | Without a database file, or when the copy fails, nothing changes. Otherwise the new name joins the directory and only candidates are removed: all but the greatest five, ascending. Non-candidates are never touched, and a failed removal stops pruning without raising. |
| Backup.PruningKeepsNewest | tracker/backup.py:28-35 | Without a removal failure, the surviving candidates are exactly the five greatest (all of them if there are at most five). Every removed name sorts below every survivor. |
| Backup.FewBackupsAreKept | tracker/backup.py:33-35 | With at most five candidates, nothing is removed and every existing file stays. |
| Config.Merge | tracker/config.py:37 | The merged keys are the union. A key from the file takes its file value, and every other key keeps its default. |
| Config.GetAll | tracker/config.py:30-40 | Every default key is present. A missing or unreadable file, and a decoded value that is neither an object nor an array, give exactly the defaults. An object file overrides the defaults key by key. An array applies its leading key-value pairs (none when the first element is not a pair). |
| Config.PairPrefix | tracker/config.py:37 | `update` stores exactly the leading elements that are key-value pairs; the element after them, if any, is not a pair and raises. |
| Config.UpdatePairs | tracker/config.py:37-39 | Updating from an array never loses a key the configuration had. |
| Config.UpdatePairsLastWins | tracker/config.py:37-39 | After updating from an array, a key carried by some stored pair has the value of the last such pair; any other key is present iff it was before, with its old value. |
| Config.PairArraySetsKey | tracker/config.py:32-40 | A file holding `[[key, value], ...]` sets the key, to the value of a later pair for the same key if one is stored; a later element that is not a pair does not undo it. |
| Config.NoFileGivesDefaults | tracker/config.py:16-21 | With no file there are exactly the four defaults, with theme "ptcg-dark". |
| Config.Save | tracker/config.py:42-51 | The answer is true iff the write succeeds, and the file then holds the configuration. An open failure leaves the file alone and a dump failure leaves it unreadable. It never raises. |
| Config.SaveThenGetAll | tracker/config.py:30-49 | After a successful save, every saved key reads back with its saved value, and defaults fill in the rest. |
| Config.SaveOfGetAllIsStable | tracker/config.py:30-49 | Saving what was read changes nothing on the next read. |
| Config.FailedDumpResetsToDefaults | tracker/config.py:34-51 | A dump that fails half-way makes the next read give the defaults alone. |
| Api.CreateDeck | tracker/api/api.py:50-58 | A missing, empty or whitespace-only name is refused with the empty-name error, and storage is untouched. Whitespace is Python's, separators 0x1c..0x1f included. Otherwise the name stripped of that whitespace is stored under a fresh id. |
| Api.StoredDeckNameIsTrimmed | tracker/api/api.py:52-55 | A stored deck name is non-blank and already stripped of Python whitespace. |
| Api.CreateDeckRefusesSeparator | tracker/api/api.py:52-53 | The name "\x1f" is refused as empty. |
| Api.CreateDeckCutsSeparator | tracker/api/api.py:55 | The name "a\x1c" is stored as "a". |
| Api.CaptureTestFrame | tracker/api/api.py:194-206 | A falsy region is the no-region error and no capture happens. Otherwise exactly one capture happens; a missing frame is the "Capture de la région échouée." error, and a frame comes back unchanged. |
| Api.GetCaptureStatus | tracker/api/api.py:208-236 | The region counts as configured iff it is not null. With a polling loop, detection and state mirror it. Without one, the state is "idle" and detection is whether the window lookup returned a non-zero handle. |
| Api.StatusAndCaptureDisagreeOnEmptyRegion | tracker/api/api.py:199-220 | An empty-object region counts as configured for the status, yet the test capture refuses it as missing. |
| Api.TruthyRegionIsConfigured | tracker/api/api.py:199-220 | A truthy region always counts as configured. |
| Api.GetCalibrationStatus | tracker/api/api.py:242-255 | With no polling loop or no detector, all three flags are false. Otherwise they mirror `is_calibrated`, and an exception becomes an error. |
| Api.CalibrateState | tracker/api/api.py:257-279 | The first failing check decides the error, in this order: no truthy region, no loop or detector, failed capture, rejected state. There is no capture before the first two checks pass. Success means all checks pass and returns the state name after exactly one capture and one `calibrate` call. `calibrate` only ever receives a captured image. |
| Api.RejectedStateIsNamed | tracker/api/api.py:273-275 | A rejected state is reported with its name, after one capture and one calibration attempt. |
| Screen.Span | tracker/capture/screen.py:76-79 | The corner is at the minima. Width and height are non-negative, and each far edge sits at the maxima. |
| Screen.SelectRegion | tracker/capture/screen.py:75-93 | Escape yields no region. A drag yields the spanned rectangle iff both absolute differences exceed 10. |
| Screen.DirectionDoesNotMatter | tracker/capture/screen.py:76-79 | Swapping the press and release points gives the same result. |
| Screen.RegionContainsBothCorners | tracker/capture/screen.py:76-81 | A selected region contains both points. |
| Html.ReplaceAll | ui/components/detail-panel.js:421 | A global replace of a character that does not occur is the identity. |
| Html.EscIsCharwise | ui/components/detail-panel.js:419-426 | The chain of five global replaces equals replacing each character by its entity in one pass, so nothing is escaped twice. |
| Html.EscapeHtmlIsCharwise | ui/components/deck-manager.js:149-155 | The chain of four global replaces equals the one-pass replacement that leaves apostrophes alone. |
| Html.EscapeHasNoMarkup | ui/components/match-table.js:274-281 | Escaped text contains no `<`, `>` or `"`, and no apostrophe when it is escaped. With the four-character variant, an apostrophe survives iff the input had one. |
| Html.EscapeKeepsPlainText | ui/components/detail-panel.js:419-426 | Text without special characters is unchanged. |
| Html.EscapeAmpersandsOpenEntities | ui/components/detail-panel.js:421-425 | Every `&` in escaped text opens one of the five entities. |
| Html.UnescapeEscape | ui/components/detail-panel.js:419-426 | Escaping is injective: decoding the entities gives back the input. |
| Html.EscProperties | ui/components/match-table.js:274-281 | `_esc` output has no `<`, `>`, `"` or `'`. Every `&` opens an entity, the output decodes back to the input, and plain text is unchanged. |
| Html.EscapeHtmlProperties | ui/components/deck-manager.js:149-155 | `_escapeHtml` output has no `<`, `>` or `"`, and an apostrophe survives iff the input had one. Every `&` opens an entity, the output decodes back, and plain text is unchanged. |
| Html.ApostropheIsTheDifference | ui/components/deck-manager.js:149-155 | On an apostrophe, `_esc` gives `&#39;` and `_escapeHtml` leaves it alone. |
| Tally.GroupByDescribes | ui/components/detail-panel.js:187-194 | The one-pass aggregation has distinct keys and a group exactly for each key that occurs. Each group holds that key's match count, W count, L count and the title of the first match filed under it. |
| Tally.GroupByIsExact | ui/components/season-stats.js:15-22 | For any key: it has a group iff some match has it, and that group holds its reference counts. |
| Tally.TotalsAddUp | ui/components/detail-panel.js:187-194 | Every match lands in exactly one group: the totals sum to the number of matches. |
| Tally.SumTotalsPermutation | ui/components/detail-panel.js:195 | Reordering the groups keeps the sum of totals. |
| Tally.RearrangedIsExact | ui/components/detail-panel.js:195 | Any reordering of the aggregation (such as a sort) keeps distinct keys, the exact per-key counts and the total sum. |
| Tally.DecidedWithinTotal | ui/components/detail-panel.js:191-193 | For each key, wins + losses ≤ total. |
| Tally.TwoKeysTwoGroups | ui/components/season-stats.js:15-24 | Two matches with different keys give at least two groups. |
| Tally.InheritedKeyLosesMatch | ui/components/chart-opponents.js:15-21 | With a plain object as the map, a match whose key is `constructor` creates no group, so the totals add up to 0 instead of 1. |
| Tally.JsGroupByAgreesWithoutInheritedKeys | ui/components/detail-panel.js:187-194 | As long as no key is a name inherited from `Object.prototype`, the plain-object pass gives exactly the intended aggregation. |
| DetailPanel.OpponentKeyIsOpponentOrUnknown | ui/components/detail-panel.js:189 | The group key is `m.opponent \|\| '?'`, so a missing or empty opponent is filed under `'?'`. |
| DetailPanel.ComputeOpponents | ui/components/detail-panel.js:186-196 | The rows are a permutation of the corrected aggregation (see Findings), sorted by total descending. |
| DetailPanel.OpponentRowsAreExact | ui/components/detail-panel.js:186-196 | A row exists for a key iff some match is filed under it, each key once. Each row's total, wins and losses are the sizes of the matchup filters, with wins + losses ≤ total. Totals sum to the number of matches. |
| DetailPanel.Against | ui/components/detail-panel.js:357-359 | Exactly the matches whose `opponent \|\| '?'` equals the selected opponent are kept, with multiplicity. |
| DetailPanel.WithResult | ui/components/detail-panel.js:361-362 | Exactly the matches with that result are kept, with multiplicity. |
| DetailPanel.MatchupOf | ui/components/detail-panel.js:356-363 | The opponent shown is the selected one, or `'?'` when none is selected. The matchup holds exactly the matches against it, with multiplicity; wins and losses are the numbers of those matches with result W and L, and wins + losses ≤ their number. |
| DetailPanel.CountsAreFilterSizes | ui/components/detail-panel.js:188-194 | The aggregation's counts for a key equal the sizes of the matchup filters for that key. |
| DetailPanel.MatchupAgreesWithOpponentRow | ui/components/detail-panel.js:356-363 | Opening an opponent row's matchup shows that row's total, wins and losses. |
| DetailPanel.CountIsOccurrence | ui/components/detail-panel.js:188-190 | A key has a positive count iff some match is filed under it. |
| MatchTable.Filter | ui/components/match-table.js:118-122 | Every match kept passes both filters, and no more matches than the input are kept. |
| MatchTable.FilterKeepsExactlyThePassing | ui/components/match-table.js:118-122 | Every passing match is kept as often as it occurs, and every other match is dropped. |
| MatchTable.FilterConcat | ui/components/match-table.js:118-122 | Filtering distributes over concatenation, so the output is an order-preserving subsequence. |
| MatchTable.NoFilterListsAll | ui/components/match-table.js:118-122 | With filters ('all', '') the output equals the input. |
| MatchTable.DeckFilterSelectsDeck | ui/components/match-table.js:120 | A deck filter holding a printed id selects exactly that deck's matches, and never one without a deck. |
| MatchTable.ResultFilterSelectsResult | ui/components/match-table.js:119 | A result filter other than 'all' selects exactly that result. A null result passes only under 'all'. |
| MatchTable.DecksMap | ui/components/match-table.js:13-14 | Every loaded deck's id is mapped, and every mapped id carries the name of some deck with that id. |
| MatchTable.DeckCell | ui/components/match-table.js:146-148 | The cell shows '—' for a falsy deck id, the mapped name for a known id with a non-empty name, and '#' plus the id otherwise. |
| MatchTable.LoadedDeckShowsItsName | ui/components/match-table.js:146-148 | A match of a loaded, uniquely-identified, named deck with a non-zero id shows that deck's name. |
| MatchTable.ResultBadge | ui/components/match-table.js:247-258 | The text is the escaped `result \|\| '?'`, never empty. A missing result, or one that is neither W, L, D, ? nor a name `Object.prototype` carries, takes the '?' colour. A known result takes its own colour when that is non-empty, else the '?' colour. A result such as `constructor` takes the inherited member. |
| MatchTable.ColoredResults | ui/components/match-table.js:249-255 | Exactly W, L, D and ? have a colour entry of their own, and exactly the `Object.prototype` names find an inherited one. |
| MatchTable.InheritedResultHasNoColour | ui/components/match-table.js:249-255 | A result `constructor` gets the inherited constructor function as its colour, not the '?' colour. |
| MatchTable.SafeResultBadge | ui/components/match-table.js:247-258 | With an own-property lookup, every badge colour is one of the four palette colours, and any result other than W, L, D, ? takes the '?' colour. |
| MatchTable.SafeBadgeAgrees | ui/components/match-table.js:247-258 | The corrected badge equals `_resultBadge` for every result that is not an `Object.prototype` name. |
| MatchTable.Render | ui/components/match-table.js:115-126 | The body is the single "Aucun match" row iff no match passes the filters. Otherwise there is one row per filtered match, in order. |
| ChartOpponents.Ranked | ui/components/chart-opponents.js:24-28 | The entries are a permutation of the aggregation, sorted by wins + losses, non-increasing. |
| ChartOpponents.Chart | ui/components/chart-opponents.js:24-29 | There are at most 10 bars, and exactly min(10, number of opponents). Bars are the first ranked entries in non-increasing order of total. No dropped opponent has a larger total than a kept one. |
| ChartOpponents.BarsAreExact | ui/components/chart-opponents.js:15-27 | Bar names are distinct. A bar's wins and losses are the W and L counts for that trimmed opponent key, and its total is their sum. |
| ChartOpponents.FewOpponentsAreAllShown | ui/components/chart-opponents.js:28-29 | With at most 10 opponents, every opponent played has a bar. |
| ChartOpponents.EmptyChartIffNoMatches | ui/components/chart-opponents.js:34-41 | The chart is empty (the empty-state branch) iff there are no matches. |
| SeasonStats.PartsMakeTheWhole | ui/components/season-stats.js:24-28 | Seasoned and season-less groups together are all the groups. |
| SeasonStats.SortedSeasons | ui/components/season-stats.js:27 | The seasoned groups are sorted descending by season. |
| SeasonStats.Rows | ui/components/season-stats.js:15-28 | The rows are a permutation of the aggregation by `season \|\| '__none__'`. |
| SeasonStats.TitleMatchesKey | ui/components/season-stats.js:17-18 | A group's season, when it has one, is its key. A group without one is the '__none__' group. |
| SeasonStats.RowsAreOrdered | ui/components/season-stats.js:24-28 | Seasoned rows come strictly newest-named first, and only the last row may lack a season. |
| SeasonStats.RowsAreExact | ui/components/season-stats.js:15-22 | Totals sum to the number of matches. A row exists for a key iff some match has it, and each row counts its matches, wins and losses. |
| SeasonStats.TwoSeasonsAreVisible | ui/components/season-stats.js:30-34 | Two matches with different season keys make the table visible. |
| SeasonStats.OneSeasonIsHidden | ui/components/season-stats.js:30-33 | All matches under one key (or no match at all) keep the table hidden. |
| DeckManager.HandleCreate | ui/components/deck-manager.js:46-55 | An empty or blank name (JavaScript whitespace) shows the error and dispatches nothing. Otherwise the error is cleared, the trimmed name is dispatched and the field is emptied. |
| DeckManager.EditSave | ui/components/deck-manager.js:87-94 | A name that trims to nothing (JavaScript whitespace) shows the error and dispatches nothing. Otherwise the trimmed name is dispatched with the deck id. |
| DeckManager.CreateAndRenameAgree | ui/components/deck-manager.js:46-94 | Both entry points refuse the same names and send the same trimmed text. |
| DeckManager.SentNameIsStoredAsSent | ui/components/deck-manager.js:52-53 | A name the form sends that neither starts nor ends with a separator 0x1c..0x1f is accepted by `create_deck` and stored exactly as sent. |
| DeckManager.StoredNameIsStripOfTyped | ui/components/deck-manager.js:52-53 | For any name the form sends, `create_deck` accepts it iff the typed text is not blank to Python, and stores the typed text stripped of Python whitespace. |
| DeckManager.FormSendsWhatBridgeRefuses | ui/components/deck-manager.js:47-53 | The form sends the name "\x1f", because `trim()` keeps it, and `create_deck` refuses it as empty. |
| JsValues.Or | ui/components/match-table.js:154 | `v \|\| fallback` is the value when it is a non-empty string, and the fallback otherwise. |
| JsValues.NumberTextMatches | ui/components/match-table.js:120 | `String(deck_id)` equals the printed integer n iff the deck id is n. |
| Strings.StripEmptyIffBlank | tracker/api/api.py:52 | Trimming gives the empty string iff the text is all whitespace. |
| Strings.StripIdempotent | tracker/api/api.py:55 | Trimming twice is trimming once. |
| Strings.StripKeepsTrimmed | tracker/api/api.py:55 | A text that neither starts nor ends with whitespace is its own strip. |
| Strings.StripAfterTrim | ui/components/deck-manager.js:53 | Python's `strip()` of what JavaScript's `trim()` kept equals Python's `strip()` of the untrimmed text. |

## Left out

- Threads, sleeps, locks and `stop()` of the polling loop (`tracker/capture/detector.py:95,127-148`) are left out. A tick is one sequential step. The loop's catch-all around `_tick` is not modelled, because no modelled step raises.
- Screen capture, the `win32gui` window lookup and the tkinter overlay are left out. Window presence, region capture results and the user's gesture are inputs.
- The detector predicates and `calibrate` / `is_calibrated` are uninterpreted inputs. The shown `StateDetector` has only stubs that answer False (`tracker/capture/detector.py:36-68`). The model follows that code, not the described image-similarity classification, whose mean-squared-error threshold does not appear in it.
- EasyOCR and numpy are left out: reader output is an input sequence, or a failure.
- The JSON text of `raw_ocr_data` and the float `repr` of confidences are left out. The payload is the list of pairs.
- `datetime.now()` is an opaque input string. Backup time stamps are a date-time record.
- The SQLite engine (schema, WAL, connections) is left out. The order among rows with equal `captured_at` is not fixed by the model: `GetMatches` states only descending capture time, and the two streaks of `get_stats` are stated for some order the query may return.
- Models.GetStats: the per-deck statistics (`LEFT JOIN` over the `decks` table, sorted by wins) and the most-played deck are not modelled, because the model has no `decks` table joined to matches. Only the global counts and the two streaks are stated.
- Models.Winrate: it keeps the exact ratio, because `round(..., 1)` is floating-point display arithmetic. The same applies to the interface's `toFixed`.
- Updater.ParseAll: only non-empty digit strings parse. Python `int()` also accepts a sign, surrounding whitespace and underscores, so a version such as "+1.0.0" parses in the source but not in the model.
- `strip()`, `trim()` and `upper()` are modelled on ASCII only. `strip()` removes space, tab, line feed, vertical tab, form feed, carriage return and the separators 0x1c..0x1f. `trim()` removes the same set without the separators. Non-ASCII whitespace (such as U+00A0, U+0085 and U+FEFF) and Unicode case mapping are left out.
- Json.Value: numbers are integers, so a float in `config.json` (a hand-edited region such as `[0.5, 0, 100, 50]`) is not represented.
- `localeCompare` (`ui/components/season-stats.js:27`) is modelled as code-point order, the same order Python strings and SQLite's default collation use.
- JavaScript object key order is left out: `Object.values` / `Object.keys` list integer-like keys first. Groups are kept in first-seen order, and the sort stability of `Array.prototype.sort` is not relied on. The contracts speak of permutations and ordering only.
- SeasonStats.TitleMatchesKey: a match whose season is literally `'__none__'` shares the key of the season-less matches. The group then shows whichever title its first match brought. The model keeps this behaviour and states only what holds in general.
- MatchTable.DeckCell: a deck named "—" displays the same as a match without a deck. The model keeps this and states the three cases as written.
- MatchTable.Render: the date cell (`_formatDate`, locale formatting) and the HTML markup of the rows are left out. Rows are represented by their id and cell texts. The badge of each row is the corrected MatchTable.SafeResultBadge (see Findings); `_resultBadge` as written is MatchTable.ResultBadge.
- Config.GetAll: in an array given to `update`, a two-element array whose first item is a number, a boolean or null, and a two-key object, are pairs to Python (a non-string key, or the object's two keys in file order). The model treats them as non-pairs, so it stops there where the source stores them. Every other element is modelled as the source treats it.
- DetailPanel.ComputeOpponents, DetailPanel.OpponentRowsAreExact, ChartOpponents.Ranked, ChartOpponents.Chart, ChartOpponents.BarsAreExact, SeasonStats.Rows and SeasonStats.RowsAreExact: these model the corrected aggregation (Tally.GroupBy, see Findings). In the JavaScript as written, a match whose key is a name inherited from `Object.prototype` is dropped, so "totals sum to the number of matches" holds only when no key is such a name (Tally.JsGroupByAgreesWithoutInheritedKeys).
- Models.SaveMatch, Models.UpdateMatchField: the insert names `notes` and `tags` columns (`tracker/db/models.py:86`) that the `matches` schema (`tracker/db/database.py:25-35`) does not create, and no migration appears in the source. The update's whitelist also admits `notes` and `tags` (`tracker/db/models.py:150-163`). The model assumes the columns exist for both. Against that schema, the insert fails with an SQLite error. An update of `notes` or `tags` raises too, and `update_match_field` then answers `{"error": ...}` (`tracker/api/api.py:138-143`) instead of true or false.
- The `maxLength = 100` of the rename field is a DOM attribute and is left out.
- `String(str)` on non-string values inside the escapers is left out: the escapers take strings.
- Assigning counters on an inherited `Object.prototype` value (for a key like `__proto__`) changes global objects. That side effect is left out; the model shows that such a match is lost (Tally.InheritedKeyLosesMatch) and uses the corrected aggregation everywhere else (see Findings).
- `_parse_opponent` and `_parse_first_player` always answer "?". They are modelled as such and appear only through Ocr.ExtractEndScreenData.
- The network request of `check_for_update` is left out: the decoded body is an input, or none when the request or decoding raised.
- CSV export, `open_external_url`, the tray icon, `paths.py`, `main.py` orchestration, and the DOM/Chart.js components other than those listed above are not part of this model.

## Findings

| source | as written | input that shows it | evidently intended | confidence | as-written member | corrected member |
|---|---|---|---|---|---|---|
| ui/components/chart-opponents.js:15-21 | The aggregation map is a plain object `{}`. For a key inherited from `Object.prototype`, `!agg[k]` is false, so no entry is created. The counters are then bumped on the inherited value, which `Object.keys` never lists. The same pattern appears in `ui/components/detail-panel.js:187-194` and `ui/components/season-stats.js:15-22`. | One match whose opponent is `constructor` (any result): the chart and the opponents tab show no row for it, and the totals sum to 0 instead of 1. | Every match is counted in exactly one group, whatever its key. For example, a map built with `Object.create(null)` or a `Map`. | medium (not executed) | Tally.InheritedKeyLosesMatch | Tally.TotalsAddUp |
| ui/components/match-table.js:249-255 | `colorMap` is a plain object literal, so `colorMap[result]` also finds the members `Object.prototype` carries. They are truthy, so `\|\| colorMap['?']` does not apply. | A match whose `result` column holds `constructor`. The edit select offers only W, L, D and ? (`ui/components/match-table.js:171-175`), so the value gets there only through a direct call of the bridge's `update_match_field` or an edit of the database file. The badge's `color:` is the text of the constructor function instead of the '?' colour. | Every result outside W, L, D, ? gets the '?' colour, e.g. through `colorMap.hasOwnProperty(result)`. | low (not executed) | MatchTable.InheritedResultHasNoColour | MatchTable.SafeResultBadge |
