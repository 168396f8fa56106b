# PL_Match data pipeline and answer checking, modelled in Dafny

PL_Match is a football-player guessing game. Its Python code does two jobs:

- **Data pipeline.** Scripts scrape player listings from futwiz.com, one version file per game edition (FIFA 10 to FIFA 23). Further scripts:
  - download the player photos and nationality flags;
  - merge and clean the data: team names are standardised against `team_config.json`, and teams outside the Premier League are removed;
  - report suspicious team names and missing photos.
- **Game server.** A Flask app loads the version files. It rewrites each player's image paths to local files and adds a nationality and a last name. It then checks a guess's name, team and nationality against the player in the session.

This project models the logic of those scripts and of the server's helpers, and proves what they promise. The modules are:

- `Text`: the ASCII subset of the Python string and path operations the code calls, including `lower`, `strip`, `split`, `isdigit`, `<` on `str`, `os.path.basename`, `os.path.splitext` and the `pathlib` stem.
- `Records`: the player and team-config records, and the shared loading loop over versions 10..23.
- `Dedup`: the "first record per key" filter that the scraper and the merge both run.
- `Ordering`: `sorted(set(...))` over strings.
- One module per script:
  - `Scrape`: `scrape_players.py`;
  - `Manifest`: the `download_image` and `download_player_images` functions shared by `scrape_players.py` and `download_images.py`, and the `main` of `download_images.py`;
  - `PlayerPhotos`: `download_player_photos.py`;
  - `Flags`: `download_flags.py`;
  - `Merge`: `merge_players.py`;
  - `TeamFix`: `fix_team_names.py`;
  - `TeamReport`: `check_teams.py`;
  - `MissingPhotos`: `check_missing_photos.py`;
  - `Serving`: `app.py`.

How code becomes Dafny:

- **Pure code becomes functions.** Loops that build a value become methods. Each method is proved equal to a specification function, and the lemmas are stated about that function.
- **Downloads become state.** The download manifest of `download_images.py` is a global set updated in place, so it is a class with fields. The downloads in the other scripts are modelled as state-passing functions.
- **The outside world becomes parameters:**
  - the network is a parameter `online: string -> bool`, which says whether a fetch of that URL succeeds;
  - the file system is a set of existing paths;
  - the JSON files are a map from version number to the players in that file;
  - a listing page is a `Response` value.

Behaviours of the code worth knowing:

- The scraper's de-duplication key is (name, team, photo URL).
- An HTTP 429 response counts as an empty page. It only adds a 30-second pause and is not retried.
- A crawl stops after 2 consecutive empty pages.
- `get_team_name` returns the first link without an image whose text is not a competition label, even when that text is empty. The row is then dropped because the team is falsy.
- `fix_team_names.py` drops a player whose team standardises to an empty standard name, because the empty string is falsy.
- `fix_team_names.py` rewrites every existing version file, even when nothing in it was kept.
- `check_teams.py` gives a version an entry in `teams_by_version` only once that version has a player. The structure is a `defaultdict`, so an empty file adds no key.

## Model

| member | source | states |
|---|---|---|
| Records.LoadVersions | download_flags.py:65-74 | The shared loading loop returns the players of every existing version file 10..23, in ascending version order. |
| Records.LoadBelowMembers | download_player_photos.py:35-44 | A player is loaded exactly when it is in the file of some existing version in range. |
| Scrape.TeamNameFirstMatch | scrape_players.py:94-101 | `get_team_name` is None iff no link is a candidate (no `img`, text not one of the 11 labels). Otherwise it is the stripped text of the first candidate, which is never a competition label. |
| Scrape.TeamName | scrape_players.py:94-101 | A team name found by `get_team_name` is never one of the competition labels. |
| Scrape.Digits | scrape_players.py:112 | The joined `isdigit` characters are all digits. |
| Scrape.Rating | scrape_players.py:106-117 | A rating is always in 1..99, and a missing `td.ovr` cell gives None. |
| Scrape.DigitsAppend | scrape_players.py:112 | The digit filter distributes over concatenation. |
| Scrape.DigitsOfTrimLeft | scrape_players.py:111-112 | Dropping leading whitespace keeps the digits of a text. |
| Scrape.DigitsOfTrimRight | scrape_players.py:111-112 | Dropping trailing whitespace keeps the digits of a text. |
| Scrape.DigitsOfStrip | scrape_players.py:111-112 | Stripping the cell text does not change its digits. |
| Scrape.RatingReadsAllDigits | scrape_players.py:109-115 | The rating is the number formed by all digits of the text when that number is in 1..99, and None otherwise (including when there is no digit). |
| Scrape.DecimalReadsBack | scrape_players.py:112 | The decimal spelling of n in 1..99 consists of digits and converts back to n. |
| Scrape.RatingOfDecimal | scrape_players.py:109-114 | Round trip: a cell showing n in 1..99, surrounded by text without digits, reads back as n. |
| Scrape.NormalizeFlag | scrape_players.py:160-163 | A normalised flag source never starts with '/'. It is the source itself or the CDN host followed by the source. |
| Scrape.NormalizeFlagIdempotent | scrape_players.py:162-163 | Normalising twice equals normalising once. |
| Scrape.ExtractRow | scrape_players.py:152-176 | A record produced from a row is valid: non-empty fields, rating in 1..99, the version set, unflagged. |
| Scrape.ExtractRowExactly | scrape_players.py:152-176 | A row yields a record iff name, photo, flag, team and rating are all present and truthy. The record carries exactly those values (stripped name, normalised flag). |
| Scrape.ParsedRows | scrape_players.py:150-182 | The records of a table are at most one per row, and all valid. |
| Scrape.ParsedRowsSnoc | scrape_players.py:150-182 | One more row appends its record, if it yields one, after the earlier rows' records. |
| Scrape.ScrapePlayers | scrape_players.py:134-188 | A request error, an HTTP error or a missing table gives an empty page. Otherwise the result is the rows' records, in order, all valid. |
| Scrape.KeepStep | scrape_players.py:204-208 | One new record is appended, and its key added to the seen set, iff its key was not seen. |
| Scrape.KeepFirstOccurrences | scrape_players.py:204-208 | The inner loop extends the kept list to the first-occurrence filter of everything seen so far. The seen set stays equal to the kept keys. |
| Scrape.EmptinessAt | scrape_players.py:197-203 | Entry i of the crawl's emptiness pattern says whether page i gave no records. |
| Scrape.EmptyAtNoRecords | scrape_players.py:199-201 | A page counts as empty exactly when it gives no records. |
| Scrape.ScrapeFifaVersion | scrape_players.py:190-210 | Pages 0, 1, 2, ... are requested until the first point after which two pages in a row were empty. The output is the first record per (name, team, photo) of all pages' records, in page order. |
| Scrape.StreakStep | scrape_players.py:197-203 | On any emptiness pattern, one more page updates the empty-page counter as the loop does. The counter reaches 2 only when the last two pages were empty, and then the crawl stops there and not earlier. |
| Scrape.CrawlStep | scrape_players.py:197-203 | One iteration on the listing's own pattern: the counter follows page emptiness, and reaching 2 means the crawl stops after this page. |
| Scrape.PrefixStopsEarly | scrape_players.py:197 | When the crawl would stop after n1 pages, it does not stop after any larger count. |
| Scrape.StopsAfterUnique | scrape_players.py:197 | The number of pages fetched is determined by the listing. |
| Scrape.StopsWithinListing | scrape_players.py:197-210 | The crawl fetches at least 2 pages and at most 2 past the listing's end. |
| Scrape.EmptyStartFetchesTwo | scrape_players.py:197-201 | Two empty first pages stop the crawl after exactly 2 requests. |
| Scrape.SingleEmptyPageResets | scrape_players.py:200-203 | In any stopping pattern, a single empty page q between non-empty ones does not stop the crawl: at least q+3 pages are fetched. |
| Scrape.StopsAfterLastNonEmpty | scrape_players.py:197-210 | A pattern of p+3 pages where page p is non-empty, the last two are empty and there was no earlier double gap is exactly where the crawl stops. |
| Scrape.VersionOutputProperties | scrape_players.py:204-208 | The output records are valid and have pairwise distinct keys. They cover every key the pages gave, and are the first occurrences, in order. |
| Scrape.CrawledValid | scrape_players.py:168-176 | Every record of every page is valid. |
| Dedup.KeysOfAppend | merge_players.py:22-25 | The key set of a concatenation is the union of the key sets. |
| Dedup.FirstByKeyKeys | scrape_players.py:204-208 | The kept keys are the input's keys minus those seen before. |
| Dedup.FirstByKeyIsFirstPositions | scrape_players.py:204-208 | The loop keeps exactly the records at first-occurrence positions (the reference definition), in order. |
| Dedup.FirstByKeyUnique | scrape_players.py:206-207 | No two kept records share a key, and no kept key was seen before. |
| Dedup.FirstByKeySubset | merge_players.py:29-33 | Every kept record is an input record, and there are at most as many. |
| Dedup.FirstByKeyAllSeen | merge_players.py:29-33 | When every key was already seen, nothing is kept. |
| Dedup.FirstByKeySnoc | scrape_players.py:204-208 | One more record is kept iff its key is neither seen nor kept. |
| Dedup.FirstByKeyExtend | merge_players.py:30-33 | One loop step with a known-keys set: a record is appended iff its key is new, and its key then joins the kept keys. |
| Manifest.DownloadOutcome | download_images.py:22-52 | `download_image` succeeds iff the URL is known, the file exists or the fetch works. A success records the URL and a failure changes nothing on disk. At most this URL is fetched and at most this path is written. |
| Manifest.DownloadAgain | scrape_players.py:44-47 | After a success, a second call with the same URL returns True and changes nothing. |
| Manifest.FetchPlayerImages | download_images.py:54-71 | A photo pass only adds to the manifest and the disk, and only appends requests. |
| Manifest.FetchPlayerImageGrows | download_images.py:59-67 | One player's step only adds to the manifest and the disk, and only appends requests. |
| Manifest.PhotoUrls | download_images.py:59-67 | The set of photo URLs holds exactly the players' photo URLs. |
| Manifest.FetchPlayerImageOutcome | download_images.py:59-67 | One player is fetched iff the URL passes the `http` filter (in `download_images.py`), is not in the manifest and has no file. A successful fetch records the URL and creates the file. |
| Manifest.FetchPlayerImagesLast | scrape_players.py:77-89 | The pass handles the last player after all the others. |
| Manifest.FetchPlayerImagesRequests | download_images.py:59-67 | Every URL requested is some player's photo, was not in the manifest before, and starts with "http" under the filter. |
| Manifest.FetchPlayerImagesManifest | download_images.py:54-71 | Only the players' photo URLs are added to the manifest. |
| Manifest.DirectoryUrlSkipped | scrape_players.py:81-85 | A URL whose basename is empty (it ends in '/') or "." names the players directory, which exists, so it is never fetched. |
| Manifest.SecondPassRetriesOnlyFailures | download_images.py:104-108 | A second pass over the same players requests only URLs whose fetch fails. |
| Manifest.SuccessfulPhotosKnown | download_images.py:54-71 | After a pass, every wanted photo is in the manifest or on disk. |
| Manifest.SettledStep | download_images.py:59-67 | Handling the last player keeps the earlier wanted photos known and makes the last one known. |
| Manifest.SecondPassFails | download_images.py:54-71 | From a settled state, every request is a failing one. |
| Manifest.DescendingVersions | download_images.py:92 | The walk has 14 versions in strictly descending order, newest first. |
| Manifest.DescendingVersionsCover | download_images.py:92 | The walk reads exactly the versions 10..23, no other. |
| Manifest.Downloader.constructor | download_images.py:10-12 | The manifest starts empty, with no requests, over the existing files. |
| Manifest.Downloader.DownloadImage | download_images.py:22-52 | The new state and flag are those of `Download` on the old state. |
| Manifest.Downloader.DownloadSinglePlayer | download_images.py:59-67 | The new state is that of one player's step on the old state: the `http` filter, the existing-file skip, then `download_image`. |
| Manifest.Downloader.DownloadPlayerImages | download_images.py:54-71 | The players directory is created, then every player's photo is handled in list order. |
| Manifest.LeaguePass | download_images.py:92-108 | A league run only adds to the manifest and the existing paths, and only appends to the request log. |
| Manifest.LeaguePhotoUrlsMembers | download_images.py:92-105 | A URL is one of the league's photos exactly when an existing file among the versions walked has a player with that photo. |
| Manifest.VersionPassRequests | download_images.py:104 | One version file requests only `http` photos of its own players that were not yet in the manifest. |
| Manifest.LeaguePassRequests | download_images.py:92-108 | Over the whole league run, every URL requested is an `http` photo of a player in an existing file walked, and was not in the manifest when the run began. Each earlier success is therefore never fetched again. |
| Manifest.LeaguePassManifest | download_images.py:92-108 | Every URL the league run adds to the manifest is the photo of a player in an existing file walked. |
| Manifest.Downloader.DownloadLeague | download_images.py:91-108 | The new state (manifest, files written, request log in order) is the league run over versions 23 down to 10 from the old state: each existing file gets the players-directory creation and the `http`-filtered photo pass. `total_players` is the sum of the existing files' sizes. `total_downloads` is the number of URLs newly in the manifest. |
| PlayerPhotos.DownloadPlayerPhotos | download_player_photos.py:25-64 | The loop's state is the pass over all loaded players, from an empty set over the existing files plus the players directory. The printed count is the size of the set. |
| PlayerPhotos.PhotoPassSnoc | download_player_photos.py:52-60 | The pass over one more player is one more step after the pass over the earlier ones. |
| PlayerPhotos.PhotoStepOutcome | download_player_photos.py:52-60 | A player is fetched iff its URL is not downloaded and its file is missing. The URL is added iff that fetch succeeds. |
| PlayerPhotos.DirectoryUrlSkipped | download_player_photos.py:54-57 | A URL whose basename is empty or "." joins to the players directory, which exists, so the player is skipped unfetched. |
| PlayerPhotos.DotUrlNotFetched | download_player_photos.py:54-57 | "https://cdn.futwiz.com/." is not fetched once the players directory exists. |
| PlayerPhotos.FailureRetried | download_player_photos.py:57-60 | A failed download changes nothing, so the same URL is fetched again next time. |
| PlayerPhotos.PassDownloadsSucceeded | download_player_photos.py:52-64 | The final set holds exactly the requested URLs whose fetch succeeds. |
| PlayerPhotos.NoRefetchAfterSuccess | download_player_photos.py:53-60 | A URL requested twice in a pass failed both times. |
| Flags.FlagUrlInjective | download_flags.py:27-49 | Distinct ids never share a flag URL. |
| Flags.FlagIdOfLocalFlag | download_flags.py:84-96 | The id of the rewritten local path is the id again. |
| Flags.PlanOf | download_flags.py:84-89 | A player's flag has a download URL iff its id is mapped. |
| Flags.FlagPass | download_flags.py:82-98 | The pass emits one record per player, after the earlier ones. |
| Flags.FlagStepOutcome | download_flags.py:87-96 | One player: it is downloaded iff the URL is new and the file missing, and rewritten iff that download succeeds. |
| Flags.FlagPassShape | download_flags.py:82-98 | Each player comes out unchanged, or with only its flag pointed at its local path, and then its flag URL was downloaded. |
| Flags.FlagPassDownloaded | download_flags.py:87-96 | Every downloaded URL succeeded and belongs to a player rewritten to its local path. |
| Flags.FlagPassOnePerUrl | download_flags.py:87-94 | At most one player is rewritten per flag URL. |
| Flags.FlagLoop | download_flags.py:78-98 | The loop's state is the pass over all players, and the printed count is the number of URLs downloaded. |
| Flags.DownloadFlags | download_flags.py:55-108 | The players, the downloaded URLs and the request log are those of `FlagPass` over every loaded player (versions 10..23 in order), with `PlanOf` deriving each flag's URL, starting from no downloads and the existing files plus the flags directory. The printed count is the number of URLs downloaded. A version file is written iff that version has players, and it holds exactly that version's players, in order. |
| Flags.OfVersion | download_flags.py:103 | The version filter keeps exactly the players of that version. |
| Flags.Regroup | download_flags.py:101-106 | A version file is written iff it has players, and it holds exactly the players of that version, in order. |
| Flags.RegroupCovers | download_flags.py:101-106 | A player is written back iff its version is in 10..23. |
| Merge.KeyLtIrreflexive | merge_players.py:37 | The sort order is irreflexive. |
| Merge.KeyLtAsymmetric | merge_players.py:37 | The sort order is asymmetric. |
| Merge.KeyLeTransitive | merge_players.py:37 | "Not below" is transitive, because key order is total. |
| Merge.InsertMultiset | merge_players.py:37 | Insertion adds exactly the one record. |
| Merge.InsertSorted | merge_players.py:37 | Insertion keeps the list sorted. |
| Merge.ConsSorted | merge_players.py:37 | A record that sorts no later than every element of a sorted list can go in front of it. |
| Merge.SortByKeySortedPermutation | merge_players.py:37 | The sort returns a permutation, ordered by (fifa_version, name). |
| Merge.InsertWithKey | merge_players.py:37 | An inserted record goes ahead of every record with its key. |
| Merge.SortByKeyStable | merge_players.py:37 | The sort is stable: records with equal keys keep their relative order. |
| Merge.SortByKeyOfSorted | merge_players.py:37 | A sorted list is left unchanged. |
| Merge.MergePlayerData | merge_players.py:4-45 | The merged list is the existing records plus the appended ones, sorted. `new_players_added` is the number appended, and the total is existing plus added. |
| Merge.AppendNewPlayers | merge_players.py:27-34 | The loop appends exactly the first occurrences of the incoming keys not already present, and counts them. |
| Merge.MergeStep | merge_players.py:29-34 | One incoming record is appended, and its key added, iff its key is not yet present. |
| Merge.MergedContents | merge_players.py:29-37 | The merged list holds the existing records and the appended ones (as a multiset), sorted, with equal keys in their pre-sort order. |
| Merge.AppendedAreNew | merge_players.py:22-34 | Appended records have new keys, pairwise distinct, and together bring exactly the incoming keys not already present. |
| Merge.AppendedAreFirstOccurrences | merge_players.py:29-33 | An incoming record is appended iff it is the first with its key and the key was new. |
| Merge.KeysOfPermutation | merge_players.py:37 | Sorting does not change the key set. |
| Merge.MergedKeys | merge_players.py:22-37 | After the merge, every existing and incoming key is present. |
| Merge.MergeIdempotent | merge_players.py:4-45 | Merging the same input again adds nothing and changes nothing. |
| TeamFix.CreateTeamMapping | fix_team_names.py:8-18 | The nested loops build the config-order mapping. |
| TeamFix.AddSynonymsEntries | fix_team_names.py:16-17 | After the synonym loop, each lowered synonym maps to the standard name, and other keys are unchanged. |
| TeamFix.AddTeamEntries | fix_team_names.py:12-17 | After one team, its lowered names map to its standard name, and other keys are unchanged. |
| TeamFix.LastWith | fix_team_names.py:11-17 | The position of the last team with a lowercase name, or -1; no later team has it. |
| TeamFix.TeamMappingEntries | fix_team_names.py:8-18 | The keys are exactly the lowered names. Each maps to the standard name of the LAST team in config order that has it. |
| TeamFix.MappingKeys | fix_team_names.py:14-17 | A key is present iff some team has it as a name, up to case. |
| TeamFix.MappingValuesAreStandard | fix_team_names.py:14-17 | Every value is some team's standard name. |
| TeamFix.StandardizeAgainstConfig | fix_team_names.py:20-26 | "ENG 1" gives None. Another name gives a result iff some team has it as a name up to case, and that result is a Premier League standard name. |
| TeamFix.LowerIsNotEng1 | fix_team_names.py:22 | No lowercased name equals "ENG 1". |
| TeamFix.StandardizeIgnoresCase | fix_team_names.py:20-26 | A non-"ENG 1" name and its lowercase form standardise alike. |
| TeamFix.CountSnoc | fix_team_names.py:65-82 | One more player adds one to a counter exactly when it bumps that counter. |
| TeamFix.CountAppend | fix_team_names.py:40-43 | A counter over two lists of players is the sum of the counter over each. |
| TeamFix.FixStep | fix_team_names.py:60-82 | Each branch of the loop body: "ENG 1" is kept with the flag and bumps only the "ENG 1" counter; a standardised Premier League name is kept with that name and bumps the fix counter iff the name changed; anything else is dropped and bumps only the removal counter. |
| TeamFix.FixedPlayersSnoc | fix_team_names.py:60-78 | One more player: its fixed record, if kept, goes after the others. |
| TeamFix.FixVersion | fix_team_names.py:58-82 | The player loop returns the kept players in order, and the three counter increments. |
| TeamFix.FixPlayerOutcome | fix_team_names.py:60-82 | "ENG 1" is kept and flagged. A kept non-"ENG 1" player is the original with only its team replaced by the last matching team's non-empty standard name. A player is dropped iff no team matches or the standard name is empty. |
| TeamFix.FixedCount | fix_team_names.py:89-91 | Final count = original count - removals. |
| TeamFix.FixedInOrder | fix_team_names.py:58-78 | The k-th written player is the fix of the k-th kept position, and the positions increase. |
| TeamFix.FixPlayerIdempotent | fix_team_names.py:60-78 | With a well-formed config, a fixed player is kept unchanged by a second run. |
| TeamFix.FixTeamNamesIdempotent | fix_team_names.py:35-96 | With a well-formed config, a second run keeps every player, fixes nothing and removes nothing. |
| TeamFix.WrittenBelowEntries | fix_team_names.py:45-86 | The files written for the versions below a bound are the existing ones, each fixed. |
| TeamFix.CountBelowIsCountOfLoad | fix_team_names.py:40-82 | Adding up a counter file by file gives the counter over all loaded players. |
| TeamFix.FixVersions | fix_team_names.py:45-91 | The version loop writes each existing file fixed, and the totals are the counters over all loaded players. |
| TeamFix.FixTeamNames | fix_team_names.py:35-96 | Every existing version 10..23 is rewritten with its fixed players, and nothing else. The three totals are the counters over all loaded players. |
| TeamReport.TeamsOfMembers | check_teams.py:27 | The team set holds exactly the players' team names. |
| TeamReport.LoadTeamsByVersion | check_teams.py:13-24 | The players of all existing files are loaded. `teams_by_version[v]` exists iff version v's file has players, and it is exactly the set of their teams. |
| TeamReport.AllTeams | check_teams.py:27 | `all_teams` is strictly sorted (no duplicates) and holds exactly the loaded players' teams. |
| TeamReport.AllTeamsAreGroupedTeams | check_teams.py:20-27 | A team is in the full list iff it is in some version's group. |
| TeamReport.SuspiciousTeams | check_teams.py:50-57 | The list keeps exactly the teams that start with ENG, GER, ESP or FRA, are all digits or have at most 2 characters, in sorted order. |
| TeamReport.Eng1IsSuspicious | check_teams.py:51 | The "ENG 1" placeholder is reported. |
| TeamReport.FixedTeamsNotSuspicious | fix_team_names.py:65-78 | After the fix, with non-suspicious standard names, only flagged "ENG 1" players have a suspicious team. |
| TeamReport.WithTeamMembers | check_teams.py:63 | The filter keeps exactly the players with that exact team. |
| TeamReport.WithTeamAppend | check_teams.py:63 | The filter keeps load order. |
| TeamReport.Examples | check_teams.py:63 | The examples are the first min(3, n) players with that team, in load order. |
| MissingPhotos.PngStemsMembers | check_missing_photos.py:8 | An id counts as downloaded exactly when "<id>.png" is in the directory with a non-empty id, or when the id is ".png" and a file named ".png" exists (its stem is the whole name). |
| MissingPhotos.MissingOf | check_missing_photos.py:29-38 | At most one entry per player. |
| MissingPhotos.FindMissing | check_missing_photos.py:29-38 | The loop builds exactly the missing list. |
| MissingPhotos.CheckMissingPhotos | check_missing_photos.py:5-38 | The report over all loaded players and the `*.png` stems. |
| MissingPhotos.MissingOfMembers | check_missing_photos.py:31-38 | An entry is listed iff some player's photo id is not a downloaded stem. The entry copies exactly name, team, fifa_version and photo_url. |
| MissingPhotos.MissingOfAppend | check_missing_photos.py:30-38 | The list keeps load order. |
| MissingPhotos.ShownAreFirstMissing | check_missing_photos.py:29-43 | The printed entries are the first missing players in load order: they are the whole missing list of some prefix of the load. |
| MissingPhotos.DownloadedPhotoFound | check_missing_photos.py:8-32 | A photo saved as "<root>.png" is found if root is empty or not all dots. |
| MissingPhotos.DotsPhotoReportedMissing | check_missing_photos.py:8-32 | A URL ending in "/..png" is reported missing although the file is on disk. |
| MissingPhotos.DotsFileId | check_missing_photos.py:31 | The id of a URL ending in "/..png" is the whole basename "..png". |
| Ordering.InsertUnique | app.py:212 | Insertion keeps the list strictly sorted and adds exactly the element. |
| Ordering.SortedList | app.py:212 | `sorted(set)` is strictly sorted and holds exactly the set's elements. |
| Ordering.StrictlySortedUnique | app.py:223 | A set has a single strictly sorted listing. |
| Serving.LeagueFolder | app.py:58 | The data folder is always one of the 8 league folders. An unknown league is served eng1's folder. |
| Serving.LeagueFoldersDistinct | app.py:22-31 | Two different known leagues never read the same folder. |
| Serving.TeamVariationsFirstMatch | app.py:37-42 | The first team matching the name (standard or synonym, up to case) gives its variations. Without a match the result is the name alone. |
| Serving.LastWord | app.py:44-47 | The last word is a trailing run of non-space characters of the right-stripped name. |
| Serving.LastNameIsLastWord | app.py:44-47 | A name with a word yields its non-empty last word, and a name of spaces only is returned unchanged. |
| Serving.LastNameOfWordEnd | app.py:44-47 | A name that does not end in a space has its trailing word as last name, and that word is not empty. |
| Serving.PlayerTeams | app.py:49-54 | Each name maps to exactly the set of teams it appears with. |
| Serving.FlagRewriteIsLocalFlag | app.py:74-77 | The flag rewrite is the path `download_flags.py` writes. |
| Serving.LocalImageIdempotent | app.py:73-77 | Rewriting a rewritten path is a no-op iff the id has a non-dot character. |
| Serving.DirectoryUrlRewriteNotIdempotent | app.py:73-76 | A URL ending in '/' is not stable under a second rewrite. |
| Serving.NationalityKnown | app.py:89-114 | "Unknown" iff the id is not mapped. The ids with a nationality are exactly those with a flag URL in `download_flags.py`. |
| Serving.ServeAll | app.py:71-83 | One served player per player. |
| Serving.ServeAllAppend | app.py:64-83 | Serving keeps load order across files. |
| Serving.ServeAllAt | app.py:71-82 | The i-th served player is the i-th player, served. |
| Serving.ServePlayerStable | app.py:71-82 | Re-serving a served record is a no-op when both ids have a non-dot character. |
| Serving.ServeVersions | app.py:64-83 | All existing files, ascending, every player served. |
| Serving.ServeFile | app.py:71-83 | The inner loop serves every player of one file, in order. |
| Serving.ServeBelowStep | app.py:64-83 | Loading one more version serves its file after the earlier ones, and a missing file adds nothing. |
| Serving.LoadFifaData | app.py:56-87 | An unknown league reads "premier_league". A missing folder gives []. Otherwise the result is every loaded player, served. |
| Serving.CheckAnswer | app.py:172-206 | The name is correct iff it equals the full or last name up to case. The team is correct iff its lowercase is among the lowered variations. The nationality is correct iff it matches up to case. The shown team is the ' / ' join, and name and nationality are None without a session. |
| Serving.ValidTeamsMembers | app.py:188-191 | A guess is valid iff it is a lowered variation of one of the stored teams. |
| Serving.StoredTeamAccepted | app.py:188-196 | A stored team, and every variation of the first team naming it, is accepted. |
| Serving.AcceptedVariation | app.py:188-191 | For a team that the stored name matches, each of its variations and the name itself are among its lowered variations. |
| Serving.UnknownTeamAcceptsOnlyItself | app.py:188-196 | A team unknown to the config accepts only itself, up to case. |
| Serving.GetNationalities | app.py:208-213 | The result is sorted and unique, and holds exactly the known nationalities. |
| Serving.GetPlayerNames | app.py:215-223 | The result is sorted and unique, and holds exactly the names and last names. |
| Serving.GetTeams | app.py:225-234 | The result is sorted and unique, and holds exactly the standard names, synonyms and abbreviations. |
| Text.Lower | fix_team_names.py:14 | The result has no ASCII capital left and keeps every other character in place. It equals the input exactly when the input has no ASCII capital. |
| Text.LowerIdempotent | app.py:182-191 | Lowercasing twice equals lowercasing once. |
| Text.TrimLeft | scrape_players.py:97 | Leading whitespace is removed, and only that. |
| Text.TrimRight | scrape_players.py:97 | Trailing whitespace is removed, and only that. |
| Text.Split | app.py:46 | The words are non-empty and space-free. There are no words iff the string is all whitespace. |
| Text.RFind | scrape_players.py:81 | The index of the last occurrence, or -1. |
| Text.Basename | scrape_players.py:81 | The basename is the suffix after the last '/', and contains no '/'. |
| Text.BasenameOfJoin | download_player_photos.py:54-55 | The basename of "dir/name" is name. |
| Text.SplitExtRoot | app.py:73 | The splitext root is a prefix of the name. |
| Text.FileId | app.py:73-74 | An image id contains no '/'. |
| Text.FileIdOfPngPath | app.py:76-77 | The id of "dir/id.png" is id, unless id is all dots. |
| Text.SplitExtRootOfPng | download_flags.py:84-88 | The root of "<root>.png" is root, unless root is all dots. |
| Text.PathStemOfPng | check_missing_photos.py:8 | The `pathlib` stem of "<root>.png" is root, unless root is empty. |
| Text.StrLtIrreflexive | merge_players.py:37 | String order is irreflexive. |
| Text.StrLtTransitive | merge_players.py:37 | String order is transitive. |
| Text.StrLtTotal | merge_players.py:37 | String order is total. |
| Text.StrLtAsymmetric | merge_players.py:37 | String order is asymmetric. |

## Left out

- HTML parsing with BeautifulSoup is not modelled. A row is represented by what the CSS selectors would return from it.
- HTTP requests, headers, timeouts, `time.sleep` and random delays are not modelled. The network is an oracle, and the 429 pause has no effect on results.
- `ThreadPoolExecutor`, the download lock and concurrency are not modelled. Downloads run one after the other, in list order.
- JSON reading and writing, `open`, `mkdir`/`makedirs` and directory existence are not modelled. Files are values, existing paths are a set, and the players directory counts as existing.
- A file that fails to parse, and the `except` branches around loading, are not modelled. Every existing file is assumed to parse.
- A player without a `photo_url` key cannot occur in the model. Every record has every field.
- `scrape_players.py` `main` is not modelled: its league loop and its calls to the download functions are orchestration.
- The league loop of `download_images.py` `main` is not modelled: the walk over the 8 league folders, the skip of a league whose data directory is missing, and the totals summed across leagues over one shared manifest. `DownloadLeague` models the body of that loop for one league directory.
- Paths are plain strings with no resolution by the operating system. A photo URL whose basename is ".." joins to "<players>/..", which the model treats as a missing file and fetches, while on disk it names the existing parent directory.
- FetchPlayerImageOutcome: for a photo URL whose basename is "..", the model fetches where the script finds the parent directory existing and skips, because paths are not resolved.
- DownloadSinglePlayer: the same ".." gap as FetchPlayerImageOutcome, for the same reason.
- PhotoStepOutcome: the same ".." gap in `download_player_photos.py`, for the same reason.
- `compress_images.py` is left out: PIL image processing with floating-point ratios.
- `static/js/game.js` is left out: browser UI.
- The Flask routes (`index`, `fifa_game`, `get_player`, `check_images`), `session`, `render_template`, `jsonify`, `random.choice` and `os.urandom` are left out. `check_answer` takes the session's player as a parameter.
- `load_team_config` is left out: configs are values, with teams in file order.
- Printing and logging are left out. Counters that are only printed are modelled as results.
- Unicode case folding and whitespace are not modelled: strings are handled as ASCII.
- `download_flags.py`'s `main` is split in two. The pass over players is proved for any derivation of a flag plan, and `DownloadFlags` instantiates it with the real derivation.
- Serving.ServeAll: proved for any per-player step. `LoadFifaData` instantiates it with `ServePlayer`, which keeps the string reasoning out of the order proofs.
- MissingPhotos.MissingOf: proved for any photo-id function. `CheckMissingPhotos` instantiates it with the real `splitext(basename(...))` id.
- Text.SplitExtRoot: models `os.path.splitext` only for names without '/' (it is always applied to a basename).
