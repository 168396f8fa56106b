/**
 * `scrape_players.py`: turning listing rows into player records, and the
 * per-version crawl that pages through the listing, stops after two empty
 * pages in a row and keeps the first record for each (name, team, photo).
 *
 * The HTML is abstracted: a row is what the CSS selectors would find in it,
 * and the listing is the sequence of responses its pages give.
 */
module Scrape {
  import opened Wrappers
  import opened Text
  import opened Records
  import Dedup

  /** Host put in front of a nation-flag source that starts with '/'. */
  const FlagHost: string := "https://cdn.futwiz.com"

  /** Competition labels that must never be taken for a team name. */
  const CompetitionNames: seq<string> := [
    "ENG 1", "Premier League", "EPL", "GER 1", "Bundesliga",
    "ESP 1", "La Liga", "FRA 1", "Ligue 1", "ITA 1", "Serie A"]

  /** Consecutive empty pages after which a version's crawl stops. */
  const EmptyPageLimit: nat := 2

  /** One `td.player p.team a` link: whether it has an `<img>` child, and its text. */
  datatype TeamLink = TeamLink(hasImg: bool, text: string)

  /**
   * One `tr.table-row` of the listing table, reduced to what the parser
   * reads: the text of `td.player p.name a b`, the `src` of
   * `td.face img.player-img` and of `img.nation` (None when the element or
   * its `src` is missing), the team links, and the text of `td.ovr`.
   */
  datatype Row = Row(
    name: Option<string>,
    photoSrc: Option<string>,
    flagSrc: Option<string>,
    teamLinks: seq<TeamLink>,
    ratingText: Option<string>)

  /** What one request for a listing page gives. */
  datatype Response =
    | Document(table: Option<seq<Row>>)  // a 2xx page; None when `div.table-container table` is absent
    | HttpError(status: int)             // `raise_for_status` failed; 429 first sleeps 30 s
    | RequestFailed                      // timeout, connection error, any other `RequestException`

  // ---------------------------------------------------------------- team name

  /** A link that `get_team_name` would return: no image and not a competition label. */
  predicate IsTeamCandidate(link: TeamLink) {
    !link.hasImg && Strip(link.text) !in CompetitionNames
  }

  /** `get_team_name`: the stripped text of the first candidate link, if any. */
  function TeamName(links: seq<TeamLink>): (r: Option<string>)
    ensures r.Some? ==> r.value !in CompetitionNames
  {
    if links == [] then None
    else if IsTeamCandidate(links[0]) then Some(Strip(links[0].text))
    else TeamName(links[1..])
  }

  /**
   * TeamName is a first-match search: None exactly when no link is a
   * candidate, and otherwise the stripped text of the first candidate, which
   * is never a competition label.
   */
  lemma {:induction false} TeamNameFirstMatch(links: seq<TeamLink>)
    ensures TeamName(links).None? <==> forall i :: 0 <= i < |links| ==> !IsTeamCandidate(links[i])
    ensures TeamName(links).Some? ==>
      exists i :: 0 <= i < |links| && IsTeamCandidate(links[i]) &&
        TeamName(links).value == Strip(links[i].text) &&
        forall j :: 0 <= j < i ==> !IsTeamCandidate(links[j])
    ensures TeamName(links).Some? ==> TeamName(links).value !in CompetitionNames
  {
    if links != [] && !IsTeamCandidate(links[0]) {
      var tail := links[1..];
      TeamNameFirstMatch(tail);
      assert forall i :: 1 <= i < |links| ==> links[i] == tail[i - 1];
      if TeamName(tail).Some? {
        var i :| 0 <= i < |tail| && IsTeamCandidate(tail[i]) &&
          TeamName(tail).value == Strip(tail[i].text) &&
          forall j :: 0 <= j < i ==> !IsTeamCandidate(tail[j]);
        assert links[i + 1] == tail[i];
        forall j | 0 <= j < i + 1 ensures !IsTeamCandidate(links[j]) {
          if j > 0 { assert links[j] == tail[j - 1]; }
        }
      }
    }
  }

  // ------------------------------------------------------------------- rating

  /** `''.join(filter(str.isdigit, s))`. */
  function Digits(s: string): (d: string)
    ensures forall i :: 0 <= i < |d| ==> IsDigit(d[i])
  {
    if s == [] then [] else (if IsDigit(s[0]) then [s[0]] else []) + Digits(s[1..])
  }

  function DigitValue(c: char): nat
    requires IsDigit(c)
  {
    c as int - '0' as int
  }

  /** `int(d)` for a string of ASCII digits (leading zeros allowed). */
  function DecimalValue(d: string): nat
    requires forall i :: 0 <= i < |d| ==> IsDigit(d[i])
  {
    if d == [] then 0 else 10 * DecimalValue(d[..|d| - 1]) + DigitValue(d[|d| - 1])
  }

  /**
   * `get_player_rating`: the number formed by all digits of the `td.ovr`
   * text, when it lies in 1..99. A missing cell, a text without digits
   * (`int('')` raises and is caught) and an out-of-range number give None.
   */
  function Rating(cell: Option<string>): (r: Option<int>)
    ensures r.Some? ==> 1 <= r.value <= 99
    ensures cell.None? ==> r.None?
  {
    match cell
    case None => None
    case Some(text) =>
      var d := Digits(Strip(text));
      if d == [] then None
      else if 1 <= DecimalValue(d) <= 99 then Some(DecimalValue(d))
      else None
  }

  lemma DigitsAppendStep(a: string, b: string)
    requires a != []
    requires Digits(a[1..] + b) == Digits(a[1..]) + Digits(b)
    ensures Digits(a + b) == Digits(a) + Digits(b)
  {
    assert (a + b)[0] == a[0];
    assert (a + b)[1..] == a[1..] + b;
  }

  lemma {:induction false} DigitsAppend(a: string, b: string)
    ensures Digits(a + b) == Digits(a) + Digits(b)
  {
    if a == [] {
      assert a + b == b;
    } else {
      DigitsAppend(a[1..], b);
      DigitsAppendStep(a, b);
    }
  }

  lemma {:induction false} DigitsOfTrimLeft(s: string)
    ensures Digits(TrimLeft(s)) == Digits(s)
  {
    if s != [] && IsSpace(s[0]) {
      DigitsOfTrimLeft(s[1..]);
      assert !IsDigit(s[0]);
    }
  }

  lemma {:induction false} DigitsOfTrimRight(s: string)
    ensures Digits(TrimRight(s)) == Digits(s)
  {
    if s != [] && IsSpace(s[|s| - 1]) {
      var init := s[..|s| - 1];
      DigitsOfTrimRight(init);
      assert s == init + [s[|s| - 1]];
      DigitsAppend(init, [s[|s| - 1]]);
      assert Digits([s[|s| - 1]]) == [];
    }
  }

  /** Stripping does not change the digits of a text. */
  lemma DigitsOfStrip(s: string)
    ensures Digits(Strip(s)) == Digits(s)
  {
    DigitsOfTrimLeft(s);
    DigitsOfTrimRight(TrimLeft(s));
  }

  /** The rating depends only on the digit characters of the cell text, all of them. */
  lemma RatingReadsAllDigits(text: string)
    ensures Rating(Some(text)) ==
      var d := Digits(text);
      if d != [] && 1 <= DecimalValue(d) <= 99 then Some(DecimalValue(d)) else None
  {
    DigitsOfStrip(text);
  }

  /** The decimal spelling of n in 1..99, as the site prints a rating. */
  function Decimal(n: nat): (s: string)
    requires 1 <= n <= 99
  {
    if n < 10 then [('0' as int + n) as char]
    else [('0' as int + n / 10) as char, ('0' as int + n % 10) as char]
  }

  /** The spelling of n consists of digits and reads back as n. */
  lemma DecimalReadsBack(n: nat)
    requires 1 <= n <= 99
    ensures Digits(Decimal(n)) == Decimal(n)
    ensures DecimalValue(Decimal(n)) == n
  {
    var d := Decimal(n);
    if n < 10 {
      assert d[..0] == [];
    } else {
      var t, u := n / 10, n % 10;
      assert n == 10 * t + u;
      assert d[1..] == [d[1]];
      assert Digits(d[1..]) == d[1..];
      assert d[..1] == [d[0]];
      assert d[..1][..0] == [];
      assert DecimalValue(d[..1]) == t;
    }
  }

  /**
   * Round trip: a cell showing the decimal spelling of n, with any text
   * around it that holds no digit, is read back as n.
   */
  lemma RatingOfDecimal(n: nat, before: string, after: string)
    requires 1 <= n <= 99
    requires Digits(before) == [] && Digits(after) == []
    ensures Rating(Some(before + Decimal(n) + after)) == Some(n)
  {
    var d := Decimal(n);
    DigitsAppend(before + d, after);
    DigitsAppend(before, d);
    DecimalReadsBack(n);
    assert Digits(before + d + after) == d;
    RatingReadsAllDigits(before + d + after);
  }

  // --------------------------------------------------------------------- rows

  /** A site-relative flag source ("/...") gets the CDN host in front. */
  function NormalizeFlag(src: string): (r: string)
    ensures !StartsWith(r, "/")
    ensures r == src || r == FlagHost + src
  {
    if StartsWith(src, "/") then
      assert (FlagHost + src)[0] == 'h';
      assert (FlagHost + src)[..1][0] == 'h';
      FlagHost + src
    else src
  }

  /** Normalising a flag source twice is the same as once. */
  lemma NormalizeFlagIdempotent(src: string)
    ensures NormalizeFlag(NormalizeFlag(src)) == NormalizeFlag(src)
  {
  }

  /** What every record that leaves the parser satisfies. */
  predicate ValidRecord(p: Player, version: int) {
    && p.name != "" && p.photoUrl != "" && p.nationalityFlag != "" && p.team != ""
    && 1 <= p.rating <= 99
    && p.fifaVersion == version
    && p.team !in CompetitionNames
    && !StartsWith(p.nationalityFlag, "/")
    && !p.teamNeedsVerification
  }

  /**
   * The body of the row loop in `scrape_players`: a record only when name,
   * photo source, flag source, team and rating are all present and truthy.
   */
  function ExtractRow(row: Row, version: int): (r: Option<Player>)
    ensures r.Some? ==> ValidRecord(r.value, version)
  {
    if row.name.None? || row.photoSrc.None? || row.flagSrc.None? then None
    else
      var name := Strip(row.name.value);
      var flag := NormalizeFlag(row.flagSrc.value);
      var team := TeamName(row.teamLinks);
      var rating := Rating(row.ratingText);
      if name != "" && row.photoSrc.value != "" && flag != "" && team.Some? && team.value != "" && rating.Some?
      then
        Some(Player(name, row.photoSrc.value, flag, team.value, rating.value, version, false))
      else None
  }

  /**
   * A row yields a record exactly when all five fields are present and
   * non-empty, and the record carries those fields.
   */
  lemma ExtractRowExactly(row: Row, version: int)
    ensures ExtractRow(row, version).Some? <==>
      && row.name.Some? && Strip(row.name.value) != ""
      && row.photoSrc.Some? && row.photoSrc.value != ""
      && row.flagSrc.Some? && row.flagSrc.value != ""
      && TeamName(row.teamLinks).Some? && TeamName(row.teamLinks).value != ""
      && Rating(row.ratingText).Some?
    ensures ExtractRow(row, version).Some? ==>
      var p := ExtractRow(row, version).value;
      && p.name == Strip(row.name.value)
      && p.photoUrl == row.photoSrc.value
      && p.nationalityFlag == NormalizeFlag(row.flagSrc.value)
      && Some(p.team) == TeamName(row.teamLinks)
      && Some(p.rating) == Rating(row.ratingText)
  {
  }

  /** The records of a table's rows, in row order. */
  function ParsedRows(rows: seq<Row>, version: int): (ps: seq<Player>)
    ensures |ps| <= |rows|
    ensures forall i :: 0 <= i < |ps| ==> ValidRecord(ps[i], version)
  {
    if rows == [] then []
    else
      var r := ExtractRow(rows[|rows| - 1], version);
      ParsedRows(rows[..|rows| - 1], version) + (if r.Some? then [r.value] else [])
  }

  /** Parsing one more row appends its record, if it yields one. */
  lemma ParsedRowsSnoc(rows: seq<Row>, i: nat, version: int)
    requires i < |rows|
    ensures ParsedRows(rows[..i + 1], version) ==
      ParsedRows(rows[..i], version) + (if ExtractRow(rows[i], version).Some? then [ExtractRow(rows[i], version).value] else [])
  {
    assert rows[..i + 1][..i] == rows[..i];
  }

  /** What `scrape_players` returns for one response. */
  function PageRecords(resp: Response, version: int): seq<Player> {
    match resp
    case Document(table) => if table.None? then [] else ParsedRows(table.value, version)
    case HttpError(_) => []
    case RequestFailed => []
  }

  /**
   * `scrape_players` once the response is in hand: a missing table and any
   * request error give an empty page; otherwise the rows' records in order.
   */
  method ScrapePlayers(resp: Response, version: int) returns (players: seq<Player>)
    ensures players == PageRecords(resp, version)
    ensures resp.HttpError? || resp.RequestFailed? || (resp.Document? && resp.table.None?) ==> players == []
    ensures forall i :: 0 <= i < |players| ==> ValidRecord(players[i], version)
  {
    match resp
    case HttpError(_) =>
      players := [];
    case RequestFailed =>
      players := [];
    case Document(table) =>
      if table.None? {
        return [];
      }
      var rows := table.value;
      players := [];
      var i := 0;
      while i < |rows|
        invariant 0 <= i <= |rows|
        invariant players == ParsedRows(rows[..i], version)
      {
        ParsedRowsSnoc(rows, i, version);
        var record := ExtractRow(rows[i], version);
        if record.Some? {
          players := players + [record.value];
        }
        i := i + 1;
      }
      assert rows[..|rows|] == rows;
  }

  // -------------------------------------------------------------------- crawl

  /** The response page p gives: the listing's, and past its end a page without a table. */
  function Fetch(listing: seq<Response>, page: nat): Response {
    if page < |listing| then listing[page] else Document(None)
  }

  /** Whether page p gives no records: no table, a failed request, or no row that parses. */
  predicate EmptyAt(listing: seq<Response>, version: int, page: nat) {
    match Fetch(listing, page)
    case Document(table) => table.None? || |ParsedRows(table.value, version)| == 0
    case _ => true
  }

  /** A page is empty exactly when it gives no records. */
  lemma EmptyAtNoRecords(listing: seq<Response>, version: int, page: nat)
    ensures EmptyAt(listing, version, page) <==> PageRecords(Fetch(listing, page), version) == []
  {
  }

  /** Which of pages 0..n-1 gave no records, in page order: the crawl's view of the listing. */
  function Emptiness(listing: seq<Response>, version: int, n: nat): (e: seq<bool>)
    ensures |e| == n
  {
    if n == 0 then [] else Emptiness(listing, version, n - 1) + [EmptyAt(listing, version, n - 1)]
  }

  /** Entry i of the pattern is page i's emptiness. */
  lemma {:induction false} EmptinessAt(listing: seq<Response>, version: int, n: nat, i: nat)
    requires i < n
    ensures Emptiness(listing, version, n)[i] == EmptyAt(listing, version, i)
  {
    if i < n - 1 {
      EmptinessAt(listing, version, n - 1, i);
    }
  }

  /** In a pattern e, pages m-2 and m-1 were both empty. */
  predicate TwoEmptyBefore(e: seq<bool>, m: nat) {
    2 <= m <= |e| && e[m - 2] && e[m - 1]
  }

  /** No page count below n satisfies the stop condition. */
  predicate NoStopBefore(e: seq<bool>, n: nat) {
    forall m :: 0 <= m < n ==> !TwoEmptyBefore(e, m)
  }

  /** A crawl that saw pattern e stops after its last page and no earlier. */
  predicate Stops(e: seq<bool>) {
    TwoEmptyBefore(e, |e|) && NoStopBefore(e, |e|)
  }

  /** The crawl fetches pages 0..n-1: the first n after which two pages in a row were empty. */
  predicate StopsAfter(listing: seq<Response>, version: int, n: nat) {
    Stops(Emptiness(listing, version, n))
  }

  /** The records of pages 0..n-1, concatenated. */
  function Crawled(listing: seq<Response>, version: int, n: nat): seq<Player> {
    if n == 0 then [] else Crawled(listing, version, n - 1) + PageRecords(Fetch(listing, n - 1), version)
  }

  /** The de-duplication key; the flag is not part of it. */
  function ScrapeKey(p: Player): (string, string, string) {
    (p.name, p.team, p.photoUrl)
  }

  /**
   * The inner loop of `scrape_fifa_version`: appends each new record whose
   * key has not been seen, remembering its key.
   */
  method KeepFirstOccurrences(players: seq<Player>, seen: set<(string, string, string)>,
                              ghost before: seq<Player>, newPlayers: seq<Player>)
    returns (players': seq<Player>, seen': set<(string, string, string)>)
    requires players == Dedup.FirstByKey(before, ScrapeKey, {})
    requires seen == Dedup.KeysOf(players, ScrapeKey)
    ensures players' == Dedup.FirstByKey(before + newPlayers, ScrapeKey, {})
    ensures seen' == Dedup.KeysOf(players', ScrapeKey)
  {
    players', seen' := players, seen;
    var j := 0;
    assert before + newPlayers[..0] == before;
    while j < |newPlayers|
      invariant 0 <= j <= |newPlayers|
      invariant players' == Dedup.FirstByKey(before + newPlayers[..j], ScrapeKey, {})
      invariant seen' == Dedup.KeysOf(players', ScrapeKey)
    {
      var record := newPlayers[j];
      ghost var prefix := before + newPlayers[..j];
      assert before + newPlayers[..j + 1] == prefix + [record];
      KeepStep(players', seen', prefix, record);
      if ScrapeKey(record) !in seen' {
        seen' := seen' + {ScrapeKey(record)};
        players' := players' + [record];
      }
      j := j + 1;
    }
    assert newPlayers[..|newPlayers|] == newPlayers;
  }

  /** One record through the inner loop: kept, with its key remembered, iff its key is new. */
  lemma KeepStep(players: seq<Player>, seen: set<(string, string, string)>, prefix: seq<Player>, record: Player)
    requires players == Dedup.FirstByKey(prefix, ScrapeKey, {})
    requires seen == Dedup.KeysOf(players, ScrapeKey)
    ensures ScrapeKey(record) in seen ==> Dedup.FirstByKey(prefix + [record], ScrapeKey, {}) == players
    ensures ScrapeKey(record) !in seen ==>
      && Dedup.FirstByKey(prefix + [record], ScrapeKey, {}) == players + [record]
      && Dedup.KeysOf(players + [record], ScrapeKey) == seen + {ScrapeKey(record)}
  {
    Dedup.FirstByKeyExtend(prefix, record, ScrapeKey, {});
    assert {} + seen == seen;
  }

  /**
   * `scrape_fifa_version` without the file write: requests pages 0, 1, 2, ...
   * until two consecutive pages were empty, and keeps the first record
   * for each (name, team, photo_url) of everything the pages gave.
   */
  method ScrapeFifaVersion(listing: seq<Response>, version: int) returns (players: seq<Player>, requested: seq<nat>)
    ensures StopsAfter(listing, version, |requested|)
    ensures forall i :: 0 <= i < |requested| ==> requested[i] == i
    ensures players == Dedup.FirstByKey(Crawled(listing, version, |requested|), ScrapeKey, {})
  {
    players := [];
    var seen: set<(string, string, string)> := {};
    var page: nat := 0;
    var empties: nat := 0;
    requested := [];
    while empties < EmptyPageLimit
      invariant Streak(Emptiness(listing, version, page), empties)
      invariant empties == 2 ==> Stops(Emptiness(listing, version, page))
      invariant |requested| == page && forall i :: 0 <= i < page ==> requested[i] == i
      invariant page <= |listing| + 2
      invariant page > |listing| ==> empties >= page - |listing|
      invariant NoStopBefore(Emptiness(listing, version, page), page)
      invariant players == Dedup.FirstByKey(Crawled(listing, version, page), ScrapeKey, {})
      invariant seen == Dedup.KeysOf(players, ScrapeKey)
      decreases |listing| + 2 - page
    {
      var newPlayers := ScrapePlayers(Fetch(listing, page), version);
      requested := requested + [page];
      ghost var before := Crawled(listing, version, page);
      assert Crawled(listing, version, page + 1) == before + newPlayers;
      CrawlStep(listing, version, page, empties, newPlayers);
      if newPlayers == [] {
        empties := empties + 1;
        assert before + newPlayers == before;
      } else {
        empties := 0;
        players, seen := KeepFirstOccurrences(players, seen, before, newPlayers);
      }
      page := page + 1;
    }
  }

  /**
   * The loop's `empty_pages` counter: the number of empty pages at the end
   * of the pattern, counted up to two.
   */
  predicate Streak(e: seq<bool>, empties: nat) {
    && empties <= 2 && empties <= |e|
    && (empties >= 1 ==> e[|e| - 1])
    && (empties >= 2 ==> e[|e| - 2])
    && (empties == 0 && |e| > 0 ==> !e[|e| - 1])
    && (empties == 1 && |e| > 1 ==> !e[|e| - 2])
  }

  /** Fetching one more page updates the counter as the loop does. */
  lemma StreakStep(e: seq<bool>, empty: bool, empties: nat)
    requires Streak(e, empties) && empties < 2
    requires NoStopBefore(e, |e|)
    ensures NoStopBefore(e + [empty], |e| + 1)
    ensures Streak(e + [empty], if empty then empties + 1 else 0)
    ensures Streak(e + [empty], 2) ==> Stops(e + [empty])
  {
    var e' := e + [empty];
    forall m | 0 <= m < |e| + 1 ensures !TwoEmptyBefore(e', m) {
      if m < |e| {
        assert !TwoEmptyBefore(e, m);
      }
    }
  }

  /** One iteration of the crawl loop, on the listing's pattern. */
  lemma CrawlStep(listing: seq<Response>, version: int, page: nat, empties: nat, newPlayers: seq<Player>)
    requires Streak(Emptiness(listing, version, page), empties) && empties < 2
    requires NoStopBefore(Emptiness(listing, version, page), page)
    requires newPlayers == PageRecords(Fetch(listing, page), version)
    ensures NoStopBefore(Emptiness(listing, version, page + 1), page + 1)
    ensures Streak(Emptiness(listing, version, page + 1), if newPlayers == [] then empties + 1 else 0)
    ensures newPlayers == [] && empties == 1 ==> Stops(Emptiness(listing, version, page + 1))
  {
    EmptyAtNoRecords(listing, version, page);
    StreakStep(Emptiness(listing, version, page), newPlayers == [], empties);
  }

  /** At most one page count satisfies the stop rule. */
  lemma StopsAfterUnique(listing: seq<Response>, version: int, n1: nat, n2: nat)
    requires StopsAfter(listing, version, n1) && StopsAfter(listing, version, n2)
    ensures n1 == n2
  {
    if n1 < n2 {
      PrefixStopsEarly(listing, version, n1, n2);
    } else if n2 < n1 {
      PrefixStopsEarly(listing, version, n2, n1);
    }
  }

  lemma PrefixStopsEarly(listing: seq<Response>, version: int, n1: nat, n2: nat)
    requires n1 < n2 && StopsAfter(listing, version, n1)
    ensures !StopsAfter(listing, version, n2)
  {
    assert TwoEmptyBefore(Emptiness(listing, version, n1), n1);
    EmptinessAt(listing, version, n1, n1 - 2);
    EmptinessAt(listing, version, n1, n1 - 1);
    EmptinessAt(listing, version, n2, n1 - 2);
    EmptinessAt(listing, version, n2, n1 - 1);
    assert TwoEmptyBefore(Emptiness(listing, version, n2), n1);
  }

  /** The crawl always ends: at the latest two pages past the listing. */
  lemma StopsWithinListing(listing: seq<Response>, version: int, n: nat)
    requires StopsAfter(listing, version, n)
    ensures 2 <= n <= |listing| + 2
  {
    if n > |listing| + 2 {
      EmptinessAt(listing, version, n, |listing|);
      EmptinessAt(listing, version, n, |listing| + 1);
      assert TwoEmptyBefore(Emptiness(listing, version, n), |listing| + 2);
    }
  }

  /** When pages 0 and 1 are empty, exactly two pages are fetched. */
  lemma EmptyStartFetchesTwo(listing: seq<Response>, version: int)
    requires EmptyAt(listing, version, 0) && EmptyAt(listing, version, 1)
    ensures StopsAfter(listing, version, 2)
  {
    var e := Emptiness(listing, version, 2);
    EmptinessAt(listing, version, 2, 0);
    EmptinessAt(listing, version, 2, 1);
    assert !TwoEmptyBefore(e, 0) && !TwoEmptyBefore(e, 1);
  }

  /**
   * A single empty page q between two non-empty ones does not stop the
   * crawl: a crawl that went past page q fetches at least two more.
   */
  lemma SingleEmptyPageResets(e: seq<bool>, q: nat)
    requires Stops(e) && 1 <= q < |e|
    requires !e[q - 1] && e[q] && (q + 1 < |e| ==> !e[q + 1])
    ensures |e| >= q + 3
  {
    assert !TwoEmptyBefore(e, q + 1);
    if |e| > q + 1 {
      assert !TwoEmptyBefore(e, q + 2);
    }
  }

  /**
   * When p is non-empty, pages p+1 and p+2 are empty, and no two
   * consecutive pages up to p were empty, exactly p+3 pages are fetched.
   */
  lemma StopsAfterLastNonEmpty(e: seq<bool>, p: nat)
    requires |e| == p + 3 && !e[p] && e[p + 1] && e[p + 2]
    requires NoStopBefore(e, p + 1)
    ensures Stops(e)
  {
    forall m | 0 <= m < p + 3 ensures !TwoEmptyBefore(e, m) {
      if m > p {
        assert m - 2 == p || m - 1 == p;
      }
    }
  }

  /**
   * What a version's output is: records that are all valid, whose keys are
   * pairwise distinct (records differing only in their flag collapse), that
   * cover every key the pages gave, and that are the first occurrences of
   * their keys in page order.
   */
  lemma VersionOutputProperties(listing: seq<Response>, version: int, n: nat, players: seq<Player>)
    requires players == Dedup.FirstByKey(Crawled(listing, version, n), ScrapeKey, {})
    ensures forall i :: 0 <= i < |players| ==> ValidRecord(players[i], version)
    ensures forall i, j :: 0 <= i < j < |players| ==>
      (players[i].name, players[i].team, players[i].photoUrl) != (players[j].name, players[j].team, players[j].photoUrl)
    ensures Dedup.KeysOf(players, ScrapeKey) == Dedup.KeysOf(Crawled(listing, version, n), ScrapeKey)
    ensures players == Dedup.FirstPositions(Crawled(listing, version, n), ScrapeKey, {})
  {
    var all := Crawled(listing, version, n);
    CrawledValid(listing, version, n);
    Dedup.FirstByKeySubset(all, ScrapeKey, {});
    forall i | 0 <= i < |players| ensures ValidRecord(players[i], version) {
      assert players[i] in all;
    }
    Dedup.FirstByKeyUnique(all, ScrapeKey, {});
    assert forall i, j :: 0 <= i < j < |players| ==> ScrapeKey(players[i]) != ScrapeKey(players[j]);
    Dedup.FirstByKeyKeys(all, ScrapeKey, {});
    Dedup.FirstByKeyIsFirstPositions(all, ScrapeKey, {});
  }

  lemma {:induction false} CrawledValid(listing: seq<Response>, version: int, n: nat)
    ensures forall p :: p in Crawled(listing, version, n) ==> ValidRecord(p, version)
  {
    if n > 0 {
      CrawledValid(listing, version, n - 1);
    }
  }
}
