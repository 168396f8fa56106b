/**
 * The pure helpers of the Flask game in `app.py`: league folders, team
 * variations, last names, the player-to-teams map, the image-path rewrite
 * of `load_fifa_data`, the flag-id nationalities, the answer check and the
 * sorted lists served to the client.
 */
module Serving {
  import opened Wrappers
  import opened Text
  import opened Records
  import opened Ordering
  import TeamFix
  import Flags

  // ---------------------------------------------------------------------
  // Leagues, teams and names
  // ---------------------------------------------------------------------

  const LeagueFolders: map<string, string> := map[
    "eng1" := "premier_league", "eng2" := "championship",
    "ger1" := "bundesliga", "ger2" := "bundesliga2",
    "esp1" := "laliga", "esp2" := "laliga2",
    "fra1" := "ligue1", "fra2" := "ligue2"]

  /** `LEAGUE_FOLDERS.get(league, 'premier_league')`. */
  function LeagueFolder(league: string): (r: string)
    ensures r in LeagueFolders.Values
    ensures league in LeagueFolders ==> r == LeagueFolders[league]
    ensures league !in LeagueFolders ==> r == LeagueFolders["eng1"]
  {
    assert LeagueFolders["eng1"] == "premier_league";
    if league in LeagueFolders then LeagueFolders[league] else "premier_league"
  }

  /**
   * Each known league reads its own data folder: two different league
   * codes never share one, so a league's players are never served under
   * another league.
   */
  lemma LeagueFoldersDistinct(a: string, b: string)
    requires a in LeagueFolders && b in LeagueFolders && a != b
    ensures LeagueFolder(a) != LeagueFolder(b)
  {
  }

  /** Standard name, synonyms and abbreviation of one team, in that order. */
  function Variations(t: TeamData): seq<string> {
    [t.standardName] + t.synonyms + [t.abbreviation]
  }

  /**
   * `get_team_variations`: the variations of the first team (in config
   * order) that has the name as its standard name or a synonym, up to case;
   * the name alone when there is none.
   */
  function TeamVariations(teamName: string, teams: seq<TeamData>): seq<string> {
    if teams == [] then [teamName]
    else if TeamFix.LowerNameOf(teams[0], Lower(teamName)) then Variations(teams[0])
    else TeamVariations(teamName, teams[1..])
  }

  /**
   * The first matching team wins; without a match (an abbreviation alone
   * is not one) the result is the name itself.
   */
  lemma {:induction false} TeamVariationsFirstMatch(teamName: string, teams: seq<TeamData>)
    ensures var r := TeamVariations(teamName, teams);
      && ((forall i :: 0 <= i < |teams| ==> !TeamFix.LowerNameOf(teams[i], Lower(teamName))) ==> r == [teamName])
      && (forall i ::
            (0 <= i < |teams| && TeamFix.LowerNameOf(teams[i], Lower(teamName)) &&
             (forall j :: 0 <= j < i ==> !TeamFix.LowerNameOf(teams[j], Lower(teamName))))
            ==> r == Variations(teams[i]))
  {
    if teams != [] {
      TeamVariationsFirstMatch(teamName, teams[1..]);
      var k := Lower(teamName);
      if !TeamFix.LowerNameOf(teams[0], k) {
        forall i | 0 <= i < |teams| && TeamFix.LowerNameOf(teams[i], k) &&
                   (forall j :: 0 <= j < i ==> !TeamFix.LowerNameOf(teams[j], k))
          ensures TeamVariations(teamName, teams) == Variations(teams[i])
        {
          assert teams[1..][i - 1] == teams[i];
          forall j | 0 <= j < i - 1 ensures !TeamFix.LowerNameOf(teams[1..][j], k) {
            assert teams[1..][j] == teams[j + 1];
          }
        }
        if forall i :: 0 <= i < |teams| ==> !TeamFix.LowerNameOf(teams[i], k) {
          forall i | 0 <= i < |teams[1..]| ensures !TeamFix.LowerNameOf(teams[1..][i], k) {
            assert teams[1..][i] == teams[i + 1];
          }
        }
      }
    }
  }

  /** `get_last_name`: the last whitespace-separated word, or the name itself when it has none. */
  function LastName(fullName: string): string {
    var parts := Split(fullName);
    if parts == [] then fullName else parts[|parts| - 1]
  }

  /** The last word of a name: the trailing run of non-space characters once trailing spaces are stripped. */
  function LastWord(fullName: string): (r: string)
    ensures NoSpace(r)
    ensures var t := TrimRight(fullName);
      |r| <= |t| && r == t[|t| - |r|..] && (|r| == |t| || IsSpace(t[|t| - |r| - 1]))
  {
    var t := TrimRight(fullName);
    t[|t| - TrailingWordLen(t)..]
  }

  /**
   * A name with a word yields its last word, which is not empty; a name of
   * spaces only is returned unchanged.
   */
  lemma {:induction false} LastNameIsLastWord(fullName: string)
    ensures AllSpace(fullName) ==> LastName(fullName) == fullName
    ensures !AllSpace(fullName) ==> LastName(fullName) == LastWord(fullName) != []
  {
    var s := fullName;
    if s != [] && !AllSpace(s) {
      if IsSpace(s[|s| - 1]) {
        var init := s[..|s| - 1];
        assert !AllSpace(init) by {
          var k :| 0 <= k < |s| && !IsSpace(s[k]);
          assert init[k] == s[k];
        }
        LastNameIsLastWord(init);
        assert Split(s) == Split(init);
        assert TrimRight(s) == TrimRight(init);
      } else {
        LastNameOfWordEnd(s);
      }
    }
  }

  /** A name that does not end in a space: its last name is its trailing word. */
  lemma LastNameOfWordEnd(s: string)
    requires s != [] && !IsSpace(s[|s| - 1])
    ensures LastName(s) == LastWord(s) != []
  {
    var n := TrailingWordLen(s);
    assert n >= 1;
    assert Split(s) == Split(s[..|s| - n]) + [s[|s| - n..]];
    assert TrimRight(s) == s;
  }

  /** `get_player_teams`: each name with the set of teams it was seen with. */
  method PlayerTeams(allPlayers: seq<Player>) returns (playerTeams: map<string, set<string>>)
    ensures forall n :: n in playerTeams <==> exists i :: 0 <= i < |allPlayers| && allPlayers[i].name == n
    ensures forall n, t :: n in playerTeams ==>
      (t in playerTeams[n] <==> exists i :: 0 <= i < |allPlayers| && allPlayers[i].name == n && allPlayers[i].team == t)
  {
    playerTeams := map[];
    var k := 0;
    while k < |allPlayers|
      invariant 0 <= k <= |allPlayers|
      invariant forall n :: n in playerTeams <==> exists i :: 0 <= i < k && allPlayers[i].name == n
      invariant forall n, t :: n in playerTeams ==>
        (t in playerTeams[n] <==> exists i :: 0 <= i < k && allPlayers[i].name == n && allPlayers[i].team == t)
    {
      var player := allPlayers[k];
      var teams := if player.name in playerTeams then playerTeams[player.name] else {};
      playerTeams := playerTeams[player.name := teams + {player.team}];
      k := k + 1;
    }
  }

  // ---------------------------------------------------------------------
  // load_fifa_data
  // ---------------------------------------------------------------------

  const PlayerImages: string := "/static/images/players"
  const FlagImages: string := "/static/images/flags"

  /** "<dir>/<id>.png" with id the basename of path without its extension. */
  function LocalImage(dir: string, path: string): string {
    dir + "/" + FileId(path) + ".png"
  }

  /** The flag rewrite is the local path `download_flags.py` writes for the same id. */
  lemma FlagRewriteIsLocalFlag(flag: string)
    ensures LocalImage(FlagImages, flag) == Flags.LocalFlag(FileId(flag))
  {
    assert Flags.LocalFlagPrefix == FlagImages + "/";
  }

  /**
   * Rewriting a rewritten path changes nothing exactly when the id of the
   * original path has a character other than '.'.
   */
  lemma LocalImageIdempotent(dir: string, path: string)
    ensures LocalImage(dir, LocalImage(dir, path)) == LocalImage(dir, path) <==> !AllDots(FileId(path))
  {
    var id := FileId(path);
    assert LocalImage(dir, path) == dir + "/" + id + ".png";
    FileIdOfPngPath(dir, id);
    if AllDots(id) {
      assert |LocalImage(dir, LocalImage(dir, path))| == |LocalImage(dir, path)| + 4;
    }
  }

  /** A URL ending in '/' has the empty id, so its rewrite does not survive a second load. */
  lemma DirectoryUrlRewriteNotIdempotent()
    ensures LocalImage(PlayerImages, LocalImage(PlayerImages, "https://cdn.futwiz.com/")) !=
            LocalImage(PlayerImages, "https://cdn.futwiz.com/")
  {
    var url := "https://cdn.futwiz.com/";
    assert url[|url| - 1] == '/';
    RFindAfterLast(url, '/', |url| - 1);
    assert Basename(url) == "";
    LocalImageIdempotent(PlayerImages, url);
  }

  const Nationalities: map<string, string> := map[
    "14" := "England", "18" := "France", "45" := "Spain", "54" := "Brazil",
    "21" := "Germany", "27" := "Italy", "52" := "Argentina", "34" := "Netherlands",
    "95" := "United States", "108" := "Ivory Coast", "117" := "Ghana", "51" := "Serbia",
    "40" := "Russia", "38" := "Portugal", "7" := "Belgium", "12" := "Czech Republic",
    "50" := "Wales", "13" := "Denmark", "36" := "Norway", "43" := "Slovakia"]

  /** `get_nationality_from_flag_id`: the mapped country, or "Unknown". */
  function NationalityOf(flagId: string): string {
    if flagId in Nationalities then Nationalities[flagId] else "Unknown"
  }

  /**
   * "Unknown" exactly for the ids outside the table, and the ids with a
   * country name are exactly the ids `download_flags.py` has a flag for.
   */
  lemma NationalityKnown(flagId: string)
    ensures NationalityOf(flagId) == "Unknown" <==> flagId !in Nationalities
    ensures NationalityOf(flagId) != "Unknown" <==> Flags.FlagUrl(flagId).Some?
  {
  }

  /** A player as the game serves it: local image paths, a nationality and a last name. */
  datatype Served = Served(player: Player, nationality: string, lastName: string)

  /** The loop body of `load_fifa_data` for one player. */
  function ServePlayer(p: Player): Served {
    var flagId := FileId(p.nationalityFlag);
    Served(p.(photoUrl := LocalImage(PlayerImages, p.photoUrl),
              nationalityFlag := LocalImage(FlagImages, p.nationalityFlag)),
           NationalityOf(flagId),
           LastName(p.name))
  }

  /**
   * Every player served, in order. `serve` is the per-player step; the
   * game uses `ServePlayer`. Keeping it a parameter keeps the string
   * reasoning inside `ServePlayer` out of the proofs about the order.
   */
  function ServeAll(players: seq<Player>, serve: Player -> Served): (r: seq<Served>)
    ensures |r| == |players|
  {
    if players == [] then [] else ServeAll(players[..|players| - 1], serve) + [serve(players[|players| - 1])]
  }

  lemma {:induction false} ServeAllAppend(a: seq<Player>, b: seq<Player>, serve: Player -> Served)
    ensures ServeAll(a + b, serve) == ServeAll(a, serve) + ServeAll(b, serve)
  {
    if b == [] {
      assert a + b == a;
    } else {
      ServeAllAppend(a, b[..|b| - 1], serve);
      assert (a + b)[..|a + b| - 1] == a + b[..|b| - 1];
      assert (a + b)[|a + b| - 1] == b[|b| - 1];
    }
  }

  /** The i-th served player is the i-th player, served. */
  lemma {:induction false} ServeAllAt(players: seq<Player>, i: nat, serve: Player -> Served)
    requires i < |players|
    ensures ServeAll(players, serve)[i] == serve(players[i])
  {
    if i < |players| - 1 {
      ServeAllAt(players[..|players| - 1], i, serve);
    }
  }

  /**
   * Serving a served player's record again (as when the rewritten files
   * are read back) gives the same paths, nationality and last name, as
   * long as both ids have a character other than '.'.
   */
  lemma ServePlayerStable(p: Player)
    requires !AllDots(FileId(p.photoUrl)) && !AllDots(FileId(p.nationalityFlag))
    ensures ServePlayer(ServePlayer(p).player) == ServePlayer(p)
  {
    LocalImageIdempotent(PlayerImages, p.photoUrl);
    LocalImageIdempotent(FlagImages, p.nationalityFlag);
    FileIdOfPngPath(FlagImages, FileId(p.nationalityFlag));
    assert LocalImage(FlagImages, p.nationalityFlag) == FlagImages + "/" + FileId(p.nationalityFlag) + ".png";
  }

  /** The inner loop of `load_fifa_data`: every player of one version file, served in order. */
  method ServeFile(players: seq<Player>, serve: Player -> Served) returns (served: seq<Served>)
    ensures served == ServeAll(players, serve)
  {
    served := [];
    var j := 0;
    while j < |players|
      invariant 0 <= j <= |players|
      invariant served == ServeAll(players[..j], serve)
    {
      assert players[..j + 1][..j] == players[..j];
      served := served + [serve(players[j])];
      j := j + 1;
    }
    assert players[..j] == players;
  }

  /** Loading one more version serves its file after the earlier ones; a missing file adds nothing. */
  lemma ServeBelowStep(files: map<int, seq<Player>>, v: int, serve: Player -> Served)
    requires FirstVersion <= v <= LastVersion
    ensures v in files ==> ServeAll(LoadBelow(files, v + 1), serve) == ServeAll(LoadBelow(files, v), serve) + ServeAll(files[v], serve)
    ensures v !in files ==> ServeAll(LoadBelow(files, v + 1), serve) == ServeAll(LoadBelow(files, v), serve)
  {
    ServeAllAppend(LoadBelow(files, v), VersionFile(files, v), serve);
    if v !in files {
      assert LoadBelow(files, v + 1) == LoadBelow(files, v) + [];
    }
  }

  /**
   * The two loops of `load_fifa_data` over one folder: versions 10..23 in
   * ascending order, a missing version file skipped, every player served.
   */
  method ServeVersions(files: map<int, seq<Player>>, serve: Player -> Served) returns (allPlayers: seq<Served>)
    ensures allPlayers == ServeAll(LoadAll(files), serve)
  {
    allPlayers := [];
    ghost var loaded: seq<Player> := [];
    var fifaVersion := FirstVersion;
    while fifaVersion <= LastVersion
      invariant FirstVersion <= fifaVersion <= LastVersion + 1
      invariant loaded == LoadBelow(files, fifaVersion)
      invariant allPlayers == ServeAll(loaded, serve)
    {
      if fifaVersion in files {
        var served := ServeFile(files[fifaVersion], serve);
        ServeAllAppend(loaded, files[fifaVersion], serve);
        allPlayers := allPlayers + served;
        loaded := loaded + files[fifaVersion];
      }
      fifaVersion := fifaVersion + 1;
    }
  }

  /**
   * `load_fifa_data` without the files: `folders` maps each data folder
   * that exists to its version files. An unknown league reads the Premier
   * League folder; a missing folder gives no players; otherwise every
   * version file is read and every player served.
   */
  method LoadFifaData(league: string, folders: map<string, map<int, seq<Player>>>) returns (allPlayers: seq<Served>)
    ensures var folder := LeagueFolder(league);
      allPlayers == if folder in folders then ServeAll(LoadAll(folders[folder]), ServePlayer) else []
  {
    var leagueFolder := if league in LeagueFolders then LeagueFolders[league] else "premier_league";
    if leagueFolder !in folders {
      return [];
    }
    allPlayers := ServeVersions(folders[leagueFolder], ServePlayer);
  }

  // ---------------------------------------------------------------------
  // check_answer
  // ---------------------------------------------------------------------

  /** The request body; a missing field is "". */
  datatype Guess = Guess(name: string, team: string, nationality: string)

  /** `session['current_player']` as `get_player` stores it. */
  datatype CurrentPlayer = CurrentPlayer(name: string, lastName: string, teams: seq<string>, nationality: string)

  datatype Verdict = Verdict(
    nameCorrect: bool, teamCorrect: bool, nationalityCorrect: bool,
    correctName: Option<string>, correctTeam: string, correctNationality: Option<string>)

  /** The lowercase forms of a list of names. */
  function LowerSet(names: seq<string>): set<string> {
    set j | 0 <= j < |names| :: Lower(names[j])
  }

  /** `all_valid_teams` after the loop over the lowercased teams. */
  function ValidTeams(correctTeams: seq<string>, teams: seq<TeamData>): set<string> {
    if correctTeams == [] then {}
    else ValidTeams(correctTeams[..|correctTeams| - 1], teams) +
         LowerSet(TeamVariations(correctTeams[|correctTeams| - 1], teams))
  }

  /** `' / '.join(names)`. */
  function JoinSlash(names: seq<string>): string {
    if names == [] then ""
    else if |names| == 1 then names[0]
    else JoinSlash(names[..|names| - 1]) + " / " + names[|names| - 1]
  }

  /**
   * `check_answer`, with the session's player passed in (None when the
   * session has none, which reads as empty strings and no teams).
   */
  method CheckAnswer(guess: Guess, current: Option<CurrentPlayer>, teams: seq<TeamData>) returns (v: Verdict)
    ensures var c := current.GetOr(CurrentPlayer("", "", [], ""));
      && (v.nameCorrect <==> Lower(guess.name) == Lower(c.name) || Lower(guess.name) == Lower(c.lastName))
      && (v.teamCorrect <==> Lower(guess.team) in ValidTeams(seq(|c.teams|, i requires 0 <= i < |c.teams| => Lower(c.teams[i])), teams))
      && (v.nationalityCorrect <==> Lower(guess.nationality) == Lower(c.nationality))
      && v.correctTeam == JoinSlash(c.teams)
      && v.correctName == (if current.Some? then Some(c.name) else None)
      && v.correctNationality == (if current.Some? then Some(c.nationality) else None)
  {
    var guessName, guessTeam, guessNationality := Lower(guess.name), Lower(guess.team), Lower(guess.nationality);
    var c := current.GetOr(CurrentPlayer("", "", [], ""));
    var correctName, correctLastName := Lower(c.name), Lower(c.lastName);
    var correctTeams := seq(|c.teams|, i requires 0 <= i < |c.teams| => Lower(c.teams[i]));
    var correctNationality := Lower(c.nationality);
    var allValidTeams: set<string> := {};
    var k := 0;
    while k < |correctTeams|
      invariant 0 <= k <= |correctTeams|
      invariant allValidTeams == ValidTeams(correctTeams[..k], teams)
    {
      assert correctTeams[..k + 1][..k] == correctTeams[..k];
      var variations := TeamVariations(correctTeams[k], teams);
      allValidTeams := allValidTeams + LowerSet(variations);
      k := k + 1;
    }
    assert correctTeams[..k] == correctTeams;
    v := Verdict(
      guessName == correctName || guessName == correctLastName,
      guessTeam in allValidTeams,
      guessNationality == correctNationality,
      if current.Some? then Some(c.name) else None,
      JoinSlash(c.teams),
      if current.Some? then Some(c.nationality) else None);
  }

  lemma {:induction false} ValidTeamsMembers(correctTeams: seq<string>, teams: seq<TeamData>, g: string)
    ensures g in ValidTeams(correctTeams, teams) <==>
      exists k :: 0 <= k < |correctTeams| && g in LowerSet(TeamVariations(correctTeams[k], teams))
  {
    if correctTeams != [] {
      var init := correctTeams[..|correctTeams| - 1];
      ValidTeamsMembers(init, teams, g);
      if exists k :: 0 <= k < |init| && g in LowerSet(TeamVariations(init[k], teams)) {
        var k :| 0 <= k < |init| && g in LowerSet(TeamVariations(init[k], teams));
        assert correctTeams[k] == init[k];
      }
      if exists k :: 0 <= k < |correctTeams| && g in LowerSet(TeamVariations(correctTeams[k], teams)) {
        var k :| 0 <= k < |correctTeams| && g in LowerSet(TeamVariations(correctTeams[k], teams));
        if k < |init| { assert init[k] == correctTeams[k]; }
      }
    }
  }

  /**
   * A stored team is accepted in any case, and when it names a team of the
   * config, so is every variation of the first such team: its standard
   * name, each synonym and its abbreviation.
   */
  lemma StoredTeamAccepted(correctTeams: seq<string>, teams: seq<TeamData>, k: nat, i: nat, guessTeam: string)
    requires k < |correctTeams| && i < |teams|
    requires TeamFix.LowerNameOf(teams[i], Lower(correctTeams[k]))
    requires forall j :: 0 <= j < i ==> !TeamFix.LowerNameOf(teams[j], Lower(correctTeams[k]))
    requires guessTeam in Variations(teams[i]) || Lower(guessTeam) == Lower(correctTeams[k])
    ensures Lower(guessTeam) in ValidTeams(correctTeams, teams)
  {
    var t := correctTeams[k];
    TeamVariationsFirstMatch(t, teams);
    AcceptedVariation(teams[i], t, guessTeam);
    assert Lower(guessTeam) in LowerSet(TeamVariations(t, teams));
    ValidTeamsMembers(correctTeams, teams, Lower(guessTeam));
  }

  /** For a team that t names, each variation and t itself are among its lowercased variations. */
  lemma AcceptedVariation(team: TeamData, t: string, guessTeam: string)
    requires TeamFix.LowerNameOf(team, Lower(t))
    requires guessTeam in Variations(team) || Lower(guessTeam) == Lower(t)
    ensures Lower(guessTeam) in LowerSet(Variations(team))
  {
    var vs := Variations(team);
    if guessTeam in vs {
      var j :| 0 <= j < |vs| && vs[j] == guessTeam;
    } else if Lower(team.standardName) == Lower(t) {
      assert vs[0] == team.standardName;
    } else {
      var j :| 0 <= j < |team.synonyms| && Lower(team.synonyms[j]) == Lower(t);
      assert vs[1 + j] == team.synonyms[j];
    }
  }

  /** A stored team that no config team names accepts only itself, up to case. */
  lemma UnknownTeamAcceptsOnlyItself(t: string, teams: seq<TeamData>, guessTeam: string)
    requires forall i :: 0 <= i < |teams| ==> !TeamFix.LowerNameOf(teams[i], Lower(Lower(t)))
    ensures Lower(guessTeam) in ValidTeams([Lower(t)], teams) <==> Lower(guessTeam) == Lower(t)
  {
    TeamVariationsFirstMatch(Lower(t), teams);
    LowerIdempotent(t);
    assert [Lower(t)][..0] == [];
    assert LowerSet([Lower(t)]) == {Lower(t)} by {
      assert Lower([Lower(t)][0]) == Lower(t);
    }
  }

  // ---------------------------------------------------------------------
  // get_nationalities, get_player_names, get_teams
  // ---------------------------------------------------------------------

  /** `get_nationalities`: the known nationalities, sorted and without repeats. */
  method GetNationalities(players: seq<Served>) returns (nationalities: seq<string>)
    ensures StrictlySorted(nationalities)
    ensures forall y :: y in nationalities <==>
      y != "Unknown" && exists i :: 0 <= i < |players| && players[i].nationality == y
  {
    var known := set i | 0 <= i < |players| && players[i].nationality != "Unknown" :: players[i].nationality;
    nationalities := SortedList(known);
  }

  /** `get_player_names`: every name and last name, sorted and without repeats. */
  method GetPlayerNames(players: seq<Served>) returns (names: seq<string>)
    ensures StrictlySorted(names)
    ensures forall y :: y in names <==>
      exists i :: 0 <= i < |players| && (players[i].player.name == y || players[i].lastName == y)
  {
    var all: set<string> := {};
    var k := 0;
    while k < |players|
      invariant 0 <= k <= |players|
      invariant forall y :: y in all <==> exists i :: 0 <= i < k && (players[i].player.name == y || players[i].lastName == y)
    {
      all := all + {players[k].player.name, players[k].lastName};
      k := k + 1;
    }
    names := SortedList(all);
  }

  /** `get_teams`: every standard name, synonym and abbreviation, sorted and without repeats. */
  method GetTeams(teams: seq<TeamData>) returns (names: seq<string>)
    ensures StrictlySorted(names)
    ensures forall y :: y in names <==> exists i :: 0 <= i < |teams| && y in Variations(teams[i])
  {
    var all: set<string> := {};
    var k := 0;
    while k < |teams|
      invariant 0 <= k <= |teams|
      invariant forall y :: y in all <==> exists i :: 0 <= i < k && y in Variations(teams[i])
    {
      var teamData := teams[k];
      all := all + {teamData.standardName} + (set s | s in teamData.synonyms) + {teamData.abbreviation};
      k := k + 1;
    }
    names := SortedList(all);
  }
}
