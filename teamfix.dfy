/**
 * `fix_team_names.py`: maps every team spelling of `team_config.json` to
 * its standard name, then rewrites each Premier League version file so that
 * every kept player carries a standard team name, keeping "ENG 1" players
 * flagged for a later look-up and dropping the rest.
 */
module TeamFix {
  import opened Wrappers
  import opened Text
  import opened Records

  /** The placeholder team the scraper sometimes reads instead of a club. */
  const Eng1: string := "ENG 1"

  // ---------------------------------------------------------------------
  // create_team_mapping
  // ---------------------------------------------------------------------

  /** k is the lowercase form of one of `names`. */
  predicate LowerOfSome(names: seq<string>, k: string) {
    exists j :: 0 <= j < |names| && Lower(names[j]) == k
  }

  /** k is the lowercase form of t's standard name or of one of its synonyms. */
  predicate LowerNameOf(t: TeamData, k: string) {
    Lower(t.standardName) == k || LowerOfSome(t.synonyms, k)
  }

  /** The synonym loop: each synonym, lowercased, now maps to `std`. */
  function AddSynonyms(m: map<string, string>, synonyms: seq<string>, std: string): map<string, string> {
    if synonyms == [] then m
    else AddSynonyms(m, synonyms[..|synonyms| - 1], std)[Lower(synonyms[|synonyms| - 1]) := std]
  }

  /** One team of the outer loop: its standard name, then its synonyms. */
  function AddTeam(m: map<string, string>, t: TeamData): map<string, string> {
    AddSynonyms(m[Lower(t.standardName) := t.standardName], t.synonyms, t.standardName)
  }

  /** The mapping after the teams, in config order; a later team overwrites an earlier one. */
  function TeamMapping(teams: seq<TeamData>): map<string, string> {
    if teams == [] then map[]
    else AddTeam(TeamMapping(teams[..|teams| - 1]), teams[|teams| - 1])
  }

  /** `create_team_mapping`. */
  method CreateTeamMapping(teams: seq<TeamData>) returns (mapping: map<string, string>)
    ensures mapping == TeamMapping(teams)
  {
    mapping := map[];
    var i := 0;
    while i < |teams|
      invariant 0 <= i <= |teams|
      invariant mapping == TeamMapping(teams[..i])
    {
      assert teams[..i + 1][..i] == teams[..i];
      var teamData := teams[i];
      var standardName := teamData.standardName;
      mapping := mapping[Lower(standardName) := standardName];
      ghost var base := mapping;
      var j := 0;
      while j < |teamData.synonyms|
        invariant 0 <= j <= |teamData.synonyms|
        invariant mapping == AddSynonyms(base, teamData.synonyms[..j], standardName)
      {
        assert teamData.synonyms[..j + 1][..j] == teamData.synonyms[..j];
        mapping := mapping[Lower(teamData.synonyms[j]) := standardName];
        j := j + 1;
      }
      assert teamData.synonyms[..j] == teamData.synonyms;
      i := i + 1;
    }
    assert teams[..i] == teams;
  }

  lemma {:induction false} AddSynonymsEntries(m: map<string, string>, synonyms: seq<string>, std: string)
    ensures var r := AddSynonyms(m, synonyms, std);
      forall k :: (k in r <==> k in m || LowerOfSome(synonyms, k)) &&
                  (k in r ==> r[k] == if LowerOfSome(synonyms, k) then std else m[k])
  {
    if synonyms != [] {
      var init := synonyms[..|synonyms| - 1];
      AddSynonymsEntries(m, init, std);
      forall k ensures LowerOfSome(synonyms, k) <==> LowerOfSome(init, k) || Lower(synonyms[|synonyms| - 1]) == k {
        if LowerOfSome(synonyms, k) && Lower(synonyms[|synonyms| - 1]) != k {
          var j :| 0 <= j < |synonyms| && Lower(synonyms[j]) == k;
          assert init[j] == synonyms[j];
        }
        if LowerOfSome(init, k) {
          var j :| 0 <= j < |init| && Lower(init[j]) == k;
          assert synonyms[j] == init[j];
        }
      }
    }
  }

  lemma AddTeamEntries(m: map<string, string>, t: TeamData)
    ensures var r := AddTeam(m, t);
      forall k :: (k in r <==> k in m || LowerNameOf(t, k)) &&
                  (k in r ==> r[k] == if LowerNameOf(t, k) then t.standardName else m[k])
  {
    var base := m[Lower(t.standardName) := t.standardName];
    AddSynonymsEntries(base, t.synonyms, t.standardName);
    var r := AddTeam(m, t);
    forall k ensures (k in r <==> k in m || LowerNameOf(t, k)) &&
                     (k in r ==> r[k] == if LowerNameOf(t, k) then t.standardName else m[k]) {
      assert k in base <==> k in m || k == Lower(t.standardName);
    }
  }

  /** The position of the last team having name k, or -1 when none has. */
  function LastWith(teams: seq<TeamData>, k: string): (r: int)
    ensures -1 <= r < |teams|
    ensures r >= 0 ==> LowerNameOf(teams[r], k)
    ensures forall j :: r < j < |teams| ==> !LowerNameOf(teams[j], k)
  {
    if teams == [] then -1
    else if LowerNameOf(teams[|teams| - 1], k) then |teams| - 1
    else LastWith(teams[..|teams| - 1], k)
  }

  /**
   * The keys are exactly the lowercase standard names and synonyms, and the
   * value of a key is the standard name of the LAST team in config order
   * that has it.
   */
  lemma {:induction false} TeamMappingEntries(teams: seq<TeamData>)
    ensures var m := TeamMapping(teams);
      forall k :: (k in m <==> LastWith(teams, k) >= 0) &&
                  (k in m ==> m[k] == teams[LastWith(teams, k)].standardName)
  {
    if teams != [] {
      var init := teams[..|teams| - 1];
      var last := teams[|teams| - 1];
      TeamMappingEntries(init);
      AddTeamEntries(TeamMapping(init), last);
      var m := TeamMapping(teams);
      forall k ensures (k in m <==> LastWith(teams, k) >= 0) &&
                       (k in m ==> m[k] == teams[LastWith(teams, k)].standardName) {
        if !LowerNameOf(last, k) {
          assert LastWith(teams, k) == LastWith(init, k);
          if LastWith(init, k) >= 0 {
            assert teams[LastWith(init, k)] == init[LastWith(init, k)];
          }
        }
      }
    }
  }

  /** A key is present iff some team has it as a name up to case. */
  lemma MappingKeys(teams: seq<TeamData>, k: string)
    ensures k in TeamMapping(teams) <==> exists i :: 0 <= i < |teams| && LowerNameOf(teams[i], k)
  {
    TeamMappingEntries(teams);
  }

  /** Every value of the mapping is some team's standard name. */
  lemma MappingValuesAreStandard(teams: seq<TeamData>, k: string)
    requires k in TeamMapping(teams)
    ensures exists i :: 0 <= i < |teams| && TeamMapping(teams)[k] == teams[i].standardName
  {
    TeamMappingEntries(teams);
  }

  // ---------------------------------------------------------------------
  // standardize_team_name, is_premier_league_team
  // ---------------------------------------------------------------------

  /** `standardize_team_name`: None for "ENG 1", else a case-insensitive look-up. */
  function Standardize(teamName: string, mapping: map<string, string>): Option<string> {
    if teamName == Eng1 then None
    else if Lower(teamName) in mapping then Some(mapping[Lower(teamName)])
    else None
  }

  /** `is_premier_league_team`: `any(team_name == standard_name ...)` over the teams. */
  predicate IsPremierLeagueTeam(teamName: string, teams: seq<TeamData>) {
    exists i :: 0 <= i < |teams| && teams[i].standardName == teamName
  }

  /**
   * Against the mapping of a config: "ENG 1" gives None, any other input
   * gives the standard name of a team that has it as a name up to case, and
   * None when no team has it.
   */
  lemma StandardizeAgainstConfig(teamName: string, teams: seq<TeamData>)
    ensures var r := Standardize(teamName, TeamMapping(teams));
      && (teamName == Eng1 ==> r == None)
      && (teamName != Eng1 ==> (r.Some? <==> exists i :: 0 <= i < |teams| && LowerNameOf(teams[i], Lower(teamName))))
      && (r.Some? ==> IsPremierLeagueTeam(r.value, teams))
  {
    TeamMappingEntries(teams);
    if Standardize(teamName, TeamMapping(teams)).Some? {
      MappingValuesAreStandard(teams, Lower(teamName));
    }
  }

  lemma LowerIsNotEng1(s: string)
    ensures Lower(s) != Eng1
  {
    assert |s| == 0 || LowerChar(s[0]) != 'E';
  }

  /** Case does not matter: a name and its lowercase form standardise alike, unless it is "ENG 1". */
  lemma StandardizeIgnoresCase(teamName: string, mapping: map<string, string>)
    requires teamName != Eng1
    ensures Standardize(Lower(teamName), mapping) == Standardize(teamName, mapping)
  {
    LowerIsNotEng1(teamName);
    LowerIdempotent(teamName);
  }

  // ---------------------------------------------------------------------
  // The per-player loop of fix_team_names
  // ---------------------------------------------------------------------

  /**
   * What happens to one player: "ENG 1" is kept and flagged; a team that
   * standardises to a non-empty standard Premier League name is kept with
   * that name; everything else is dropped (None).
   */
  function FixPlayer(p: Player, mapping: map<string, string>, teams: seq<TeamData>): Option<Player> {
    if p.team == Eng1 then Some(p.(teamNeedsVerification := true))
    else
      var standardized := Standardize(p.team, mapping);
      if standardized.Some? && standardized.value != "" && IsPremierLeagueTeam(standardized.value, teams)
      then Some(p.(team := standardized.value))
      else None
  }

  /** The players written back, in order. */
  function FixedPlayers(players: seq<Player>, mapping: map<string, string>, teams: seq<TeamData>): seq<Player> {
    if players == [] then []
    else
      var r := FixPlayer(players[|players| - 1], mapping, teams);
      FixedPlayers(players[..|players| - 1], mapping, teams) + (if r.Some? then [r.value] else [])
  }

  /** Positions in `players` of the kept players, in order. */
  function KeptPositions(players: seq<Player>, mapping: map<string, string>, teams: seq<TeamData>): seq<nat> {
    if players == [] then []
    else
      KeptPositions(players[..|players| - 1], mapping, teams) +
      (if FixPlayer(players[|players| - 1], mapping, teams).Some? then [|players| - 1] else [])
  }

  predicate Changed(p: Player, mapping: map<string, string>, teams: seq<TeamData>) {
    var r := FixPlayer(p, mapping, teams);
    r.Some? && r.value.team != p.team
  }

  predicate Dropped(p: Player, mapping: map<string, string>, teams: seq<TeamData>) {
    FixPlayer(p, mapping, teams).None?
  }

  predicate IsEng1(p: Player) {
    p.team == Eng1
  }

  /** The three counters of `fix_team_names`. */
  datatype Counter = Fixes | Eng1Fixes | Removals

  /** Whether one player bumps a counter. */
  predicate Counts(p: Player, mapping: map<string, string>, teams: seq<TeamData>, c: Counter) {
    match c
    case Fixes => Changed(p, mapping, teams)
    case Eng1Fixes => IsEng1(p)
    case Removals => Dropped(p, mapping, teams)
  }

  /** A counter's total over a list of players. */
  function CountOf(players: seq<Player>, mapping: map<string, string>, teams: seq<TeamData>, c: Counter): nat {
    if players == [] then 0
    else CountOf(players[..|players| - 1], mapping, teams, c) + (if Counts(players[|players| - 1], mapping, teams, c) then 1 else 0)
  }

  /** One more player adds one exactly when it bumps the counter. */
  lemma CountSnoc(a: seq<Player>, p: Player, mapping: map<string, string>, teams: seq<TeamData>, c: Counter)
    ensures CountOf(a + [p], mapping, teams, c) == CountOf(a, mapping, teams, c) + (if Counts(p, mapping, teams, c) then 1 else 0)
  {
    assert (a + [p])[..|a|] == a;
  }

  /** A counter over two lists is the sum of the counter over each. */
  lemma {:induction false} CountAppend(a: seq<Player>, b: seq<Player>, mapping: map<string, string>, teams: seq<TeamData>, c: Counter)
    ensures CountOf(a + b, mapping, teams, c) == CountOf(a, mapping, teams, c) + CountOf(b, mapping, teams, c)
  {
    if b == [] {
      assert a + b == a;
    } else {
      CountAppend(a, b[..|b| - 1], mapping, teams, c);
      assert (a + b)[..|a + b| - 1] == a + b[..|b| - 1];
    }
  }

  /** The branches of the loop body, each with the record it keeps and the counters it bumps. */
  lemma FixStep(p: Player, mapping: map<string, string>, teams: seq<TeamData>)
    ensures var s := Standardize(p.team, mapping);
      var keep := s.Some? && s.value != "" && IsPremierLeagueTeam(s.value, teams);
      && (Counts(p, mapping, teams, Eng1Fixes) <==> p.team == Eng1)
      && (p.team == Eng1 ==>
            FixPlayer(p, mapping, teams) == Some(p.(teamNeedsVerification := true)) &&
            !Counts(p, mapping, teams, Fixes) && !Counts(p, mapping, teams, Removals))
      && (p.team != Eng1 && keep ==>
            FixPlayer(p, mapping, teams) == Some(p.(team := s.value)) &&
            (Counts(p, mapping, teams, Fixes) <==> p.team != s.value) && !Counts(p, mapping, teams, Removals))
      && (p.team != Eng1 && !keep ==>
            FixPlayer(p, mapping, teams) == None &&
            !Counts(p, mapping, teams, Fixes) && Counts(p, mapping, teams, Removals))
  {
  }

  /** One more player: its record, if kept, goes after the others. */
  lemma FixedPlayersSnoc(a: seq<Player>, p: Player, mapping: map<string, string>, teams: seq<TeamData>)
    ensures FixedPlayers(a + [p], mapping, teams) ==
      FixedPlayers(a, mapping, teams) + (if FixPlayer(p, mapping, teams).Some? then [FixPlayer(p, mapping, teams).value] else [])
  {
    assert (a + [p])[..|a|] == a;
  }

  /**
   * The loop over one version file: `fixed_players` and the three counters'
   * increments.
   */
  method FixVersion(players: seq<Player>, mapping: map<string, string>, teams: seq<TeamData>)
    returns (fixedPlayers: seq<Player>, fixes: nat, eng1Fixes: nat, removals: nat)
    ensures fixedPlayers == FixedPlayers(players, mapping, teams)
    ensures fixes == CountOf(players, mapping, teams, Fixes)
    ensures eng1Fixes == CountOf(players, mapping, teams, Eng1Fixes)
    ensures removals == CountOf(players, mapping, teams, Removals)
  {
    fixedPlayers, fixes, eng1Fixes, removals := [], 0, 0, 0;
    var i := 0;
    while i < |players|
      invariant 0 <= i <= |players|
      invariant fixedPlayers == FixedPlayers(players[..i], mapping, teams)
      invariant fixes == CountOf(players[..i], mapping, teams, Fixes)
      invariant eng1Fixes == CountOf(players[..i], mapping, teams, Eng1Fixes)
      invariant removals == CountOf(players[..i], mapping, teams, Removals)
    {
      assert players[..i + 1] == players[..i] + [players[i]];
      CountSnoc(players[..i], players[i], mapping, teams, Fixes);
      CountSnoc(players[..i], players[i], mapping, teams, Eng1Fixes);
      CountSnoc(players[..i], players[i], mapping, teams, Removals);
      FixedPlayersSnoc(players[..i], players[i], mapping, teams);
      FixStep(players[i], mapping, teams);
      var player := players[i];
      var originalTeam := player.team;
      var standardizedTeam := Standardize(originalTeam, mapping);
      if originalTeam == Eng1 {
        eng1Fixes := eng1Fixes + 1;
        player := player.(teamNeedsVerification := true);
        fixedPlayers := fixedPlayers + [player];
      } else if standardizedTeam.Some? && standardizedTeam.value != "" &&
                IsPremierLeagueTeam(standardizedTeam.value, teams) {
        if originalTeam != standardizedTeam.value {
          fixes := fixes + 1;
        }
        player := player.(team := standardizedTeam.value);
        fixedPlayers := fixedPlayers + [player];
      } else {
        removals := removals + 1;
      }
      i := i + 1;
    }
    assert players[..i] == players;
  }

  /**
   * Every kept player either is an "ENG 1" player, otherwise unchanged and
   * flagged, or is the original player with its team replaced by a
   * standard name of the config, nothing else changed.
   */
  lemma FixPlayerOutcome(p: Player, teams: seq<TeamData>)
    ensures var r := FixPlayer(p, TeamMapping(teams), teams);
      var i := LastWith(teams, Lower(p.team));
      && (p.team == Eng1 ==> r == Some(p.(teamNeedsVerification := true)))
      && (r.Some? && p.team != Eng1 ==>
            i >= 0 && teams[i].standardName != "" && r.value == p.(team := teams[i].standardName))
      && (r.None? <==> (p.team != Eng1 && (i < 0 || teams[i].standardName == "")))
  {
    var k := Lower(p.team);
    TeamMappingEntries(teams);
    var i := LastWith(teams, k);
    if p.team != Eng1 && i >= 0 {
      assert IsPremierLeagueTeam(teams[i].standardName, teams);
    }
  }

  /** Kept and dropped add up: kept count = original count - removed. */
  lemma {:induction false} FixedCount(players: seq<Player>, mapping: map<string, string>, teams: seq<TeamData>)
    ensures |FixedPlayers(players, mapping, teams)| == |players| - CountOf(players, mapping, teams, Removals)
    ensures |KeptPositions(players, mapping, teams)| == |FixedPlayers(players, mapping, teams)|
  {
    if players != [] {
      FixedCount(players[..|players| - 1], mapping, teams);
      assert players == players[..|players| - 1] + [players[|players| - 1]];
      CountSnoc(players[..|players| - 1], players[|players| - 1], mapping, teams, Removals);
    }
  }

  /**
   * Order is kept: the k-th written player comes from the k-th kept
   * position, and the kept positions increase.
   */
  lemma {:induction false} FixedInOrder(players: seq<Player>, mapping: map<string, string>, teams: seq<TeamData>)
    ensures var out := FixedPlayers(players, mapping, teams);
      var pos := KeptPositions(players, mapping, teams);
      && |pos| == |out|
      && (forall k :: 0 <= k < |pos| ==> pos[k] < |players| && FixPlayer(players[pos[k]], mapping, teams) == Some(out[k]))
      && (forall k, l :: 0 <= k < l < |pos| ==> pos[k] < pos[l])
  {
    FixedCount(players, mapping, teams);
    if players != [] {
      var init := players[..|players| - 1];
      FixedInOrder(init, mapping, teams);
      FixedCount(init, mapping, teams);
      var pos := KeptPositions(players, mapping, teams);
      var out := FixedPlayers(players, mapping, teams);
      var pos0 := KeptPositions(init, mapping, teams);
      forall k | 0 <= k < |pos| ensures pos[k] < |players| && FixPlayer(players[pos[k]], mapping, teams) == Some(out[k]) {
        if k < |pos0| {
          assert pos[k] == pos0[k] && out[k] == FixedPlayers(init, mapping, teams)[k];
          assert players[pos[k]] == init[pos[k]];
        }
      }
    }
  }

  /**
   * A config is well formed when no lowercase name belongs to two teams and
   * no standard name is "ENG 1".
   */
  ghost predicate WellFormedConfig(teams: seq<TeamData>) {
    && (forall i, j, k :: 0 <= i < j < |teams| && LowerNameOf(teams[i], k) ==> !LowerNameOf(teams[j], k))
    && (forall i :: 0 <= i < |teams| ==> teams[i].standardName != Eng1)
  }

  /** With a well-formed config, a fixed player passes a second run unchanged. */
  lemma FixPlayerIdempotent(p: Player, teams: seq<TeamData>)
    requires WellFormedConfig(teams)
    requires FixPlayer(p, TeamMapping(teams), teams).Some?
    ensures var q := FixPlayer(p, TeamMapping(teams), teams).value;
      FixPlayer(q, TeamMapping(teams), teams) == Some(q)
  {
    var m := TeamMapping(teams);
    var q := FixPlayer(p, m, teams).value;
    FixPlayerOutcome(p, teams);
    if p.team != Eng1 {
      var i := LastWith(teams, Lower(p.team));
      var k := Lower(q.team);
      assert LowerNameOf(teams[i], k);
      assert LastWith(teams, k) == i;
      FixPlayerOutcome(q, teams);
    }
  }

  /** With a well-formed config, a second run keeps every player and fixes nothing. */
  lemma {:induction false} FixTeamNamesIdempotent(players: seq<Player>, teams: seq<TeamData>)
    requires WellFormedConfig(teams)
    ensures var m := TeamMapping(teams);
      var out := FixedPlayers(players, m, teams);
      && FixedPlayers(out, m, teams) == out
      && CountOf(out, m, teams, Fixes) == 0
      && CountOf(out, m, teams, Removals) == 0
  {
    var m := TeamMapping(teams);
    if players != [] {
      var init := players[..|players| - 1];
      var last := players[|players| - 1];
      FixTeamNamesIdempotent(init, teams);
      var out0 := FixedPlayers(init, m, teams);
      if FixPlayer(last, m, teams).Some? {
        var q := FixPlayer(last, m, teams).value;
        FixPlayerIdempotent(last, teams);
        var out := out0 + [q];
        assert out[..|out| - 1] == out0 && out[|out| - 1] == q;
        CountSnoc(out0, q, m, teams, Fixes);
        CountSnoc(out0, q, m, teams, Removals);
        assert FixedPlayers(out, m, teams) == out0 + [q];
        assert FixedPlayers(players, m, teams) == out;
      } else {
        assert FixedPlayers(players, m, teams) == out0;
      }
    }
  }

  // ---------------------------------------------------------------------
  // fix_team_names, over the version files
  // ---------------------------------------------------------------------

  /** The files written for versions FirstVersion..bound-1: each existing one, fixed. */
  function WrittenBelow(files: map<int, seq<Player>>, mapping: map<string, string>, teams: seq<TeamData>, bound: int)
    : map<int, seq<Player>>
    requires FirstVersion <= bound <= LastVersion + 1
    decreases bound - FirstVersion
  {
    if bound == FirstVersion then map[]
    else
      var w := WrittenBelow(files, mapping, teams, bound - 1);
      if bound - 1 in files then w[bound - 1 := FixedPlayers(files[bound - 1], mapping, teams)] else w
  }

  lemma {:induction false} WrittenBelowEntries(files: map<int, seq<Player>>, mapping: map<string, string>,
                                               teams: seq<TeamData>, bound: int)
    requires FirstVersion <= bound <= LastVersion + 1
    ensures var w := WrittenBelow(files, mapping, teams, bound);
      forall v :: (v in w <==> FirstVersion <= v < bound && v in files) &&
                  (v in w ==> w[v] == FixedPlayers(files[v], mapping, teams))
    decreases bound - FirstVersion
  {
    if bound > FirstVersion {
      WrittenBelowEntries(files, mapping, teams, bound - 1);
    }
  }

  /** A counter's total over the version files FirstVersion..bound-1, file by file. */
  function CountBelow(files: map<int, seq<Player>>, mapping: map<string, string>, teams: seq<TeamData>, c: Counter, bound: int): nat
    requires FirstVersion <= bound <= LastVersion + 1
    decreases bound - FirstVersion
  {
    if bound == FirstVersion then 0
    else CountBelow(files, mapping, teams, c, bound - 1) + CountOf(VersionFile(files, bound - 1), mapping, teams, c)
  }

  /** Counting file by file is counting over the concatenated load. */
  lemma {:induction false} CountBelowIsCountOfLoad(files: map<int, seq<Player>>, mapping: map<string, string>,
                                                   teams: seq<TeamData>, c: Counter, bound: int)
    requires FirstVersion <= bound <= LastVersion + 1
    ensures CountBelow(files, mapping, teams, c, bound) == CountOf(LoadBelow(files, bound), mapping, teams, c)
    decreases bound - FirstVersion
  {
    if bound > FirstVersion {
      CountBelowIsCountOfLoad(files, mapping, teams, c, bound - 1);
      CountAppend(LoadBelow(files, bound - 1), VersionFile(files, bound - 1), mapping, teams, c);
    }
  }

  /**
   * `fix_team_names` without the files and the console: `files` are the
   * Premier League version files that exist; every one of versions 10..23
   * is rewritten (an empty result included), and the counters are totals
   * over all of them.
   */
  method FixTeamNames(teams: seq<TeamData>, files: map<int, seq<Player>>)
    returns (written: map<int, seq<Player>>, totalFixes: nat, eng1Fixes: nat, nonPlRemovals: nat)
    ensures forall v :: v in written <==> FirstVersion <= v <= LastVersion && v in files
    ensures forall v :: v in written ==> written[v] == FixedPlayers(files[v], TeamMapping(teams), teams)
    ensures totalFixes == CountOf(LoadAll(files), TeamMapping(teams), teams, Fixes)
    ensures eng1Fixes == CountOf(LoadAll(files), TeamMapping(teams), teams, Eng1Fixes)
    ensures nonPlRemovals == CountOf(LoadAll(files), TeamMapping(teams), teams, Removals)
  {
    var teamMapping := CreateTeamMapping(teams);
    written, totalFixes, eng1Fixes, nonPlRemovals := FixVersions(files, teamMapping, teams);
    WrittenBelowEntries(files, teamMapping, teams, LastVersion + 1);
  }

  /** The version loop of `fix_team_names`, under a mapping already built. */
  method FixVersions(files: map<int, seq<Player>>, teamMapping: map<string, string>, teams: seq<TeamData>)
    returns (written: map<int, seq<Player>>, totalFixes: nat, eng1Fixes: nat, nonPlRemovals: nat)
    ensures written == WrittenBelow(files, teamMapping, teams, LastVersion + 1)
    ensures totalFixes == CountOf(LoadAll(files), teamMapping, teams, Fixes)
    ensures eng1Fixes == CountOf(LoadAll(files), teamMapping, teams, Eng1Fixes)
    ensures nonPlRemovals == CountOf(LoadAll(files), teamMapping, teams, Removals)
  {
    written, totalFixes, eng1Fixes, nonPlRemovals := map[], 0, 0, 0;
    var fifaVersion := FirstVersion;
    while fifaVersion <= LastVersion
      invariant FirstVersion <= fifaVersion <= LastVersion + 1
      invariant written == WrittenBelow(files, teamMapping, teams, fifaVersion)
      invariant totalFixes == CountBelow(files, teamMapping, teams, Fixes, fifaVersion)
      invariant eng1Fixes == CountBelow(files, teamMapping, teams, Eng1Fixes, fifaVersion)
      invariant nonPlRemovals == CountBelow(files, teamMapping, teams, Removals, fifaVersion)
    {
      if fifaVersion in files {
        var players := files[fifaVersion];
        var fixedPlayers, fixes, eng1, removals := FixVersion(players, teamMapping, teams);
        written := written[fifaVersion := fixedPlayers];
        totalFixes, eng1Fixes, nonPlRemovals := totalFixes + fixes, eng1Fixes + eng1, nonPlRemovals + removals;
      }
      fifaVersion := fifaVersion + 1;
    }
    CountBelowIsCountOfLoad(files, teamMapping, teams, Fixes, fifaVersion);
    CountBelowIsCountOfLoad(files, teamMapping, teams, Eng1Fixes, fifaVersion);
    CountBelowIsCountOfLoad(files, teamMapping, teams, Removals, fifaVersion);
  }
}
