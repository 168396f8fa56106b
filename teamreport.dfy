/**
 * `check_teams.py`: the team report over the Premier League data. It
 * loads versions 10..23, groups the team names by version, lists the
 * distinct team names in sorted order, picks the suspicious ones and
 * shows up to three example players for each.
 */
module TeamReport {
  import opened Text
  import opened Records
  import opened Ordering
  import TeamFix

  /** The team names of a list of players. */
  function TeamsOf(players: seq<Player>): set<string> {
    set p | p in players :: p.team
  }

  /** A name is in the team set exactly when some player has it as team. */
  lemma TeamsOfMembers(players: seq<Player>, t: string)
    ensures t in TeamsOf(players) <==> exists i :: 0 <= i < |players| && players[i].team == t
  {
    if t in TeamsOf(players) {
      var p :| p in players && p.team == t;
      var i :| 0 <= i < |players| && players[i] == p;
    }
  }

  /**
   * The loading loop with its grouping: `teams_by_version` is a
   * `defaultdict(set)`, so a version gets an entry only once one of its
   * players has been added.
   */
  method LoadTeamsByVersion(files: map<int, seq<Player>>) returns (allPlayers: seq<Player>, teamsByVersion: map<int, set<string>>)
    ensures allPlayers == LoadAll(files)
    ensures forall v :: v in teamsByVersion <==> FirstVersion <= v <= LastVersion && v in files && files[v] != []
    ensures forall v :: v in teamsByVersion ==> teamsByVersion[v] == TeamsOf(files[v])
  {
    allPlayers := [];
    teamsByVersion := map[];
    var fifaVersion := FirstVersion;
    while fifaVersion <= LastVersion
      invariant FirstVersion <= fifaVersion <= LastVersion + 1
      invariant allPlayers == LoadBelow(files, fifaVersion)
      invariant forall v :: v in teamsByVersion <==> FirstVersion <= v < fifaVersion && v in files && files[v] != []
      invariant forall v :: v in teamsByVersion ==> teamsByVersion[v] == TeamsOf(files[v])
    {
      if fifaVersion in files {
        var players := files[fifaVersion];
        ghost var before := teamsByVersion;
        var j := 0;
        while j < |players|
          invariant 0 <= j <= |players|
          invariant j == 0 ==> teamsByVersion == before
          invariant j > 0 ==> teamsByVersion == before[fifaVersion := TeamsOf(players[..j])]
        {
          var seen := if fifaVersion in teamsByVersion then teamsByVersion[fifaVersion] else {};
          assert players[..j + 1] == players[..j] + [players[j]];
          assert TeamsOf(players[..j + 1]) == (if j == 0 then {} else TeamsOf(players[..j])) + {players[j].team};
          teamsByVersion := teamsByVersion[fifaVersion := seen + {players[j].team}];
          j := j + 1;
        }
        assert players[..j] == players;
        allPlayers := allPlayers + players;
      }
      fifaVersion := fifaVersion + 1;
    }
  }

  /** `all_teams`: the distinct team names of the loaded players, sorted. */
  method AllTeams(allPlayers: seq<Player>) returns (allTeams: seq<string>)
    ensures StrictlySorted(allTeams)
    ensures forall t :: t in allTeams <==> exists i :: 0 <= i < |allPlayers| && allPlayers[i].team == t
  {
    allTeams := SortedList(TeamsOf(allPlayers));
    forall t {
      TeamsOfMembers(allPlayers, t);
    }
  }

  /** A team name appears in the whole load exactly when it appears in some version's group. */
  lemma AllTeamsAreGroupedTeams(files: map<int, seq<Player>>, teamsByVersion: map<int, set<string>>, t: string)
    requires forall v :: v in teamsByVersion <==> FirstVersion <= v <= LastVersion && v in files && files[v] != []
    requires forall v :: v in teamsByVersion ==> teamsByVersion[v] == TeamsOf(files[v])
    ensures t in TeamsOf(LoadAll(files)) <==> exists v :: v in teamsByVersion && t in teamsByVersion[v]
  {
    var all := LoadAll(files);
    TeamsOfMembers(all, t);
    if t in TeamsOf(all) {
      var i :| 0 <= i < |all| && all[i].team == t;
      LoadBelowMembers(files, LastVersion + 1, all[i]);
      var v :| FirstVersion <= v < LastVersion + 1 && v in files && all[i] in files[v];
      assert t in teamsByVersion[v];
    }
    if exists v :: v in teamsByVersion && t in teamsByVersion[v] {
      var v :| v in teamsByVersion && t in teamsByVersion[v];
      TeamsOfMembers(files[v], t);
      var i :| 0 <= i < |files[v]| && files[v][i].team == t;
      LoadBelowMembers(files, LastVersion + 1, files[v][i]);
      var k :| 0 <= k < |all| && all[k] == files[v][i];
      assert all[k].team == t;
    }
  }

  /** The names the report flags as possibly needing correction. */
  predicate Suspicious(team: string) {
    || StartsWith(team, "ENG")
    || StartsWith(team, "GER")
    || StartsWith(team, "ESP")
    || StartsWith(team, "FRA")
    || AllDigits(team)
    || |team| <= 2
  }

  /** `suspicious_teams`: the suspicious names of `all_teams`, in its order. */
  function SuspiciousTeams(allTeams: seq<string>): (r: seq<string>)
    ensures forall t :: t in r <==> t in allTeams && Suspicious(t)
    ensures StrictlySorted(allTeams) ==> StrictlySorted(r)
    ensures |r| <= |allTeams|
  {
    if allTeams == [] then []
    else
      var rest := SuspiciousTeams(allTeams[..|allTeams| - 1]);
      var t := allTeams[|allTeams| - 1];
      if Suspicious(t) then
        assert StrictlySorted(allTeams) ==> forall i :: 0 <= i < |rest| ==> StrLt(rest[i], t) by {
          if StrictlySorted(allTeams) {
            forall i | 0 <= i < |rest| ensures StrLt(rest[i], t) {
              assert rest[i] in allTeams[..|allTeams| - 1];
            }
          }
        }
        rest + [t]
      else rest
  }

  /** "ENG 1", the placeholder team that `fix_team_names.py` flags, is reported. */
  lemma Eng1IsSuspicious()
    ensures Suspicious(TeamFix.Eng1)
  {
    assert TeamFix.Eng1[..3] == "ENG";
  }

  /**
   * After `fix_team_names.py`, with standard names that are not suspicious,
   * the only suspicious team left is "ENG 1", and those players carry the
   * verification flag.
   */
  lemma FixedTeamsNotSuspicious(players: seq<Player>, teams: seq<TeamData>)
    requires forall i :: 0 <= i < |teams| ==> !Suspicious(teams[i].standardName)
    ensures var out := TeamFix.FixedPlayers(players, TeamFix.TeamMapping(teams), teams);
      forall k :: 0 <= k < |out| && Suspicious(out[k].team) ==> out[k].team == TeamFix.Eng1 && out[k].teamNeedsVerification
  {
    var mapping := TeamFix.TeamMapping(teams);
    var out := TeamFix.FixedPlayers(players, mapping, teams);
    var pos := TeamFix.KeptPositions(players, mapping, teams);
    TeamFix.FixedInOrder(players, mapping, teams);
    forall k | 0 <= k < |out| && Suspicious(out[k].team)
      ensures out[k].team == TeamFix.Eng1 && out[k].teamNeedsVerification
    {
      TeamFix.FixPlayerOutcome(players[pos[k]], teams);
    }
  }

  /** The players with exactly this team, in load order. */
  function WithTeam(players: seq<Player>, team: string): seq<Player> {
    if players == [] then []
    else
      WithTeam(players[..|players| - 1], team) +
      (if players[|players| - 1].team == team then [players[|players| - 1]] else [])
  }

  /** The filter keeps exactly the players with this team. */
  lemma {:induction false} WithTeamMembers(players: seq<Player>, team: string)
    ensures forall p :: p in WithTeam(players, team) <==> p in players && p.team == team
    ensures |WithTeam(players, team)| <= |players|
  {
    if players != [] {
      WithTeamMembers(players[..|players| - 1], team);
      assert players == players[..|players| - 1] + [players[|players| - 1]];
    }
  }

  /** Filtering distributes over concatenation, so load order is kept. */
  lemma {:induction false} WithTeamAppend(a: seq<Player>, b: seq<Player>, team: string)
    ensures WithTeam(a + b, team) == WithTeam(a, team) + WithTeam(b, team)
  {
    if b == [] {
      assert a + b == a;
    } else {
      WithTeamAppend(a, b[..|b| - 1], team);
      assert (a + b)[..|a + b| - 1] == a + b[..|b| - 1];
    }
  }

  /** `examples`: the first three players with this team. */
  function Examples(allPlayers: seq<Player>, team: string): (r: seq<Player>)
    ensures |r| <= 3
    ensures forall i :: 0 <= i < |r| ==> r[i].team == team
    ensures |r| == if |WithTeam(allPlayers, team)| < 3 then |WithTeam(allPlayers, team)| else 3
    ensures r == WithTeam(allPlayers, team)[..|r|]
  {
    var w := WithTeam(allPlayers, team);
    WithTeamMembers(allPlayers, team);
    var r := if |w| <= 3 then w else w[..3];
    assert forall i :: 0 <= i < |r| ==> r[i] in w;
    r
  }
}
