/**
 * `download_flags.py`: derives a flag id from each player's flag image,
 * fetches the matching flagcdn.com image once per URL, points the player at
 * the local copy on success, and writes the players back grouped by version.
 */
module Flags {
  import opened Wrappers
  import opened Text
  import opened Records

  const FlagsDir: string := "static/images/flags"
  const FlagCdnPrefix: string := "https://flagcdn.com/w80/"
  const LocalFlagPrefix: string := "/static/images/flags/"

  /** The `country_codes` table of `get_flag_url`: futwiz flag id to flagcdn code. */
  const CountryCodes: map<string, string> := map[
    "14" := "gb-eng", "18" := "fr", "45" := "es", "54" := "br", "21" := "de",
    "27" := "it", "52" := "ar", "34" := "nl", "95" := "us", "108" := "ci",
    "117" := "gh", "51" := "rs", "40" := "ru", "38" := "pt", "7" := "be",
    "12" := "cz", "50" := "gb-wls", "13" := "dk", "36" := "no", "43" := "sk"]

  /** `get_flag_url`: the flagcdn.com image of a mapped id, None for any other id. */
  function FlagUrl(flagId: string): (r: Option<string>)
    ensures r.Some? <==> flagId in CountryCodes
    ensures r.Some? ==> r.value == FlagCdnPrefix + CountryCodes[flagId] + ".png"
  {
    if flagId in CountryCodes then Some(FlagCdnPrefix + CountryCodes[flagId] + ".png") else None
  }

  /** Different ids never share a flag URL, because no two ids share a country code. */
  lemma FlagUrlInjective(a: string, b: string)
    requires FlagUrl(a).Some? && FlagUrl(a) == FlagUrl(b)
    ensures a == b
  {
    var ca, cb := CountryCodes[a], CountryCodes[b];
    var u := FlagUrl(a).value;
    assert |ca| == |cb|;
    assert ca == u[|FlagCdnPrefix|..|u| - 4];
    assert cb == u[|FlagCdnPrefix|..|u| - 4];
  }

  /** The local path a player's flag is rewritten to. */
  function LocalFlag(flagId: string): string {
    LocalFlagPrefix + flagId + ".png"
  }

  /** The id survives its own rewrite, so a second run computes the same ids. */
  lemma FlagIdOfLocalFlag(flagId: string)
    requires '/' !in flagId && !AllDots(flagId)
    ensures FileId(LocalFlag(flagId)) == flagId
  {
    var dir := "/static/images/flags";
    assert LocalFlagPrefix == dir + "/";
    FileIdOfPngPath(dir, flagId);
  }

  /**
   * What the loop derives from one player's flag: the flagcdn.com URL (if
   * the id is mapped), the file to save it to, and the local path the
   * player is pointed at after a download.
   */
  datatype FlagPlan = FlagPlan(url: Option<string>, file: string, local: string)

  /** The derivation `main` performs: flag id, then `get_flag_url`, `flags_dir / "<id>.png"` and the local path. */
  function PlanOf(p: Player): (plan: FlagPlan)
    ensures plan.url.Some? <==> FileId(p.nationalityFlag) in CountryCodes
  {
    var id := FileId(p.nationalityFlag);
    FlagPlan(FlagUrl(id), JoinPath(FlagsDir, id + ".png"), LocalFlag(id))
  }

  /** The state of `main`'s flag loop. */
  datatype FlagRun = FlagRun(
    downloaded: set<string>,  // `downloaded_flags`
    paths: set<string>,       // files and directories that exist
    requests: seq<string>,    // URLs fetched, in order
    out: seq<Player>)         // the players handled so far, as they now are

  /** Whether the loop downloads a flag: a mapped URL not yet downloaded, whose file is missing. */
  predicate Attempts(r: FlagRun, plan: FlagPlan) {
    plan.url.Some? && plan.url.value !in r.downloaded && plan.file !in r.paths
  }

  /** Whether the loop's download of this flag succeeds. */
  predicate Succeeds(r: FlagRun, plan: FlagPlan, online: string -> bool) {
    Attempts(r, plan) && online(plan.url.value)
  }

  /** One player of the loop; only a successful download rewrites its flag. */
  function FlagStep(r: FlagRun, p: Player, plan: FlagPlan, online: string -> bool): FlagRun {
    if !Attempts(r, plan) then r.(out := r.out + [p])
    else if online(plan.url.value) then
      FlagRun(r.downloaded + {plan.url.value}, r.paths + {plan.file}, r.requests + [plan.url.value],
              r.out + [p.(nationalityFlag := plan.local)])
    else r.(requests := r.requests + [plan.url.value], out := r.out + [p])
  }

  /** The loop over all players, in load order, with `planOf` deriving each player's plan. */
  function FlagPass(r: FlagRun, players: seq<Player>, planOf: Player -> FlagPlan, online: string -> bool): (t: FlagRun)
    ensures |t.out| == |r.out| + |players|
    ensures t.out[..|r.out|] == r.out
  {
    if players == [] then r
    else
      var p := players[|players| - 1];
      var mid := FlagPass(r, players[..|players| - 1], planOf, online);
      assert (mid.out + [p])[..|r.out|] == mid.out[..|r.out|];
      FlagStep(mid, p, planOf(p), online)
  }

  /** One step appends the player, its flag rewritten exactly when the download succeeds. */
  lemma FlagStepOutcome(r: FlagRun, p: Player, plan: FlagPlan, online: string -> bool)
    ensures var t := FlagStep(r, p, plan, online);
      && t.out == r.out + [if Succeeds(r, plan, online) then p.(nationalityFlag := plan.local) else p]
      && t.downloaded == r.downloaded + (if Succeeds(r, plan, online) then {plan.url.value} else {})
      && t.requests == r.requests + (if Attempts(r, plan) then [plan.url.value] else [])
  {
  }

  /**
   * Each player comes out unchanged, or with only its flag pointed at the
   * local path of its plan, and then its flag URL is in the downloaded set.
   */
  lemma {:induction false} FlagPassShape(r: FlagRun, players: seq<Player>, planOf: Player -> FlagPlan, online: string -> bool)
    requires r.out == []
    ensures var t := FlagPass(r, players, planOf, online);
      forall i :: 0 <= i < |players| ==>
        t.out[i] == players[i] ||
        (t.out[i] == players[i].(nationalityFlag := planOf(players[i]).local) &&
         planOf(players[i]).url.Some? && planOf(players[i]).url.value in t.downloaded)
  {
    if players != [] {
      var init := players[..|players| - 1];
      var p := players[|players| - 1];
      var mid := FlagPass(r, init, planOf, online);
      FlagPassShape(r, init, planOf, online);
      FlagStepOutcome(mid, p, planOf(p), online);
      var t := FlagPass(r, players, planOf, online);
      forall i | 0 <= i < |players|
        ensures t.out[i] == players[i] ||
          (t.out[i] == players[i].(nationalityFlag := planOf(players[i]).local) &&
           planOf(players[i]).url.Some? && planOf(players[i]).url.value in t.downloaded)
      {
        if i < |init| {
          assert players[i] == init[i] && t.out[i] == mid.out[i];
        }
      }
    }
  }

  /** Player i has flag URL u and came out pointed at its local path. */
  predicate LocalizedAt(players: seq<Player>, out: seq<Player>, planOf: Player -> FlagPlan, i: int, u: string) {
    0 <= i < |players| && i < |out| && planOf(players[i]).url == Some(u) &&
    out[i] == players[i].(nationalityFlag := planOf(players[i]).local)
  }

  /** Every downloaded URL succeeded and is the flag URL of a player pointed at its local path. */
  lemma {:induction false} FlagPassDownloaded(r: FlagRun, players: seq<Player>, planOf: Player -> FlagPlan, online: string -> bool)
    requires r.downloaded == {} && r.out == []
    ensures var t := FlagPass(r, players, planOf, online);
      forall u :: u in t.downloaded ==>
        && online(u)
        && exists i :: LocalizedAt(players, t.out, planOf, i, u)
  {
    if players != [] {
      var init := players[..|players| - 1];
      var p := players[|players| - 1];
      var mid := FlagPass(r, init, planOf, online);
      FlagPassDownloaded(r, init, planOf, online);
      FlagStepOutcome(mid, p, planOf(p), online);
      var t := FlagPass(r, players, planOf, online);
      forall u | u in t.downloaded
        ensures online(u)
        ensures exists i :: LocalizedAt(players, t.out, planOf, i, u)
      {
        if u in mid.downloaded {
          var i :| LocalizedAt(init, mid.out, planOf, i, u);
          assert players[i] == init[i] && t.out[i] == mid.out[i];
          assert LocalizedAt(players, t.out, planOf, i, u);
        } else {
          assert players[|init|] == p && t.out[|init|] == p.(nationalityFlag := planOf(p).local);
          assert LocalizedAt(players, t.out, planOf, |init|, u);
        }
      }
    }
  }

  /** Two players whose records the pass changed never share a flag URL: at most one rewrite per URL. */
  lemma {:induction false} FlagPassOnePerUrl(r: FlagRun, players: seq<Player>, planOf: Player -> FlagPlan, online: string -> bool)
    requires r.out == []
    ensures var t := FlagPass(r, players, planOf, online);
      forall i, j :: 0 <= i < j < |players| && t.out[i] != players[i] && t.out[j] != players[j] ==>
        planOf(players[i]).url != planOf(players[j]).url
  {
    if players != [] {
      var init := players[..|players| - 1];
      var p := players[|players| - 1];
      var n := |init|;
      var mid := FlagPass(r, init, planOf, online);
      FlagPassOnePerUrl(r, init, planOf, online);
      FlagPassShape(r, init, planOf, online);
      FlagStepOutcome(mid, p, planOf(p), online);
      var t := FlagPass(r, players, planOf, online);
      forall i, j | 0 <= i < j < |players| && t.out[i] != players[i] && t.out[j] != players[j]
        ensures planOf(players[i]).url != planOf(players[j]).url
      {
        assert players[i] == init[i] && t.out[i] == mid.out[i];
        if j < n {
          assert players[j] == init[j] && t.out[j] == mid.out[j];
        } else {
          assert players[j] == p;
          assert planOf(init[i]).url.value in mid.downloaded;
        }
      }
    }
  }

  /**
   * The flag loop of `main`: the players list is updated in place; returns
   * the players as rewritten and the number of distinct flags downloaded.
   */
  method FlagLoop(allPlayers: seq<Player>, existing: set<string>, planOf: Player -> FlagPlan, online: string -> bool)
    returns (players: seq<Player>, downloaded: set<string>, paths: set<string>, requests: seq<string>, reported: nat)
    ensures FlagRun(downloaded, paths, requests, players) ==
      FlagPass(FlagRun({}, existing + {FlagsDir}, [], []), allPlayers, planOf, online)
    ensures reported == |downloaded|
  {
    paths := existing + {FlagsDir};
    players := allPlayers;
    downloaded, requests := {}, [];
    ghost var start := FlagRun({}, paths, [], []);
    var i := 0;
    while i < |players|
      invariant 0 <= i <= |players| == |allPlayers|
      invariant players[i..] == allPlayers[i..]
      invariant FlagRun(downloaded, paths, requests, players[..i]) == FlagPass(start, allPlayers[..i], planOf, online)
    {
      assert allPlayers[..i + 1][..i] == allPlayers[..i];
      assert players[i] == allPlayers[i];
      var plan := planOf(players[i]);
      if plan.url.Some? && plan.url.value !in downloaded {
        if plan.file !in paths {
          requests := requests + [plan.url.value];
          if online(plan.url.value) {
            paths := paths + {plan.file};
            downloaded := downloaded + {plan.url.value};
            players := players[i := players[i].(nationalityFlag := plan.local)];
          }
        }
      }
      assert players[..i + 1] == players[..i] + [players[i]];
      i := i + 1;
    }
    assert allPlayers[..|allPlayers|] == allPlayers;
    assert players[..|players|] == players;
    reported := |downloaded|;
  }

  /**
   * `main` of `download_flags.py`: loads the version files, runs the flag
   * loop with the flag-id derivation and `get_flag_url`, and regroups the
   * players by version for writing back.
   */
  method DownloadFlags(files: map<int, seq<Player>>, existing: set<string>, online: string -> bool)
    returns (players: seq<Player>, written: map<int, seq<Player>>, downloaded: set<string>, requests: seq<string>, reported: nat)
    ensures var t := FlagPass(FlagRun({}, existing + {FlagsDir}, [], []), LoadAll(files), PlanOf, online);
      players == t.out && downloaded == t.downloaded && requests == t.requests
    ensures reported == |downloaded|
    ensures forall v :: v in written <==> FirstVersion <= v <= LastVersion && OfVersion(players, v) != []
    ensures forall v :: v in written ==> written[v] == OfVersion(players, v)
  {
    var allPlayers := LoadVersions(files);
    var paths;
    players, downloaded, paths, requests, reported := FlagLoop(allPlayers, existing, PlanOf, online);
    written := Regroup(players);
  }

  /** `[p for p in all_players if p['fifa_version'] == v]`. */
  function OfVersion(players: seq<Player>, v: int): (r: seq<Player>)
    ensures |r| <= |players|
    ensures forall p :: p in r <==> p in players && p.fifaVersion == v
  {
    if players == [] then []
    else
      var p := players[|players| - 1];
      OfVersion(players[..|players| - 1], v) + (if p.fifaVersion == v then [p] else [])
  }

  /**
   * The save loop: for each version 10..23, the version's players in their
   * order, written only when there is at least one.
   */
  method Regroup(players: seq<Player>) returns (written: map<int, seq<Player>>)
    ensures forall v :: v in written <==> FirstVersion <= v <= LastVersion && OfVersion(players, v) != []
    ensures forall v :: v in written ==> written[v] == OfVersion(players, v)
  {
    written := map[];
    var v := FirstVersion;
    while v <= LastVersion
      invariant FirstVersion <= v <= LastVersion + 1
      invariant forall w :: w in written <==> FirstVersion <= w < v && OfVersion(players, w) != []
      invariant forall w :: w in written ==> written[w] == OfVersion(players, w)
    {
      var versionPlayers := OfVersion(players, v);
      if versionPlayers != [] {
        written := written[v := versionPlayers];
      }
      v := v + 1;
    }
  }

  /**
   * Every player whose version is in 10..23 is written again, in the file
   * of its version, and nothing else is written.
   */
  lemma RegroupCovers(players: seq<Player>, written: map<int, seq<Player>>, p: Player)
    requires forall v :: v in written <==> FirstVersion <= v <= LastVersion && OfVersion(players, v) != []
    requires forall v :: v in written ==> written[v] == OfVersion(players, v)
    ensures (exists v :: v in written && p in written[v]) <==>
      p in players && FirstVersion <= p.fifaVersion <= LastVersion
  {
    if p in players && FirstVersion <= p.fifaVersion <= LastVersion {
      assert p in OfVersion(players, p.fifaVersion);
    }
  }
}
