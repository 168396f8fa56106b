/** The record shapes that the scripts read and write as JSON. */
module Records {

  /**
   * One player entry of `data/<league>/fifa<version>_players.json`.
   * `teamNeedsVerification` is the `team_needs_verification` flag that the
   * team-name fixer adds; the scraper writes records without it (false).
   */
  datatype Player = Player(
    name: string,
    photoUrl: string,
    nationalityFlag: string,
    team: string,
    rating: int,
    fifaVersion: int,
    teamNeedsVerification: bool)

  /** One entry of `team_config.json`'s "teams" object, in file order. */
  datatype TeamData = TeamData(standardName: string, synonyms: seq<string>, abbreviation: string)

  /** The version files are `fifa10_players.json` .. `fifa23_players.json`. */
  const FirstVersion: int := 10
  const LastVersion: int := 23

  /** The players of the version files FirstVersion..bound-1, in ascending version order (missing files contribute nothing). */
  function LoadBelow(files: map<int, seq<Player>>, bound: int): seq<Player>
    requires FirstVersion <= bound <= LastVersion + 1
    decreases bound - FirstVersion
  {
    if bound == FirstVersion then []
    else LoadBelow(files, bound - 1) + VersionFile(files, bound - 1)
  }

  /** The players of one version file; a missing file has none. */
  function VersionFile(files: map<int, seq<Player>>, v: int): seq<Player> {
    if v in files then files[v] else []
  }

  /** Every version file, 10 to 23. */
  function LoadAll(files: map<int, seq<Player>>): seq<Player> {
    LoadBelow(files, LastVersion + 1)
  }

  /**
   * The loading loop the scripts share: for each version 10..23 whose file
   * exists, extend the list with its players.
   */
  method LoadVersions(files: map<int, seq<Player>>) returns (all: seq<Player>)
    ensures all == LoadAll(files)
  {
    all := [];
    var v := FirstVersion;
    while v <= LastVersion
      invariant FirstVersion <= v <= LastVersion + 1
      invariant all == LoadBelow(files, v)
    {
      if v in files {
        all := all + files[v];
      }
      v := v + 1;
    }
  }

  /** A loaded player comes from an existing version file, and every player of one is loaded. */
  lemma {:induction false} LoadBelowMembers(files: map<int, seq<Player>>, bound: int, p: Player)
    requires FirstVersion <= bound <= LastVersion + 1
    ensures p in LoadBelow(files, bound) <==> exists v :: FirstVersion <= v < bound && v in files && p in files[v]
    decreases bound - FirstVersion
  {
    if bound > FirstVersion {
      LoadBelowMembers(files, bound - 1, p);
      assert p in LoadBelow(files, bound) <==> p in LoadBelow(files, bound - 1) || p in VersionFile(files, bound - 1);
    }
  }
}
