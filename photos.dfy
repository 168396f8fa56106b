/**
 * `download_player_photos.py`: one pass over the Premier League players of
 * versions 10..23 that fetches each photo at most once per URL, keeping a
 * local set of the URLs fetched successfully.
 */
module PlayerPhotos {
  import opened Text
  import opened Records

  const PlayersDir: string := "static/images/players"

  /** The state the loop of `main` updates, and what it asks of the network. */
  datatype PhotoRun = PhotoRun(
    downloaded: set<string>,  // `downloaded_photos`
    paths: set<string>,       // files and directories that exist
    requests: seq<string>)    // URLs fetched, in order

  /**
   * One player: skipped when its URL was already downloaded or its file
   * exists; otherwise fetched, and only a successful fetch writes the file
   * and adds the URL.
   */
  function PhotoStep(r: PhotoRun, url: string, online: string -> bool): PhotoRun {
    var path := JoinPath(PlayersDir, Basename(url));
    if url in r.downloaded || path in r.paths then r
    else if online(url) then PhotoRun(r.downloaded + {url}, r.paths + {path}, r.requests + [url])
    else r.(requests := r.requests + [url])
  }

  /** The loop over all players, in load order. */
  function PhotoPass(r: PhotoRun, players: seq<Player>, online: string -> bool): PhotoRun {
    if players == [] then r
    else PhotoStep(PhotoPass(r, players[..|players| - 1], online), players[|players| - 1].photoUrl, online)
  }

  /**
   * `main` without the JSON and the console: loads the version files,
   * creates the players directory, then walks the players.
   */
  method DownloadPlayerPhotos(files: map<int, seq<Player>>, existing: set<string>, online: string -> bool)
    returns (downloaded: set<string>, paths: set<string>, requests: seq<string>, reported: nat)
    ensures PhotoRun(downloaded, paths, requests) ==
      PhotoPass(PhotoRun({}, existing + {PlayersDir}, []), LoadAll(files), online)
    ensures reported == |downloaded|
  {
    paths := existing + {PlayersDir};
    var allPlayers := LoadVersions(files);
    downloaded, requests := {}, [];
    ghost var start := PhotoRun({}, paths, []);
    var i := 0;
    while i < |allPlayers|
      invariant 0 <= i <= |allPlayers|
      invariant PhotoRun(downloaded, paths, requests) == PhotoPass(start, allPlayers[..i], online)
    {
      PhotoPassSnoc(start, allPlayers, i, online);
      var url := allPlayers[i].photoUrl;
      if url !in downloaded {
        var photoPath := JoinPath(PlayersDir, Basename(url));
        if photoPath !in paths {
          requests := requests + [url];
          if online(url) {
            paths := paths + {photoPath};
            downloaded := downloaded + {url};
          }
        }
      }
      i := i + 1;
    }
    assert allPlayers[..|allPlayers|] == allPlayers;
    reported := |downloaded|;
  }

  /** The pass over one more player is one more step. */
  lemma PhotoPassSnoc(r: PhotoRun, players: seq<Player>, i: nat, online: string -> bool)
    requires i < |players|
    ensures PhotoPass(r, players[..i + 1], online) == PhotoStep(PhotoPass(r, players[..i], online), players[i].photoUrl, online)
  {
    assert players[..i + 1][..i] == players[..i];
  }

  /**
   * One step's effect: a URL already downloaded, or whose file exists, is
   * not fetched and not added; otherwise it is fetched, and it is added
   * exactly when the fetch succeeds.
   */
  lemma PhotoStepOutcome(r: PhotoRun, url: string, online: string -> bool)
    ensures var t := PhotoStep(r, url, online);
      var fetched := url !in r.downloaded && JoinPath(PlayersDir, Basename(url)) !in r.paths;
      && t.requests == r.requests + (if fetched then [url] else [])
      && t.downloaded == r.downloaded + (if fetched && online(url) then {url} else {})
      && (!fetched || !online(url) ==> t.paths == r.paths)
  {
  }

  /**
   * A URL whose basename is empty or "." joins to the players directory,
   * which exists during the pass, so the player is skipped unfetched.
   */
  lemma DirectoryUrlSkipped(r: PhotoRun, url: string, online: string -> bool)
    requires PlayersDir in r.paths
    requires Basename(url) == "" || Basename(url) == "."
    ensures PhotoStep(r, url, online) == r
  {
  }

  /** For instance "https://cdn.futwiz.com/." is never fetched once the directory exists. */
  lemma DotUrlNotFetched(online: string -> bool)
    ensures PhotoStep(PhotoRun({}, {PlayersDir}, []), "https://cdn.futwiz.com/.", online).requests == []
  {
    var url := "https://cdn.futwiz.com/.";
    RFindAfterLast(url, '/', |url| - 2);
    assert Basename(url) == url[|url| - 1..] == ".";
    DirectoryUrlSkipped(PhotoRun({}, {PlayersDir}, []), url, online);
  }

  /**
   * A failed download leaves the set and the disk as they were, so the
   * same URL is fetched again the next time it comes up.
   */
  lemma FailureRetried(r: PhotoRun, url: string, online: string -> bool)
    requires url !in r.downloaded && JoinPath(PlayersDir, Basename(url)) !in r.paths
    requires !online(url)
    ensures var t := PhotoStep(r, url, online);
      t.downloaded == r.downloaded && t.paths == r.paths &&
      PhotoStep(t, url, online).requests == r.requests + [url, url]
  {
  }

  /**
   * The reported count: starting from an empty set, the set ends up holding
   * exactly the URLs that were requested and succeeded, and every request
   * was for a URL not yet downloaded.
   */
  lemma {:induction false} PassDownloadsSucceeded(r: PhotoRun, players: seq<Player>, online: string -> bool)
    requires r.downloaded == {} && r.requests == []
    ensures var t := PhotoPass(r, players, online);
      forall u :: u in t.downloaded <==> u in t.requests && online(u)
  {
    if players != [] {
      var mid := PhotoPass(r, players[..|players| - 1], online);
      PassDownloadsSucceeded(r, players[..|players| - 1], online);
      var url := players[|players| - 1].photoUrl;
      PhotoStepOutcome(mid, url, online);
      var t := PhotoStep(mid, url, online);
      forall u ensures u in t.downloaded <==> u in t.requests && online(u) {
        if u == url && u in mid.requests && online(u) {
          assert u in mid.downloaded;
        }
      }
    }
  }

  /** No URL that succeeded is ever requested again in the same pass. */
  lemma {:induction false} NoRefetchAfterSuccess(r: PhotoRun, players: seq<Player>, online: string -> bool)
    requires r.downloaded == {} && r.requests == []
    ensures var t := PhotoPass(r, players, online);
      forall i, j :: 0 <= i < j < |t.requests| && t.requests[i] == t.requests[j] ==> !online(t.requests[i])
  {
    if players != [] {
      var mid := PhotoPass(r, players[..|players| - 1], online);
      NoRefetchAfterSuccess(r, players[..|players| - 1], online);
      PassDownloadsSucceeded(r, players[..|players| - 1], online);
      var url := players[|players| - 1].photoUrl;
      PhotoStepOutcome(mid, url, online);
      var t := PhotoStep(mid, url, online);
      forall i, j | 0 <= i < j < |t.requests| && t.requests[i] == t.requests[j]
        ensures !online(t.requests[i])
      {
        if j == |mid.requests| {
          assert t.requests[i] == mid.requests[i];
          assert mid.requests[i] in mid.requests;
        } else {
          assert t.requests[i] == mid.requests[i] && t.requests[j] == mid.requests[j];
        }
      }
    }
  }
}
