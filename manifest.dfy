/**
 * The shared image-download manifest of `scrape_players.py` and
 * `download_images.py` (both define the same `download_image`), the
 * per-player skip rules of their `download_player_images`, and the
 * new-download counting of `download_images.py`'s `main`.
 *
 * Downloads run one after the other; the network is an oracle telling
 * whether fetching a URL succeeds, and the file system is the set of
 * paths that exist.
 */
module Manifest {
  import opened Text
  import opened Records

  /** What a download run can observe and change. */
  datatype Store = Store(
    manifest: set<string>,   // the global `downloaded_images` set
    paths: set<string>,      // files and directories that exist
    requests: seq<string>)   // URLs fetched over the network, in order

  /**
   * `download_image(url, save_path)`: the new store and the returned flag.
   * A URL already in the manifest, or an existing save path, returns True
   * without fetching (the latter adds the URL); otherwise the URL is
   * fetched, and only a successful fetch writes the file and adds the URL.
   */
  function Download(s: Store, url: string, savePath: string, online: string -> bool): (Store, bool) {
    if url in s.manifest then (s, true)
    else if savePath in s.paths then (s.(manifest := s.manifest + {url}), true)
    else if online(url) then (Store(s.manifest + {url}, s.paths + {savePath}, s.requests + [url]), true)
    else (s.(requests := s.requests + [url]), false)
  }

  /** True when the step sends a request: the URL is unknown and the file missing. */
  predicate Fetches(s: Store, url: string, savePath: string) {
    url !in s.manifest && savePath !in s.paths
  }

  /**
   * Everything one `download_image` call can do: it succeeds iff the URL is
   * known, the file exists or the fetch works; a success leaves the URL in
   * the manifest and a failure leaves the manifest as it was; the manifest
   * only grows, and by this URL at most; at most this URL is requested, and
   * only when `Fetches` holds; only the save path can appear on disk.
   */
  lemma DownloadOutcome(s: Store, url: string, savePath: string, online: string -> bool)
    ensures var (t, ok) := Download(s, url, savePath, online);
      && (ok <==> url in s.manifest || savePath in s.paths || online(url))
      && (ok ==> url in t.manifest)
      && (!ok ==> t.manifest == s.manifest && t.paths == s.paths)
      && s.manifest <= t.manifest <= s.manifest + {url}
      && t.requests == s.requests + (if Fetches(s, url, savePath) then [url] else [])
      && s.paths <= t.paths <= s.paths + {savePath}
  {
  }

  /** After a successful call, calling again with the same URL changes nothing. */
  lemma DownloadAgain(s: Store, url: string, savePath: string, other: string, online: string -> bool)
    requires Download(s, url, savePath, online).1
    ensures Download(Download(s, url, savePath, online).0, url, other, online) ==
      (Download(s, url, savePath, online).0, true)
  {
  }

  /** The save path of a player photo: the URL's basename inside the players directory. */
  function PhotoPath(playersDir: string, url: string): string {
    JoinPath(playersDir, Basename(url))
  }

  /**
   * `download_single_player`: with `httpOnly` (the `download_images.py`
   * copy) a URL not starting with "http" is skipped; an existing photo path
   * is skipped; otherwise `download_image` runs and its flag is discarded.
   */
  function FetchPlayerImage(s: Store, playersDir: string, url: string, httpOnly: bool, online: string -> bool): Store {
    if httpOnly && !StartsWith(url, "http") then s
    else if PhotoPath(playersDir, url) in s.paths then s
    else Download(s, url, PhotoPath(playersDir, url), online).0
  }

  /** The players' photos fetched one after the other, in list order. */
  function FetchPlayerImages(s: Store, playersDir: string, players: seq<Player>, httpOnly: bool, online: string -> bool): (t: Store)
    ensures s.manifest <= t.manifest && s.paths <= t.paths
    ensures |s.requests| <= |t.requests| && t.requests[..|s.requests|] == s.requests
  {
    if players == [] then s
    else
      var mid := FetchPlayerImages(s, playersDir, players[..|players| - 1], httpOnly, online);
      var t := FetchPlayerImage(mid, playersDir, players[|players| - 1].photoUrl, httpOnly, online);
      FetchPlayerImageGrows(mid, playersDir, players[|players| - 1].photoUrl, httpOnly, online);
      assert t.requests[..|s.requests|] == t.requests[..|mid.requests|][..|s.requests|];
      t
  }

  /** One player's step only adds to the manifest, the paths and the requests. */
  lemma FetchPlayerImageGrows(s: Store, playersDir: string, url: string, httpOnly: bool, online: string -> bool)
    ensures var t := FetchPlayerImage(s, playersDir, url, httpOnly, online);
      && s.manifest <= t.manifest && s.paths <= t.paths
      && |s.requests| <= |t.requests| && t.requests[..|s.requests|] == s.requests
  {
    DownloadOutcome(s, url, PhotoPath(playersDir, url), online);
  }

  /** The photo URLs of the players. */
  function PhotoUrls(players: seq<Player>): (urls: set<string>)
    ensures forall i :: 0 <= i < |players| ==> players[i].photoUrl in urls
    ensures forall u :: u in urls ==> exists i :: 0 <= i < |players| && players[i].photoUrl == u
  {
    if players == [] then {}
    else PhotoUrls(players[..|players| - 1]) + {players[|players| - 1].photoUrl}
  }

  /** The photo URL passes the `http` filter and its fetch would succeed. */
  predicate Wanted(url: string, httpOnly: bool, online: string -> bool) {
    online(url) && (httpOnly ==> StartsWith(url, "http"))
  }

  /** What one player's step does to the store. */
  lemma FetchPlayerImageOutcome(s: Store, playersDir: string, url: string, httpOnly: bool, online: string -> bool)
    ensures var t := FetchPlayerImage(s, playersDir, url, httpOnly, online);
      var sends := (!httpOnly || StartsWith(url, "http")) && Fetches(s, url, PhotoPath(playersDir, url));
      && t.requests == s.requests + (if sends then [url] else [])
      && s.manifest <= t.manifest <= s.manifest + {url}
      && s.paths <= t.paths <= s.paths + {PhotoPath(playersDir, url)}
      && (sends && online(url) ==> url in t.manifest && PhotoPath(playersDir, url) in t.paths)
  {
    DownloadOutcome(s, url, PhotoPath(playersDir, url), online);
  }

  /** Unfolds one step of the pass: the last player is handled after the others. */
  lemma FetchPlayerImagesLast(s: Store, playersDir: string, players: seq<Player>, httpOnly: bool, online: string -> bool)
    requires players != []
    ensures FetchPlayerImages(s, playersDir, players, httpOnly, online) ==
      FetchPlayerImage(FetchPlayerImages(s, playersDir, players[..|players| - 1], httpOnly, online),
                       playersDir, players[|players| - 1].photoUrl, httpOnly, online)
  {
  }

  /**
   * `t` extends `s`'s request log only with URLs from `urls` that were not
   * in `s`'s manifest, and only with `http` URLs when `httpOnly` holds.
   */
  predicate RequestsWithin(s: Store, t: Store, urls: set<string>, httpOnly: bool) {
    && |s.requests| <= |t.requests|
    && (forall k :: |s.requests| <= k < |t.requests| ==>
          t.requests[k] in urls && t.requests[k] !in s.manifest && (httpOnly ==> StartsWith(t.requests[k], "http")))
  }

  /**
   * What a photo pass can request: each URL requested is the photo of some
   * player, was not in the manifest before, and starts with "http" when
   * `httpOnly` holds.
   */
  lemma {:induction false} FetchPlayerImagesRequests(s: Store, playersDir: string, players: seq<Player>, httpOnly: bool, online: string -> bool)
    ensures RequestsWithin(s, FetchPlayerImages(s, playersDir, players, httpOnly, online), PhotoUrls(players), httpOnly)
  {
    if players != [] {
      var init := players[..|players| - 1];
      var last := players[|players| - 1];
      var mid := FetchPlayerImages(s, playersDir, init, httpOnly, online);
      FetchPlayerImagesRequests(s, playersDir, init, httpOnly, online);
      var t := FetchPlayerImages(s, playersDir, players, httpOnly, online);
      FetchPlayerImagesLast(s, playersDir, players, httpOnly, online);
      FetchPlayerImageOutcome(mid, playersDir, last.photoUrl, httpOnly, online);
      forall k | |s.requests| <= k < |t.requests|
        ensures t.requests[k] in PhotoUrls(players)
        ensures t.requests[k] !in s.manifest
        ensures httpOnly ==> StartsWith(t.requests[k], "http")
      {
        if k < |mid.requests| {
          assert t.requests[k] == mid.requests[k];
        } else {
          assert t.requests[k] == last.photoUrl;
        }
      }
    }
  }

  /** Each URL added to the manifest is a player's photo. */
  lemma {:induction false} FetchPlayerImagesManifest(s: Store, playersDir: string, players: seq<Player>, httpOnly: bool, online: string -> bool)
    ensures var t := FetchPlayerImages(s, playersDir, players, httpOnly, online);
      t.manifest - s.manifest <= PhotoUrls(players)
  {
    if players != [] {
      var init := players[..|players| - 1];
      var last := players[|players| - 1];
      var mid := FetchPlayerImages(s, playersDir, init, httpOnly, online);
      FetchPlayerImagesManifest(s, playersDir, init, httpOnly, online);
      var t := FetchPlayerImages(s, playersDir, players, httpOnly, online);
      FetchPlayerImagesLast(s, playersDir, players, httpOnly, online);
      FetchPlayerImageOutcome(mid, playersDir, last.photoUrl, httpOnly, online);
      assert PhotoUrls(players) == PhotoUrls(init) + {last.photoUrl};
    }
  }

  /**
   * A photo URL whose basename is empty (it ends in '/') or "." names the
   * players directory itself, which exists, so it is never fetched.
   */
  lemma DirectoryUrlSkipped(s: Store, playersDir: string, url: string, httpOnly: bool, online: string -> bool)
    requires playersDir in s.paths
    requires Basename(url) == "" || Basename(url) == "."
    ensures FetchPlayerImage(s, playersDir, url, httpOnly, online) == s
  {
  }

  /** A second pass over the same players requests only URLs that failed in the first. */
  lemma {:induction false} SecondPassRetriesOnlyFailures(s: Store, playersDir: string, players: seq<Player>, httpOnly: bool, online: string -> bool)
    ensures var t := FetchPlayerImages(s, playersDir, players, httpOnly, online);
      var t2 := FetchPlayerImages(t, playersDir, players, httpOnly, online);
      forall k :: |t.requests| <= k < |t2.requests| ==> !online(t2.requests[k])
  {
    var t := FetchPlayerImages(s, playersDir, players, httpOnly, online);
    SuccessfulPhotosKnown(s, playersDir, players, httpOnly, online);
    SecondPassFails(t, playersDir, players, httpOnly, online);
  }

  /** After a pass, every player's photo that is online is known or its path exists. */
  predicate Settled(t: Store, playersDir: string, players: seq<Player>, httpOnly: bool, online: string -> bool) {
    forall i :: 0 <= i < |players| && Wanted(players[i].photoUrl, httpOnly, online) ==>
      players[i].photoUrl in t.manifest || PhotoPath(playersDir, players[i].photoUrl) in t.paths
  }

  lemma {:induction false} SuccessfulPhotosKnown(s: Store, playersDir: string, players: seq<Player>, httpOnly: bool, online: string -> bool)
    ensures Settled(FetchPlayerImages(s, playersDir, players, httpOnly, online), playersDir, players, httpOnly, online)
  {
    if players != [] {
      var init := players[..|players| - 1];
      SuccessfulPhotosKnown(s, playersDir, init, httpOnly, online);
      FetchPlayerImagesLast(s, playersDir, players, httpOnly, online);
      SettledStep(FetchPlayerImages(s, playersDir, init, httpOnly, online), playersDir, players, httpOnly, online);
    }
  }

  /** Handling the last player keeps the others settled and settles it. */
  lemma SettledStep(mid: Store, playersDir: string, players: seq<Player>, httpOnly: bool, online: string -> bool)
    requires players != []
    requires Settled(mid, playersDir, players[..|players| - 1], httpOnly, online)
    ensures Settled(FetchPlayerImage(mid, playersDir, players[|players| - 1].photoUrl, httpOnly, online),
                    playersDir, players, httpOnly, online)
  {
    var init := players[..|players| - 1];
    var last := players[|players| - 1];
    var t := FetchPlayerImage(mid, playersDir, last.photoUrl, httpOnly, online);
    FetchPlayerImageOutcome(mid, playersDir, last.photoUrl, httpOnly, online);
    forall i | 0 <= i < |players| && Wanted(players[i].photoUrl, httpOnly, online)
      ensures players[i].photoUrl in t.manifest || PhotoPath(playersDir, players[i].photoUrl) in t.paths
    {
      if i < |init| {
        assert players[i] == init[i];
      }
    }
  }

  lemma {:induction false} SecondPassFails(t: Store, playersDir: string, players: seq<Player>, httpOnly: bool, online: string -> bool)
    requires Settled(t, playersDir, players, httpOnly, online)
    ensures var t2 := FetchPlayerImages(t, playersDir, players, httpOnly, online);
      forall k :: |t.requests| <= k < |t2.requests| ==> !online(t2.requests[k])
  {
    if players != [] {
      var init := players[..|players| - 1];
      var last := players[|players| - 1];
      assert Settled(t, playersDir, init, httpOnly, online) by {
        forall i | 0 <= i < |init| ensures init[i] == players[i] { }
      }
      SecondPassFails(t, playersDir, init, httpOnly, online);
      var mid := FetchPlayerImages(t, playersDir, init, httpOnly, online);
      var t2 := FetchPlayerImages(t, playersDir, players, httpOnly, online);
      FetchPlayerImagesLast(t, playersDir, players, httpOnly, online);
      FetchPlayerImageOutcome(mid, playersDir, last.photoUrl, httpOnly, online);
      assert last == players[|players| - 1];
      forall k | |t.requests| <= k < |t2.requests| ensures !online(t2.requests[k]) {
        if k >= |mid.requests| {
          assert t2.requests[k] == last.photoUrl;
          assert !Wanted(last.photoUrl, httpOnly, online);
        } else {
          assert t2.requests[k] == mid.requests[k];
        }
      }
    }
  }

  /** The sum of the lengths of the existing version files, `total_players`. */
  function PlayerCount(files: map<int, seq<Player>>, versions: seq<int>): nat {
    if versions == [] then 0
    else
      var v := versions[|versions| - 1];
      PlayerCount(files, versions[..|versions| - 1]) + (if v in files then |files[v]| else 0)
  }

  /** The versions `download_images.py` walks: each of 23 down to 10 once, newest first. */
  function DescendingVersions(): (vs: seq<int>)
    ensures |vs| == LastVersion - FirstVersion + 1
    ensures forall i :: 0 <= i < |vs| ==> vs[i] == LastVersion - i
    ensures forall i, j :: 0 <= i < j < |vs| ==> vs[i] > vs[j]
  {
    seq(LastVersion - FirstVersion + 1, i => LastVersion - i)
  }

  /** The walk reads exactly the versions 10..23. */
  lemma DescendingVersionsCover()
    ensures forall v :: v in DescendingVersions() <==> FirstVersion <= v <= LastVersion
  {
    var vs := DescendingVersions();
    forall v | FirstVersion <= v <= LastVersion
      ensures v in vs
    {
      assert vs[LastVersion - v] == v;
    }
  }

  /**
   * One version file of `main`: `download_player_images(players, base_dir)`
   * with its `http` filter, after creating `<base>/players`.
   */
  function VersionPass(s: Store, players: seq<Player>, baseDir: string, online: string -> bool): Store {
    var playersDir := JoinPath(baseDir, "players");
    FetchPlayerImages(s.(paths := s.paths + {playersDir}), playersDir, players, true, online)
  }

  /** The league loop of `main`: every existing file among `versions`, in that order. */
  function LeaguePass(s: Store, files: map<int, seq<Player>>, baseDir: string, versions: seq<int>, online: string -> bool): (t: Store)
    ensures s.manifest <= t.manifest && s.paths <= t.paths
    ensures |s.requests| <= |t.requests| && t.requests[..|s.requests|] == s.requests
  {
    if versions == [] then s
    else
      var mid := LeaguePass(s, files, baseDir, versions[..|versions| - 1], online);
      var v := versions[|versions| - 1];
      if v in files then VersionPass(mid, files[v], baseDir, online) else mid
  }

  /** Some existing file among `versions` has a player with this photo. */
  predicate PhotoOfLeague(files: map<int, seq<Player>>, versions: seq<int>, url: string) {
    exists i :: 0 <= i < |versions| && versions[i] in files && url in PhotoUrls(files[versions[i]])
  }

  /** The photo URLs of the players in the existing files among `versions`. */
  function LeaguePhotoUrls(files: map<int, seq<Player>>, versions: seq<int>): set<string> {
    if versions == [] then {}
    else
      var v := versions[|versions| - 1];
      LeaguePhotoUrls(files, versions[..|versions| - 1]) + (if v in files then PhotoUrls(files[v]) else {})
  }

  lemma PhotoOfLeagueSnoc(files: map<int, seq<Player>>, versions: seq<int>, url: string)
    requires versions != []
    ensures PhotoOfLeague(files, versions, url) <==>
      PhotoOfLeague(files, versions[..|versions| - 1], url) ||
      (versions[|versions| - 1] in files && url in PhotoUrls(files[versions[|versions| - 1]]))
  {
    var init := versions[..|versions| - 1];
    if PhotoOfLeague(files, init, url) {
      var i :| 0 <= i < |init| && init[i] in files && url in PhotoUrls(files[init[i]]);
      assert versions[i] == init[i];
    }
    if PhotoOfLeague(files, versions, url) {
      var i :| 0 <= i < |versions| && versions[i] in files && url in PhotoUrls(files[versions[i]]);
      if i < |init| {
        assert init[i] == versions[i];
      }
    }
  }

  /** A URL is one of the league's photos exactly when some existing file walked has a player with it. */
  lemma {:induction false} LeaguePhotoUrlsMembers(files: map<int, seq<Player>>, versions: seq<int>, url: string)
    ensures url in LeaguePhotoUrls(files, versions) <==> PhotoOfLeague(files, versions, url)
  {
    if versions != [] {
      LeaguePhotoUrlsMembers(files, versions[..|versions| - 1], url);
      PhotoOfLeagueSnoc(files, versions, url);
    }
  }

  lemma RequestsWithinTrans(s: Store, m: Store, t: Store, a: set<string>, b: set<string>)
    requires RequestsWithin(s, m, a, true) && RequestsWithin(m, t, b, true)
    requires s.manifest <= m.manifest && t.requests[..|m.requests|] == m.requests
    ensures RequestsWithin(s, t, a + b, true)
  {
    forall k | |s.requests| <= k < |t.requests|
      ensures t.requests[k] in a + b && t.requests[k] !in s.manifest && StartsWith(t.requests[k], "http")
    {
      if k < |m.requests| {
        assert t.requests[k] == m.requests[k];
      }
    }
  }

  /** One version file requests only `http` photos of its players that were not yet in the manifest. */
  lemma VersionPassRequests(s: Store, players: seq<Player>, baseDir: string, online: string -> bool)
    ensures RequestsWithin(s, VersionPass(s, players, baseDir, online), PhotoUrls(players), true)
  {
    var playersDir := JoinPath(baseDir, "players");
    var s' := s.(paths := s.paths + {playersDir});
    assert s'.requests == s.requests && s'.manifest == s.manifest;
    FetchPlayerImagesRequests(s', playersDir, players, true, online);
  }

  /**
   * What a league run requests: each URL fetched is an `http` photo of a
   * player in one of the existing files walked, and was not in the
   * manifest when the run began.
   */
  lemma {:induction false} LeaguePassRequests(s: Store, files: map<int, seq<Player>>, baseDir: string, versions: seq<int>, online: string -> bool)
    ensures RequestsWithin(s, LeaguePass(s, files, baseDir, versions, online), LeaguePhotoUrls(files, versions), true)
  {
    if versions != [] {
      var init := versions[..|versions| - 1];
      var v := versions[|versions| - 1];
      var mid := LeaguePass(s, files, baseDir, init, online);
      LeaguePassRequests(s, files, baseDir, init, online);
      if v in files {
        VersionPassRequests(mid, files[v], baseDir, online);
        RequestsWithinTrans(s, mid, VersionPass(mid, files[v], baseDir, online), LeaguePhotoUrls(files, init), PhotoUrls(files[v]));
      }
    }
  }

  /** What a league run records: every URL that enters the manifest is one of the league's photos. */
  lemma {:induction false} LeaguePassManifest(s: Store, files: map<int, seq<Player>>, baseDir: string, versions: seq<int>, online: string -> bool)
    ensures LeaguePass(s, files, baseDir, versions, online).manifest - s.manifest <= LeaguePhotoUrls(files, versions)
  {
    if versions != [] {
      var init := versions[..|versions| - 1];
      var v := versions[|versions| - 1];
      var mid := LeaguePass(s, files, baseDir, init, online);
      LeaguePassManifest(s, files, baseDir, init, online);
      if v in files {
        var dir := JoinPath(baseDir, "players");
        FetchPlayerImagesManifest(mid.(paths := mid.paths + {dir}), dir, files[v], true, online);
      }
    }
  }

  /** One download run over a file system and a manifest that the methods update in place. */
  class Downloader {
    var manifest: set<string>
    var paths: set<string>
    var requests: seq<string>

    function State(): Store
      reads this
    {
      Store(manifest, paths, requests)
    }

    constructor(existing: set<string>)
      ensures State() == Store({}, existing, [])
    {
      manifest := {};
      paths := existing;
      requests := [];
    }

    /** `download_image`. */
    method DownloadImage(url: string, savePath: string, online: string -> bool) returns (ok: bool)
      modifies this
      ensures (State(), ok) == Download(old(State()), url, savePath, online)
    {
      if url in manifest {
        return true;
      }
      if savePath in paths {
        manifest := manifest + {url};
        return true;
      }
      requests := requests + [url];
      if online(url) {
        paths := paths + {savePath};
        manifest := manifest + {url};
        return true;
      }
      return false;
    }

    /** `download_single_player`: the skip rules, then `download_image` with its flag discarded. */
    method DownloadSinglePlayer(url: string, playersDir: string, httpOnly: bool, online: string -> bool)
      modifies this
      ensures State() == FetchPlayerImage(old(State()), playersDir, url, httpOnly, online)
    {
      if httpOnly && !StartsWith(url, "http") {
        return;
      }
      var photoPath := JoinPath(playersDir, Basename(url));
      if photoPath !in paths {
        var _ := DownloadImage(url, photoPath, online);
      }
    }

    /**
     * `download_player_images`: creates `<base>/players`, then handles
     * each player's photo in list order.
     */
    method DownloadPlayerImages(players: seq<Player>, baseDir: string, httpOnly: bool, online: string -> bool)
      modifies this
      ensures State() == FetchPlayerImages(old(State()).(paths := old(paths) + {JoinPath(baseDir, "players")}),
                                           JoinPath(baseDir, "players"), players, httpOnly, online)
    {
      var playersDir := JoinPath(baseDir, "players");
      paths := paths + {playersDir};
      ghost var start := State();
      var i := 0;
      while i < |players|
        invariant 0 <= i <= |players|
        invariant State() == FetchPlayerImages(start, playersDir, players[..i], httpOnly, online)
      {
        assert players[..i + 1][..i] == players[..i];
        FetchPlayerImagesLast(start, playersDir, players[..i + 1], httpOnly, online);
        DownloadSinglePlayer(players[i].photoUrl, playersDir, httpOnly, online);
        i := i + 1;
      }
      assert players[..|players|] == players;
    }

    /**
     * `main` of `download_images.py` for one league directory: every
     * existing version file from 23 down to 10, counting the players read
     * and the manifest's growth.
     */
    method DownloadLeague(files: map<int, seq<Player>>, baseDir: string, online: string -> bool)
      returns (totalPlayers: nat, totalDownloads: nat)
      modifies this
      ensures State() == LeaguePass(old(State()), files, baseDir, DescendingVersions(), online)
      ensures totalPlayers == PlayerCount(files, DescendingVersions())
      ensures old(manifest) <= manifest
      ensures totalDownloads == |manifest| - |old(manifest)| == |manifest - old(manifest)|
    {
      var versions := DescendingVersions();
      ghost var start := State();
      totalPlayers, totalDownloads := 0, 0;
      var i := 0;
      while i < |versions|
        invariant 0 <= i <= |versions|
        invariant State() == LeaguePass(start, files, baseDir, versions[..i], online)
        invariant totalPlayers == PlayerCount(files, versions[..i])
        invariant old(manifest) <= manifest
        invariant totalDownloads == |manifest| - |old(manifest)|
      {
        assert versions[..i + 1][..i] == versions[..i];
        var v := versions[i];
        if v in files {
          totalPlayers := totalPlayers + |files[v]|;
          var initial := |manifest|;
          ghost var before := manifest;
          DownloadPlayerImages(files[v], baseDir, true, online);
          assert before <= manifest;
          SubsetCard(before, manifest);
          var newDownloads := |manifest| - initial;
          SubsetCard(old(manifest), manifest);
          totalDownloads := totalDownloads + newDownloads;
        }
        i := i + 1;
      }
      assert versions[..|versions|] == versions;
      SubsetCard(old(manifest), manifest);
    }
  }

  lemma SubsetCard(a: set<string>, b: set<string>)
    requires a <= b
    ensures |a| <= |b|
    ensures |b| - |a| == |b - a|
  {
    assert b == a + (b - a);
  }
}
