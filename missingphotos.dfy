/**
 * `check_missing_photos.py`: which Premier League players have no
 * downloaded photo. A photo counts as downloaded when the stem of some
 * `*.png` file in the players directory equals the id of the player's
 * photo URL.
 */
module MissingPhotos {
  import opened Text
  import opened Records

  /** `{f.stem for f in photos_dir.glob('*.png')}` over the names in the directory. */
  function PngStems(names: set<string>): (r: set<string>)
    ensures forall f :: f in names && EndsWith(f, ".png") ==> PathStem(f) in r
    ensures forall s :: s in r ==> exists f :: f in names && EndsWith(f, ".png") && PathStem(f) == s
  {
    set f | f in names && EndsWith(f, ".png") :: PathStem(f)
  }

  /**
   * Which ids count as downloaded, without `pathlib`: the root of every
   * "<root>.png" with a non-empty root, and ".png" itself for a file named
   * ".png" (its stem is the whole name).
   */
  lemma PngStemsMembers(names: set<string>, s: string)
    ensures s in PngStems(names) <==> (s != "" && s + ".png" in names) || (s == ".png" && ".png" in names)
  {
    if s in PngStems(names) {
      var f :| f in names && EndsWith(f, ".png") && PathStem(f) == s;
      StemOfPngName(f);
    }
    if s != "" && s + ".png" in names {
      PngNameStemKnown(names, s);
    }
    if s == ".png" && ".png" in names {
      BarePngKnown(names);
    }
  }

  lemma StemOfPngName(f: string)
    requires EndsWith(f, ".png")
    ensures f == ".png" ==> PathStem(f) == ".png"
    ensures f != ".png" ==> PathStem(f) != "" && PathStem(f) + ".png" == f
  {
    var root := f[..|f| - 4];
    assert f == root + ".png";
    PathStemOfPng(root);
  }

  lemma BarePngKnown(names: set<string>)
    requires ".png" in names
    ensures ".png" in PngStems(names)
  {
    BarePngStem();
    assert EndsWith(".png", ".png");
  }

  lemma BarePngStem()
    ensures PathStem(".png") == ".png"
  {
    PathStemOfPng("");
    assert "" + ".png" == ".png";
  }

  lemma PngNameStemKnown(names: set<string>, root: string)
    requires root != "" && root + ".png" in names
    ensures root in PngStems(names)
  {
    PathStemOfPng(root);
    assert EndsWith(root + ".png", ".png");
  }

  /** The fields the report copies from a player. */
  datatype MissingPhoto = MissingPhoto(name: string, team: string, fifaVersion: int, photoUrl: string)

  function Entry(p: Player): MissingPhoto {
    MissingPhoto(p.name, p.team, p.fifaVersion, p.photoUrl)
  }

  /**
   * The test of the loop: the id of the photo URL is not a downloaded stem.
   * `photoId` is the id function; the script uses `FileId`
   * (`os.path.splitext(os.path.basename(url))[0]`). Keeping it a parameter
   * keeps the string reasoning inside `FileId` out of the proofs about the
   * list.
   */
  predicate PhotoMissing(p: Player, downloaded: set<string>, photoId: string -> string) {
    photoId(p.photoUrl) !in downloaded
  }

  /** `missing_photos`: one entry per player without a photo, in load order. */
  function MissingOf(players: seq<Player>, downloaded: set<string>, photoId: string -> string): (r: seq<MissingPhoto>)
    ensures |r| <= |players|
  {
    if players == [] then []
    else
      var p := players[|players| - 1];
      MissingOf(players[..|players| - 1], downloaded, photoId) + (if PhotoMissing(p, downloaded, photoId) then [Entry(p)] else [])
  }

  /** The loop of `main` that appends to `missing_photos`. */
  method FindMissing(allPlayers: seq<Player>, downloaded: set<string>, photoId: string -> string) returns (missing: seq<MissingPhoto>)
    ensures missing == MissingOf(allPlayers, downloaded, photoId)
  {
    missing := [];
    var i := 0;
    while i < |allPlayers|
      invariant 0 <= i <= |allPlayers|
      invariant missing == MissingOf(allPlayers[..i], downloaded, photoId)
    {
      assert allPlayers[..i + 1][..i] == allPlayers[..i];
      var player := allPlayers[i];
      if photoId(player.photoUrl) !in downloaded {
        missing := missing + [Entry(player)];
      }
      i := i + 1;
    }
    assert allPlayers[..i] == allPlayers;
  }

  /** `main` without the files and the console: the load, the stems and the missing list. */
  method CheckMissingPhotos(files: map<int, seq<Player>>, photoNames: set<string>) returns (missing: seq<MissingPhoto>)
    ensures missing == MissingOf(LoadAll(files), PngStems(photoNames), FileId)
  {
    var downloadedPhotos := PngStems(photoNames);
    var allPlayers := LoadVersions(files);
    missing := FindMissing(allPlayers, downloadedPhotos, FileId);
  }

  /** An entry is listed exactly for a player whose photo is missing, and it copies that player's fields. */
  lemma {:induction false} MissingOfMembers(players: seq<Player>, downloaded: set<string>, photoId: string -> string, m: MissingPhoto)
    ensures m in MissingOf(players, downloaded, photoId) <==>
      exists i :: 0 <= i < |players| && PhotoMissing(players[i], downloaded, photoId) && Entry(players[i]) == m
  {
    if players != [] {
      var init := players[..|players| - 1];
      MissingOfMembers(init, downloaded, photoId, m);
      if exists i :: 0 <= i < |init| && PhotoMissing(init[i], downloaded, photoId) && Entry(init[i]) == m {
        var i :| 0 <= i < |init| && PhotoMissing(init[i], downloaded, photoId) && Entry(init[i]) == m;
        assert players[i] == init[i];
      }
      if exists i :: 0 <= i < |players| && PhotoMissing(players[i], downloaded, photoId) && Entry(players[i]) == m {
        var i :| 0 <= i < |players| && PhotoMissing(players[i], downloaded, photoId) && Entry(players[i]) == m;
        if i < |init| {
          assert init[i] == players[i];
        }
      }
    }
  }

  /** The list keeps load order: the entries of a longer load extend those of its prefix. */
  lemma {:induction false} MissingOfAppend(a: seq<Player>, b: seq<Player>, downloaded: set<string>, photoId: string -> string)
    ensures MissingOf(a + b, downloaded, photoId) == MissingOf(a, downloaded, photoId) + MissingOf(b, downloaded, photoId)
  {
    if b == [] {
      assert a + b == a;
    } else {
      MissingOfAppend(a, b[..|b| - 1], downloaded, photoId);
      assert (a + b)[..|a + b| - 1] == a + b[..|b| - 1];
    }
  }

  /** `missing_photos[:10]`: the entries printed. */
  function Shown(missing: seq<MissingPhoto>): (r: seq<MissingPhoto>)
    ensures |r| == if |missing| < 10 then |missing| else 10
    ensures r == missing[..|r|]
  {
    if |missing| <= 10 then missing else missing[..10]
  }

  /**
   * The printed entries are the first missing players in load order: they
   * are the whole missing list of some prefix of the load.
   */
  lemma {:induction false} ShownAreFirstMissing(players: seq<Player>, downloaded: set<string>, photoId: string -> string)
    ensures exists k ::
              0 <= k <= |players| &&
              Shown(MissingOf(players, downloaded, photoId)) == MissingOf(players[..k], downloaded, photoId)
  {
    if players == [] {
      assert players[..0] == players;
    } else {
      var init := players[..|players| - 1];
      var m0 := MissingOf(init, downloaded, photoId);
      var m := MissingOf(players, downloaded, photoId);
      if |m0| < 10 {
        assert |m| <= 10;
        assert players[..|players|] == players;
      } else {
        ShownAreFirstMissing(init, downloaded, photoId);
        var k :| 0 <= k <= |init| && Shown(m0) == MissingOf(init[..k], downloaded, photoId);
        assert init[..k] == players[..k];
        assert m[..10] == m0[..10];
      }
    }
  }

  /**
   * A photo saved under its URL's basename "<root>.png" (as
   * `download_player_photos.py` saves it) is found again, as long as root
   * is empty or has a character other than '.'.
   */
  lemma DownloadedPhotoFound(p: Player, photoNames: set<string>, root: string)
    requires Basename(p.photoUrl) == root + ".png" && root + ".png" in photoNames
    requires root == "" || !AllDots(root)
    ensures !PhotoMissing(p, PngStems(photoNames), FileId)
  {
    var name := root + ".png";
    assert EndsWith(name, ".png") by {
      assert name[|name| - 4..] == ".png";
    }
    SplitExtRootOfPng(root);
    PathStemOfPng(root);
    if root == "" {
      assert AllDots(root);
    }
  }

  /**
   * For a root made of dots the two stems differ: the photo of a URL ending
   * in "/..png" is on disk as "..png" (stem ".") but its id is "..png", so
   * it is reported missing.
   */
  lemma DotsPhotoReportedMissing(p: Player)
    requires p.photoUrl == "https://cdn.futwiz.com/..png"
    ensures PhotoMissing(p, PngStems({"..png"}), FileId)
  {
    DotsFileId(p.photoUrl);
    PathStemOfPng(".");
    assert "." + ".png" == "..png";
    forall s | s in PngStems({"..png"}) ensures s == "." {
      var f :| f in {"..png"} && EndsWith(f, ".png") && PathStem(f) == s;
      assert f == "..png";
    }
  }

  /** The id of that URL keeps the whole basename "..png". */
  lemma DotsFileId(url: string)
    requires url == "https://cdn.futwiz.com/..png"
    ensures FileId(url) == "..png"
  {
    assert url[22] == '/';
    RFindAfterLast(url, '/', 22);
    assert Basename(url) == "." + ".png";
    SplitExtRootOfPng(".");
    assert AllDots(".");
  }
}
