/**
 * `merge_players.py`: folds a newly scraped player list into
 * `all_players.json`, adding only records whose (name, team, version) key
 * is new, then sorts the whole list by (version, name) with Python's
 * stable sort.
 */
module Merge {
  import opened Text
  import opened Records
  import opened Dedup

  /** The identity `(name, team, fifa_version)` that decides "already there". */
  function MergeKey(p: Player): (string, string, int) {
    (p.name, p.team, p.fifaVersion)
  }

  // ---------------------------------------------------------------------
  // The sort key and Python's stable `list.sort`
  // ---------------------------------------------------------------------

  /** Tuple order on `(fifa_version, name)`: version first, then the names as `str`. */
  predicate KeyLt(a: Player, b: Player) {
    a.fifaVersion < b.fifaVersion || (a.fifaVersion == b.fifaVersion && StrLt(a.name, b.name))
  }

  /** Non-decreasing by `(fifa_version, name)`. */
  predicate SortedByKey(s: seq<Player>) {
    forall i, j :: 0 <= i < j < |s| ==> !KeyLt(s[j], s[i])
  }

  /** The records of s whose sort key is `(v, n)`, in their order in s. */
  function WithKey(s: seq<Player>, v: int, n: string): seq<Player> {
    if s == [] then []
    else (if s[0].fifaVersion == v && s[0].name == n then [s[0]] else []) + WithKey(s[1..], v, n)
  }

  /** x goes before the first record that does not sort strictly below it. */
  function Insert(x: Player, s: seq<Player>): seq<Player> {
    if s == [] || !KeyLt(s[0], x) then [x] + s
    else [s[0]] + Insert(x, s[1..])
  }

  /** `list.sort(key=lambda x: (x['fifa_version'], x['name']))`, as a stable insertion sort. */
  function SortByKey(s: seq<Player>): seq<Player> {
    if s == [] then [] else Insert(s[0], SortByKey(s[1..]))
  }

  lemma KeyLtIrreflexive(a: Player)
    ensures !KeyLt(a, a)
  {
    StrLtIrreflexive(a.name);
  }

  lemma KeyLtAsymmetric(a: Player, b: Player)
    ensures !(KeyLt(a, b) && KeyLt(b, a))
  {
    StrLtAsymmetric(a.name, b.name);
  }

  /** "Not below" is transitive, because the order on keys is total. */
  lemma KeyLeTransitive(a: Player, b: Player, c: Player)
    requires !KeyLt(b, a) && !KeyLt(c, b)
    ensures !KeyLt(c, a)
  {
    StrLtTotal(a.name, b.name);
    StrLtTotal(b.name, c.name);
    if a.fifaVersion == b.fifaVersion == c.fifaVersion && StrLt(c.name, a.name) {
      if StrLt(b.name, c.name) {
        StrLtTransitive(b.name, c.name, a.name);
      } else if c.name != b.name {
        StrLtTransitive(c.name, a.name, b.name);
        StrLtAsymmetric(b.name, c.name);
      }
    }
  }

  lemma {:induction false} InsertMultiset(x: Player, s: seq<Player>)
    ensures multiset(Insert(x, s)) == multiset{x} + multiset(s)
  {
    if s != [] && KeyLt(s[0], x) {
      InsertMultiset(x, s[1..]);
      assert s == [s[0]] + s[1..];
    }
  }

  lemma {:induction false} InsertSorted(x: Player, s: seq<Player>)
    requires SortedByKey(s)
    ensures SortedByKey(Insert(x, s))
  {
    if s == [] || !KeyLt(s[0], x) {
      forall k | 0 <= k < |s| ensures !KeyLt(s[k], x) {
        if k > 0 { KeyLeTransitive(x, s[0], s[k]); }
      }
      ConsSorted(x, s);
    } else {
      var t := s[1..];
      assert SortedByKey(t) by {
        forall i, j | 0 <= i < j < |t| ensures !KeyLt(t[j], t[i]) {
          assert t[i] == s[i + 1] && t[j] == s[j + 1];
        }
      }
      InsertSorted(x, t);
      InsertMultiset(x, t);
      KeyLtAsymmetric(s[0], x);
      var u := Insert(x, t);
      forall k | 0 <= k < |u| ensures !KeyLt(u[k], s[0]) {
        assert u[k] in multiset(u);
        if u[k] != x {
          assert u[k] in multiset(t);
          var m :| 0 <= m < |t| && t[m] == u[k];
          assert s[m + 1] == u[k];
        }
      }
      ConsSorted(s[0], u);
    }
  }

  /** A record that no element of a sorted list sorts below can go in front of it. */
  lemma ConsSorted(y: Player, u: seq<Player>)
    requires SortedByKey(u)
    requires forall k :: 0 <= k < |u| ==> !KeyLt(u[k], y)
    ensures SortedByKey([y] + u)
  {
    var r := [y] + u;
    forall i, j | 0 <= i < j < |r| ensures !KeyLt(r[j], r[i]) {
      assert r[j] == u[j - 1];
      if i > 0 {
        assert r[i] == u[i - 1];
      }
    }
  }

  /** The sort returns a permutation of its input, ordered by (version, name). */
  lemma {:induction false} SortByKeySortedPermutation(s: seq<Player>)
    ensures SortedByKey(SortByKey(s))
    ensures multiset(SortByKey(s)) == multiset(s)
  {
    if s != [] {
      SortByKeySortedPermutation(s[1..]);
      InsertSorted(s[0], SortByKey(s[1..]));
      InsertMultiset(s[0], SortByKey(s[1..]));
      assert s == [s[0]] + s[1..];
    }
  }

  /** Inserting x puts it ahead of every record with its own key. */
  lemma {:induction false} InsertWithKey(x: Player, s: seq<Player>, v: int, n: string)
    ensures WithKey(Insert(x, s), v, n) ==
      (if x.fifaVersion == v && x.name == n then [x] else []) + WithKey(s, v, n)
  {
    if s != [] && KeyLt(s[0], x) {
      InsertWithKey(x, s[1..], v, n);
      KeyLtIrreflexive(x);
      assert [s[0]] + Insert(x, s[1..]) == Insert(x, s);
      assert ([s[0]] + Insert(x, s[1..]))[1..] == Insert(x, s[1..]);
    } else {
      assert ([x] + s)[1..] == s;
    }
  }

  /** Stability: records with equal sort keys keep their relative order. */
  lemma {:induction false} SortByKeyStable(s: seq<Player>, v: int, n: string)
    ensures WithKey(SortByKey(s), v, n) == WithKey(s, v, n)
  {
    if s != [] {
      SortByKeyStable(s[1..], v, n);
      InsertWithKey(s[0], SortByKey(s[1..]), v, n);
    }
  }

  /** A list already in order is left as it is. */
  lemma {:induction false} SortByKeyOfSorted(s: seq<Player>)
    requires SortedByKey(s)
    ensures SortByKey(s) == s
  {
    if s != [] {
      assert SortedByKey(s[1..]) by {
        forall i, j | 0 <= i < j < |s| - 1 ensures !KeyLt(s[1..][j], s[1..][i]) {
          assert s[1..][i] == s[i + 1] && s[1..][j] == s[j + 1];
        }
      }
      SortByKeyOfSorted(s[1..]);
      if |s| > 1 {
        assert !KeyLt(s[1], s[0]);
      }
      assert [s[0]] + s[1..] == s;
    }
  }

  // ---------------------------------------------------------------------
  // The merge
  // ---------------------------------------------------------------------

  /** The incoming records the loop appends: first occurrences of keys not already present. */
  function Appended(existing: seq<Player>, incoming: seq<Player>): seq<Player> {
    FirstByKey(incoming, MergeKey, KeysOf(existing, MergeKey))
  }

  /** The list written back: existing records, then the appended ones, sorted. */
  function Merged(existing: seq<Player>, incoming: seq<Player>): seq<Player> {
    SortByKey(existing + Appended(existing, incoming))
  }

  /**
   * `merge_player_data` without the files: `existing` is `all_players.json`
   * (empty when the file is missing), `incoming` is `fifa18_23_players.json`;
   * `added` is `new_players_added`.
   */
  method MergePlayerData(existing: seq<Player>, incoming: seq<Player>) returns (merged: seq<Player>, added: nat)
    ensures merged == Merged(existing, incoming)
    ensures added == |Appended(existing, incoming)|
    ensures |merged| == |existing| + added
  {
    var keys := set p | p in existing :: MergeKey(p);
    assert keys == KeysOf(existing, MergeKey) by {
      forall k | k in keys ensures k in KeysOf(existing, MergeKey) {
        var p :| p in existing && MergeKey(p) == k;
        var i :| 0 <= i < |existing| && existing[i] == p;
      }
    }
    var players;
    players, added := AppendNewPlayers(existing, incoming, keys);
    merged := SortByKey(players);
    SortByKeySortedPermutation(players);
    assert |merged| == |multiset(merged)| == |multiset(players)| == |players|;
  }

  /**
   * The loop of `merge_player_data`: each incoming record whose key is not
   * in `keys` yet is appended, and its key added.
   */
  method AppendNewPlayers(existing: seq<Player>, incoming: seq<Player>, existingKeys: set<(string, string, int)>)
    returns (players: seq<Player>, added: nat)
    requires existingKeys == KeysOf(existing, MergeKey)
    ensures players == existing + Appended(existing, incoming)
    ensures added == |Appended(existing, incoming)|
  {
    ghost var known := existingKeys;
    var keys := existingKeys;
    players := existing;
    added := 0;
    var i := 0;
    while i < |incoming|
      invariant 0 <= i <= |incoming|
      invariant players == existing + FirstByKey(incoming[..i], MergeKey, known)
      invariant keys == known + KeysOf(FirstByKey(incoming[..i], MergeKey, known), MergeKey)
      invariant added == |FirstByKey(incoming[..i], MergeKey, known)|
    {
      var player := incoming[i];
      assert incoming[..i + 1] == incoming[..i] + [player];
      MergeStep(incoming[..i], player, known);
      var playerKey := (player.name, player.team, player.fifaVersion);
      if playerKey !in keys {
        players := players + [player];
        keys := keys + {playerKey};
        added := added + 1;
      }
      i := i + 1;
    }
    assert incoming[..|incoming|] == incoming;
  }

  /** One incoming record through the loop: appended, with its key added, iff its key is new. */
  lemma MergeStep(prefix: seq<Player>, player: Player, known: set<(string, string, int)>)
    ensures var d := FirstByKey(prefix, MergeKey, known);
      var keys := known + KeysOf(d, MergeKey);
      && (MergeKey(player) in keys ==> FirstByKey(prefix + [player], MergeKey, known) == d)
      && (MergeKey(player) !in keys ==>
            && FirstByKey(prefix + [player], MergeKey, known) == d + [player]
            && known + KeysOf(d + [player], MergeKey) == keys + {MergeKey(player)})
  {
    FirstByKeyExtend(prefix, player, MergeKey, known);
  }

  /**
   * What the merged file holds: every existing record (with its
   * multiplicity) and the appended ones, nothing else, sorted, with equal
   * sort keys in the order they had before the sort.
   */
  lemma MergedContents(existing: seq<Player>, incoming: seq<Player>)
    ensures var m := Merged(existing, incoming);
      && multiset(m) == multiset(existing) + multiset(Appended(existing, incoming))
      && SortedByKey(m)
      && forall v, n :: WithKey(m, v, n) == WithKey(existing + Appended(existing, incoming), v, n)
  {
    var a := Appended(existing, incoming);
    SortByKeySortedPermutation(existing + a);
    forall v, n ensures WithKey(Merged(existing, incoming), v, n) == WithKey(existing + a, v, n) {
      SortByKeyStable(existing + a, v, n);
    }
  }

  /**
   * The appended records: no key already present, no two with the same
   * key, and between them they bring exactly the incoming keys that were
   * new.
   */
  lemma AppendedAreNew(existing: seq<Player>, incoming: seq<Player>)
    ensures var a := Appended(existing, incoming);
      && AvoidsKeys(a, MergeKey, KeysOf(existing, MergeKey))
      && UniqueKeys(a, MergeKey)
      && KeysOf(a, MergeKey) == KeysOf(incoming, MergeKey) - KeysOf(existing, MergeKey)
      && (forall p :: p in a ==> p in incoming)
  {
    var known := KeysOf(existing, MergeKey);
    FirstByKeyUnique(incoming, MergeKey, known);
    FirstByKeyKeys(incoming, MergeKey, known);
    FirstByKeySubset(incoming, MergeKey, known);
  }

  /** An incoming record is appended exactly when it is the first of its key and the key was not there. */
  lemma AppendedAreFirstOccurrences(existing: seq<Player>, incoming: seq<Player>)
    ensures Appended(existing, incoming) == FirstPositions(incoming, MergeKey, KeysOf(existing, MergeKey))
  {
    FirstByKeyIsFirstPositions(incoming, MergeKey, KeysOf(existing, MergeKey));
  }

  lemma {:induction false} KeysOfPermutation(s: seq<Player>, t: seq<Player>)
    requires multiset(s) == multiset(t)
    ensures KeysOf(s, MergeKey) == KeysOf(t, MergeKey)
  {
    forall k | k in KeysOf(s, MergeKey) ensures k in KeysOf(t, MergeKey) {
      var i :| 0 <= i < |s| && MergeKey(s[i]) == k;
      assert s[i] in multiset(t);
      var j :| 0 <= j < |t| && t[j] == s[i];
    }
    forall k | k in KeysOf(t, MergeKey) ensures k in KeysOf(s, MergeKey) {
      var j :| 0 <= j < |t| && MergeKey(t[j]) == k;
      assert t[j] in multiset(s);
      var i :| 0 <= i < |s| && s[i] == t[j];
    }
  }

  /** After a merge, every key of the existing and the incoming lists is present. */
  lemma MergedKeys(existing: seq<Player>, incoming: seq<Player>)
    ensures KeysOf(Merged(existing, incoming), MergeKey) ==
      KeysOf(existing, MergeKey) + KeysOf(incoming, MergeKey)
  {
    var a := Appended(existing, incoming);
    SortByKeySortedPermutation(existing + a);
    KeysOfPermutation(Merged(existing, incoming), existing + a);
    KeysOfAppend(existing, a, MergeKey);
    FirstByKeyKeys(incoming, MergeKey, KeysOf(existing, MergeKey));
  }

  /** Running the merge a second time with the same input adds nothing and changes nothing. */
  lemma MergeIdempotent(existing: seq<Player>, incoming: seq<Player>)
    ensures var m := Merged(existing, incoming);
      Appended(m, incoming) == [] && Merged(m, incoming) == m
  {
    var m := Merged(existing, incoming);
    MergedKeys(existing, incoming);
    FirstByKeyAllSeen(incoming, MergeKey, KeysOf(m, MergeKey));
    assert m + [] == m;
    SortByKeySortedPermutation(existing + Appended(existing, incoming));
    SortByKeyOfSorted(m);
  }
}
