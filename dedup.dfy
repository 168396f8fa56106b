/**
 * First-occurrence-wins de-duplication over an accumulating key set: the
 * shape of the loop `if key not in seen: seen.add(key); out.append(x)`
 * shared by the scraper's per-version pass and the historical merge.
 */
module Dedup {

  function KeysOf<T, K>(s: seq<T>, key: T -> K): set<K> {
    set i | 0 <= i < |s| :: key(s[i])
  }

  lemma KeysOfAppend<T, K>(s: seq<T>, t: seq<T>, key: T -> K)
    ensures KeysOf(s + t, key) == KeysOf(s, key) + KeysOf(t, key)
  {
    var st := s + t;
    forall k | k in KeysOf(st, key) ensures k in KeysOf(s, key) + KeysOf(t, key) {
      var i :| 0 <= i < |st| && key(st[i]) == k;
      if i < |s| { assert st[i] == s[i]; } else { assert st[i] == t[i - |s|]; }
    }
    forall k | k in KeysOf(s, key) + KeysOf(t, key) ensures k in KeysOf(st, key) {
      if k in KeysOf(s, key) {
        var i :| 0 <= i < |s| && key(s[i]) == k;
        assert st[i] == s[i];
      } else {
        var i :| 0 <= i < |t| && key(t[i]) == k;
        assert st[|s| + i] == t[i];
      }
    }
  }

  /**
   * The records of s, in order, that the loop keeps when its seen-set
   * starts as `seen`: a record is kept iff its key is neither in `seen` nor
   * the key of a record kept before it.
   */
  function FirstByKey<T, K>(s: seq<T>, key: T -> K, seen: set<K>): seq<T>
  {
    if s == [] then []
    else
      var d := FirstByKey(s[..|s| - 1], key, seen);
      if key(s[|s| - 1]) in seen + KeysOf(d, key) then d else d + [s[|s| - 1]]
  }

  /** Position i holds the first occurrence of its key, and that key was not seen before. */
  predicate IsFirst<T, K>(s: seq<T>, key: T -> K, seen: set<K>, i: nat)
    requires i < |s|
  {
    key(s[i]) !in seen && forall j :: 0 <= j < i ==> key(s[j]) != key(s[i])
  }

  /** Reference definition: the subsequence of s at its first-occurrence positions. */
  function FirstPositions<T, K>(s: seq<T>, key: T -> K, seen: set<K>): seq<T>
  {
    if s == [] then []
    else FirstPositions(s[..|s| - 1], key, seen) + (if IsFirst(s, key, seen, |s| - 1) then [s[|s| - 1]] else [])
  }

  /** The kept keys are exactly the keys of s that were not already seen. */
  lemma {:induction false} FirstByKeyKeys<T, K>(s: seq<T>, key: T -> K, seen: set<K>)
    ensures KeysOf(FirstByKey(s, key, seen), key) == KeysOf(s, key) - seen
  {
    if s != [] {
      var p := s[..|s| - 1];
      var x := s[|s| - 1];
      var d := FirstByKey(p, key, seen);
      FirstByKeyKeys(p, key, seen);
      assert s == p + [x];
      KeysOfAppend(p, [x], key);
      assert KeysOf([x], key) == {key(x)};
      if key(x) !in seen + KeysOf(d, key) {
        KeysOfAppend(d, [x], key);
      }
    }
  }

  /** The loop keeps exactly the first-occurrence positions, in their original order. */
  lemma {:induction false} FirstByKeyIsFirstPositions<T, K>(s: seq<T>, key: T -> K, seen: set<K>)
    ensures FirstByKey(s, key, seen) == FirstPositions(s, key, seen)
  {
    if s != [] {
      var p := s[..|s| - 1];
      var x := s[|s| - 1];
      FirstByKeyIsFirstPositions(p, key, seen);
      FirstByKeyKeys(p, key, seen);
      if key(x) in KeysOf(p, key) - seen {
        var j :| 0 <= j < |p| && key(p[j]) == key(x);
        assert s[j] == p[j];
        assert !IsFirst(s, key, seen, |s| - 1);
      } else if key(x) !in seen {
        forall j | 0 <= j < |s| - 1 ensures key(s[j]) != key(x) {
          assert s[j] == p[j];
        }
      }
    }
  }

  predicate UniqueKeys<T, K(==)>(r: seq<T>, key: T -> K) {
    forall i, j :: 0 <= i < j < |r| ==> key(r[i]) != key(r[j])
  }

  predicate AvoidsKeys<T, K>(r: seq<T>, key: T -> K, seen: set<K>) {
    forall i :: 0 <= i < |r| ==> key(r[i]) !in seen
  }

  /** No two kept records share a key, and no kept key was seen before. */
  lemma {:induction false} FirstByKeyUnique<T, K>(s: seq<T>, key: T -> K, seen: set<K>)
    ensures UniqueKeys(FirstByKey(s, key, seen), key)
    ensures AvoidsKeys(FirstByKey(s, key, seen), key, seen)
  {
    if s != [] {
      var p := s[..|s| - 1];
      var x := s[|s| - 1];
      var d := FirstByKey(p, key, seen);
      FirstByKeyUnique(p, key, seen);
      if key(x) !in seen + KeysOf(d, key) {
        var r := d + [x];
        forall i | 0 <= i < |d| ensures key(r[i]) != key(x) {
          assert r[i] == d[i];
          assert key(d[i]) in KeysOf(d, key);
        }
        assert r[|d|] == x;
        assert forall i :: 0 <= i < |d| ==> r[i] == d[i];
      }
    }
  }

  /** Every kept record is a record of s. */
  lemma {:induction false} FirstByKeySubset<T, K>(s: seq<T>, key: T -> K, seen: set<K>)
    ensures forall x :: x in FirstByKey(s, key, seen) ==> x in s
    ensures |FirstByKey(s, key, seen)| <= |s|
  {
    if s != [] {
      FirstByKeySubset(s[..|s| - 1], key, seen);
      assert forall x :: x in s[..|s| - 1] ==> x in s;
    }
  }

  /** When every key of s was already seen, nothing is kept. */
  lemma {:induction false} FirstByKeyAllSeen<T, K>(s: seq<T>, key: T -> K, seen: set<K>)
    requires KeysOf(s, key) <= seen
    ensures FirstByKey(s, key, seen) == []
  {
    if s != [] {
      var p := s[..|s| - 1];
      assert s == p + [s[|s| - 1]];
      KeysOfAppend(p, [s[|s| - 1]], key);
      assert KeysOf([s[|s| - 1]], key) == {key(s[|s| - 1])};
      FirstByKeyAllSeen(p, key, seen);
    }
  }

  /** One step of the loop: appending x to the input appends x to the output iff its key is new. */
  lemma FirstByKeySnoc<T, K>(s: seq<T>, x: T, key: T -> K, seen: set<K>)
    ensures FirstByKey(s + [x], key, seen) ==
      var d := FirstByKey(s, key, seen);
      if key(x) in seen + KeysOf(d, key) then d else d + [x]
  {
    assert (s + [x])[..|s|] == s;
  }

  /**
   * One step of the loop as the callers run it, with `seen` the keys known
   * before the loop: x is appended iff its key is neither known nor kept
   * yet, and then its key joins the kept keys.
   */
  lemma FirstByKeyExtend<T, K>(s: seq<T>, x: T, key: T -> K, seen: set<K>)
    ensures var d := FirstByKey(s, key, seen);
      && (key(x) in seen + KeysOf(d, key) ==> FirstByKey(s + [x], key, seen) == d)
      && (key(x) !in seen + KeysOf(d, key) ==>
            FirstByKey(s + [x], key, seen) == d + [x] &&
            KeysOf(d + [x], key) == KeysOf(d, key) + {key(x)})
  {
    var d := FirstByKey(s, key, seen);
    FirstByKeySnoc(s, x, key, seen);
    KeysOfAppend(d, [x], key);
    assert KeysOf([x], key) == {key(x)};
  }
}
