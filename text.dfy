/**
 * String and path helpers shared by all the scripts: an ASCII model of the
 * Python `str` methods they call (`isdigit`, `isspace`, `lower`, `strip`,
 * `split`, `startswith`, comparison with `<`) and of `os.path.basename`,
 * `os.path.splitext` and `pathlib` path joining and stems.
 */
module Text {

  /** `str.isdigit` on one character, restricted to the ASCII digits. */
  predicate IsDigit(c: char) {
    '0' <= c <= '9'
  }

  /** The ASCII characters for which `str.isspace` holds. */
  predicate IsSpace(c: char) {
    c == ' ' || ('\t' <= c <= '\r') || ('\U{1C}' <= c <= '\U{1F}')
  }

  predicate NoSpace(s: string) {
    forall i :: 0 <= i < |s| ==> !IsSpace(s[i])
  }

  predicate AllSpace(s: string) {
    forall i :: 0 <= i < |s| ==> IsSpace(s[i])
  }

  /** `str.isdigit` on a whole string: non-empty and every character a digit. */
  predicate AllDigits(s: string) {
    s != [] && forall i :: 0 <= i < |s| ==> IsDigit(s[i])
  }

  function LowerChar(c: char): (r: char)
    ensures IsSpace(r) <==> IsSpace(c)
  {
    if 'A' <= c <= 'Z' then (c as int + 32) as char else c
  }

  predicate IsUpper(c: char) {
    'A' <= c <= 'Z'
  }

  /**
   * `str.lower()`, restricted to the ASCII letters: no capital is left,
   * every other character stays where it was, and a string without
   * capitals is returned unchanged (and only such a string).
   */
  function Lower(s: string): (r: string)
    ensures |r| == |s|
    ensures forall i :: 0 <= i < |s| ==> r[i] == LowerChar(s[i])
    ensures forall i :: 0 <= i < |r| ==> !IsUpper(r[i])
    ensures forall i :: 0 <= i < |s| && !IsUpper(s[i]) ==> r[i] == s[i]
    ensures r == s <==> forall i :: 0 <= i < |s| ==> !IsUpper(s[i])
  {
    seq(|s|, i requires 0 <= i < |s| => LowerChar(s[i]))
  }

  lemma LowerIdempotent(s: string)
    ensures Lower(Lower(s)) == Lower(s)
  {
  }

  /** `s.startswith(p)`. */
  predicate StartsWith(s: string, p: string) {
    |p| <= |s| && s[..|p|] == p
  }

  /** `s.endswith(p)`. */
  predicate EndsWith(s: string, p: string) {
    |p| <= |s| && s[|s| - |p|..] == p
  }

  /** `str.strip()` is built from these two. */
  function TrimLeft(s: string): (r: string)
    ensures |r| <= |s| && r == s[|s| - |r|..]
    ensures r == [] || !IsSpace(r[0])
    ensures forall i :: 0 <= i < |s| - |r| ==> IsSpace(s[i])
  {
    if s != [] && IsSpace(s[0]) then TrimLeft(s[1..]) else s
  }

  function TrimRight(s: string): (r: string)
    ensures |r| <= |s| && r == s[..|r|]
    ensures r == [] || !IsSpace(r[|r| - 1])
    ensures forall i :: |r| <= i < |s| ==> IsSpace(s[i])
  {
    if s != [] && IsSpace(s[|s| - 1]) then TrimRight(s[..|s| - 1]) else s
  }

  /** `str.strip()` with no argument. */
  function Strip(s: string): (r: string) {
    TrimRight(TrimLeft(s))
  }

  /** Length of the trailing run of non-space characters of s. */
  function TrailingWordLen(s: string): (n: nat)
    ensures n <= |s|
    ensures NoSpace(s[|s| - n..])
    ensures n == |s| || IsSpace(s[|s| - n - 1])
  {
    if s == [] || IsSpace(s[|s| - 1]) then 0
    else
      var n := TrailingWordLen(s[..|s| - 1]);
      assert s[..|s| - 1][|s| - 1 - n..] + [s[|s| - 1]] == s[|s| - 1 - n..];
      1 + n
  }

  /**
   * `str.split()` with no argument: the maximal runs of non-space
   * characters, in order. Defined from the right, so that the last word is
   * the last element.
   */
  function Split(s: string): (words: seq<string>)
    ensures forall k :: 0 <= k < |words| ==> words[k] != [] && NoSpace(words[k])
    ensures words == [] <==> AllSpace(s)
  {
    if s == [] then []
    else if IsSpace(s[|s| - 1]) then
      assert forall i :: 0 <= i < |s| - 1 ==> s[..|s| - 1][i] == s[i];
      Split(s[..|s| - 1])
    else
      var n := TrailingWordLen(s);
      Split(s[..|s| - n]) + [s[|s| - n..]]
  }

  /** Index of the last occurrence of c in s, or -1 (`str.rfind`). */
  function RFind(s: string, c: char): (r: int)
    ensures -1 <= r < |s|
    ensures r >= 0 ==> s[r] == c
    ensures forall k :: r < k < |s| ==> s[k] != c
  {
    if s == [] then -1
    else if s[|s| - 1] == c then |s| - 1
    else RFind(s[..|s| - 1], c)
  }

  /** `os.path.basename`: the text after the last '/'. */
  function Basename(path: string): (r: string)
    ensures |r| <= |path| && r == path[|path| - |r|..]
    ensures |r| == |path| || path[|path| - |r| - 1] == '/'
    ensures '/' !in r
  {
    path[RFind(path, '/') + 1..]
  }

  /** The basename of "<dir>/<name>" is name when name has no '/'. */
  lemma BasenameOfJoin(dir: string, name: string)
    requires '/' !in name
    ensures Basename(dir + "/" + name) == name
  {
    var path := dir + "/" + name;
    assert path[|dir|] == '/';
    forall k | |dir| < k < |path| ensures path[k] != '/' {
      assert path[k] == name[k - |dir| - 1];
    }
    RFindAfterLast(path, '/', |dir|);
  }

  /** Every character of s is '.' (vacuously so for ""). */
  predicate AllDots(s: string) {
    s == [] || (s[0] == '.' && AllDots(s[1..]))
  }

  /**
   * The root of `os.path.splitext(name)` for a name without '/': the text
   * before the last '.', except when everything before that dot is dots
   * (".png" and "..png" have no extension).
   */
  function SplitExtRoot(name: string): (r: string)
    ensures |r| <= |name| && r == name[..|r|]
  {
    var d := RFind(name, '.');
    if d >= 0 && !AllDots(name[..d]) then name[..d] else name
  }

  /**
   * The id of an image path or URL, `os.path.splitext(os.path.basename(path))[0]`:
   * every script names its image files by it.
   */
  function FileId(path: string): (r: string)
    ensures '/' !in r
  {
    var b := Basename(path);
    var r := SplitExtRoot(b);
    assert forall k :: 0 <= k < |r| ==> r[k] == b[k];
    r
  }

  /** The id of "<dir>/<id>.png" is id again, unless id is all dots. */
  lemma FileIdOfPngPath(dir: string, id: string)
    requires '/' !in id
    ensures FileId(dir + "/" + id + ".png") == if AllDots(id) then id + ".png" else id
  {
    var name := id + ".png";
    assert '/' !in name by {
      assert forall k :: 0 <= k < |id| ==> name[k] == id[k];
    }
    assert dir + "/" + id + ".png" == dir + "/" + name;
    BasenameOfJoin(dir, name);
    SplitExtRootOfPng(id);
  }

  /** `pathlib.PurePath.stem` of a file name without '/'. */
  function PathStem(name: string): string {
    var i := RFind(name, '.');
    if 0 < i < |name| - 1 then name[..i] else name
  }

  /**
   * `str(pathlib.Path(dir) / name)` for a name without '/': pathlib drops an
   * empty or "." segment, so joining either leaves the directory itself;
   * any other name, ".." included, is appended after a '/'.
   */
  function JoinPath(dir: string, name: string): string {
    if name == "" || name == "." then dir else dir + "/" + name
  }

  /** Appending ".png" to a root that is not all dots gives back that root. */
  lemma {:induction false} SplitExtRootOfPng(root: string)
    ensures SplitExtRoot(root + ".png") == if AllDots(root) then root + ".png" else root
  {
    var name := root + ".png";
    assert name[|root|] == '.';
    assert RFind(name, '.') == |root| by {
      RFindAfterLast(name, '.', |root|);
    }
    assert name[..|root|] == root;
  }

  lemma RFindAfterLast(s: string, c: char, k: nat)
    requires k < |s| && s[k] == c
    requires forall j :: k < j < |s| ==> s[j] != c
    ensures RFind(s, c) == k
  {
  }

  /** The `pathlib` stem of "<root>.png" is root unless root is empty. */
  lemma {:induction false} PathStemOfPng(root: string)
    ensures PathStem(root + ".png") == if root == "" then ".png" else root
  {
    var name := root + ".png";
    RFindAfterLast(name, '.', |root|);
    assert name[..|root|] == root;
  }

  /** Python's `<` on `str`: lexicographic by code point, a proper prefix first. */
  predicate StrLt(a: string, b: string)
    decreases |a|
  {
    if a == [] then b != []
    else if b == [] then false
    else if a[0] != b[0] then a[0] < b[0]
    else StrLt(a[1..], b[1..])
  }

  predicate StrLe(a: string, b: string) {
    a == b || StrLt(a, b)
  }

  lemma {:induction false} StrLtIrreflexive(a: string)
    ensures !StrLt(a, a)
    decreases |a|
  {
    if a != [] {
      StrLtIrreflexive(a[1..]);
    }
  }

  lemma {:induction false} StrLtTransitive(a: string, b: string, c: string)
    requires StrLt(a, b) && StrLt(b, c)
    ensures StrLt(a, c)
    decreases |a|
  {
    if a != [] && a[0] == b[0] && b[0] == c[0] {
      StrLtTransitive(a[1..], b[1..], c[1..]);
    }
  }

  lemma {:induction false} StrLtTotal(a: string, b: string)
    ensures a == b || StrLt(a, b) || StrLt(b, a)
    decreases |a|
  {
    if a != [] && b != [] && a[0] == b[0] {
      StrLtTotal(a[1..], b[1..]);
      if a[1..] == b[1..] {
        assert a == [a[0]] + a[1..] && b == [b[0]] + b[1..];
      }
    }
  }

  lemma StrLtAsymmetric(a: string, b: string)
    ensures !(StrLt(a, b) && StrLt(b, a))
  {
    if StrLt(a, b) && StrLt(b, a) {
      StrLtTransitive(a, b, a);
      StrLtIrreflexive(a);
    }
  }
}
