/** The two `os.path` operations the script uses, as Windows (`ntpath`)
    performs them: `splitext` (only its extension half) and `join`. */
module PyPath {
  import opened PyStr

  const VideoExtensions: seq<string> := [".mp4", ".mov"]

  predicate IsSep(c: char) { c == '\\' || c == '/' }

  /** `s.rfind(c)`: the last position of `c` in `s`, or -1. */
  function RFind(s: string, c: char): (r: int)
    ensures -1 <= r < |s|
    ensures r >= 0 ==> s[r] == c
    ensures forall k :: r < k < |s| ==> s[k] != c
  {
    if s == [] then -1
    else if s[|s| - 1] == c then |s| - 1
    else RFind(s[..|s| - 1], c)
  }

  function Max(a: int, b: int): int { if a < b then b else a }

  /** `os.path.splitext(p)[1]`: from the last dot of the last path component,
      provided that component has something other than dots before it. */
  function Extension(p: string): (ext: string)
    ensures ext == [] || (|ext| <= |p| && ext == p[|p| - |ext|..] && ext[0] == '.' && '.' !in ext[1..])
  {
    var sepIndex := Max(RFind(p, '\\'), RFind(p, '/'));
    var dotIndex := RFind(p, '.');
    if dotIndex > sepIndex && exists k :: sepIndex + 1 <= k < dotIndex && p[k] != '.' then
      DotSuffix(p, dotIndex);
      p[dotIndex..]
    else ""
  }

  /** The text from the last dot on starts with that dot and has no other. */
  lemma DotSuffix(p: string, d: int)
    requires 0 <= d < |p| && p[d] == '.'
    requires forall k :: d < k < |p| ==> p[k] != '.'
    ensures |p[d..]| <= |p| && p[d..] == p[|p| - |p[d..]|..]
    ensures p[d..][0] == '.' && '.' !in p[d..][1..]
  {
    assert p[d..][1..] == p[d + 1..];
  }

  /** A file name whose last component ends in `.e` has extension `.e`,
      as long as that component is not made of dots only before it. */
  lemma ExtensionOfName(dir: string, stem: string, e: string)
    requires forall i :: 0 <= i < |stem| ==> !IsSep(stem[i])
    requires exists i :: 0 <= i < |stem| && stem[i] != '.'
    requires forall i :: 0 <= i < |e| ==> !IsSep(e[i]) && e[i] != '.'
    ensures Extension(dir + stem + "." + e) == "." + e
  {
    var p := dir + stem + "." + e;
    var d := |dir| + |stem|;
    assert p[d] == '.';
    assert forall k :: d < k < |p| ==> p[k] == e[k - d - 1];
    var dotIndex := RFind(p, '.');
    assert dotIndex == d;
    assert forall k :: |dir| <= k < |p| ==> !IsSep(p[k]) by {
      forall k | |dir| <= k < |p| ensures !IsSep(p[k]) {
        if k < d { assert p[k] == stem[k - |dir|]; }
      }
    }
    var sepIndex := Max(RFind(p, '\\'), RFind(p, '/'));
    assert sepIndex < |dir|;
    var i :| 0 <= i < |stem| && stem[i] != '.';
    assert p[|dir| + i] == stem[i];
    assert p[d..] == "." + e;
  }

  /** A last path component without a dot gives no extension. */
  lemma NoDotNoExtension(dir: string, name: string)
    requires dir == [] || IsSep(dir[|dir| - 1])
    requires forall i :: 0 <= i < |name| ==> !IsSep(name[i]) && name[i] != '.'
    ensures Extension(dir + name) == ""
  {
    var p := dir + name;
    assert forall k :: |dir| <= k < |p| ==> p[k] == name[k - |dir|];
    assert RFind(p, '.') < |dir|;
    if dir != [] {
      assert p[|dir| - 1] == dir[|dir| - 1];
      assert Max(RFind(p, '\\'), RFind(p, '/')) >= |dir| - 1;
    }
  }

  /** The script's video test: the lower-cased extension is `.mp4` or `.mov`. */
  predicate IsVideoPath(p: string)
  {
    Lower(Extension(p)) in VideoExtensions
  }

  /** `ntpath.join(root, *parts)` for parts without a drive letter: a part that
      starts with a separator restarts the path; otherwise a backslash is put
      in between unless the path so far is empty or already ends in one. */
  function Join(root: string, parts: seq<string>): string
    decreases |parts|
  {
    if parts == [] then root
    else
      var p := parts[0];
      var next :=
        if |p| > 0 && IsSep(p[0]) then p
        else if |root| > 0 && !IsSep(root[|root| - 1]) then root + "\\" + p
        else root + p;
      Join(next, parts[1..])
  }

  predicate PlainComponent(p: string)
  {
    |p| > 0 && forall i :: 0 <= i < |p| ==> !IsSep(p[i])
  }

  /** Joining plain components under a root that does not end in a separator
      puts exactly one backslash before each of them. */
  lemma {:induction false} JoinPlain(root: string, parts: seq<string>)
    requires |root| > 0 && !IsSep(root[|root| - 1])
    requires |parts| > 0
    requires forall i :: 0 <= i < |parts| ==> PlainComponent(parts[i])
    ensures Join(root, parts) == root + "\\" + JoinWith(parts, '\\')
    decreases |parts|
  {
    var p := parts[0];
    var next := root + "\\" + p;
    assert Join(root, parts) == Join(next, parts[1..]);
    if |parts| > 1 {
      assert next[|next| - 1] == p[|p| - 1];
      JoinPlain(next, parts[1..]);
      assert JoinWith(parts, '\\') == p + "\\" + JoinWith(parts[1..], '\\');
    }
  }
}
