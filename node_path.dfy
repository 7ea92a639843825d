// The parts of Node's POSIX `path` module and of String.prototype that the
// file-name rules rely on: join, basename, extname, endsWith, toLowerCase.

module NodePath {

  /** `s.endsWith(suffix)`. */
  predicate EndsWith(s: string, suffix: string) {
    |suffix| <= |s| && s[|s| - |suffix|..] == suffix
  }

  /**
    * `path.join(dir, name)` for a name that is one path segment. The
    * separator is added only where `dir` does not already end in one, and an
    * empty `dir` contributes nothing.
    */
  function Join(dir: string, name: string): (p: string)
    ensures dir <= p && EndsWith(p, name)
    ensures |dir| + |name| <= |p| <= |dir| + 1 + |name|
    ensures dir != [] && dir[|dir| - 1] != '/' ==> p == dir + "/" + name
    ensures dir == [] || dir[|dir| - 1] == '/' ==> p == dir + name
  {
    if dir == [] then name
    else if dir[|dir| - 1] == '/' then dir + name
    else dir + "/" + name
  }

  /**
    * Index of the last occurrence of `c` in `s`, or -1 when there is none
    * (`String.prototype.lastIndexOf`).
    */
  function LastIndexOf(s: string, c: char): (k: int)
    ensures -1 <= k < |s|
    ensures k >= 0 ==> s[k] == c
    ensures forall j :: k < j < |s| ==> s[j] != c
  {
    if s == [] then -1
    else if s[|s| - 1] == c then |s| - 1
    else LastIndexOf(s[..|s| - 1], c)
  }

  /** `s` without the '/' characters it ends with. */
  function TrimTrailingSlashes(s: string): (t: string)
    ensures t <= s
    ensures t == [] || t[|t| - 1] != '/'
    ensures forall j :: |t| <= j < |s| ==> s[j] == '/'
  {
    if s != [] && s[|s| - 1] == '/' then TrimTrailingSlashes(s[..|s| - 1]) else s
  }

  /** `path.basename(p)`: the last segment of `p`, ignoring trailing separators. */
  function Basename(p: string): (b: string)
    ensures '/' !in b
  {
    var q := TrimTrailingSlashes(p);
    q[LastIndexOf(q, '/') + 1..]
  }

  /**
    * The basename is the last segment: a '/'-free tail of the path without
    * its trailing separators that is either all of it or preceded by a '/'.
    */
  lemma BasenameIsLastSegment(p: string)
    ensures var q, b := TrimTrailingSlashes(p), Basename(p);
      EndsWith(q, b) && (|b| < |q| ==> q[|q| - |b| - 1] == '/')
  {
    var q := TrimTrailingSlashes(p);
    var k := LastIndexOf(q, '/');
    assert Basename(p) == q[k + 1..];
    assert q[|q| - |q[k + 1..]|..] == q[k + 1..];
  }

  /**
    * `path.extname(p)`: the last segment's suffix from its last '.', or the
    * empty string when that segment has no '.', when its only '.' that could
    * start an extension is its first character, or when the segment is "..".
    */
  function Extname(p: string): string {
    var b := Basename(p);
    var d := LastIndexOf(b, '.');
    if d <= 0 || b == ".." then "" else b[d..]
  }

  /**
    * An extension is empty or a '.' followed by no further '.' or separator,
    * and it is a suffix of the path's basename.
    */
  lemma ExtnameShape(p: string)
    ensures var e := Extname(p);
      (e == [] || (e[0] == '.' && '.' !in e[1..] && '/' !in e)) &&
      EndsWith(Basename(p), e)
  {
  }

  /** Lower-cases an ASCII letter and leaves every other character alone. */
  function LowerChar(c: char): char {
    if 'A' <= c <= 'Z' then (c as int - 'A' as int + 'a' as int) as char else c
  }

  /**
    * `s.toLowerCase()` restricted to ASCII letters. Other letters are left
    * alone; none of them lower-cases to '.', 'p', 'n' or 'g', so comparing
    * the result with ".png" gives the same answer as the full mapping.
    */
  function ToLower(s: string): (t: string) {
    seq(|s|, i requires 0 <= i < |s| => LowerChar(s[i]))
  }

  /**
    * Lower-casing keeps the length, leaves no upper-case ASCII letter, maps
    * each upper-case letter to its lower-case partner 32 code points above,
    * and changes no other character.
    */
  lemma ToLowerShape(s: string)
    ensures var t := ToLower(s);
      |t| == |s| &&
      (forall i :: 0 <= i < |t| ==> !('A' <= t[i] <= 'Z')) &&
      (forall i :: 0 <= i < |s| && !('A' <= s[i] <= 'Z') ==> t[i] == s[i]) &&
      (forall i :: 0 <= i < |s| && 'A' <= s[i] <= 'Z' ==> t[i] as int == s[i] as int + 32)
  {
  }

  /** The last '/' of a string is the last '/' of its end, if that has one, and is otherwise found before it. */
  lemma {:induction false} LastIndexOfAppend(s: string, t: string, c: char)
    requires c !in t
    ensures LastIndexOf(s + t, c) == LastIndexOf(s, c)
    decreases |t|
  {
    if t != [] {
      assert (s + t)[..|s + t| - 1] == s + t[..|t| - 1];
      LastIndexOfAppend(s, t[..|t| - 1], c);
    } else {
      assert s + t == s;
    }
  }

  /** A segment joined onto a directory is that path's basename. */
  lemma BasenameOfJoin(dir: string, name: string)
    requires name != [] && '/' !in name
    ensures Basename(Join(dir, name)) == name
  {
    var p := Join(dir, name);
    assert TrimTrailingSlashes(p) == p by {
      assert p[|p| - 1] == name[|name| - 1];
    }
    if dir == [] {
      LastIndexOfAppend([], name, '/');
      assert [] + name == name;
    } else {
      var d := if dir[|dir| - 1] == '/' then dir else dir + "/";
      assert p == d + name;
      LastIndexOfAppend(d, name, '/');
      assert LastIndexOf(d, '/') == |d| - 1;
    }
  }

  /** An entry name (no separator) is its own basename. */
  lemma BasenameOfName(name: string)
    requires '/' !in name
    ensures Basename(name) == name
  {
    if name != [] {
      assert name[|name| - 1] in name;
    }
  }

  /** The extension of an entry name that has a '.' at position d > 0 and none after it. */
  lemma ExtnameOfName(name: string, d: nat)
    requires '/' !in name && 0 < d < |name| && name[d] == '.' && '.' !in name[d + 1..]
    requires name != ".."
    ensures Extname(name) == name[d..]
  {
    BasenameOfName(name);
  }

  /** An entry name with no '.' past its first character has no extension. */
  lemma NoExtname(name: string)
    requires '/' !in name
    requires forall j :: 0 < j < |name| ==> name[j] != '.'
    ensures Extname(name) == ""
  {
    BasenameOfName(name);
  }

  /** Joining a segment onto a directory keeps the segment's extension. */
  lemma ExtnameOfJoin(dir: string, name: string)
    requires name != [] && '/' !in name
    ensures Extname(Join(dir, name)) == Extname(name)
  {
    BasenameOfJoin(dir, name);
    BasenameOfName(name);
  }
}
