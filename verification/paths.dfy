/** String paths as `os.path` treats them: separators, `join`, `basename`
    and `splitext`. On Windows both `\` and `/` separate components and
    `join` inserts `\`; elsewhere only `/` does. */
module Paths {
  import opened Text

  predicate IsSep(c: char, windows: bool) {
    c == '/' || (windows && c == '\\')
  }

  function SepChar(windows: bool): char {
    if windows then '\\' else '/'
  }

  predicate NoSep(s: string, windows: bool) {
    forall k :: 0 <= k < |s| ==> !IsSep(s[k], windows)
  }

  /** `os.path.join(a, b)` for a relative `b`: a separator is inserted only
      when `a` is non-empty and does not already end with one. */
  function JoinPath(a: string, b: string, windows: bool): (r: string)
    ensures |r| >= |a| + |b|
    ensures r[..|a|] == a && EndsWith(r, b)
    ensures a == "" ==> r == b
    ensures a != "" && !IsSep(a[|a| - 1], windows) ==> r == a + [SepChar(windows)] + b
    ensures a != "" && IsSep(a[|a| - 1], windows) ==> r == a + b
  {
    if a == "" then b
    else if IsSep(a[|a| - 1], windows) then a + b
    else a + [SepChar(windows)] + b
  }

  /** What `os.path.join` keeps of `a` in front of a following relative
      component: `a` itself, followed by a separator unless `a` is empty or
      already ends with one. */
  function JoinPrefix(a: string, windows: bool): string {
    if a == "" || IsSep(a[|a| - 1], windows) then a else a + [SepChar(windows)]
  }

  /** `os.path.basename`: everything after the last separator. */
  function Basename(p: string, windows: bool): (b: string)
    ensures |b| <= |p| && b == p[|p| - |b|..]
    ensures NoSep(b, windows)
    ensures |b| < |p| ==> IsSep(p[|p| - |b| - 1], windows)
  {
    if |p| == 0 || IsSep(p[|p| - 1], windows) then ""
    else Basename(p[..|p| - 1], windows) + [p[|p| - 1]]
  }

  /** A name without separators, placed after a separator (or alone), is
      its own basename. */
  lemma {:induction false} BasenameOfJoined(dir: string, name: string, windows: bool)
    requires dir == "" || IsSep(dir[|dir| - 1], windows)
    requires NoSep(name, windows)
    ensures Basename(dir + name, windows) == name
    decreases |name|
  {
    var p := dir + name;
    if |name| == 0 {
      assert p == dir;
    } else {
      var init := name[..|name| - 1];
      assert p[..|p| - 1] == dir + init;
      assert p[|p| - 1] == name[|name| - 1];
      assert !IsSep(p[|p| - 1], windows);
      assert NoSep(init, windows);
      BasenameOfJoined(dir, init, windows);
      assert Basename(p, windows) == Basename(dir + init, windows) + [p[|p| - 1]];
      assert name == init + [name[|name| - 1]];
    }
  }

  predicate AllDots(s: string) {
    forall k :: 0 <= k < |s| ==> s[k] == '.'
  }

  /** Joining a separator-free name onto any directory makes that name
      the basename. */
  lemma BasenameOfJoinPath(dir: string, name: string, windows: bool)
    requires NoSep(name, windows)
    ensures Basename(JoinPath(dir, name, windows), windows) == name
  {
    if dir == "" {
      BasenameOfJoined("", name, windows);
      assert JoinPath(dir, name, windows) == "" + name;
    } else if IsSep(dir[|dir| - 1], windows) {
      BasenameOfJoined(dir, name, windows);
    } else {
      var d := dir + [SepChar(windows)];
      BasenameOfJoined(d, name, windows);
      assert JoinPath(dir, name, windows) == d + name;
    }
  }

  /** Index of the last `c` in `s`, if any. */
  function LastIndexOf(s: string, c: char): (r: int)
    ensures -1 <= r < |s|
    ensures r >= 0 ==> s[r] == c
    ensures forall k :: r < k < |s| ==> s[k] != c
  {
    if |s| == 0 then -1
    else if s[|s| - 1] == c then |s| - 1
    else LastIndexOf(s[..|s| - 1], c)
  }

  /** The extension `os.path.splitext` reports for a file name: from its last
      dot to the end, unless everything before that dot is dots (so `.bashrc`
      and `..` have none). */
  function NameExtension(name: string): (e: string)
    ensures e == "" || (e[0] == '.' && '.' !in e[1..])
    ensures EndsWith(name, e)
    ensures e != "" ==> !AllDots(name[..|name| - |e|])
  {
    var i := LastIndexOf(name, '.');
    if i >= 0 && !AllDots(name[..i]) then
      name[i..]
    else ""
  }

  /** `os.path.splitext(p)[1]`. */
  function Extension(p: string, windows: bool): (e: string)
    ensures e == "" || (e[0] == '.' && '.' !in e[1..])
    ensures EndsWith(p, e) && NoSep(e, windows)
  {
    var b := Basename(p, windows);
    var e := NameExtension(b);
    assert EndsWith(p, e) && NoSep(e, windows) by {
      SuffixOfSuffix(p, b, e, windows);
    }
    e
  }

  /** A suffix of a separator-free suffix is itself a separator-free suffix. */
  lemma SuffixOfSuffix(p: string, b: string, e: string, windows: bool)
    requires EndsWith(p, b) && EndsWith(b, e) && NoSep(b, windows)
    ensures EndsWith(p, e) && NoSep(e, windows)
  {
    forall k | 0 <= k < |e| ensures p[|p| - |e| + k] == e[k] && !IsSep(e[k], windows) {
      assert e[k] == b[|b| - |e| + k];
      assert p[|p| - |b| + (|b| - |e| + k)] == b[|b| - |e| + k];
    }
    assert p[|p| - |e|..] == e;
  }

  /** The last dot of `stem + e` is the first character of `e` when `e`
      has no other dot. */
  lemma LastDotOfName(stem: string, e: string)
    requires |e| > 0 && e[0] == '.' && '.' !in e[1..]
    ensures LastIndexOf(stem + e, '.') == |stem|
  {
    var name := stem + e;
    assert name[|stem|] == '.';
    assert forall k :: |stem| < k < |name| ==> name[k] == e[1..][k - |stem| - 1];
  }

  /** A file name made of a stem that is not all dots and a suffix `e` that
      starts with its only dot has exactly the extension `e`. */
  lemma NameExtensionOfName(stem: string, e: string)
    requires !AllDots(stem)
    requires |e| > 0 && e[0] == '.' && '.' !in e[1..]
    ensures NameExtension(stem + e) == e
  {
    var name := stem + e;
    LastDotOfName(stem, e);
    assert name[..|stem|] == stem;
    assert name[|stem|..] == e;
  }

  /** The same holds for the whole path, whatever directory the file sits in. */
  lemma ExtensionOfName(dir: string, stem: string, e: string, windows: bool)
    requires dir == "" || IsSep(dir[|dir| - 1], windows)
    requires NoSep(stem, windows) && !AllDots(stem)
    requires |e| > 0 && e[0] == '.' && '.' !in e[1..] && NoSep(e, windows)
    ensures Extension(dir + stem + e, windows) == e
  {
    var name := stem + e;
    assert NoSep(name, windows) by {
      forall k | 0 <= k < |name| ensures !IsSep(name[k], windows) {
        if k >= |stem| { assert name[k] == e[k - |stem|]; }
      }
    }
    assert dir + stem + e == dir + name;
    BasenameOfJoined(dir, name, windows);
    NameExtensionOfName(stem, e);
  }
}
