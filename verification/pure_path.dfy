/** The part of `pathlib.PureWindowsPath` the application detectors use: a
    path is an anchor (drive and/or root) and a list of clean components;
    `Path(s)` parses a string, `str(p)` prints one back, `/` appends, and
    `parent`, `name` and `suffix` take it apart. The file system itself is a
    record of query functions, so every probe of the disk is an input. */
module PurePath {
  import opened Wrappers
  import opened Text
  import opened Paths

  /** `anchor` is `""`, `"\"`, a drive such as `"C:"` (drive-relative) or a
      drive with a root such as `"C:\"`; `parts` never holds `""` or `"."`. */
  datatype Path = Path(anchor: string, parts: seq<string>)

  /** A component as a Windows file name can be: non-empty, not `.`, and
      free of separators and colons. */
  predicate CleanPart(s: string) {
    s != "" && s != "." && forall k :: 0 <= k < |s| ==> !IsSep(s[k], true) && s[k] != ':'
  }

  predicate CleanParts(parts: seq<string>) {
    forall k :: 0 <= k < |parts| ==> CleanPart(parts[k])
  }

  predicate DriveLetter(c: char) {
    ('A' <= c <= 'Z') || ('a' <= c <= 'z')
  }

  predicate WellFormedAnchor(a: string) {
    || a == ""
    || a == "\\"
    || (|a| == 2 && DriveLetter(a[0]) && a[1] == ':')
    || (|a| == 3 && DriveLetter(a[0]) && a[1] == ':' && a[2] == '\\')
  }

  predicate WellFormed(p: Path) {
    WellFormedAnchor(p.anchor) && CleanParts(p.parts)
  }

  /** A path with a root: it does not depend on any current directory. */
  predicate IsRooted(p: Path) {
    |p.anchor| > 0 && p.anchor[|p.anchor| - 1] == '\\'
  }

  /** `/` turns into `\`, as the Windows flavour does before splitting. */
  function Normalize(s: string): (r: string)
    ensures |r| == |s|
    ensures forall k :: 0 <= k < |s| ==> r[k] == (if s[k] == '/' then '\\' else s[k])
  {
    seq(|s|, k requires 0 <= k < |s| => if s[k] == '/' then '\\' else s[k])
  }

  /** Drops the empty and `.` pieces a split leaves behind. */
  function Clean(pieces: seq<string>): (r: seq<string>)
    ensures |r| <= |pieces|
    ensures forall k :: 0 <= k < |r| ==> r[k] in pieces && r[k] != "" && r[k] != "."
  {
    if |pieces| == 0 then []
    else
      var rest := Clean(pieces[1..]);
      if pieces[0] == "" || pieces[0] == "." then rest else [pieces[0]] + rest
  }

  /** The components of a relative path string. */
  function Components(s: string): (r: seq<string>)
    ensures CleanPartsUpToColon(r)
  {
    var pieces := Split(Normalize(s), '\\');
    var r := Clean(pieces);
    assert forall k :: 0 <= k < |r| ==> '\\' !in r[k] && '/' !in r[k] by {
      forall k | 0 <= k < |r| ensures '\\' !in r[k] && '/' !in r[k] {
        var j :| 0 <= j < |pieces| && pieces[j] == r[k];
        assert '/' !in pieces[j] by {
          var n := Normalize(s);
          assert forall m :: 0 <= m < |n| ==> n[m] != '/';
          PiecesAvoid(n, '\\', '/');
        }
      }
    }
    r
  }

  /** Every component is non-empty, not `.`, and separator-free (colons are
      not checked: pathlib leaves them to the operating system). */
  predicate CleanPartsUpToColon(parts: seq<string>) {
    forall k :: 0 <= k < |parts| ==>
      parts[k] != "" && parts[k] != "." && '\\' !in parts[k] && '/' !in parts[k]
  }

  /** A character absent from the text is absent from every piece of a split. */
  lemma {:induction false} PiecesAvoid(s: string, c: char, d: char)
    requires d !in s
    ensures forall k :: 0 <= k < |Split(s, c)| ==> d !in Split(s, c)[k]
    decreases |s|
  {
    if c in s {
      var i := IndexOf(s, c);
      PiecesAvoid(s[i + 1..], c, d);
      assert Split(s, c) == [s[..i]] + Split(s[i + 1..], c);
      assert forall k :: 0 <= k < |Split(s, c)| ==> d !in Split(s, c)[k] by {
        forall k | 0 <= k < |Split(s, c)| ensures d !in Split(s, c)[k] {
          if k == 0 {
            assert d !in s[..i];
          } else {
            assert Split(s, c)[k] == Split(s[i + 1..], c)[k - 1];
          }
        }
      }
    }
  }

  /** `PureWindowsPath(s)`: a drive is a character followed by `:`; a root
      is a separator right after the drive (or at the start). UNC shares
      are not modelled. */
  function PathOf(s: string): (p: Path)
    ensures CleanPartsUpToColon(p.parts)
  {
    if |s| >= 2 && s[1] == ':' then
      var rest := s[2..];
      if |rest| > 0 && IsSep(rest[0], true) then Path(s[..2] + "\\", Components(rest[1..]))
      else Path(s[..2], Components(rest))
    else if |s| > 0 && IsSep(s[0], true) then Path("\\", Components(s[1..]))
    else Path("", Components(s))
  }

  /** `str(p)`: the anchor followed by the components joined with `\`; the
      empty relative path prints as `.`. */
  function Str(p: Path): (s: string)
    ensures p.parts == [] ==> s == (if p.anchor == "" then "." else p.anchor)
    ensures p.parts != [] ==> s == p.anchor + Join(p.parts, "\\")
  {
    if p.parts == [] then (if p.anchor == "" then "." else p.anchor)
    else p.anchor + Join(p.parts, "\\")
  }

  /** Splitting a text that starts with the separator yields an empty first
      piece. */
  lemma SplitLeading(s: string, c: char)
    ensures Split([c] + s, c) == [""] + Split(s, c)
  {
    var t := [c] + s;
    assert c in t && t[0] == c;
    assert IndexOf(t, c) == 0;
    assert t[1..] == s;
  }

  /** Clean pieces survive the cleaning step unchanged. */
  lemma {:induction false} CleanKeepsClean(parts: seq<string>)
    requires CleanParts(parts)
    ensures Clean(parts) == parts
  {
    if |parts| > 0 {
      CleanKeepsClean(parts[1..]);
      assert parts == [parts[0]] + parts[1..];
    }
  }

  /** The components of clean parts joined with `\` are those parts. */
  lemma ComponentsOfJoin(parts: seq<string>)
    requires |parts| >= 1 && CleanParts(parts)
    ensures Components(Join(parts, "\\")) == parts
  {
    var j := Join(parts, "\\");
    NoSlashInJoin(parts);
    assert Normalize(j) == j;
    JoinSplit(parts, '\\');
    CleanKeepsClean(parts);
  }

  /** The components after a leading separator are the same. */
  lemma ComponentsOfRootedJoin(parts: seq<string>)
    requires |parts| >= 1 && CleanParts(parts)
    ensures Components("\\" + Join(parts, "\\")) == parts
  {
    var j := Join(parts, "\\");
    NoSlashInJoin(parts);
    assert Normalize("\\" + j) == "\\" + j;
    SplitLeading(j, '\\');
    JoinSplit(parts, '\\');
    CleanKeepsClean(parts);
    assert Clean([""] + parts) == Clean(parts) by {
      assert ([""] + parts)[1..] == parts;
    }
  }

  /** Joining clean parts with `\` adds no `/` and no `:`, and keeps the
      first part's first character in front. */
  lemma {:induction false} NoSlashInJoin(parts: seq<string>)
    requires |parts| >= 1 && CleanParts(parts)
    ensures var j := Join(parts, "\\");
            && (forall k :: 0 <= k < |j| ==> j[k] != '/' && j[k] != ':')
            && |j| > 0 && j[0] == parts[0][0]
  {
    if |parts| > 1 {
      NoSlashInJoin(parts[1..]);
      var j := Join(parts, "\\");
      var rest := Join(parts[1..], "\\");
      assert j == parts[0] + "\\" + rest;
      forall k | 0 <= k < |j| ensures j[k] != '/' && j[k] != ':' {
        if k < |parts[0]| {
          assert j[k] == parts[0][k];
        } else if k > |parts[0]| {
          assert j[k] == rest[k - |parts[0]| - 1];
        }
      }
    }
  }

  /** Printing a well-formed path and parsing the text gives the same path
      back, so `Path(str(p)) == p`. */
  lemma StrRoundTrip(p: Path)
    requires WellFormed(p)
    ensures PathOf(Str(p)) == p
  {
    var s := Str(p);
    if p.parts == [] {
      if p.anchor == "" {
        assert s == ".";
        assert Components(".") == [] by {
          assert Normalize(".") == ".";
          assert Split(".", '\\') == ["."];
        }
      } else if p.anchor == "\\" {
        assert s[1..] == "";
        assert Components("") == [] by {
          assert Split("", '\\') == [""];
        }
      } else if |p.anchor| == 2 {
        assert s[2..] == "";
        assert Components("") == [] by {
          assert Split("", '\\') == [""];
        }
        assert s[..2] == p.anchor;
      } else {
        assert s[2..][1..] == "";
        assert Components("") == [] by {
          assert Split("", '\\') == [""];
        }
        assert s[..2] + "\\" == p.anchor;
      }
    } else {
      var j := Join(p.parts, "\\");
      NoSlashInJoin(p.parts);
      ComponentsOfJoin(p.parts);
      assert s == p.anchor + j;
      if p.anchor == "" {
        assert s == j;
        assert |s| >= 2 ==> s[1] != ':';
      } else if p.anchor == "\\" {
        assert s[1..] == j;
        assert |s| >= 2 ==> s[1] == j[0] && j[0] != ':';
      } else if |p.anchor| == 2 {
        assert s[2..] == j;
        assert s[..2] == p.anchor;
        assert !IsSep(j[0], true);
      } else {
        assert s[2..] == "\\" + j;
        assert s[2..][1..] == j;
        assert s[..2] + "\\" == p.anchor;
        ComponentsOfRootedJoin(p.parts);
      }
    }
  }

  /** A single clean name has itself as its only component. */
  lemma ComponentsOfName(name: string)
    requires CleanPart(name)
    ensures Components(name) == [name]
  {
    assert Normalize(name) == name;
    assert Clean([name])[1..] == [] by {
      assert [name][1..] == [];
    }
  }

  /** `p / name` for a relative path string: its components are appended. */
  function Join1(p: Path, rel: string): (r: Path)
    ensures r.anchor == p.anchor
    ensures p.parts <= r.parts
  {
    Path(p.anchor, p.parts + Components(rel))
  }

  /** `p / name` for a single clean component. */
  function Child(p: Path, name: string): (r: Path)
    ensures r.anchor == p.anchor && r.parts == p.parts + [name]
  {
    Path(p.anchor, p.parts + [name])
  }

  /** `p.name`: the last component, or `""` for a bare anchor. */
  function Name(p: Path): (n: string)
    ensures p.parts == [] ==> n == ""
    ensures p.parts != [] ==> n == p.parts[|p.parts| - 1]
  {
    if p.parts == [] then "" else p.parts[|p.parts| - 1]
  }

  /** `p.parent`: the path without its last component; a bare anchor is its
      own parent. */
  function Parent(p: Path): (r: Path)
    ensures r.anchor == p.anchor
    ensures p.parts != [] ==> Child(r, Name(p)) == p
    ensures p.parts == [] ==> r == p
  {
    if p.parts == [] then p else Path(p.anchor, p.parts[..|p.parts| - 1])
  }

  /** `p.suffix` of a file name: from the last dot on, provided that dot is
      neither the first nor the last character. */
  function Suffix(name: string): (e: string)
    ensures e == "" || (|e| >= 2 && e[0] == '.' && '.' !in e[1..] && EndsWith(name, e) && |e| < |name|)
  {
    var i := LastIndexOf(name, '.');
    if 0 < i < |name| - 1 then
      name[i..]
    else ""
  }

  /** What the code can learn about the disk: `exists`, `is_file`,
      `is_dir`, and `iterdir` (the child names in listing order, or `None`
      where listing raises). */
  datatype Fs = Fs(
    present: Path -> bool,
    isFile: Path -> bool,
    isDir: Path -> bool,
    listing: Path -> Option<seq<string>>)

  /** The directory can be listed and holds at least one subdirectory. */
  predicate HasSubdir(fs: Fs, p: Path) {
    match fs.listing(p)
    case None => false
    case Some(names) => exists k :: 0 <= k < |names| && fs.isDir(Child(p, names[k]))
  }
}
