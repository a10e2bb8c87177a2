/** Path handling of MemoryFileSystem.js: `pathToArray` turns a POSIX path
    ("/a/b") or a drive path ("C:\a\b", "c:/a/b") into its segments.
    `normalize`, applied first by the source, is taken as the identity. */
module Paths {
  import opened Errors

  predicate IsAsciiLetter(c: char) {
    'A' <= c <= 'Z' || 'a' <= c <= 'z'
  }

  /** ASCII upper-casing of one character. */
  function UpperChar(c: char): (u: char)
    ensures 'a' <= c <= 'z' ==> u as int == c as int - 32
    ensures !('a' <= c <= 'z') ==> u == c
  {
    if 'a' <= c <= 'z' then (c as int - 32) as char else c
  }

  function Upper(s: string): (u: string)
    ensures |u| == |s|
    ensures forall i :: 0 <= i < |s| ==> u[i] == UpperChar(s[i])
  {
    if s == [] then [] else [UpperChar(s[0])] + Upper(s[1..])
  }

  /** The path starts with "/" (the first test of the source). */
  predicate IsPosix(p: string) {
    |p| > 0 && p[0] == '/'
  }

  /** The path starts with a drive letter and a colon. */
  predicate IsDrive(p: string) {
    |p| >= 2 && IsAsciiLetter(p[0]) && p[1] == ':'
  }

  /** Separators: "/" in POSIX paths, "/" and "\" in drive paths. */
  predicate IsSep(c: char, drive: bool) {
    c == '/' || (drive && c == '\\')
  }

  /** The separator a run of separators is replaced by. */
  function Canon(drive: bool): char {
    if drive then '\\' else '/'
  }

  /** Drops the separators at the front of `s`. */
  function DropSeps(s: string, drive: bool): (r: string)
    ensures |r| <= |s|
  {
    if |s| > 0 && IsSep(s[0], drive) then DropSeps(s[1..], drive) else s
  }

  /** What is left starts with no separator and is a suffix of `s`. */
  lemma {:induction false} DropSepsShape(s: string, drive: bool)
    ensures DropSeps(s, drive) == [] || !IsSep(DropSeps(s, drive)[0], drive)
    ensures DropSeps(s, drive) == s[|s| - |DropSeps(s, drive)|..]
    decreases |s|
  {
    if |s| > 0 && IsSep(s[0], drive) {
      DropSepsShape(s[1..], drive);
    }
  }

  /** Replaces every run of separators by one canonical separator: the
      source's `replace(/\/+/g, "/")` and `replace(/[\\\/]+/g, "\\")`. */
  function Collapse(s: string, drive: bool): (r: string)
    ensures s != [] ==> r != []
    decreases |s|
  {
    if s == [] then []
    else if IsSep(s[0], drive) then [Canon(drive)] + Collapse(DropSeps(s[1..], drive), drive)
    else [s[0]] + Collapse(s[1..], drive)
  }

  /** No separator directly follows another. */
  predicate NoRun(t: string, sep: char) {
    forall i :: 0 <= i < |t| - 1 ==> !(t[i] == sep && t[i + 1] == sep)
  }

  /** JavaScript's `String.prototype.split` on one character. */
  function Split(s: string, sep: char): (r: seq<string>)
    ensures |r| >= 1
  {
    if s == [] then [""]
    else
      var rest := Split(s[1..], sep);
      if s[0] == sep then [""] + rest else [[s[0]] + rest[0]] + rest[1..]
  }

  /** Splitting at every separator of the grammar: "/" for POSIX paths,
      "/" and "\" for drive paths. The reference the source's
      collapse-then-split is compared with. */
  function SplitSeps(s: string, drive: bool): (r: seq<string>)
    ensures |r| >= 1
  {
    if s == [] then [""]
    else
      var rest := SplitSeps(s[1..], drive);
      if IsSep(s[0], drive) then [""] + rest else [[s[0]] + rest[0]] + rest[1..]
  }

  /** The source's single `pop` of an empty last segment. */
  function DropTrailingEmpty(r: seq<string>): seq<string> {
    if |r| > 0 && r[|r| - 1] == "" then r[..|r| - 1] else r
  }

  /** Segments as every operation expects them: none empty, none holding "/". */
  predicate ValidSegments(segs: seq<string>) {
    forall i :: 0 <= i < |segs| ==> segs[i] != "" && '/' !in segs[i]
  }

  /** `pathToArray`: EINVAL on a path of neither grammar, otherwise the
      segments between separators, none of them empty. */
  function PathToArray(path: string): (r: Result<seq<string>>)
    ensures r.Err? <==> !IsPosix(path) && !IsDrive(path)
    ensures r.Err? ==> r.error == EINVAL
    ensures r.Ok? ==> ValidSegments(r.value)
    ensures r.Ok? && !IsPosix(path) ==> |r.value| >= 1 && |r.value[0]| >= 2 && r.value[0][..2] == [UpperChar(path[0]), ':']
    ensures r.Ok? && !IsPosix(path) ==> Upper(r.value[0]) == r.value[0]
  {
    if IsPosix(path) then
      PosixSegmentsValid(path);
      Ok(PosixSegments(path))
    else if IsDrive(path) then
      DriveSegmentsValid(path);
      Ok(DriveSegments(path))
    else
      Err(EINVAL)
  }

  /** The POSIX branch: collapse, drop the leading "/", split on "/". */
  function PosixSegments(path: string): seq<string>
    requires IsPosix(path)
  {
    DropTrailingEmpty(Split(Collapse(path, false)[1..], '/'))
  }

  /** The drive branch: collapse to "\", split, upper-case the first segment. */
  function DriveSegments(path: string): seq<string>
    requires IsDrive(path)
  {
    var parts := Split(Collapse(path, true), '\\');
    DropTrailingEmpty([Upper(parts[0])] + parts[1..])
  }

  lemma PosixSegmentsValid(path: string)
    requires IsPosix(path)
    ensures ValidSegments(PosixSegments(path))
  {
    CollapseShape(path, false);
    var c := Collapse(path, false);
    NoRunTail(c, '/');
    var t := c[1..];
    assert t != [] ==> t[0] != '/' by {
      if t != [] {
        assert c[1] == t[0];
      }
    }
    SplitValid(t);
    assert PosixSegments(path) == DropTrailingEmpty(Split(t, '/'));
  }

  lemma NoRunTail(c: string, sep: char)
    requires c != [] && NoRun(c, sep)
    ensures NoRun(c[1..], sep)
  {
    var t := c[1..];
    forall i | 0 <= i < |t| - 1 ensures !(t[i] == sep && t[i + 1] == sep) {
      assert t[i] == c[i + 1] && t[i + 1] == c[i + 2];
    }
  }

  lemma SplitValid(t: string)
    requires NoRun(t, '/') && (t == [] || t[0] != '/')
    ensures ValidSegments(DropTrailingEmpty(Split(t, '/')))
  {
    SplitShape(t, '/');
    DropTrailingValid(Split(t, '/'));
  }

  /** Popping an empty last segment leaves only valid ones when the others are. */
  lemma DropTrailingValid(r: seq<string>)
    requires forall i :: 0 <= i < |r| ==> '/' !in r[i]
    requires forall i :: 1 <= i < |r| - 1 ==> r[i] != ""
    requires |r| > 1 ==> r[0] != ""
    ensures ValidSegments(DropTrailingEmpty(r))
  {
  }

  lemma UpperKeepsSlashFree(s: string)
    requires '/' !in s
    ensures '/' !in Upper(s)
  {
  }

  lemma DriveSegmentsValid(path: string)
    requires IsDrive(path)
    ensures ValidSegments(DriveSegments(path))
    ensures |DriveSegments(path)| >= 1 && |DriveSegments(path)[0]| >= 2 && DriveSegments(path)[0][..2] == [UpperChar(path[0]), ':']
    ensures Upper(DriveSegments(path)[0]) == DriveSegments(path)[0]
  {
    CollapseShape(path, true);
    DriveCollapseHead(path);
    var t := Collapse(path, true);
    assert t[0] == t[..2][0] == path[0] && t[1] == t[..2][1] == ':';
    SplitShape(t, '\\');
    SplitChars(t, '\\');
    DriveFirstPart(t);
    var parts := Split(t, '\\');
    assert parts[0][..2] == [path[0], ':'];
    assert forall i :: 0 <= i < |parts| ==> '/' !in parts[i];
    DriveParts(parts);
    assert Upper(parts[0])[..2] == [UpperChar(path[0]), ':'];
    UpperTwice(parts[0]);
  }

  /** Upper-casing an upper-cased string changes nothing. */
  lemma UpperTwice(s: string)
    ensures Upper(Upper(s)) == Upper(s)
  {
    var u := Upper(s);
    assert forall i :: 0 <= i < |u| ==> Upper(u)[i] == u[i] by {
      forall i | 0 <= i < |u| ensures Upper(u)[i] == u[i] {
        assert u[i] == UpperChar(s[i]);
      }
    }
  }

  /** The parts of a drive path, the first upper-cased and an empty last one
      dropped, are valid segments. */
  lemma DriveParts(parts: seq<string>)
    requires |parts| >= 1 && |parts[0]| >= 2
    requires forall i :: 0 <= i < |parts| ==> '/' !in parts[i]
    requires forall i :: 1 <= i < |parts| - 1 ==> parts[i] != ""
    ensures ValidSegments(DropTrailingEmpty([Upper(parts[0])] + parts[1..]))
    ensures |DropTrailingEmpty([Upper(parts[0])] + parts[1..])| >= 1
    ensures DropTrailingEmpty([Upper(parts[0])] + parts[1..])[0] == Upper(parts[0])
  {
    UpperKeepsSlashFree(parts[0]);
  }

  /** Collapsing keeps the drive letter and the colon in front. */
  lemma DriveCollapseHead(path: string)
    requires IsDrive(path)
    ensures |Collapse(path, true)| >= 2 && Collapse(path, true)[..2] == path[..2]
  {
    CollapseShape(path, true);
    var t := Collapse(path, true);
    assert t == [path[0]] + Collapse(path[1..], true);
    CollapseShape(path[1..], true);
  }

  /** The first part of a collapsed drive path starts with the letter and
      the colon, and holds no "/". */
  lemma DriveFirstPart(t: string)
    requires |t| >= 2 && t[1] == ':' && t[0] != '\\' && '/' !in t
    ensures |Split(t, '\\')[0]| >= 2 && Split(t, '\\')[0][..2] == t[..2]
    ensures '/' !in Split(t, '\\')[0]
  {
    SplitHead(t, '\\');
    SplitHead(t[1..], '\\');
    SplitChars(t, '\\');
  }

  /** Joins segments with one separator between neighbours. */
  function Join(segs: seq<string>, sep: char): string {
    if segs == [] then ""
    else if |segs| == 1 then segs[0]
    else segs[0] + [sep] + Join(segs[1..], sep)
  }

  // ---------------------------------------------------------------------
  // Lemmas about Collapse and Split

  /** Collapsed text has no runs, no "/" in drive mode, and keeps the
      first character unless it is a separator. */
  lemma {:induction false} CollapseShape(s: string, drive: bool)
    ensures NoRun(Collapse(s, drive), Canon(drive))
    ensures drive ==> '/' !in Collapse(s, drive)
    ensures forall i :: 0 <= i < |Collapse(s, drive)| && Collapse(s, drive)[i] != Canon(drive) ==> !IsSep(Collapse(s, drive)[i], drive)
    ensures s != [] ==> Collapse(s, drive) != []
    ensures s != [] ==> Collapse(s, drive)[0] == (if IsSep(s[0], drive) then Canon(drive) else s[0])
    ensures |s| > 1 && IsSep(s[0], drive) && |Collapse(s, drive)| > 1 ==> !IsSep(Collapse(s, drive)[1], drive)
    decreases |s|
  {
    if s == [] {
    } else if IsSep(s[0], drive) {
      var d := DropSeps(s[1..], drive);
      DropSepsShape(s[1..], drive);
      CollapseShape(d, drive);
      var c := Collapse(d, drive);
      assert Collapse(s, drive) == [Canon(drive)] + c;
      assert c != [] ==> !IsSep(c[0], drive);
    } else {
      CollapseShape(s[1..], drive);
      var c := Collapse(s[1..], drive);
      assert Collapse(s, drive) == [s[0]] + c;
    }
  }

  /** On text without runs, every segment but the last is non-empty once the
      first is, and no segment holds the separator. */
  lemma {:induction false} SplitShape(t: string, sep: char)
    requires NoRun(t, sep)
    ensures forall i :: 0 <= i < |Split(t, sep)| ==> sep !in Split(t, sep)[i]
    ensures forall i :: 1 <= i < |Split(t, sep)| - 1 ==> Split(t, sep)[i] != ""
    ensures (Split(t, sep)[0] == "") <==> (t == [] || t[0] == sep)
    ensures |Split(t, sep)| > 1 ==> t != []
  {
    if t != [] {
      var t' := t[1..];
      assert NoRun(t', sep) by {
        forall i | 0 <= i < |t'| - 1 ensures !(t'[i] == sep && t'[i + 1] == sep) {
          assert t'[i] == t[i + 1] && t'[i + 1] == t[i + 2];
        }
      }
      SplitShape(t', sep);
      var rest := Split(t', sep);
      if t[0] == sep {
        assert Split(t, sep) == [""] + rest;
        assert t' != [] ==> t'[0] != sep;
      } else {
        assert Split(t, sep) == [[t[0]] + rest[0]] + rest[1..];
      }
    }
  }

  /** Every character of every segment comes from the split text. */
  lemma {:induction false} SplitChars(t: string, sep: char)
    ensures forall i, c :: 0 <= i < |Split(t, sep)| && c in Split(t, sep)[i] ==> c in t
  {
    if t != [] {
      SplitChars(t[1..], sep);
      assert forall c :: c in t[1..] ==> c in t;
    }
  }

  /** A leading non-separator character stays at the front of the first segment. */
  lemma SplitHead(t: string, sep: char)
    requires t != [] && t[0] != sep
    ensures Split(t, sep)[0] == [t[0]] + Split(t[1..], sep)[0]
    ensures Split(t, sep)[1..] == Split(t[1..], sep)[1..]
  {
  }
}

/** What `pathToArray` promises: canonical POSIX spellings, interchangeable
    drive separators, and the examples the filesystem relies on. */
module PathFacts {
  import opened Errors
  import opened Paths

  /** No separator anywhere in `x`. */
  predicate SepFree(x: string, drive: bool) {
    forall i :: 0 <= i < |x| ==> !IsSep(x[i], drive)
  }

  lemma {:induction false} CollapseSepFree(x: string, y: string, drive: bool)
    requires SepFree(x, drive)
    ensures Collapse(x + y, drive) == x + Collapse(y, drive)
  {
    if x == [] {
      assert x + y == y;
    } else {
      assert (x + y)[0] == x[0] && (x + y)[1..] == x[1..] + y;
      CollapseSepFree(x[1..], y, drive);
      assert x + Collapse(y, drive) == [x[0]] + (x[1..] + Collapse(y, drive));
    }
  }

  lemma {:induction false} SplitSepFree(x: string, y: string, sep: char)
    requires sep !in x
    ensures Split(x + y, sep) == [x + Split(y, sep)[0]] + Split(y, sep)[1..]
  {
    if x == [] {
      assert x + y == y;
      assert x + Split(y, sep)[0] == Split(y, sep)[0];
      assert Split(y, sep) == [Split(y, sep)[0]] + Split(y, sep)[1..];
    } else {
      assert (x + y)[0] == x[0] && (x + y)[1..] == x[1..] + y;
      SplitSepFree(x[1..], y, sep);
      var r := Split(x[1..] + y, sep);
      assert Split(x + y, sep) == [[x[0]] + r[0]] + r[1..];
      assert x == [x[0]] + x[1..];
      assert [x[0]] + (x[1..] + Split(y, sep)[0]) == x + Split(y, sep)[0];
    }
  }

  /** Valid segments joined by "/" are left alone by the collapsing step. */
  lemma {:induction false} CollapseJoin(segs: seq<string>)
    requires |segs| >= 1 && ValidSegments(segs)
    ensures Join(segs, '/') != [] && Join(segs, '/')[0] != '/'
    ensures Collapse(Join(segs, '/'), false) == Join(segs, '/')
  {
    assert SepFree(segs[0], false);
    if |segs| == 1 {
      CollapseSepFree(segs[0], [], false);
      assert segs[0] + [] == segs[0];
    } else {
      var rest := Join(segs[1..], '/');
      CollapseJoin(segs[1..]);
      assert Join(segs, '/') == segs[0] + (['/'] + rest);
      CollapseSepFree(segs[0], ['/'] + rest, false);
      assert DropSeps(rest, false) == rest;
      assert (['/'] + rest)[1..] == rest;
    }
  }

  /** Splitting undoes joining. */
  lemma {:induction false} SplitJoin(segs: seq<string>)
    requires |segs| >= 1 && ValidSegments(segs)
    ensures Split(Join(segs, '/'), '/') == segs
  {
    if |segs| == 1 {
      SplitSepFree(segs[0], [], '/');
      assert segs[0] + [] == segs[0];
      assert segs[0] + "" == segs[0];
    } else {
      var rest := Join(segs[1..], '/');
      SplitJoin(segs[1..]);
      assert Join(segs, '/') == segs[0] + (['/'] + rest);
      SplitSepFree(segs[0], ['/'] + rest, '/');
      assert (['/'] + rest)[1..] == rest;
      assert segs[0] + "" == segs[0];
      assert segs == [segs[0]] + segs[1..];
    }
  }

  /** Every list of valid segments is what its "/"-joined spelling resolves to. */
  lemma PosixRoundTrip(segs: seq<string>)
    requires ValidSegments(segs)
    ensures PathToArray("/" + Join(segs, '/')) == Ok(segs)
  {
    var p := "/" + Join(segs, '/');
    if segs == [] {
      assert p == "/";
      assert Collapse(p, false) == "/";
    } else {
      CollapseJoin(segs);
      SplitJoin(segs);
      var j := Join(segs, '/');
      assert p[1..] == j;
      assert DropSeps(j, false) == j;
      assert Collapse(p, false) == "/" + j;
      assert Collapse(p, false)[1..] == j;
      assert segs[|segs| - 1] != "";
    }
  }

  /** A POSIX path and its canonical spelling (single separators, no trailing
      "/") resolve to the same segments: "/a//b/" and "/a/b" are one path. */
  lemma PosixCanonical(p: string)
    requires IsPosix(p)
    ensures PathToArray(p).Ok?
    ensures PathToArray("/" + Join(PathToArray(p).value, '/')) == PathToArray(p)
  {
    PosixRoundTrip(PathToArray(p).value);
  }

  /** The non-empty strings of `parts`, in order. */
  function NonEmpty(parts: seq<string>): (r: seq<string>)
    ensures |r| <= |parts|
    ensures forall i :: 0 <= i < |r| ==> r[i] != ""
  {
    if parts == [] then [] else (if parts[0] == "" then [] else [parts[0]]) + NonEmpty(parts[1..])
  }

  /** In POSIX mode splitting at the separators is JavaScript's `split("/")`. */
  lemma {:induction false} SplitSepsSlash(s: string)
    ensures SplitSeps(s, false) == Split(s, '/')
    decreases |s|
  {
    if s != [] {
      SplitSepsSlash(s[1..]);
    }
  }

  /** Text whose only separator is "\" splits at the separators as
      `split("\\")` does. */
  lemma {:induction false} SplitSepsBackslash(s: string)
    requires '/' !in s
    ensures SplitSeps(s, true) == Split(s, '\\')
    decreases |s|
  {
    if s != [] {
      assert '/' !in s[1..] by {
        assert forall c :: c in s[1..] ==> c in s;
      }
      SplitSepsBackslash(s[1..]);
    }
  }

  /** Leading separators only add empty parts. */
  lemma {:induction false} DropSepsParts(u: string, drive: bool)
    ensures NonEmpty(SplitSeps(DropSeps(u, drive), drive)) == NonEmpty(SplitSeps(u, drive))
    decreases |u|
  {
    if |u| > 0 && IsSep(u[0], drive) {
      DropSepsParts(u[1..], drive);
      assert SplitSeps(u, drive) == [""] + SplitSeps(u[1..], drive);
    }
  }

  /** Collapsing the runs of separators keeps the first part and the
      non-empty later ones. */
  lemma {:induction false} CollapseParts(s: string, drive: bool)
    ensures SplitSeps(Collapse(s, drive), drive)[0] == SplitSeps(s, drive)[0]
    ensures NonEmpty(SplitSeps(Collapse(s, drive), drive)[1..]) == NonEmpty(SplitSeps(s, drive)[1..])
    decreases |s|
  {
    if s == [] {
    } else if IsSep(s[0], drive) {
      var d := DropSeps(s[1..], drive);
      CollapseParts(d, drive);
      DropSepsParts(s[1..], drive);
      var c := Collapse(d, drive);
      assert Collapse(s, drive) == [Canon(drive)] + c;
      assert ([Canon(drive)] + c)[1..] == c;
      assert IsSep(Canon(drive), drive);
      assert SplitSeps(Collapse(s, drive), drive)[1..] == SplitSeps(c, drive);
      assert SplitSeps(s, drive)[1..] == SplitSeps(s[1..], drive);
    } else {
      CollapseParts(s[1..], drive);
      var c := Collapse(s[1..], drive);
      assert Collapse(s, drive) == [s[0]] + c;
      assert ([s[0]] + c)[1..] == c;
      assert ([s[0]] + c)[0] == s[0];
    }
  }

  /** When only the last part may be empty, the single `pop` leaves exactly
      the non-empty parts. */
  lemma {:induction false} DropTrailingParts(r: seq<string>)
    requires forall i :: 0 <= i < |r| - 1 ==> r[i] != ""
    ensures DropTrailingEmpty(r) == NonEmpty(r)
    decreases |r|
  {
    if |r| > 1 {
      DropTrailingParts(r[1..]);
      if r[|r| - 1] == "" {
        assert r[..|r| - 1] == [r[0]] + r[1..][..|r| - 2];
      } else {
        assert r == [r[0]] + r[1..];
      }
    }
  }

  /** The parts after the collapse and the leading "/" are dropped are the
      non-empty parts of the path. */
  lemma CollapsedTailParts(p: string)
    requires IsPosix(p)
    ensures NonEmpty(Split(Collapse(p, false)[1..], '/')) == NonEmpty(Split(p, '/'))
  {
    CollapseShape(p, false);
    CollapseParts(p, false);
    var c := Collapse(p, false);
    var t := c[1..];
    SplitSepsSlash(p);
    SplitSepsSlash(c);
    SplitSepsSlash(t);
    assert c == ['/'] + t;
    assert Split(c, '/') == [""] + Split(t, '/');
    assert Split(p, '/')[0] == "";
    assert NonEmpty(Split(p, '/')) == NonEmpty(Split(p, '/')[1..]);
  }

  /** The source's POSIX branch keeps exactly the non-empty parts after the
      collapse and the leading "/" are dropped. */
  lemma PosixSegmentsParts(p: string)
    requires IsPosix(p)
    ensures PosixSegments(p) == NonEmpty(Split(Collapse(p, false)[1..], '/'))
  {
    CollapseShape(p, false);
    var c := Collapse(p, false);
    NoRunTail(c, '/');
    var t := c[1..];
    assert t != [] ==> t[0] != '/' by {
      if t != [] {
        assert c[1] == t[0];
      }
    }
    SplitShape(t, '/');
    DropTrailingParts(Split(t, '/'));
  }

  /** `pathToArray` on a POSIX path gives exactly the non-empty parts of the
      path split on "/": runs of separators and a trailing one do not count. */
  lemma PosixParts(p: string)
    requires IsPosix(p)
    ensures PathToArray(p) == Ok(NonEmpty(Split(p, '/')))
  {
    PosixSegmentsParts(p);
    CollapsedTailParts(p);
  }

  /** Two POSIX spellings with the same non-empty parts are one path:
      "/a//b/" and "/a/b". */
  lemma PosixSpellingsAgree(p: string, q: string)
    requires IsPosix(p) && IsPosix(q) && NonEmpty(Split(p, '/')) == NonEmpty(Split(q, '/'))
    ensures PathToArray(p) == PathToArray(q)
  {
    PosixParts(p);
    PosixParts(q);
  }

  // -------------------------------------------------------------------
  // Drive paths

  /** Equal up to exchanging "/" and "\" at the same positions. */
  predicate SepEqual(s: string, t: string) {
    |s| == |t| && forall i :: 0 <= i < |s| ==> s[i] == t[i] || (IsSep(s[i], true) && IsSep(t[i], true))
  }

  lemma {:induction false} DropSepsSepEqual(s: string, t: string)
    requires SepEqual(s, t)
    ensures SepEqual(DropSeps(s, true), DropSeps(t, true))
  {
    if |s| > 0 && IsSep(s[0], true) {
      assert IsSep(t[0], true);
      DropSepsSepEqual(s[1..], t[1..]);
    } else if |s| > 0 {
      assert !IsSep(t[0], true);
    }
  }

  lemma {:induction false} CollapseSepEqual(s: string, t: string)
    requires SepEqual(s, t)
    ensures Collapse(s, true) == Collapse(t, true)
    decreases |s|
  {
    if s != [] {
      if IsSep(s[0], true) {
        assert IsSep(t[0], true);
        DropSepsSepEqual(s[1..], t[1..]);
        CollapseSepEqual(DropSeps(s[1..], true), DropSeps(t[1..], true));
      } else {
        assert t[0] == s[0];
        CollapseSepEqual(s[1..], t[1..]);
      }
    }
  }

  /** `pathToArray` on a drive path gives the non-empty parts of the path
      split at "/" and "\", the first of them, which holds the drive, wholly
      upper-cased: runs of separators and a trailing one do not count. */
  lemma DrivePathParts(p: string)
    requires IsDrive(p)
    ensures NonEmpty(SplitSeps(p, true)) != []
    ensures PathToArray(p) == Ok([Upper(NonEmpty(SplitSeps(p, true))[0])] + NonEmpty(SplitSeps(p, true))[1..])
  {
    CollapseShape(p, true);
    DriveCollapseHead(p);
    var c := Collapse(p, true);
    assert c[0] == c[..2][0] == p[0] && c[1] == c[..2][1] == ':';
    DriveFirstPart(c);
    SplitShape(c, '\\');
    SplitSepsBackslash(c);
    CollapseParts(p, true);
    var parts := Split(c, '\\');
    var a := SplitSeps(p, true);
    assert a[0] == parts[0] && a[0] != "";
    assert NonEmpty(a) == [a[0]] + NonEmpty(a[1..]);
    var r := [Upper(parts[0])] + parts[1..];
    assert r[1..] == parts[1..];
    DropTrailingParts(r);
    assert NonEmpty(r) == [Upper(parts[0])] + NonEmpty(r[1..]);
  }

  /** Part lists that agree, the first part up to case. */
  predicate SameDriveParts(a: seq<string>, b: seq<string>) {
    |a| >= 1 && |b| >= 1 && Upper(a[0]) == Upper(b[0]) && a[1..] == b[1..]
  }

  /** Two drive spellings with the same parts between separators, the drive
      part up to case, are one path: "c:ab/x" and "C:AB\x", "c:\\a/" and
      "C:/a". */
  lemma DrivePartsAgree(p: string, q: string)
    requires IsDrive(p) && IsDrive(q)
    requires SameDriveParts(NonEmpty(SplitSeps(p, true)), NonEmpty(SplitSeps(q, true)))
    ensures PathToArray(p) == PathToArray(q)
  {
    DrivePathParts(p);
    DrivePathParts(q);
  }

  /** In drive paths "/" and "\" are interchangeable and the drive letter's
      case does not matter: "c:/x" and "C:\x" are one path. */
  lemma DriveSpellingsAgree(p: string, q: string)
    requires IsDrive(p) && IsDrive(q) && |p| == |q|
    requires UpperChar(p[0]) == UpperChar(q[0])
    requires SepEqual(p[1..], q[1..])
    ensures PathToArray(p) == PathToArray(q)
  {
    CollapseSepEqual(p[1..], q[1..]);
    var x := Collapse(p[1..], true);
    assert Collapse(p, true) == [p[0]] + x;
    assert Collapse(q, true) == [q[0]] + x;
    SplitHead([p[0]] + x, '\\');
    SplitHead([q[0]] + x, '\\');
    assert ([p[0]] + x)[1..] == x && ([q[0]] + x)[1..] == x;
    var s0 := Split(x, '\\')[0];
    assert Upper([p[0]] + s0) == Upper([q[0]] + s0);
  }

  lemma ExampleRoot()
    ensures PathToArray("/") == Ok([])
  {
    PosixRoundTrip([]);
  }

  /** The root has no segments, stated for a path variable. */
  lemma RootSegments(p: string)
    requires p == "/"
    ensures PathToArray(p) == Ok([])
  {
    ExampleRoot();
  }

  lemma ExampleRuns()
    ensures PathToArray("/a//b/") == Ok(["a", "b"])
  {
    ExampleCollapse();
    ExampleSplit();
    assert "/a/b/"[1..] == "a/b/";
    assert PosixSegments("/a//b/") == DropTrailingEmpty(["a", "b", ""]);
    assert ["a", "b", ""][..2] == ["a", "b"];
  }

  lemma ExampleCollapse()
    ensures Collapse("/a//b/", false) == "/a/b/"
  {
    var p := "/a//b/";
    assert "/"[1..] == "";
    assert Collapse("/", false) == "/";
    assert "b/"[1..] == "/";
    assert Collapse("b/", false) == "b/";
    assert "/b/"[1..] == "b/";
    assert DropSeps("/b/", false) == "b/";
    assert "//b/"[1..] == "/b/";
    assert Collapse("//b/", false) == "/b/";
    assert "a//b/"[1..] == "//b/";
    assert Collapse("a//b/", false) == "a/b/";
    assert p[1..] == "a//b/";
    assert DropSeps("a//b/", false) == "a//b/";
  }

  lemma ExampleSplit()
    ensures Split("a/b/", '/') == ["a", "b", ""]
  {
    assert "/"[1..] == "";
    assert Split("/", '/') == ["", ""];
    SplitSepFree("b", "/", '/');
    assert "b" + "/" == "b/" && "b" + "" == "b";
    assert Split("b/", '/') == ["b", ""];
    assert "/b/"[1..] == "b/";
    assert Split("/b/", '/') == ["", "b", ""];
    SplitSepFree("a", "/b/", '/');
    assert "a" + "/b/" == "a/b/" && "a" + "" == "a";
  }

  lemma ExampleRelative()
    ensures PathToArray("a/b") == Err(EINVAL)
  {
  }

  lemma ExampleDrive()
    ensures PathToArray("c:/x") == PathToArray("C:\\x")
  {
    assert "c:/x"[1..] == ":/x" && "C:\\x"[1..] == ":\\x";
    DriveSpellingsAgree("c:/x", "C:\\x");
  }

  /** The parts of "c:ab/x" between separators. */
  lemma ExampleDriveSplitLower()
    ensures SplitSeps("c:ab/x", true) == ["c:ab", "x"]
  {
    assert "/x"[1..] == "x" && "x"[1..] == "";
    assert "b/x"[1..] == "/x" && "ab/x"[1..] == "b/x";
    assert ":ab/x"[1..] == "ab/x" && "c:ab/x"[1..] == ":ab/x";
    assert ["", "x"][1..] == ["x"] && ["x"][1..] == [] && [""][1..] == [];
    assert ['x'] + "" == "x" && ['b'] + "" == "b" && ['a'] + "b" == "ab";
    assert [':'] + "ab" == ":ab" && ['c'] + ":ab" == "c:ab";
    assert SplitSeps("x", true) == ["x"];
    assert SplitSeps("/x", true) == ["", "x"];
    assert SplitSeps("b/x", true) == ["b", "x"];
    assert SplitSeps("ab/x", true) == ["ab", "x"];
    assert SplitSeps(":ab/x", true) == [":ab", "x"];
  }
  /** The parts of "C:AB\x" between separators. */
  lemma ExampleDriveSplitUpper()
    ensures SplitSeps("C:AB\\x", true) == ["C:AB", "x"]
  {
    assert "\\x"[1..] == "x" && "x"[1..] == "";
    assert "B\\x"[1..] == "\\x" && "AB\\x"[1..] == "B\\x";
    assert ":AB\\x"[1..] == "AB\\x" && "C:AB\\x"[1..] == ":AB\\x";
    assert ["", "x"][1..] == ["x"] && ["x"][1..] == [] && [""][1..] == [];
    assert ['x'] + "" == "x" && ['B'] + "" == "B" && ['A'] + "B" == "AB";
    assert [':'] + "AB" == ":AB" && ['C'] + ":AB" == "C:AB";
    assert SplitSeps("x", true) == ["x"];
    assert SplitSeps("\\x", true) == ["", "x"];
    assert SplitSeps("B\\x", true) == ["B", "x"];
    assert SplitSeps("AB\\x", true) == ["AB", "x"];
    assert SplitSeps(":AB\\x", true) == [":AB", "x"];
  }
  /** The whole drive segment is upper-cased, not just the letter. */
  lemma ExampleDriveCase()
    ensures PathToArray("c:ab/x") == PathToArray("C:AB\\x")
  {
    ExampleDriveSplitLower();
    ExampleDriveSplitUpper();
    assert ["c:ab", "x"][1..] == ["x"] && ["C:AB", "x"][1..] == ["x"];
    assert NonEmpty(["c:ab", "x"]) == ["c:ab", "x"];
    assert NonEmpty(["C:AB", "x"]) == ["C:AB", "x"];
    assert Upper("c:ab") == "C:AB" == Upper("C:AB");
    DrivePartsAgree("c:ab/x", "C:AB\\x");
  }
}
