/** The nested map MemoryFileSystem.js keeps in `this.data`, as a value:
    the JavaScript values that can sit under a key, the `isDir`, `isFile`
    and `isMount` tests, and the walk from the root along segments. */
module Tree {
  import opened Errors
  import opened Base64

  /** A value stored under a key of a directory object. */
  datatype Entry =
    | Dir(children: map<string, Entry>) // an object holding the "" key; the key itself is left implicit
    | Str(s: string)                    // a string: a written file (base64) or a string stored verbatim
    | Buf(bytes: seq<byte>)             // a Buffer stored verbatim with the "meta" encoding
    | Meta                              // any other object without the "" key, such as a root's {isMount, mounts, symlinks}
    | Undef                             // undefined: the key is missing or holds undefined

  /** `isDir`: an object whose "" key is defined. */
  predicate IsDir(e: Entry) {
    e.Dir?
  }

  /** `isFile`: an object whose "" key is undefined. Strings, and hence every
      file `writeFileSync` stores, are not objects and so are not files. */
  predicate IsFile(e: Entry) {
    e.Buf? || e.Meta?
  }

  /** `isMount`: an object whose "/" key is defined, as a root is. */
  predicate IsMount(e: Entry) {
    e.Dir? && "/" in e.children && e.children["/"] != Undef
  }

  /** JavaScript truthiness (`!!value`). */
  predicate Truthy(e: Entry) {
    match e
    case Str(s) => s != ""
    case Undef => false
    case _ => true
  }

  lemma KindsExclusive(e: Entry)
    ensures !(IsDir(e) && IsFile(e))
    ensures IsMount(e) ==> IsDir(e)
    ensures e.Str? ==> !IsDir(e) && !IsFile(e)
  {
  }

  /** `current[key]`. */
  function Get(m: map<string, Entry>, k: string): (e: Entry)
    ensures k !in m ==> e == Undef
    ensures k in m ==> e == m[k]
  {
    if k in m then m[k] else Undef
  }

  /** The value the walk along `q` reaches: each segment but the last must
      name a directory, otherwise the walk yields undefined. */
  function EntryAt(m: map<string, Entry>, q: seq<string>): Entry
    requires |q| >= 1
    decreases |q|
  {
    var e := Get(m, q[0]);
    if |q| == 1 then e
    else if e.Dir? then EntryAt(e.children, q[1..])
    else Undef
  }

  /** The directory the walk along `ps` ends in, if every step names one. */
  function WalkDirs(m: map<string, Entry>, ps: seq<string>): Option<map<string, Entry>>
    decreases |ps|
  {
    if ps == [] then Some(m)
    else
      var e := Get(m, ps[0]);
      if e.Dir? then WalkDirs(e.children, ps[1..]) else None
  }

  /** The value below `e` along `r`; `e` itself when `r` is empty. */
  function Below(e: Entry, r: seq<string>): Entry {
    if r == [] then e
    else if e.Dir? then EntryAt(e.children, r)
    else Undef
  }

  /** The path can be written at: its parent walk ends in a directory. */
  predicate Writable(m: map<string, Entry>, t: seq<string>) {
    |t| >= 1 && WalkDirs(m, t[..|t| - 1]).Some?
  }

  /** `current[key] = v` at the end of the walk along `t`. */
  function PutAt(m: map<string, Entry>, t: seq<string>, v: Entry): map<string, Entry>
    requires Writable(m, t)
    decreases |t|
  {
    if |t| == 1 then m[t[0] := v]
    else
      assert t[1..][..|t| - 2] == t[..|t| - 1][1..];
      m[t[0] := Dir(PutAt(m[t[0]].children, t[1..], v))]
  }

  /** `delete current[key]` at the end of the walk along `t`. */
  function DeleteAt(m: map<string, Entry>, t: seq<string>): map<string, Entry>
    requires Writable(m, t)
    decreases |t|
  {
    if |t| == 1 then m - {t[0]}
    else
      assert t[1..][..|t| - 2] == t[..|t| - 1][1..];
      m[t[0] := Dir(DeleteAt(m[t[0]].children, t[1..]))]
  }

  /** Neither path is a prefix of the other. */
  predicate Apart(q: seq<string>, t: seq<string>) {
    !(q <= t) && !(t <= q)
  }

  /** With equal first segments, one path is a prefix of the other exactly
      when their tails are. */
  lemma PrefixTail(q: seq<string>, t: seq<string>)
    requires |q| >= 1 && |t| >= 1 && q[0] == t[0]
    ensures (q <= t) <==> (q[1..] <= t[1..])
  {
    assert q == [q[0]] + q[1..] && t == [t[0]] + t[1..];
  }

  // ---------------------------------------------------------------------
  // The walk

  /** Walking all but the last segment and then reading the last key is the
      walk along the whole path. */
  lemma {:induction false} EntryAtByParent(m: map<string, Entry>, q: seq<string>)
    requires |q| >= 1
    ensures EntryAt(m, q) == match WalkDirs(m, q[..|q| - 1])
                             case Some(d) => Get(d, q[|q| - 1])
                             case None => Undef
    decreases |q|
  {
    if |q| > 1 {
      var e := Get(m, q[0]);
      assert q[..|q| - 1][1..] == q[1..][..|q| - 2];
      if e.Dir? {
        EntryAtByParent(e.children, q[1..]);
      }
    }
  }

  /** A walk through directories reaches a directory at each step. */
  lemma {:induction false} WalkDirsPrefix(m: map<string, Entry>, ps: seq<string>, j: nat)
    requires WalkDirs(m, ps).Some? && 1 <= j <= |ps|
    ensures EntryAt(m, ps[..j]).Dir?
    decreases |ps|
  {
    if j > 1 {
      assert ps[..j][1..] == ps[1..][..j - 1];
      WalkDirsPrefix(Get(m, ps[0]).children, ps[1..], j - 1);
    }
  }

  /** Conversely, a path whose every prefix is a directory walks through. */
  lemma {:induction false} WalkDirsOfPrefixes(m: map<string, Entry>, ps: seq<string>)
    requires forall j :: 1 <= j <= |ps| ==> EntryAt(m, ps[..j]).Dir?
    ensures WalkDirs(m, ps).Some?
    decreases |ps|
  {
    if ps != [] {
      assert ps[..1] == [ps[0]];
      var c := Get(m, ps[0]).children;
      forall j | 1 <= j <= |ps| - 1 ensures EntryAt(c, ps[1..][..j]).Dir? {
        assert ps[..j + 1][1..] == ps[1..][..j];
        assert EntryAt(m, ps[..j + 1]).Dir?;
      }
      WalkDirsOfPrefixes(c, ps[1..]);
    }
  }

  // ---------------------------------------------------------------------
  // Writing one key

  /** After the write the path holds `v`, and what lies below it is what lies below `v`. */
  lemma {:induction false} PutAtTarget(m: map<string, Entry>, t: seq<string>, v: Entry, r: seq<string>)
    requires Writable(m, t)
    ensures Below(EntryAt(PutAt(m, t, v), t), r) == Below(v, r)
    ensures r != [] ==> EntryAt(PutAt(m, t, v), t + r) == Below(v, r)
    decreases |t|
  {
    if |t| > 1 {
      assert t[1..][..|t| - 2] == t[..|t| - 1][1..];
      PutAtTarget(m[t[0]].children, t[1..], v, r);
      assert (t + r)[1..] == t[1..] + r;
    } else if r != [] {
      assert (t + r)[1..] == r;
    }
  }

  /** A path apart from the written one sees the same value as before. */
  lemma {:induction false} PutAtApart(m: map<string, Entry>, t: seq<string>, v: Entry, q: seq<string>)
    requires Writable(m, t) && |q| >= 1 && Apart(q, t)
    ensures EntryAt(PutAt(m, t, v), q) == EntryAt(m, q)
    decreases |t|
  {
    if q[0] == t[0] {
      assert t[1..][..|t| - 2] == t[..|t| - 1][1..];
      PrefixTail(q, t);
      PrefixTail(t, q);
      PutAtApart(m[t[0]].children, t[1..], v, q[1..]);
    }
  }

  /** The strict prefixes of the written path are still directories. */
  lemma {:induction false} PutAtAbove(m: map<string, Entry>, t: seq<string>, v: Entry, j: nat)
    requires Writable(m, t) && 1 <= j < |t|
    ensures EntryAt(PutAt(m, t, v), t[..j]).Dir?
    decreases |t|
  {
    if j > 1 {
      assert t[1..][..|t| - 2] == t[..|t| - 1][1..];
      assert t[..j][1..] == t[1..][..j - 1];
      PutAtAbove(m[t[0]].children, t[1..], v, j - 1);
    }
  }

  /** A directory walk that the write does not cut through still succeeds. */
  lemma PutAtKeepsWalk(m: map<string, Entry>, t: seq<string>, v: Entry, ps: seq<string>)
    requires Writable(m, t) && WalkDirs(m, ps).Some? && !(t <= ps)
    ensures WalkDirs(PutAt(m, t, v), ps).Some?
  {
    var m' := PutAt(m, t, v);
    forall j | 1 <= j <= |ps| ensures EntryAt(m', ps[..j]).Dir? {
      WalkDirsPrefix(m, ps, j);
      if ps[..j] <= t {
        assert ps[..j] != t;
        assert t[..j] == ps[..j];
        PutAtAbove(m, t, v, j);
      } else {
        assert !(t <= ps[..j]);
        PutAtApart(m, t, v, ps[..j]);
      }
    }
    WalkDirsOfPrefixes(m', ps);
  }

  // ---------------------------------------------------------------------
  // Deleting one key

  /** After the deletion the path and everything below it are undefined. */
  lemma {:induction false} DeleteAtTarget(m: map<string, Entry>, t: seq<string>, r: seq<string>)
    requires Writable(m, t)
    ensures EntryAt(DeleteAt(m, t), t + r) == Undef
    decreases |t|
  {
    if |t| > 1 {
      assert t[1..][..|t| - 2] == t[..|t| - 1][1..];
      DeleteAtTarget(m[t[0]].children, t[1..], r);
      assert (t + r)[1..] == t[1..] + r;
    }
  }

  /** A path apart from the deleted one sees the same value as before. */
  lemma {:induction false} DeleteAtApart(m: map<string, Entry>, t: seq<string>, q: seq<string>)
    requires Writable(m, t) && |q| >= 1 && Apart(q, t)
    ensures EntryAt(DeleteAt(m, t), q) == EntryAt(m, q)
    decreases |t|
  {
    if q[0] == t[0] {
      assert t[1..][..|t| - 2] == t[..|t| - 1][1..];
      PrefixTail(q, t);
      PrefixTail(t, q);
      DeleteAtApart(m[t[0]].children, t[1..], q[1..]);
    }
  }

  /** The strict prefixes of the deleted path are still directories. */
  lemma {:induction false} DeleteAtAbove(m: map<string, Entry>, t: seq<string>, j: nat)
    requires Writable(m, t) && 1 <= j < |t|
    ensures EntryAt(DeleteAt(m, t), t[..j]).Dir?
    decreases |t|
  {
    if j > 1 {
      assert t[1..][..|t| - 2] == t[..|t| - 1][1..];
      assert t[..j][1..] == t[1..][..j - 1];
      DeleteAtAbove(m[t[0]].children, t[1..], j - 1);
    }
  }

  /** A directory walk that the deletion does not cut through still succeeds. */
  lemma DeleteAtKeepsWalk(m: map<string, Entry>, t: seq<string>, ps: seq<string>)
    requires Writable(m, t) && WalkDirs(m, ps).Some? && !(t <= ps)
    ensures WalkDirs(DeleteAt(m, t), ps).Some?
  {
    var m' := DeleteAt(m, t);
    forall j | 1 <= j <= |ps| ensures EntryAt(m', ps[..j]).Dir? {
      WalkDirsPrefix(m, ps, j);
      if ps[..j] <= t {
        assert ps[..j] != t;
        assert t[..j] == ps[..j];
        DeleteAtAbove(m, t, j);
      } else {
        assert !(t <= ps[..j]);
        DeleteAtApart(m, t, ps[..j]);
      }
    }
    WalkDirsOfPrefixes(m', ps);
  }

  // ---------------------------------------------------------------------
  // The directory a write or a deletion happens in

  /** Walking one more segment steps into the child directory, if any. */
  lemma {:induction false} WalkDirsSnoc(m: map<string, Entry>, ps: seq<string>, k: string)
    ensures WalkDirs(m, ps + [k]) == match WalkDirs(m, ps)
                                     case None => None
                                     case Some(d) => if Get(d, k).Dir? then Some(Get(d, k).children) else None
    decreases |ps|
  {
    if ps == [] {
      assert ps + [k] == [k];
      assert [k][1..] == [];
    } else {
      assert (ps + [k])[0] == ps[0] && (ps + [k])[1..] == ps[1..] + [k];
      var e := Get(m, ps[0]);
      if e.Dir? {
        WalkDirsSnoc(e.children, ps[1..], k);
      }
    }
  }

  /** The parent directory of the written path gains exactly the written key. */
  lemma {:induction false} PutAtWalk(m: map<string, Entry>, t: seq<string>, v: Entry)
    requires Writable(m, t)
    ensures WalkDirs(PutAt(m, t, v), t[..|t| - 1]) == Some(WalkDirs(m, t[..|t| - 1]).value[t[|t| - 1] := v])
    decreases |t|
  {
    if |t| > 1 {
      assert t[1..][..|t| - 2] == t[..|t| - 1][1..];
      PutAtWalk(m[t[0]].children, t[1..], v);
    }
  }

  /** The parent directory of the deleted path loses exactly the deleted key. */
  lemma {:induction false} DeleteAtWalk(m: map<string, Entry>, t: seq<string>)
    requires Writable(m, t)
    ensures WalkDirs(DeleteAt(m, t), t[..|t| - 1]) == Some(WalkDirs(m, t[..|t| - 1]).value - {t[|t| - 1]})
    decreases |t|
  {
    if |t| > 1 {
      assert t[1..][..|t| - 2] == t[..|t| - 1][1..];
      DeleteAtWalk(m[t[0]].children, t[1..]);
    }
  }

  /** Deleting a key the parent directory does not hold changes nothing. */
  lemma {:induction false} DeleteAtMissing(m: map<string, Entry>, t: seq<string>)
    requires Writable(m, t) && t[|t| - 1] !in WalkDirs(m, t[..|t| - 1]).value
    ensures DeleteAt(m, t) == m
    decreases |t|
  {
    if |t| > 1 {
      assert t[1..][..|t| - 2] == t[..|t| - 1][1..];
      DeleteAtMissing(m[t[0]].children, t[1..]);
    }
  }

  /** The directories `mkdirpSync` creates below the last existing one. */
  function Chain(r: seq<string>): (c: map<string, Entry>)
    ensures WalkDirs(c, r) == Some(map[])
    decreases |r|
  {
    if r == [] then map[] else map[r[0] := Dir(Chain(r[1..]))]
  }
}
