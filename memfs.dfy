/** The `MemoryFileSystem` object: its `data` tree, which the synchronous
    operations change in place, and the bookkeeping of its root — whether
    it is mounted somewhere, its links and its mount points. */
module MemoryFs {
  import opened Errors
  import opened Base64
  import opened Paths
  import opened Tree
  import opened Ops
  import opened Links

  /** What `_export` serialises: the tree and the root's bookkeeping. */
  datatype Snapshot = Snapshot(tree: map<string, Entry>, isMount: bool, symlinks: map<string, string>)

  class FileSystem {
    /** `this.data`; its "/" key holds `Meta`, and the fields below hold
        what the bookkeeping object holds. */
    var data: map<string, Entry>
    /** `this.data["/"].isMount` */
    var isMount: bool
    /** `this.data["/"].symlinks`: link target to link source. */
    var symlinks: map<string, string>
    /** `this.data["/"].mounts`: mount point to mounted file system. */
    var mounts: map<string, FileSystem>
    /** `new Buffer(string, encoding)`. */
    const encoder: TextEncoder

    ghost predicate Valid()
      reads this
    {
      RootTree(data)
    }

    /** `new MemoryFileSystem(data)`. */
    constructor (initial: map<string, Entry>, encoder: TextEncoder)
      ensures Valid()
      ensures data == Rooted(initial) && !isMount && symlinks == map[] && mounts == map[]
      ensures this.encoder == encoder
    {
      data := Rooted(initial);
      isMount := false;
      symlinks := map[];
      mounts := map[];
      this.encoder := encoder;
    }

    /** The `for` loop every operation starts with: step into `ps` one
        directory at a time, stopping at the first value that is not one. */
    method Walk(ps: seq<string>) returns (r: Option<map<string, Entry>>)
      ensures r == WalkDirs(data, ps)
    {
      var current := data;
      var i := 0;
      while i < |ps|
        invariant 0 <= i <= |ps|
        invariant WalkDirs(data, ps) == WalkDirs(current, ps[i..])
      {
        assert ps[i..][0] == ps[i] && ps[i..][1..] == ps[i + 1..];
        var e := Get(current, ps[i]);
        if !IsDir(e) {
          return None;
        }
        current := e.children;
        i := i + 1;
      }
      return Some(current);
    }

    /** `meta`. */
    method MetaSync(path: string) returns (r: Result<Entry>)
      ensures r == MetaOf(data, path)
    {
      var p := PathToArray(path);
      if p.Err? {
        return Err(p.error);
      }
      var segs := p.value;
      if |segs| == 0 {
        return Ok(Dir(data));
      }
      EntryAtByParent(data, segs);
      var d := Walk(segs[..|segs| - 1]);
      if d.None? {
        return Ok(Undef);
      }
      return Ok(Get(d.value, segs[|segs| - 1]));
    }

    /** `existsSync`. */
    method ExistsSync(path: string) returns (r: Result<bool>)
      ensures r == ExistsOf(data, path)
    {
      var m := MetaSync(path);
      if m.Err? {
        return Err(m.error);
      }
      return Ok(Truthy(m.value));
    }

    /** `statSync`. */
    method StatSync(path: string) returns (r: Result<Kind>)
      ensures r == StatOf(data, path)
    {
      var m := MetaSync(path);
      if m.Err? {
        return Err(m.error);
      }
      if path == "/" || IsDir(m.value) {
        return Ok(Directory);
      } else if IsFile(m.value) {
        return Ok(File);
      }
      return Err(ENOENT);
    }

    /** `readFileSync` without an encoding. */
    method ReadFileSync(path: string) returns (r: Result<seq<byte>>)
      ensures r == ReadFileOf(data, path)
    {
      var p := PathToArray(path);
      if p.Err? {
        return Err(p.error);
      }
      var segs := p.value;
      var d := Walk(Parents(segs));
      if d.None? {
        return Err(ENOENT);
      }
      return FromBase64(Get(d.value, LastKey(segs)));
    }

    /** `readdirSync`. */
    method ReaddirSync(path: string) returns (r: Result<set<string>>)
      ensures r == ReaddirOf(data, path)
    {
      if path == "/" {
        return Ok(data.Keys - {""});
      }
      var p := PathToArray(path);
      if p.Err? {
        return Err(p.error);
      }
      var segs := p.value;
      var d := Walk(Parents(segs));
      if d.None? {
        return Err(ENOENT);
      }
      var e := Get(d.value, LastKey(segs));
      if IsDir(e) {
        return Ok(e.children.Keys - {""});
      } else if IsFile(e) {
        return Err(ENOTDIR);
      }
      return Err(ENOENT);
    }
    /** `mkdirpSync`. The source creates each missing directory as its loop
        reaches it; here the loop walks the directories that exist, and the
        missing ones are put in place as one chain at the end. */
    method MkdirpSync(path: string) returns (r: Outcome)
      requires Valid()
      modifies this
      ensures Valid()
      ensures r == OutcomeOf(MkdirpOf(old(data), path))
      ensures data == if r.Pass? then MkdirpOf(old(data), path).value else old(data)
      ensures isMount == old(isMount) && symlinks == old(symlinks) && mounts == old(mounts)
    {
      ghost var m := MkdirpOf(data, path);
      var p := PathToArray(path);
      if p.Err? {
        assert m == Err(p.error);
        return Fail(p.error);
      }
      var segs := p.value;
      assert m == MkdirpTree(data, segs);
      var current := data;
      var k := 0;
      while k < |segs| && IsDir(Get(current, segs[k]))
        invariant 0 <= k <= |segs|
        invariant WalkDirs(data, segs[..k]) == Some(current)
        invariant unchanged(this)
      {
        WalkDirsSnoc(data, segs[..k], segs[k]);
        assert segs[..k + 1] == segs[..k] + [segs[k]];
        current := Get(current, segs[k]).children;
        k := k + 1;
      }
      if k == |segs| {
        assert segs[..k] == segs;
        MkdirpExisting(data, segs);
        assert m == Ok(data);
        return Pass;
      }
      MkdirpAt(data, segs, k);
      if IsFile(Get(current, segs[k])) {
        assert m == Err(ENOTDIR);
        return Fail(ENOTDIR);
      }
      assert m == Ok(PutAt(data, segs[..k + 1], Dir(Chain(segs[k + 1..]))));
      MkdirpRooted(data, segs);
      data := PutAt(data, segs[..k + 1], Dir(Chain(segs[k + 1..])));
      return Pass;
    }

    /** `mkdirSync`. */
    method MkdirSync(path: string) returns (r: Outcome)
      requires Valid()
      modifies this
      ensures Valid()
      ensures r == OutcomeOf(MkdirOf(old(data), path))
      ensures data == if r.Pass? then MkdirOf(old(data), path).value else old(data)
      ensures isMount == old(isMount) && symlinks == old(symlinks) && mounts == old(mounts)
    {
      var p := PathToArray(path);
      if p.Err? {
        return Fail(p.error);
      }
      var segs := p.value;
      if |segs| == 0 {
        return Pass;
      }
      var d := Walk(segs[..|segs| - 1]);
      if d.None? {
        return Fail(ENOENT);
      }
      EntryAtByParent(data, segs);
      var e := Get(d.value, segs[|segs| - 1]);
      if IsDir(e) {
        return Fail(EEXIST);
      } else if IsFile(e) {
        return Fail(ENOTDIR);
      }
      PutAtRooted(data, segs, Dir(map[]));
      data := PutAt(data, segs, Dir(map[]));
      return Pass;
    }

    /** `_remove`; `dirTest` chooses `isDir` over `isFile`. */
    method Remove(path: string, dirTest: bool, override: bool) returns (r: Outcome)
      requires Valid()
      modifies this
      ensures Valid()
      ensures r == OutcomeOf(RemoveOf(old(data), old(symlinks.Keys + mounts.Keys), path, dirTest, override))
      ensures data == if r.Pass? then RemoveOf(old(data), old(symlinks.Keys + mounts.Keys), path, dirTest, override).value else old(data)
      ensures isMount == old(isMount) && symlinks == old(symlinks) && mounts == old(mounts)
    {
      var p := PathToArray(path);
      if p.Err? {
        return Fail(p.error);
      }
      var segs := p.value;
      if |segs| == 0 {
        return Fail(EPERM);
      }
      var d := Walk(segs[..|segs| - 1]);
      if d.None? {
        return Fail(ENOENT);
      }
      EntryAtByParent(data, segs);
      var e := Get(d.value, segs[|segs| - 1]);
      var kindOk := if dirTest then IsDir(e) else IsFile(e);
      if !kindOk && !override && (path in symlinks || path in mounts) {
        return Fail(ENOENT);
      }
      DeleteAtRooted(data, segs);
      data := DeleteAt(data, segs);
      return Pass;
    }

    /** `rmdirSync`. */
    method RmdirSync(path: string, override: bool) returns (r: Outcome)
      requires Valid()
      modifies this
      ensures Valid()
      ensures r == OutcomeOf(RemoveOf(old(data), old(symlinks.Keys + mounts.Keys), path, true, override))
      ensures data == if r.Pass? then RemoveOf(old(data), old(symlinks.Keys + mounts.Keys), path, true, override).value else old(data)
      ensures isMount == old(isMount) && symlinks == old(symlinks) && mounts == old(mounts)
    {
      r := Remove(path, true, override);
    }

    /** `unlinkSync`. */
    method UnlinkSync(path: string, override: bool) returns (r: Outcome)
      requires Valid()
      modifies this
      ensures Valid()
      ensures r == OutcomeOf(RemoveOf(old(data), old(symlinks.Keys + mounts.Keys), path, false, override))
      ensures data == if r.Pass? then RemoveOf(old(data), old(symlinks.Keys + mounts.Keys), path, false, override).value else old(data)
      ensures isMount == old(isMount) && symlinks == old(symlinks) && mounts == old(mounts)
    {
      r := Remove(path, false, override);
    }

    /** `writeFileSync`. */
    method WriteFileSync(path: string, content: Entry, encoding: Option<string>) returns (r: Outcome)
      requires Valid()
      modifies this
      ensures Valid()
      ensures r == OutcomeOf(WriteOf(old(data), path, content, encoding, encoder))
      ensures data == if r.Pass? then WriteOf(old(data), path, content, encoding, encoder).value
                      else FailedWriteTree(old(data), path, content, encoding)
      ensures isMount == old(isMount) && symlinks == old(symlinks) && mounts == old(mounts)
    {
      ghost var w := WriteOf(data, path, content, encoding, encoder);
      if !Truthy(content) && !TruthyEncoding(encoding) {
        assert w == Err(NoContent);
        return Fail(NoContent);
      }
      var p := PathToArray(path);
      if p.Err? {
        assert w == Err(p.error);
        return Fail(p.error);
      }
      var segs := p.value;
      if |segs| == 0 {
        assert w == Err(EISDIR);
        return Fail(EISDIR);
      }
      var d := Walk(segs[..|segs| - 1]);
      if d.None? {
        assert w == Err(ENOENT);
        return Fail(ENOENT);
      }
      EntryAtByParent(data, segs);
      if IsDir(Get(d.value, segs[|segs| - 1])) {
        assert w == Err(EISDIR);
        return Fail(EISDIR);
      }
      var v := StoredValue(content, encoding, encoder);
      if v.Err? {
        assert w == Err(v.error);
        if StoresBeforeThrow(content, encoding) {
          // the object is stored before its own `toString` throws
          PutAtRooted(data, segs, content);
          data := PutAt(data, segs, content);
        }
        return Fail(v.error);
      }
      assert w == Ok(PutAt(data, segs, v.value));
      PutAtRooted(data, segs, v.value);
      data := PutAt(data, segs, v.value);
      return Pass;
    }
    /** `symlink`: a copy of the source's raw value, written with "meta",
        and the link recorded. */
    method Symlink(source: string, target: string) returns (r: Outcome)
      requires Valid()
      modifies this
      ensures Valid()
      ensures r == OutcomeOf(LinkOf(old(data), source, target, encoder))
      ensures data == if r.Pass? then LinkOf(old(data), source, target, encoder).value else old(data)
      ensures symlinks == if r.Pass? then old(symlinks)[target := source] else old(symlinks)
      ensures isMount == old(isMount) && mounts == old(mounts)
    {
      var m := MetaSync(source);
      if m.Err? {
        return Fail(SymlinkFailed);
      }
      var w := WriteFileSync(target, m.value, Some("meta"));
      if w.Fail? {
        return Fail(SymlinkFailed);
      }
      symlinks := symlinks[target := source];
      return Pass;
    }

    /** `desymlink`: the record goes first, then `rmdirSync` removes the
        target; the record stays gone when the removal fails. */
    method Desymlink(target: string) returns (r: Outcome)
      requires Valid()
      modifies this
      ensures Valid()
      ensures target !in old(symlinks) ==> r == Fail(NotASymlink) && symlinks == old(symlinks) && data == old(data)
      ensures target in old(symlinks) ==>
                symlinks == old(symlinks) - {target} &&
                r == OutcomeOf(RemoveOf(old(data), symlinks.Keys + mounts.Keys, target, true, false)) &&
                data == if r.Pass? then RemoveOf(old(data), symlinks.Keys + mounts.Keys, target, true, false).value else old(data)
      ensures isMount == old(isMount) && mounts == old(mounts)
    {
      if target !in symlinks {
        return Fail(NotASymlink);
      }
      symlinks := symlinks - {target};
      r := RmdirSync(target, false);
    }

    /** `mount`: the other file system's tree is written at the path with
        "meta", that file system is marked as mounted and the mount point is
        recorded. Any failure of the write is reported as one error. */
    method Mount(fs: FileSystem, path: string) returns (r: Outcome)
      requires Valid() && fs.Valid()
      modifies this, fs
      ensures Valid()
      ensures r.Fail? ==> r == Fail(MountFailed) && data == old(data) && mounts == old(mounts)
      ensures r.Pass? <==> WriteOf(old(data), path, Dir(old(fs.data)), Some("meta"), encoder).Ok?
      ensures r.Pass? ==>
                data == WriteOf(old(data), path, Dir(old(fs.data)), Some("meta"), encoder).value &&
                fs.isMount && mounts == old(mounts)[path := fs] &&
                MetaOf(data, path) == Ok(Dir(old(fs.data))) && IsMount(Dir(old(fs.data)))
      ensures r.Fail? ==> isMount == old(isMount) && fs.isMount == old(fs.isMount)
      ensures this != fs ==> isMount == old(isMount)
      ensures symlinks == old(symlinks) && fs.Valid() && (this != fs ==> fs.data == old(fs.data))
      ensures this != fs ==> fs.symlinks == old(fs.symlinks) && fs.mounts == old(fs.mounts)
    {
      var w := WriteFileSync(path, Dir(fs.data), Some("meta"));
      if w.Fail? {
        return Fail(MountFailed);
      }
      WriteThenRead(old(data), path, Dir(old(fs.data)), Some("meta"), encoder);
      fs.isMount := true;
      mounts := mounts[path := fs];
      return Pass;
    }

    /** `unmount`: the mounted file system is marked as no longer mounted,
        the record goes, then `rmdirSync` removes the mount point; the record
        stays gone when the removal fails. */
    method Unmount(path: string) returns (r: Outcome)
      requires Valid()
      modifies this, mounts.Values
      ensures Valid()
      ensures path !in old(mounts) ==> r == Fail(NotAMountPoint) && mounts == old(mounts) && data == old(data)
      ensures path in old(mounts) ==>
                !old(mounts[path]).isMount && mounts == old(mounts) - {path} &&
                r == OutcomeOf(RemoveOf(old(data), symlinks.Keys + mounts.Keys, path, true, false)) &&
                data == if r.Pass? then RemoveOf(old(data), symlinks.Keys + mounts.Keys, path, true, false).value else old(data)
      ensures path in old(mounts) && old(mounts[path]) != this ==> isMount == old(isMount)
      ensures path !in old(mounts) ==> isMount == old(isMount)
      ensures forall f :: f in old(mounts.Values) && (path !in old(mounts) || f != old(mounts[path])) ==> f.isMount == old(f.isMount)
      ensures forall f :: f in old(mounts.Values) && f != this ==>
                f.data == old(f.data) && f.symlinks == old(f.symlinks) && f.mounts == old(f.mounts)
      ensures symlinks == old(symlinks)
    {
      if path !in mounts {
        return Fail(NotAMountPoint);
      }
      var ff := mounts[path];
      ff.isMount := false;
      mounts := mounts - {path};
      r := RmdirSync(path, false);
    }
    /** One turn of `_export`'s first loop: `rmdirSync(name, true)`, then
        `writeFileSync(name, "$symlink$")`. */
    method MarkLink(name: string) returns (r: Outcome)
      requires Valid()
      modifies this
      ensures Valid()
      ensures isMount == old(isMount) && symlinks == old(symlinks) && mounts == old(mounts)
      ensures r.Pass? ==> RemoveOf(old(data), old(symlinks.Keys + mounts.Keys), name, true, true).Ok?
      ensures r.Pass? ==>
                WriteOf(RemoveOf(old(data), old(symlinks.Keys + mounts.Keys), name, true, true).value, name, Str("$symlink$"), None, encoder)
                == Ok(data)
      ensures r.Fail? ==>
                data == old(data) ||
                (RemoveOf(old(data), old(symlinks.Keys + mounts.Keys), name, true, true).Ok? &&
                 data == RemoveOf(old(data), old(symlinks.Keys + mounts.Keys), name, true, true).value)
    {
      r := RmdirSync(name, true);
      if r.Fail? {
        return;
      }
      r := WriteFileSync(name, Str("$symlink$"), None);
    }

    /** `_export`'s first loop: each link target is removed and replaced
        by the marker string, in no particular order. */
    method MarkLinks() returns (r: Outcome)
      requires Valid()
      modifies this
      ensures Valid()
      ensures isMount == old(isMount) && symlinks == old(symlinks) && mounts == old(mounts)
      ensures r.Pass? && Separated(symlinks.Keys, mounts.Keys) ==> Marked(data, symlinks.Keys, ExportMarker(encoder))
      ensures Kept(data, old(data), symlinks.Keys + mounts.Keys)
      ensures symlinks == map[] ==> r.Pass?
    {
      ghost var base := data;
      var names := symlinks.Keys;
      while names != {}
        invariant Valid()
        invariant names <= symlinks.Keys
        invariant isMount == old(isMount) && symlinks == old(symlinks) && mounts == old(mounts)
        invariant Separated(symlinks.Keys, mounts.Keys) ==> Marked(data, symlinks.Keys - names, ExportMarker(encoder))
        invariant Kept(data, base, symlinks.Keys + mounts.Keys)
        decreases |names|
      {
        var name :| name in names;
        assert name in symlinks;
        r := MarkNext(name, names, base);
        if r.Fail? {
          return;
        }
        names := names - {name};
      }
      assert symlinks.Keys - names == symlinks.Keys;
      return Pass;
    }

    /** One turn of the first loop, with the markers placed so far kept. */
    method MarkNext(name: string, ghost names: set<string>, ghost base: map<string, Entry>) returns (r: Outcome)
      requires Valid() && name in names && names <= symlinks.Keys
      requires Separated(symlinks.Keys, mounts.Keys) ==> Marked(data, symlinks.Keys - names, ExportMarker(encoder))
      requires Kept(data, base, symlinks.Keys + mounts.Keys)
      modifies this
      ensures Valid()
      ensures isMount == old(isMount) && symlinks == old(symlinks) && mounts == old(mounts)
      ensures r.Pass? && Separated(symlinks.Keys, mounts.Keys) ==>
                Marked(data, symlinks.Keys - (names - {name}), ExportMarker(encoder))
      ensures Kept(data, base, symlinks.Keys + mounts.Keys)
    {
      ghost var d0 := data;
      ghost var linked := symlinks.Keys + mounts.Keys;
      r := MarkLink(name);
      if r.Pass? && Separated(symlinks.Keys, mounts.Keys) {
        MarkStep(d0, data, symlinks.Keys, mounts.Keys, name, names, encoder);
      }
      if data != d0 {
        RemoveKept(d0, base, linked, linked, name, true, true);
        if r.Pass? {
          WriteKept(RemoveOf(d0, linked, name, true, true).value, base, linked, name, Str("$symlink$"), None, encoder);
        }
      }
    }

    /** One turn of `_export`'s second loop: `unmount(mp)`. Of the file
        systems in `all`, the ones still recorded may be mounted; every
        other one is not. With the recorded paths apart, the markers of the
        first loop stay in place. */
    method UnmountNext(mp: string, ghost all: set<FileSystem>, ghost points: set<string>, ghost sep: bool,
                       ghost base: map<string, Entry>) returns (r: Outcome)
      requires Valid() && mp in mounts && mounts.Values <= all && mounts.Keys <= points
      requires forall f :: f in all ==> f in mounts.Values || !f.isMount
      requires sep ==> Separated(symlinks.Keys, points) && Marked(data, symlinks.Keys, ExportMarker(encoder))
      requires Kept(data, base, symlinks.Keys + points) && Gone(data, points - mounts.Keys)
      modifies this, mounts.Values
      ensures Valid()
      ensures symlinks == old(symlinks) && mounts == old(mounts) - {mp} && mounts.Values <= all
      ensures forall f :: f in all ==> f in mounts.Values || !f.isMount
      ensures sep ==> Marked(data, symlinks.Keys, ExportMarker(encoder))
      ensures Kept(data, base, symlinks.Keys + points)
      ensures r.Pass? ==> Gone(data, points - mounts.Keys)
    {
      ghost var before := mounts;
      ghost var ff := mounts[mp];
      ghost var d0 := data;
      r := Unmount(mp);
      SubmapValues(mounts, before);
      forall f | f in all ensures f in mounts.Values || !f.isMount {
        if f in before.Values && f != ff {
          var k :| k in before && before[k] == f;
          assert k != mp && k in mounts;
        }
      }
      if sep && r.Pass? {
        UnmountStep(d0, data, symlinks.Keys, points, mounts.Keys, mp, ExportMarker(encoder));
      }
      if r.Pass? {
        UnmountKept(d0, base, symlinks.Keys, points, before.Keys, mounts.Keys, mp);
      }
    }

    /** `_export`'s second loop: every mount point is unmounted, in no
        particular order. */
    method UnmountAll() returns (r: Outcome)
      requires Valid()
      modifies this, mounts.Values
      ensures Valid()
      ensures symlinks == old(symlinks)
      ensures r.Pass? ==> mounts == map[] && forall f :: f in old(mounts.Values) ==> !f.isMount
      ensures r.Pass? && old(Separated(symlinks.Keys, mounts.Keys)) && old(Marked(data, symlinks.Keys, ExportMarker(encoder))) ==>
                Marked(data, symlinks.Keys, ExportMarker(encoder))
      ensures Kept(data, old(data), symlinks.Keys + old(mounts.Keys))
      ensures r.Pass? ==> Gone(data, old(mounts.Keys))
      ensures old(mounts) == map[] ==> r.Pass?
    {
      ghost var base := data;
      ghost var all := mounts.Values;
      ghost var points := mounts.Keys;
      ghost var sep := Separated(symlinks.Keys, mounts.Keys) && Marked(data, symlinks.Keys, ExportMarker(encoder));
      while mounts != map[]
        modifies this, all
        invariant Valid()
        invariant symlinks == old(symlinks) && mounts.Values <= all && mounts.Keys <= points
        invariant forall f :: f in all ==> f in mounts.Values || !f.isMount
        invariant sep ==> Separated(symlinks.Keys, points) && Marked(data, symlinks.Keys, ExportMarker(encoder))
        invariant Kept(data, base, symlinks.Keys + points) && Gone(data, points - mounts.Keys)
        decreases |mounts|
      {
        var mp :| mp in mounts;
        r := UnmountNext(mp, all, points, sep, base);
        if r.Fail? {
          return;
        }
      }
      assert points - mounts.Keys == points;
      return Pass;
    }

    /** `_export` up to its serialisation: every link is replaced by the
        marker string, every mount point is unmounted, and the tree with its
        bookkeeping is what gets serialised. */
    method Export() returns (r: Result<Snapshot>)
      requires Valid()
      modifies this, mounts.Values
      ensures Valid()
      ensures symlinks == old(symlinks)
      ensures r.Ok? ==> r.value == Snapshot(data, isMount, symlinks) && mounts == map[]
      ensures r.Ok? ==> forall f :: f in old(mounts.Values) ==> !f.isMount
      ensures r.Ok? && old(Separated(symlinks.Keys, mounts.Keys)) ==> Marked(data, symlinks.Keys, ExportMarker(encoder))
      ensures r.Ok? && old(Separated(symlinks.Keys, mounts.Keys)) ==> Relinkable(r.value.tree, symlinks.Keys)
      ensures Kept(data, old(data), symlinks.Keys + old(mounts.Keys))
      ensures r.Ok? ==> Gone(r.value.tree, old(mounts.Keys))
      ensures old(symlinks) == map[] && old(mounts) == map[] ==> r.Ok? && r.value.tree == old(data)
    {
      ghost var d0, points := data, mounts.Keys;
      var x := MarkLinks();
      if x.Fail? {
        return Err(x.error);
      }
      ghost var d1 := data;
      x := UnmountAll();
      KeptTrans(d0, d1, data, symlinks.Keys + points);
      if symlinks == map[] && old(mounts) == map[] {
        assert symlinks.Keys + points == {};
        KeptNothingLinked(data, d0);
      }
      if x.Fail? {
        return Err(x.error);
      }
      if old(Separated(symlinks.Keys, mounts.Keys)) {
        MarkedRelinkable(data, symlinks.Keys, ExportMarker(encoder));
      }
      return Ok(Snapshot(data, isMount, symlinks));
    }

    /** One turn of `_import`'s loop: `unlinkSync(target, true)`, then
        `symlink(source, target)`. */
    method Relink(target: string) returns (r: Outcome)
      requires Valid() && target in symlinks
      modifies this
      ensures Valid()
      ensures isMount == old(isMount) && symlinks == old(symlinks) && mounts == old(mounts)
      ensures r.Pass? ==> RemoveOf(old(data), old(symlinks.Keys + mounts.Keys), target, false, true).Ok?
      ensures r.Pass? ==>
                LinkOf(RemoveOf(old(data), old(symlinks.Keys + mounts.Keys), target, false, true).value, symlinks[target], target, encoder)
                == Ok(data)
      ensures RemoveOf(old(data), old(symlinks.Keys + mounts.Keys), target, false, true).Ok? &&
              LinkOf(RemoveOf(old(data), old(symlinks.Keys + mounts.Keys), target, false, true).value, symlinks[target], target, encoder).Ok?
              ==> r.Pass?
      ensures r.Fail? ==>
                data == old(data) ||
                (RemoveOf(old(data), old(symlinks.Keys + mounts.Keys), target, false, true).Ok? &&
                 data == RemoveOf(old(data), old(symlinks.Keys + mounts.Keys), target, false, true).value)
    {
      var source := symlinks[target];
      ghost var d0, linked := data, symlinks.Keys + mounts.Keys;
      r := UnlinkSync(target, true);
      if r.Fail? {
        return;
      }
      ghost var d1 := data;
      assert d1 == RemoveOf(d0, linked, target, false, true).value;
      r := Symlink(source, target);
      if r.Pass? {
        assert data == LinkOf(d1, source, target, encoder).value;
      }
      assert symlinks[target := source] == symlinks;
    }

    /** `_import` from a snapshot: the tree and the bookkeeping are put in
        place, and each link is made again from its source. */
    method Import(snap: Snapshot) returns (r: Outcome)
      modifies this
      ensures Valid()
      ensures isMount == snap.isMount && symlinks == snap.symlinks && mounts == map[]
      ensures r.Pass? && Separated(snap.symlinks.Keys, {}) && SourcesApart(snap.symlinks) ==>
                Relinked(data, Rooted(snap.tree), symlinks, symlinks.Keys)
      ensures Separated(snap.symlinks.Keys, {}) && SourcesApart(snap.symlinks) && Relinkable(snap.tree, snap.symlinks.Keys) ==>
                r.Pass?
      ensures Kept(data, Rooted(snap.tree), snap.symlinks.Keys)
      ensures snap.symlinks == map[] ==> r.Pass? && data == Rooted(snap.tree)
    {
      if Relinkable(snap.tree, snap.symlinks.Keys) {
        RootedRelinkable(snap.tree, snap.symlinks.Keys);
      }
      data := Rooted(snap.tree);
      isMount := snap.isMount;
      symlinks := snap.symlinks;
      mounts := map[];
      r := RelinkAll();
      if snap.symlinks == map[] {
        assert symlinks.Keys == {};
        KeptNothingLinked(data, Rooted(snap.tree));
      }
    }

    /** `_import`'s loop: each link is made again from its source, the
        marker at the target unlinked first. Links are visited in no
        particular order. */
    method RelinkAll() returns (r: Outcome)
      requires Valid() && mounts == map[]
      modifies this
      ensures Valid()
      ensures isMount == old(isMount) && symlinks == old(symlinks) && mounts == old(mounts)
      ensures r.Pass? && Separated(symlinks.Keys, {}) && SourcesApart(symlinks) ==>
                Relinked(data, old(data), symlinks, symlinks.Keys)
      ensures Separated(symlinks.Keys, {}) && SourcesApart(symlinks) && Relinkable(old(data), symlinks.Keys) ==> r.Pass?
      ensures Kept(data, old(data), symlinks.Keys)
      ensures symlinks == map[] ==> r.Pass?
    {
      ghost var d0 := data;
      var names := symlinks.Keys;
      while names != {}
        invariant Valid()
        invariant isMount == old(isMount) && symlinks == old(symlinks) && mounts == map[]
        invariant names <= symlinks.Keys
        invariant Separated(symlinks.Keys, {}) && SourcesApart(symlinks) ==>
                    Relinked(data, d0, symlinks, symlinks.Keys - names) && SourcesKept(data, d0, symlinks)
        invariant Separated(symlinks.Keys, {}) && SourcesApart(symlinks) && Relinkable(d0, symlinks.Keys) ==>
                    Relinkable(data, names)
        invariant Kept(data, d0, symlinks.Keys)
        decreases |names|
      {
        var target :| target in names;
        assert target in symlinks;
        var u := RelinkNext(target, d0, names);
        if u.Fail? {
          return u;
        }
        names := names - {target};
      }
      assert symlinks.Keys - names == symlinks.Keys;
      return Pass;
    }

    /** One turn of `_import`'s loop: `target` is relinked, and the links done
        so far keep their sources' values. */
    method RelinkNext(target: string, ghost d0: map<string, Entry>, ghost names: set<string>) returns (r: Outcome)
      requires Valid() && mounts == map[] && target in names && names <= symlinks.Keys
      requires Separated(symlinks.Keys, {}) && SourcesApart(symlinks) ==>
                 Relinked(data, d0, symlinks, symlinks.Keys - names) && SourcesKept(data, d0, symlinks)
      requires Kept(data, d0, symlinks.Keys)
      modifies this
      ensures Valid()
      ensures isMount == old(isMount) && symlinks == old(symlinks) && mounts == old(mounts)
      ensures r.Pass? && Separated(symlinks.Keys, {}) && SourcesApart(symlinks) ==>
                Relinked(data, d0, symlinks, symlinks.Keys - (names - {target})) && SourcesKept(data, d0, symlinks)
      ensures Separated(symlinks.Keys, {}) && SourcesApart(symlinks) && old(Relinkable(data, names)) ==>
                r.Pass? && Relinkable(data, names - {target})
      ensures Kept(data, d0, symlinks.Keys)
    {
      ghost var d1 := data;
      assert symlinks.Keys + mounts.Keys == symlinks.Keys;
      r := Relink(target);
      if Separated(symlinks.Keys, {}) && SourcesApart(symlinks) && Relinkable(d1, names) {
        RelinkSucceeds(d1, symlinks, target, encoder, names);
      }
      if r.Pass? && Separated(symlinks.Keys, {}) && SourcesApart(symlinks) {
        ImportStep(d0, d1, data, symlinks, target, encoder, names);
      }
      if data != d1 {
        RemoveKept(d1, d0, symlinks.Keys, symlinks.Keys, target, false, true);
        if r.Pass? {
          LinkKept(RemoveOf(d1, symlinks.Keys, target, false, true).value, d0, symlinks.Keys, symlinks[target], target, encoder);
        }
      }
    }
  }

  /** A map whose entries all come from another has its values among the
      other's. */
  lemma SubmapValues<K, V>(m: map<K, V>, n: map<K, V>)
    requires forall k :: k in m ==> k in n && m[k] == n[k]
    ensures m.Values <= n.Values
  {
    forall v | v in m.Values ensures v in n.Values {
      var k :| k in m && m[k] == v;
      assert n[k] == v;
    }
  }
}
