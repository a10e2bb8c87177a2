/** The root's bookkeeping in MemoryFileSystem.js: the "/" key every root
    holds, `symlink` as a function of the tree, and the condition under
    which the links and mount points recorded there do not disturb each
    other. */
module Links {
  import opened Errors
  import opened Base64
  import opened Paths
  import opened Tree
  import opened Ops
  import PathFacts

  /** A root as the constructor leaves it: "/" holds the bookkeeping object,
      and the "" marker is implicit. */
  predicate RootTree(m: map<string, Entry>) {
    "/" in m && m["/"] == Meta && "" !in m
  }

  /** The constructor's `this.data[""] = true; this.data["/"] = {...}`. */
  function Rooted(initial: map<string, Entry>): (m: map<string, Entry>)
    ensures RootTree(m)
    ensures forall k :: k != "/" && k != "" ==> Get(m, k) == Get(initial, k)
  {
    (initial - {""})["/" := Meta]
  }

  /** The root listing holds "/", the bookkeeping key. */
  lemma RootListing(m: map<string, Entry>)
    requires RootTree(m)
    ensures ReaddirOf(m, "/") == Ok(m.Keys - {""}) && "/" in ReaddirOf(m, "/").value
    ensures StatOf(m, "/") == Ok(Directory)
  {
    PathFacts.ExampleRoot();
  }

  /** No segment names the root's reserved keys. */
  lemma SegmentNotReserved(segs: seq<string>)
    requires ValidSegments(segs) && |segs| >= 1
    ensures segs[0] != "/" && segs[0] != ""
  {
    assert "/"[0] == '/';
  }

  lemma PutAtRooted(m: map<string, Entry>, t: seq<string>, v: Entry)
    requires RootTree(m) && Writable(m, t) && ValidSegments(t)
    ensures RootTree(PutAt(m, t, v))
  {
    SegmentNotReserved(t);
  }

  lemma DeleteAtRooted(m: map<string, Entry>, t: seq<string>)
    requires RootTree(m) && Writable(m, t) && ValidSegments(t)
    ensures RootTree(DeleteAt(m, t))
  {
    SegmentNotReserved(t);
  }

  lemma MkdirpRooted(m: map<string, Entry>, segs: seq<string>)
    requires RootTree(m) && ValidSegments(segs) && MkdirpTree(m, segs).Ok?
    ensures RootTree(MkdirpTree(m, segs).value)
  {
    if segs != [] {
      SegmentNotReserved(segs);
    }
  }

  /** `symlink`: the target receives the source's raw value through a
      "meta" write; any failure, of `meta` or of the write, is reported as
      the one error. */
  function LinkOf(data: map<string, Entry>, source: string, target: string, encoder: TextEncoder)
    : Result<map<string, Entry>>
  {
    match MetaOf(data, source)
    case Err(_) => Err(SymlinkFailed)
    case Ok(e) =>
      match WriteOf(data, target, e, Some("meta"), encoder)
      case Err(_) => Err(SymlinkFailed)
      case Ok(m) => Ok(m)
  }

  /** A link is a copy: `meta` at the target returns what it returned at the
      source, and the paths apart from the target are untouched. */
  lemma LinkCopies(data: map<string, Entry>, source: string, target: string, encoder: TextEncoder, other: string)
    requires LinkOf(data, source, target, encoder).Ok?
    ensures MetaOf(LinkOf(data, source, target, encoder).value, target) == MetaOf(data, source)
    ensures PathToArray(target).Ok? && PathToArray(other).Ok? && Apart(PathToArray(other).value, PathToArray(target).value) ==>
              MetaOf(LinkOf(data, source, target, encoder).value, other) == MetaOf(data, other)
  {
    var e := MetaOf(data, source).value;
    WriteThenRead(data, target, e, Some("meta"), encoder);
    if PathToArray(other).Ok? {
      WriteFrame(data, target, e, Some("meta"), encoder, other);
    }
  }

  /** A link fails exactly when the source path is malformed or the target
      cannot be written: a malformed or root target, a missing parent, or a
      directory already there. */
  lemma LinkFails(data: map<string, Entry>, source: string, target: string, encoder: TextEncoder)
    ensures LinkOf(data, source, target, encoder).Err? ==> LinkOf(data, source, target, encoder) == Err(SymlinkFailed)
    ensures LinkOf(data, source, target, encoder).Err? <==>
              PathToArray(source).Err? || PathToArray(target).Err? || PathToArray(target).value == [] ||
              !Writable(data, PathToArray(target).value) || IsDir(EntryAt(data, PathToArray(target).value))
  {
  }

  /** `p` is well formed and lies apart from every well-formed path of `linked`. */
  predicate OffLinks(p: string, linked: set<string>) {
    PathToArray(p).Ok? &&
    forall q :: q in linked && PathToArray(q).Ok? ==> Apart(PathToArray(p).value, PathToArray(q).value)
  }

  /** Every path apart from `linked` holds what it held in `base`. */
  ghost predicate Kept(data: map<string, Entry>, base: map<string, Entry>, linked: set<string>) {
    forall p :: OffLinks(p, linked) ==> MetaOf(data, p) == MetaOf(base, p)
  }

  /** With nothing recorded, keeping every path apart from the records is
      keeping the whole tree: the root path "/" sees it all. */
  lemma KeptNothingLinked(data: map<string, Entry>, base: map<string, Entry>)
    requires Kept(data, base, {})
    ensures data == base
  {
    var p := "/";
    PathFacts.RootSegments(p);
    assert OffLinks(p, {});
    assert MetaOf(data, p) == Ok(Dir(data)) && MetaOf(base, p) == Ok(Dir(base));
  }

  lemma KeptTrans(d0: map<string, Entry>, d1: map<string, Entry>, d2: map<string, Entry>, linked: set<string>)
    requires Kept(d1, d0, linked) && Kept(d2, d1, linked)
    ensures Kept(d2, d0, linked)
  {
  }

  /** Nothing exists at any path of `paths`. */
  predicate Gone(data: map<string, Entry>, paths: set<string>) {
    forall q :: q in paths ==> ExistsOf(data, q) == Ok(false)
  }

  /** Removing a recorded path keeps every path apart from the records. */
  lemma RemoveKept(d0: map<string, Entry>, base: map<string, Entry>, linked: set<string>,
                   l: set<string>, path: string, dirTest: bool, override: bool)
    requires Kept(d0, base, linked) && path in linked && RemoveOf(d0, l, path, dirTest, override).Ok?
    ensures Kept(RemoveOf(d0, l, path, dirTest, override).value, base, linked)
  {
    RemoveTarget(d0, l, path, dirTest, override);
    forall p | OffLinks(p, linked) ensures MetaOf(RemoveOf(d0, l, path, dirTest, override).value, p) == MetaOf(base, p) {
      RemoveFrame(d0, l, path, dirTest, override, p);
    }
  }

  /** Writing at a recorded path keeps every path apart from the records. */
  lemma WriteKept(d0: map<string, Entry>, base: map<string, Entry>, linked: set<string>,
                  path: string, content: Entry, encoding: Option<string>, encoder: TextEncoder)
    requires Kept(d0, base, linked) && path in linked && WriteOf(d0, path, content, encoding, encoder).Ok?
    ensures Kept(WriteOf(d0, path, content, encoding, encoder).value, base, linked)
  {
    WriteTarget(d0, path, content, encoding, encoder);
    forall p | OffLinks(p, linked) ensures MetaOf(WriteOf(d0, path, content, encoding, encoder).value, p) == MetaOf(base, p) {
      WriteFrame(d0, path, content, encoding, encoder, p);
    }
  }

  /** Linking to a recorded target keeps every path apart from the records. */
  lemma LinkKept(d0: map<string, Entry>, base: map<string, Entry>, linked: set<string>,
                 source: string, target: string, encoder: TextEncoder)
    requires Kept(d0, base, linked) && target in linked && LinkOf(d0, source, target, encoder).Ok?
    ensures Kept(LinkOf(d0, source, target, encoder).value, base, linked)
  {
    LinkFails(d0, source, target, encoder);
    forall p | OffLinks(p, linked) ensures MetaOf(LinkOf(d0, source, target, encoder).value, p) == MetaOf(base, p) {
      LinkCopies(d0, source, target, encoder, p);
    }
  }

  /** The string `_export` puts where each link was. */
  function ExportMarker(encoder: TextEncoder): Entry {
    Str(Encode(encoder("$symlink$", "utf8")))
  }

  /** The recorded paths are well formed and lie apart from each other: no
      path is both a link target and a mount point, and none lies inside or
      above another. */
  predicate Separated(links: set<string>, points: set<string>) {
    links !! points &&
    (forall p :: p in links + points ==> PathToArray(p).Ok?) &&
    (forall p, q :: p in links + points && q in links + points && p != q ==> Apart(PathToArray(p).value, PathToArray(q).value))
  }

  /** Besides, every link's source lies apart from every link target. */
  predicate SourcesApart(links: map<string, string>) {
    forall t, s :: t in links && s in links.Values ==>
      PathToArray(s).Ok? && PathToArray(t).Ok? && Apart(PathToArray(s).value, PathToArray(t).value)
  }

  /** Every path of `targets` holds the marker. */
  predicate Marked(data: map<string, Entry>, targets: set<string>, marker: Entry) {
    forall t :: t in targets ==> MetaOf(data, t) == Ok(marker)
  }

  /** Every link target of `done` holds what `meta` gave at its source in `base`. */
  predicate Relinked(data: map<string, Entry>, base: map<string, Entry>, links: map<string, string>, done: set<string>) {
    forall t :: t in links && t in done ==> MetaOf(data, t) == MetaOf(base, links[t])
  }

  /** Every link source holds what it held in `base`. */
  predicate SourcesKept(data: map<string, Entry>, base: map<string, Entry>, links: map<string, string>) {
    forall s :: s in links.Values ==> MetaOf(data, s) == MetaOf(base, s)
  }

  /** One turn of `_export`'s first loop: the marked link gets the marker,
      and the links marked before keep it. */
  lemma MarkStep(d0: map<string, Entry>, d2: map<string, Entry>, links: set<string>, points: set<string>,
                 name: string, names: set<string>, encoder: TextEncoder)
    requires Separated(links, points) && name in names && names <= links
    requires Marked(d0, links - names, ExportMarker(encoder))
    requires RemoveOf(d0, links + points, name, true, true).Ok?
    requires WriteOf(RemoveOf(d0, links + points, name, true, true).value, name, Str("$symlink$"), None, encoder) == Ok(d2)
    ensures Marked(d2, links - (names - {name}), ExportMarker(encoder))
  {
    var d1 := RemoveOf(d0, links + points, name, true, true).value;
    WriteThenRead(d1, name, Str("$symlink$"), None, encoder);
    forall t | t in links - (names - {name}) ensures MetaOf(d2, t) == Ok(ExportMarker(encoder)) {
      if t != name {
        RemoveFrame(d0, links + points, name, true, true, t);
        WriteFrame(d1, name, Str("$symlink$"), None, encoder, t);
      }
    }
  }

  /** One turn of `_export`'s second loop: unmounting a mount point apart
      from every link leaves the markers in place. */
  lemma UnmountStep(d0: map<string, Entry>, d1: map<string, Entry>, links: set<string>, points: set<string>,
                    rest: set<string>, mp: string, marker: Entry)
    requires Separated(links, points) && mp in points && rest <= points
    requires Marked(d0, links, marker)
    requires RemoveOf(d0, links + rest, mp, true, false) == Ok(d1)
    ensures Marked(d1, links, marker)
  {
    forall t | t in links ensures MetaOf(d1, t) == Ok(marker) {
      RemoveFrame(d0, links + rest, mp, true, false, t);
    }
  }

  /** One unmount in `_export`: the mount point is removed, and with it
      nothing comes back at the points removed before or changes apart
      from the recorded paths. */
  lemma UnmountKept(d0: map<string, Entry>, base: map<string, Entry>, links: set<string>, points: set<string>,
                    before: set<string>, after: set<string>, mp: string)
    requires mp in before && after == before - {mp} && before <= points
    requires Kept(d0, base, links + points) && Gone(d0, points - before)
    requires RemoveOf(d0, links + after, mp, true, false).Ok?
    ensures Kept(RemoveOf(d0, links + after, mp, true, false).value, base, links + points)
    ensures Gone(RemoveOf(d0, links + after, mp, true, false).value, points - after)
  {
    RemoveKept(d0, base, links + points, links + after, mp, true, false);
    RemoveTarget(d0, links + after, mp, true, false);
    forall q | q in points - after ensures ExistsOf(RemoveOf(d0, links + after, mp, true, false).value, q) == Ok(false) {
      if q == mp {
        RemoveGone(d0, links + after, mp, true, false, q);
      } else {
        RemoveKeepsGone(d0, links + after, mp, true, false, q);
      }
    }
  }

  /** One turn of `_import`'s loop: unlinking and relinking `target` leaves
      every source and every target already done as it was, and gives
      `target` its source's value. */
  lemma ImportStep(d0: map<string, Entry>, d1: map<string, Entry>, d3: map<string, Entry>,
                   links: map<string, string>, target: string, encoder: TextEncoder, names: set<string>)
    requires Separated(links.Keys, {}) && SourcesApart(links) && target in names && names <= links.Keys
    requires Relinked(d1, d0, links, links.Keys - names) && SourcesKept(d1, d0, links)
    requires RemoveOf(d1, links.Keys, target, false, true).Ok?
    requires LinkOf(RemoveOf(d1, links.Keys, target, false, true).value, links[target], target, encoder) == Ok(d3)
    ensures Relinked(d3, d0, links, links.Keys - (names - {target})) && SourcesKept(d3, d0, links)
  {
    var d2 := RemoveOf(d1, links.Keys, target, false, true).value;
    var source := links[target];
    assert source in links.Values;
    forall s | s in links.Values ensures MetaOf(d3, s) == MetaOf(d0, s) {
      RemoveFrame(d1, links.Keys, target, false, true, s);
      LinkCopies(d2, source, target, encoder, s);
    }
    forall t | t in links && t in links.Keys - (names - {target}) ensures MetaOf(d3, t) == MetaOf(d0, links[t]) {
      if t == target {
        LinkCopies(d2, source, target, encoder, t);
        RemoveFrame(d1, links.Keys, target, false, true, source);
      } else {
        RemoveFrame(d1, links.Keys, target, false, true, t);
        LinkCopies(d2, source, target, encoder, t);
      }
    }
  }

  /** Link targets `_import` can unlink and relink: each resolves to a
      path below the root whose parent walk reaches a directory. */
  predicate Relinkable(data: map<string, Entry>, targets: set<string>) {
    forall t :: t in targets ==>
      PathToArray(t).Ok? && PathToArray(t).value != [] && Writable(data, PathToArray(t).value)
  }

  /** A string marker at every target, as `_export` leaves it, makes the
      targets relinkable. */
  lemma MarkedRelinkable(data: map<string, Entry>, targets: set<string>, marker: Entry)
    requires Marked(data, targets, marker) && marker.Str?
    ensures Relinkable(data, targets)
  {
    forall t | t in targets
      ensures PathToArray(t).Ok? && PathToArray(t).value != [] && Writable(data, PathToArray(t).value)
    {
      assert MetaOf(data, t) == Ok(marker);
      var segs := PathToArray(t).value;
      EntryAtByParent(data, segs);
    }
  }

  /** The constructor's root keeps the targets relinkable: no segment names
      the keys it replaces. */
  lemma RootedRelinkable(m: map<string, Entry>, targets: set<string>)
    requires Relinkable(m, targets)
    ensures Relinkable(Rooted(m), targets)
  {
    forall t | t in targets ensures Writable(Rooted(m), PathToArray(t).value) {
      var segs := PathToArray(t).value;
      SegmentNotReserved(segs);
      if |segs| > 1 {
        assert segs[..|segs| - 1][0] == segs[0];
      }
    }
  }

  /** One turn of `_import`'s loop on a relinkable target: the unlink and
      the link both succeed, and the targets still to do stay relinkable. */
  lemma RelinkSucceeds(d1: map<string, Entry>, links: map<string, string>, target: string,
                       encoder: TextEncoder, names: set<string>)
    requires Separated(links.Keys, {}) && SourcesApart(links)
    requires target in names && names <= links.Keys && Relinkable(d1, names)
    ensures RemoveOf(d1, links.Keys, target, false, true).Ok?
    ensures LinkOf(RemoveOf(d1, links.Keys, target, false, true).value, links[target], target, encoder).Ok?
    ensures Relinkable(LinkOf(RemoveOf(d1, links.Keys, target, false, true).value, links[target], target, encoder).value,
                       names - {target})
  {
    var segs := PathToArray(target).value;
    var d2 := DeleteAt(d1, segs);
    assert RemoveOf(d1, links.Keys, target, false, true) == Ok(d2);
    DeleteAtTarget(d1, segs, []);
    assert segs + [] == segs;
    DeleteAtWalk(d1, segs);
    var source := links[target];
    assert source in links.Values;
    LinkFails(d2, source, target, encoder);
    var d3 := LinkOf(d2, source, target, encoder).value;
    WriteTarget(d2, target, MetaOf(d2, source).value, Some("meta"), encoder);
    var v := StoredValue(MetaOf(d2, source).value, Some("meta"), encoder).value;
    assert d3 == PutAt(d2, segs, v);
    forall t | t in names - {target} ensures Writable(d3, PathToArray(t).value) {
      var q := PathToArray(t).value;
      var ps := q[..|q| - 1];
      assert Apart(q, segs);
      assert ps <= q;
      DeleteAtKeepsWalk(d1, segs, ps);
      PutAtKeepsWalk(d2, segs, v, ps);
    }
  }

  /** `_import(_export())` on the same file system. Suppose the export left
      tree `d1` in place of `d0`, and the import of its snapshot left `d2`.
      Suppose too that the recorded paths lie apart and every source lies
      apart from the link targets. Then every path apart from the link
      targets and mount points holds what it held before the export, and
      nothing exists at a former mount point, whether or not the import
      failed. Once every link is made again, as a passing import does,
      every target whose source lies apart from the mount points holds the
      source's value from before the export, not the copy it held then. */
  lemma ExportImport(d0: map<string, Entry>, d1: map<string, Entry>, d2: map<string, Entry>,
                     links: map<string, string>, points: set<string>)
    requires Separated(links.Keys, points) && SourcesApart(links)
    requires RootTree(d1) && Kept(d1, d0, links.Keys + points) && Gone(d1, points)
    requires Kept(d2, Rooted(d1), links.Keys)
    ensures Kept(d2, d0, links.Keys + points)
    ensures Gone(d2, points)
    ensures Relinked(d2, Rooted(d1), links, links.Keys) ==>
              forall t :: t in links && OffLinks(links[t], points) ==> MetaOf(d2, t) == MetaOf(d0, links[t])
  {
    assert Rooted(d1) == d1;
    forall q | q in points ensures ExistsOf(d2, q) == Ok(false) {
      assert OffLinks(q, links.Keys);
    }
    forall t | Relinked(d2, Rooted(d1), links, links.Keys) && t in links && OffLinks(links[t], points)
      ensures MetaOf(d2, t) == MetaOf(d0, links[t])
    {
      assert links[t] in links.Values;
      assert OffLinks(links[t], links.Keys + points);
    }
  }
}
