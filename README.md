# imemfs: a verified model of the in-memory filesystem

imemfs keeps a whole filesystem in one nested JavaScript object. Each
directory is an object that carries the reserved key `""`. A file written
by `writeFileSync` is stored as the base64 string of its bytes. The root
object also holds a `"/"` key with the bookkeeping object
`{isMount, mounts, symlinks}`.

This project models that object and the synchronous operations of
`MemoryFileSystem` that read and change it:

- `pathToArray`;
- `meta`, `existsSync` and `statSync`;
- `readFileSync` and `readdirSync`;
- `mkdirpSync` and `mkdirSync`;
- `_remove`, `rmdirSync` and `unlinkSync`;
- `writeFileSync`;
- `symlink`, `desymlink`, `mount` and `unmount`;
- the tree-level work of `_export` and `_import`;
- the constructor.

It then proves what these operations promise.

The model is split into modules:

- `Errors` (errors.dfy) has one error tag per throw site and the
  `Result`/`Outcome` wrappers. Operations return these instead of throwing.
- `Base64` (base64.dfy) is the base64 encoding of section 4 of RFC 4648,
  which files are stored in. It is written out in full, so the decode–encode
  round trip is a proved lemma.
- `Paths` and `PathFacts` (paths.dfy) hold `pathToArray`, covering both
  POSIX paths and drive paths, and what it promises: canonical spellings,
  and `/` and `\` being interchangeable in drive paths.
- `Tree` (tree.dfy) has the values a key can hold (`Entry`), the `isDir`,
  `isFile` and `isMount` tests, and the walk from the root along the
  segments. It also has the write and delete at the end of that walk, with
  their frame lemmas.
- `Ops` (ops.dfy) gives every operation as a function of the root map. This
  is the specification the methods are proved against. The lemmas say what
  the operations promise: errors, reads after writes, listings, idempotence
  and frames.
- `Links` (links.dfy) covers the root's bookkeeping:
  - the constructor's root;
  - `symlink` as a function of the tree;
  - one turn of each loop of `_export` and `_import`;
  - the condition under which recorded links and mount points do not
    disturb each other.
- `MemoryFs` (memfs.dfy) is the class `FileSystem`. It holds:
  - the tree in `data`;
  - `isMount`, `symlinks` and `mounts` for the `"/"` bookkeeping object;
  - one method per operation, each proved to keep the root invariant
    `Valid()`. The methods of the reading and writing operations are proved
    to compute exactly what their `Ops` function says. `Symlink` is proved
    against `Links.LinkOf`. `Desymlink`, `Mount`, `Unmount`, `Export` and
    `Import` state their effect on the tree and the bookkeeping directly.
    `Export` and `Import` also state that nothing apart from the recorded
    paths changes (`Links.Kept`).

Where the documented behaviour and the code differ, the model follows the
code:

- **Written files are not files to `statSync` or `readdirSync`.** A file
  written without the "meta" encoding is a string. `isFile` and `isDir`
  accept only objects, so `statSync` and `readdirSync` report ENOENT on such
  a file (`Ops.WrittenFileIsNotStat`). The same reason explains two more
  results:
  - `mkdirSync` replaces a written file with a new directory instead of
    failing (`Ops.MkdirOutcome`);
  - `existsSync` is false for an empty file (`Ops.WrittenFileExists`).
- **Errors come from the object's kind.** `readdirSync` fails with ENOTDIR
  only on an object that is not a directory, such as a Buffer stored with
  "meta". It fails with ENOENT otherwise.
- **`readFileSync` never throws EISDIR.** The `Buffer.from` conversion
  comes before the EISDIR and ENOENT tests, which a Buffer always passes
  (`Ops.FromBase64`, `Ops.ReadDirectory`):
  - a missing file fails in the conversion (TypeError here);
  - so does a directory, with two exceptions that read as the empty
    Buffer (`Ops.EmptyBufferObject`). One is a directory whose `valueOf`
    child is the empty string, which Node converts in the object's place.
    The other has no `valueOf` child and a `length` child, and Node takes it
    for array-like. A truthy `valueOf` child is called as a method and
    throws.
- **Paths with no segments.** Paths made only of `"/"`, such as `"/"` and
  `"//"`, have no segments. `readFileSync` has no special case for `"/"`.
  It reads the key `"undefined"` of the root for both, because the source
  indexes `path[i]` with `i = 0` (`Ops.LastKey`). `readdirSync` tests only
  for the exact string `"/"`, so it reads that key for `"//"`. `meta`,
  `mkdirSync` and `mkdirpSync` treat all such paths as the root. `"C:"` is
  not one of them: it has the one segment `"C:"`.
- **A half-finished `_export` or `_import` stays half-finished.** Both
  change the tree one link or mount point at a time. When one step throws,
  the steps before it are not undone.
- **A failed `writeFileSync` can still store.** Without an encoding, an
  object is first stored at the path and only then converted with its own
  `toString`. A directory with a child named `toString` makes that call
  throw after the store, so the TypeError leaves the object in place
  (`Ops.FailedWriteTree`, `Ops.FailedWrite`). Every other failure comes
  before the assignment.
- **`_import(_export())` re-copies the links.** Export puts the marker at
  each link target. A target that holds the marker can be unlinked and
  linked again, so when the recorded paths and the sources lie apart, the
  import of an export's snapshot succeeds (`Links.MarkedRelinkable`,
  `Links.RelinkSucceeds`, the `Export` and `Import` contracts). The import
  then copies each source's value from before the export back to its
  target (`Links.ExportImport`). A target that was a stale copy of its
  source therefore comes back up to date.
- **`desymlink` and `unmount` drop their record first.** They remove the
  record and only then call `rmdirSync`. If that call fails, the record
  stays removed.

## Model

| member | source | states |
|---|---|---|
| Paths.PathToArray | node_modules/imemfs/lib/MemoryFileSystem.js:29-48 | a path fails with EINVAL exactly when it neither starts with "/" nor with a letter and a colon; otherwise every segment is non-empty and free of "/", and a drive path's first segment starts with the upper-cased letter and the colon and is upper-cased throughout |
| Paths.PosixSegmentsValid | node_modules/imemfs/lib/MemoryFileSystem.js:40-46 | collapsing runs of "/", dropping the leading one, splitting and popping an empty last part leaves only non-empty, "/"-free segments |
| Paths.DriveSegmentsValid | node_modules/imemfs/lib/MemoryFileSystem.js:36-46 | collapsing "/" and "\" runs to "\", splitting and upper-casing the first part leaves valid segments, the first of them starting with the upper-cased drive letter and colon and upper-cased throughout |
| Paths.CollapseShape | node_modules/imemfs/lib/MemoryFileSystem.js:36-41 | the collapsing `replace` leaves no two separators side by side (and no "/" in drive mode), and keeps the first character unless it is a separator |
| Paths.SplitShape | node_modules/imemfs/lib/MemoryFileSystem.js:37-42 | on text without separator runs, `split` gives parts free of the separator, all non-empty except possibly the first and the last, the first empty exactly when the text starts with the separator |
| PathFacts.PosixRoundTrip | node_modules/imemfs/lib/MemoryFileSystem.js:40-47 | every list of valid segments is what its "/"-joined spelling resolves to |
| PathFacts.PosixCanonical | node_modules/imemfs/lib/MemoryFileSystem.js:40-47 | every POSIX path resolves, and the "/"-joined spelling of its segments resolves back to them |
| PathFacts.PosixParts | node_modules/imemfs/lib/MemoryFileSystem.js:40-47 | on a POSIX path `pathToArray` gives exactly the non-empty parts of the path split on "/" |
| PathFacts.PosixSpellingsAgree | node_modules/imemfs/lib/MemoryFileSystem.js:40-46 | two POSIX paths with the same non-empty parts between their "/"s resolve to the same segments ("/a//b/" and "/a/b" are one path) |
| PathFacts.CollapseParts | node_modules/imemfs/lib/MemoryFileSystem.js:36-42 | collapsing the runs of separators, POSIX or drive, keeps the part before the first separator and the non-empty parts after it |
| PathFacts.DropTrailingParts | node_modules/imemfs/lib/MemoryFileSystem.js:44-46 | when only the last part may be empty, the single `pop` leaves exactly the non-empty parts |
| PathFacts.DrivePathParts | node_modules/imemfs/lib/MemoryFileSystem.js:33-47 | on a drive path `pathToArray` gives exactly the non-empty parts of the path split at "/" and "\", the first of them upper-cased throughout |
| PathFacts.DrivePartsAgree | node_modules/imemfs/lib/MemoryFileSystem.js:33-47 | two drive paths with the same non-empty parts between separators, the first part up to case, resolve to the same segments, whatever the runs of separators and a trailing one |
| PathFacts.DriveSpellingsAgree | node_modules/imemfs/lib/MemoryFileSystem.js:33-39 | two drive paths that differ only in the drive letter's case and in "/" against "\" at the same positions resolve to the same segments |
| PathFacts.ExampleRoot | node_modules/imemfs/lib/MemoryFileSystem.js:40-46 | "/" has no segments |
| PathFacts.ExampleRuns | node_modules/imemfs/lib/MemoryFileSystem.js:40-46 | "/a//b/" resolves to ["a", "b"] |
| PathFacts.ExampleCollapse | node_modules/imemfs/lib/MemoryFileSystem.js:41 | the collapsing step turns "/a//b/" into "/a/b/" |
| PathFacts.ExampleSplit | node_modules/imemfs/lib/MemoryFileSystem.js:42 | splitting "a/b/" on "/" gives ["a", "b", ""] |
| PathFacts.ExampleRelative | node_modules/imemfs/lib/MemoryFileSystem.js:31-35 | the relative path "a/b" fails with EINVAL |
| PathFacts.ExampleDrive | node_modules/imemfs/lib/MemoryFileSystem.js:33-39 | "c:/x" and "C:\x" resolve to the same segments |
| PathFacts.ExampleDriveCase | node_modules/imemfs/lib/MemoryFileSystem.js:36-38 | "c:ab/x" and "C:AB\x" resolve to the same segments: the whole first segment is upper-cased |
| Base64.DecodeEncode | node_modules/imemfs/lib/MemoryFileSystem.js:322 | decoding the base64 text a write stores gives back the bytes written |
| Base64.EncodeLength | node_modules/imemfs/lib/MemoryFileSystem.js:322 | the stored text has four characters per started group of three bytes, and is empty exactly for an empty buffer |
| Tree.KindsExclusive | node_modules/imemfs/lib/MemoryFileSystem.js:11-28 | no value is both a directory and a file, a mounted root is a directory, and a string is neither |
| Tree.EntryAtByParent | node_modules/imemfs/lib/MemoryFileSystem.js:117-125 | the value at a path is the last key read in the directory the walk along the other segments ends in, and undefined when that walk stops early |
| Tree.WalkDirsSnoc | node_modules/imemfs/lib/MemoryFileSystem.js:235-245 | walking one more segment steps into that child when it is a directory and stops otherwise |
| Tree.Chain | node_modules/imemfs/lib/MemoryFileSystem.js:238-243 | the fresh directories `mkdirpSync` creates below the last existing one form a walkable chain ending in an empty directory |
| Tree.PutAtTarget | node_modules/imemfs/lib/MemoryFileSystem.js:308-323 | after `current[key] = v` at the end of the walk the path holds `v`, and what lies below the path is what lies below `v` |
| Tree.PutAtApart | node_modules/imemfs/lib/MemoryFileSystem.js:308-323 | a write changes nothing at a path that is neither a prefix nor an extension of the written one |
| Tree.PutAtWalk | node_modules/imemfs/lib/MemoryFileSystem.js:308-323 | the written path's parent directory gains exactly the written key |
| Tree.DeleteAtTarget | node_modules/imemfs/lib/MemoryFileSystem.js:277-290 | after `delete current[key]` the path and everything below it are undefined |
| Tree.DeleteAtApart | node_modules/imemfs/lib/MemoryFileSystem.js:277-290 | a removal changes nothing at a path that is neither a prefix nor an extension of the removed one |
| Tree.DeleteAtWalk | node_modules/imemfs/lib/MemoryFileSystem.js:277-290 | the removed path's parent directory loses exactly the removed key |
| Tree.DeleteAtMissing | node_modules/imemfs/lib/MemoryFileSystem.js:290 | deleting a key the parent directory does not hold changes nothing |
| Ops.ReadDirectory | node_modules/imemfs/lib/MemoryFileSystem.js:185-205 | `readFileSync` on a directory below the root gives the empty Buffer when its `valueOf` child is "" or, without a `valueOf` child, when it has a `length` child; it gives a TypeError otherwise, and never EISDIR |
| Ops.ReadFileByMeta | node_modules/imemfs/lib/MemoryFileSystem.js:185-196 | below an existing directory, `readFileSync` converts the value `meta` returns |
| Ops.ReaddirByWalk | node_modules/imemfs/lib/MemoryFileSystem.js:207-228 | `readdirSync` succeeds exactly when every segment of the path names a directory, and then lists that directory's keys without "" |
| Ops.ReaddirErrors | node_modules/imemfs/lib/MemoryFileSystem.js:218-225 | below the root, `readdirSync` fails with ENOTDIR exactly on a non-directory object, and with ENOENT exactly on everything that is neither a directory nor such an object |
| Ops.StatExists | node_modules/imemfs/lib/MemoryFileSystem.js:127-157 | whatever `statSync` accepts, `existsSync` reports as existing |
| Ops.ReaddirStat | node_modules/imemfs/lib/MemoryFileSystem.js:207-228 | whatever `readdirSync` lists, `statSync` reports as a directory |
| Ops.WriteErrors | node_modules/imemfs/lib/MemoryFileSystem.js:299-303 | a write fails with NoContent exactly when neither content nor encoding is truthy, and otherwise with EINVAL exactly when the path is malformed |
| Ops.WriteErrorsAt | node_modules/imemfs/lib/MemoryFileSystem.js:304-316 | with content given and a well-formed path, a write fails with EISDIR exactly when a directory (the root included) is at the path, and with ENOENT exactly when the parent is missing |
| Ops.WriteThenRead | node_modules/imemfs/lib/MemoryFileSystem.js:316-323 | after a write `meta` returns the stored value (the content itself for "meta"), and `readFileSync` returns the bytes of a written string in its encoding or of a written Buffer |
| Ops.WrittenFileIsNotStat | node_modules/imemfs/lib/MemoryFileSystem.js:299-325 | a file written without "meta" is a string, so `statSync` and `readdirSync` report ENOENT on it |
| Ops.StringNotListed | node_modules/imemfs/lib/MemoryFileSystem.js:130-157 | a string below the root is reported as ENOENT by `statSync` and `readdirSync` |
| Ops.WrittenFileExists | node_modules/imemfs/lib/MemoryFileSystem.js:127-129 | a file written without "meta" can be read, and exists exactly when its bytes are not empty |
| Ops.WriteListing | node_modules/imemfs/lib/MemoryFileSystem.js:316-323 | a write adds exactly the written name to its parent's listing |
| Ops.PutListing | node_modules/imemfs/lib/MemoryFileSystem.js:316-323 | storing a value under a directory adds exactly its name to that directory's listing |
| Ops.FailedWrite | node_modules/imemfs/lib/MemoryFileSystem.js:317-323 | a failed write changes the tree only by storing an object, written without an encoding, whose own `toString` then throws; the error is then a TypeError, `meta` returns the object at the path, and paths apart from it are unchanged |
| Ops.WriteFrame | node_modules/imemfs/lib/MemoryFileSystem.js:308-323 | a write changes nothing at paths apart from its own, and the directories above it stay directories |
| Ops.MkdirOutcome | node_modules/imemfs/lib/MemoryFileSystem.js:248-270 | below the root, `mkdirSync` fails with ENOENT exactly without a parent directory, EEXIST exactly on a directory, ENOTDIR exactly on a non-directory object, and succeeds otherwise |
| Ops.MkdirThenReaddir | node_modules/imemfs/lib/MemoryFileSystem.js:266-269 | a new directory is empty, is a directory, and its name is added to its parent's listing |
| Ops.MkdirpBlocked | node_modules/imemfs/lib/MemoryFileSystem.js:235-238 | `mkdirpSync` fails exactly when some prefix of the path holds a non-directory object, and then with ENOTDIR |
| Ops.MkdirpDirs | node_modules/imemfs/lib/MemoryFileSystem.js:234-246 | after a successful `mkdirpSync` every prefix of the path is a directory |
| Ops.MkdirpExisting | node_modules/imemfs/lib/MemoryFileSystem.js:234-246 | where every prefix already is a directory, `mkdirpSync` changes nothing |
| Ops.MkdirpIdempotent | node_modules/imemfs/lib/MemoryFileSystem.js:229-247 | running `mkdirpSync` a second time on its own result changes nothing |
| Ops.MkdirpFrame | node_modules/imemfs/lib/MemoryFileSystem.js:234-246 | `mkdirpSync` keeps everything except the prefixes of its path, including what already lay in a directory at the path |
| Ops.MkdirpEmpty | node_modules/imemfs/lib/MemoryFileSystem.js:238-243 | in an empty directory, `mkdirpSync` creates exactly the chain of fresh directories |
| Ops.MkdirpAt | node_modules/imemfs/lib/MemoryFileSystem.js:234-246 | at the first segment that is not a directory, `mkdirpSync` stops with ENOTDIR on a non-directory object, or else puts a chain of fresh directories there |
| Ops.MkdirpThenStat | node_modules/imemfs/lib/MemoryFileSystem.js:229-247 | after a successful `mkdirpSync`, `statSync` reports a directory at the path and `readdirSync` lists it |
| Ops.RemoveGone | node_modules/imemfs/lib/MemoryFileSystem.js:290 | after a removal nothing exists at the path or below it |
| Ops.NothingAt | node_modules/imemfs/lib/MemoryFileSystem.js:127-129 | an undefined value below the root does not exist |
| Ops.RemoveKeepsGone | node_modules/imemfs/lib/MemoryFileSystem.js:277-290 | a removal never makes a path exist that did not exist before |
| Ops.RemoveFrame | node_modules/imemfs/lib/MemoryFileSystem.js:277-290 | a removal changes nothing at paths apart from its own, and the directories above it stay directories |
| Ops.RemoveListing | node_modules/imemfs/lib/MemoryFileSystem.js:290 | a removal takes exactly the removed name out of its parent's listing |
| Ops.DeleteListing | node_modules/imemfs/lib/MemoryFileSystem.js:290 | deleting a key takes exactly that name out of its directory's listing |
| Ops.RemoveMissing | node_modules/imemfs/lib/MemoryFileSystem.js:290 | removing a name the parent does not list changes nothing |
| Ops.RemoveKindIgnored | node_modules/imemfs/lib/MemoryFileSystem.js:282-298 | for a path neither linked nor mounted, or with the override, `rmdirSync` and `unlinkSync` do the same and succeed whenever the parent exists |
| Ops.RemoveKindChecked | node_modules/imemfs/lib/MemoryFileSystem.js:282-289 | for a linked or mounted path without the override, the removal succeeds exactly when `isDir` (rmdirSync) or `isFile` (unlinkSync) holds for its value |
| Links.Rooted | node_modules/imemfs/lib/MemoryFileSystem.js:66-74 | the constructor's root holds the bookkeeping object under "/" and otherwise the keys it was given |
| Links.RootListing | node_modules/imemfs/lib/MemoryFileSystem.js:208-210 | the root listing is the root's keys without "", so it includes "/", and the root is a directory to `statSync` |
| Links.PutAtRooted | node_modules/imemfs/lib/MemoryFileSystem.js:316-323 | writing at valid segments leaves the root's bookkeeping key in place |
| Links.DeleteAtRooted | node_modules/imemfs/lib/MemoryFileSystem.js:290 | removing at valid segments leaves the root's bookkeeping key in place |
| Links.MkdirpRooted | node_modules/imemfs/lib/MemoryFileSystem.js:234-246 | `mkdirpSync` leaves the root's bookkeeping key in place |
| Links.LinkCopies | node_modules/imemfs/lib/MemoryFileSystem.js:76-84 | after `symlink`, `meta` at the target returns what it returned at the source, and paths apart from the target are untouched |
| Links.LinkFails | node_modules/imemfs/lib/MemoryFileSystem.js:76-84 | `symlink` fails, always with the one symlink error, exactly when the source is malformed or the target is malformed, the root, without a parent directory, or a directory; a missing source is no failure, its undefined value is copied |
| Links.KeptNothingLinked | node_modules/imemfs/lib/MemoryFileSystem.js:158-184 | with no recorded paths, a tree that keeps `meta`'s value at every path apart from them is the same tree |
| Links.RemoveKept | node_modules/imemfs/lib/MemoryFileSystem.js:271-292 | removing a recorded path keeps `meta`'s value at every path apart from the recorded ones |
| Links.WriteKept | node_modules/imemfs/lib/MemoryFileSystem.js:299-325 | writing at a recorded path keeps `meta`'s value at every path apart from the recorded ones |
| Links.LinkKept | node_modules/imemfs/lib/MemoryFileSystem.js:76-84 | `symlink` to a recorded target keeps `meta`'s value at every path apart from the recorded ones |
| Links.UnmountKept | node_modules/imemfs/lib/MemoryFileSystem.js:166-171 | removing one mount point keeps every path apart from the recorded paths, leaves nothing at that point and brings nothing back at the points removed before |
| Links.MarkStep | node_modules/imemfs/lib/MemoryFileSystem.js:161-165 | with the recorded paths apart, one turn of the first `_export` loop puts the marker at its link and keeps the markers placed before |
| Links.UnmountStep | node_modules/imemfs/lib/MemoryFileSystem.js:168-171 | with the recorded paths apart, one unmount in `_export` keeps every marker |
| Links.ImportStep | node_modules/imemfs/lib/MemoryFileSystem.js:178-183 | with links and sources apart, one turn of the `_import` loop gives the target its source's value and keeps every source and every target done before |
| Links.MarkedRelinkable | node_modules/imemfs/lib/MemoryFileSystem.js:162-165 | a string marker at every link target means each target resolves below the root with its parent directory in place, so `_import` can unlink and relink it |
| Links.RootedRelinkable | node_modules/imemfs/lib/MemoryFileSystem.js:66-74 | putting the constructor's root keys in place keeps every such target relinkable |
| Links.RelinkSucceeds | node_modules/imemfs/lib/MemoryFileSystem.js:178-183 | with links and sources apart, one turn of the `_import` loop on a relinkable target succeeds in both its `unlinkSync(target, true)` and its `symlink`, and the targets still to do stay relinkable |
| Links.ExportImport | node_modules/imemfs/lib/MemoryFileSystem.js:158-184 | with the recorded paths apart, `_import` of what `_export` produced keeps every path apart from the link targets and mount points and leaves nothing at a former mount point, even when the import fails; once every link is made again, as the passing import does, every target whose source lies apart from the mount points holds the source's value from before the export |
| MemoryFs.FileSystem.constructor | node_modules/imemfs/lib/MemoryFileSystem.js:66-74 | the new file system holds the given tree with the root's keys in place, is not mounted, and has no links and no mount points |
| MemoryFs.FileSystem.Walk | node_modules/imemfs/lib/MemoryFileSystem.js:117-125 | the loop stepping through directories ends in the directory the walk along the segments reaches, or stops at the first non-directory |
| MemoryFs.FileSystem.MetaSync | node_modules/imemfs/lib/MemoryFileSystem.js:113-126 | returns exactly `meta`'s value (`Ops.MetaOf`) |
| MemoryFs.FileSystem.ExistsSync | node_modules/imemfs/lib/MemoryFileSystem.js:127-129 | returns exactly `existsSync`'s value (`Ops.ExistsOf`) |
| MemoryFs.FileSystem.StatSync | node_modules/imemfs/lib/MemoryFileSystem.js:130-157 | returns exactly `statSync`'s kind or error (`Ops.StatOf`) |
| MemoryFs.FileSystem.ReadFileSync | node_modules/imemfs/lib/MemoryFileSystem.js:185-206 | returns exactly the bytes or the error of `readFileSync` (`Ops.ReadFileOf`) |
| MemoryFs.FileSystem.ReaddirSync | node_modules/imemfs/lib/MemoryFileSystem.js:207-228 | returns exactly the listing or the error of `readdirSync` (`Ops.ReaddirOf`) |
| MemoryFs.FileSystem.MkdirpSync | node_modules/imemfs/lib/MemoryFileSystem.js:229-247 | fails as `Ops.MkdirpOf` does and leaves the tree unchanged; otherwise the new tree is its result; the root invariant and bookkeeping are kept |
| MemoryFs.FileSystem.MkdirSync | node_modules/imemfs/lib/MemoryFileSystem.js:248-270 | fails as `Ops.MkdirOf` does and leaves the tree unchanged; otherwise the new tree is its result |
| MemoryFs.FileSystem.Remove | node_modules/imemfs/lib/MemoryFileSystem.js:271-292 | fails as `Ops.RemoveOf` does over the recorded link and mount paths and leaves the tree unchanged; otherwise the new tree is its result |
| MemoryFs.FileSystem.RmdirSync | node_modules/imemfs/lib/MemoryFileSystem.js:293-295 | `_remove` with the `isDir` test |
| MemoryFs.FileSystem.UnlinkSync | node_modules/imemfs/lib/MemoryFileSystem.js:296-298 | `_remove` with the `isFile` test |
| MemoryFs.FileSystem.WriteFileSync | node_modules/imemfs/lib/MemoryFileSystem.js:299-325 | fails as `Ops.WriteOf` does, leaving the tree `Ops.FailedWriteTree` gives (the old tree except after a store that `toString` then rejects); otherwise the new tree is its result |
| MemoryFs.FileSystem.Symlink | node_modules/imemfs/lib/MemoryFileSystem.js:76-84 | changes the tree as `Links.LinkOf` says and records the link only on success |
| MemoryFs.FileSystem.Desymlink | node_modules/imemfs/lib/MemoryFileSystem.js:85-91 | fails without a recorded link; otherwise drops the record and then removes the target as `rmdirSync` does |
| MemoryFs.FileSystem.Mount | node_modules/imemfs/lib/MemoryFileSystem.js:92-101 | on success the other file system's tree is at the path, is a mount to `isMount`, that file system is marked mounted and the point recorded; on failure the one mount error is reported and the tree, the records and both mounted flags are unchanged; another file system's tree, links and mount points are never changed |
| MemoryFs.FileSystem.Unmount | node_modules/imemfs/lib/MemoryFileSystem.js:102-112 | fails without a recorded mount point; otherwise marks that file system unmounted, drops the record and removes the point as `rmdirSync` does; every recorded file system other than this one keeps its tree, links and mount points, and every one except the unmounted one keeps its mounted flag |
| MemoryFs.FileSystem.MarkLink | node_modules/imemfs/lib/MemoryFileSystem.js:162-164 | a failure-free turn is `rmdirSync(name, true)` followed by the marker write; a failed turn leaves the tree as it was or as the removal left it |
| MemoryFs.FileSystem.MarkNext | node_modules/imemfs/lib/MemoryFileSystem.js:161-165 | keeps every path apart from the recorded ones, and, with the recorded paths apart, a failure-free turn adds its link to the marked ones |
| MemoryFs.FileSystem.MarkLinks | node_modules/imemfs/lib/MemoryFileSystem.js:161-165 | keeps every path apart from the recorded ones, succeeds when nothing is linked, and, with the recorded paths apart, a failure-free first loop leaves the marker at every link target |
| MemoryFs.FileSystem.UnmountNext | node_modules/imemfs/lib/MemoryFileSystem.js:168-171 | one unmount drops its point, leaves every other file system's mounted flag as the records say, keeps every path apart from the recorded ones, leaves nothing at the points dropped so far when it succeeds, and, with the recorded paths apart, keeps the markers |
| MemoryFs.FileSystem.UnmountAll | node_modules/imemfs/lib/MemoryFileSystem.js:166-171 | keeps every path apart from the recorded ones and succeeds when nothing is mounted; a failure-free second loop leaves no mount point, nothing at any former mount point and every formerly mounted file system unmounted, and keeps the markers when the recorded paths are apart |
| MemoryFs.FileSystem.Export | node_modules/imemfs/lib/MemoryFileSystem.js:158-173 | keeps every path apart from the recorded links and mount points; a failure-free export snapshots the tree with its bookkeeping, leaves no mount point, nothing at any former mount point and every formerly mounted file system unmounted, and, with the recorded paths apart, every link target holds the marker and the snapshot's targets are relinkable; with nothing linked or mounted it succeeds and snapshots the tree unchanged |
| MemoryFs.FileSystem.Relink | node_modules/imemfs/lib/MemoryFileSystem.js:179-182 | a failure-free turn is `unlinkSync(target, true)` followed by `symlink(source, target)`, and the turn passes whenever both of those succeed; a failed turn leaves the tree as it was or as the removal left it |
| MemoryFs.FileSystem.RelinkNext | node_modules/imemfs/lib/MemoryFileSystem.js:178-183 | keeps every path apart from the link targets, and, with links and sources apart, a failure-free turn adds its target to the relinked ones and keeps every source; on relinkable targets the turn passes and leaves the rest relinkable |
| MemoryFs.FileSystem.RelinkAll | node_modules/imemfs/lib/MemoryFileSystem.js:176-183 | keeps every path apart from the link targets and succeeds when nothing is linked; with links and sources apart, a failure-free loop gives every link target its source's value in the imported tree, and on relinkable targets the loop passes |
| MemoryFs.FileSystem.Import | node_modules/imemfs/lib/MemoryFileSystem.js:174-184 | the snapshot's bookkeeping is put in place and its tree is kept, with the root key, at every path apart from the link targets; with nothing linked the import succeeds and the tree is exactly the snapshot's; with links and sources apart a failure-free import gives every link target its source's value, and on a snapshot whose targets are relinkable, as `Export`'s are, the import passes |

## Left out

- Streams and the callback wrappers (`createReadStream`, `createWriteStream`, and the asynchronous variants at MemoryFileSystem.js:329-432) are asynchronous plumbing around the synchronous operations.
- `console.log` in `readFileSync` is output only.
- Error objects carry only their tag here. The errno codes, numbers and message text are not modelled.
- `normalize` (./normalize) is not part of this model, and is taken as the identity. `join` (./join) is not part of this model either.
- Links and mounts are copies. The tree stored at a link target or mount point does not alias the source or the other file system's object, so later changes on one side are not seen on the other.
- JSON serialisation and the outer base64 of `_export`, and JSON parsing in `_import`, are left out. Export returns the snapshot value that is serialised, and Import takes one. A malformed snapshot therefore cannot be expressed. `Links.ExportImport` is stated on that value. The JSON step would also turn a Buffer stored with "meta" into a `{type, data}` object, and would drop keys whose value is undefined; neither change is modelled.
- `readFileSync`'s `encoding` argument (`Buffer.toString(encoding)`) is left out, because Node's text decoders are not part of this model. The method returns the bytes.
- `new Buffer(string, encoding)` is a parameter of the file system (`Ops.TextEncoder`), because Node's text encoders are not part of this model.
- `Buffer.from(string, "base64")` is modelled as a lenient decoder. It skips characters outside the alphabet and reads "-" and "_" as "+" and "/". Node's exact treatment of malformed padding is not modelled.
- `toUpperCase` on a drive path's first segment is modelled as ASCII upper-casing. Non-ASCII characters after the colon are left as they are, whereas JavaScript would upper-case them by the Unicode rules.
- `Object.keys` order is not modelled. The loops of `_export` and `_import` visit links and mount points in an arbitrary order.
- The `Entry` values cover directories, strings, Buffers, other objects and `undefined`. `null`, numbers, booleans, arrays, prototype keys, and Buffers' array-like indexing are not modelled. A "meta" write of `null` would make the later `isDir` and `isFile` tests on it throw.
- Ops.FromBase64: of Node's `Buffer.from` rules on objects, the model covers a directory's `valueOf` child (absent, the empty string or truthy) and its `length` child. A `valueOf` child that is `null`, a number or a boolean is outside the values modelled. The `{type: "Buffer", data: [...]}` form needs an array and is not recognised. Objects that carry an `ArrayBuffer` are not modelled.
- Ops.StoredValue: `new Buffer(content, encoding)` on an object follows the same `Buffer.from` rules. Without an encoding, a directory's own `toString` child makes the call throw. Other objects are taken to have the default `toString`. `Ops.TextEncoder` is a total function, so the TypeError that `new Buffer(string, encoding)` throws on an unknown encoding name is not modelled: every encoding name gives some bytes.
- The permission layer (imemfs-perm.js) is not part of this model.
- MemoryFs.FileSystem.Export: the marker at every link target is stated only when the recorded link targets and mount points lie apart from each other. When one lies inside another, a later removal deletes an earlier marker. The frame apart from the recorded paths, and the absence of every former mount point, are stated without that condition.
- MemoryFs.FileSystem.Import: a target is stated to receive its source's value only when the targets lie apart from each other and from every source. Otherwise a later link may overwrite an earlier one, or its source. The frame apart from the link targets is stated without that condition. That the import passes is stated only when every target is, besides, relinkable, as `Export` leaves them; the inputs on which it fails are not characterised.
- MemoryFs.FileSystem.MarkLinks, MemoryFs.FileSystem.UnmountAll, MemoryFs.FileSystem.RelinkAll: when a turn fails, the tree is left as the earlier turns made it, and no contract describes that partial state.
