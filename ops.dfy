/** What each synchronous operation of MemoryFileSystem.js computes from
    the root map, as functions: the specification the methods of
    `MemoryFs.FileSystem` are proved against, and the lemmas that say what
    the operations promise. */
module Ops {
  import opened Errors
  import opened Base64
  import opened Paths
  import opened Tree
  import PathFacts

  /** `new Buffer(string, encoding)`: the bytes a string stands for in a
      named text encoding. Node's encoders are not part of this model. */
  type TextEncoder = (string, string) -> seq<byte>

  /** The key the source reads after its walk, `path[i]`: the last segment,
      or "undefined" when there are no segments at all. */
  function LastKey(segs: seq<string>): string {
    if |segs| == 0 then "undefined" else segs[|segs| - 1]
  }

  /** The segments the walk requires to be directories. */
  function Parents(segs: seq<string>): seq<string> {
    if |segs| == 0 then [] else segs[..|segs| - 1]
  }

  /** `meta`: the raw value at the path, the root map itself for the root. */
  function MetaOf(data: map<string, Entry>, path: string): Result<Entry> {
    match PathToArray(path)
    case Err(e) => Err(e)
    case Ok(segs) => if segs == [] then Ok(Dir(data)) else Ok(EntryAt(data, segs))
  }

  /** `existsSync`: whether `meta` yields a truthy value. */
  function ExistsOf(data: map<string, Entry>, path: string): Result<bool> {
    match MetaOf(data, path)
    case Err(e) => Err(e)
    case Ok(e) => Ok(Truthy(e))
  }

  datatype Kind = Directory | File

  /** `statSync`. */
  function StatOf(data: map<string, Entry>, path: string): Result<Kind> {
    match MetaOf(data, path)
    case Err(e) => Err(e)
    case Ok(e) =>
      if path == "/" || IsDir(e) then Ok(Directory)
      else if IsFile(e) then Ok(File)
      else Err(ENOENT)
  }

  /** The directory objects Node's `Buffer.from` turns into the empty
      Buffer. It reads the object's `valueOf` first: a truthy child is called
      in place of the method and throws, and an empty string stands in for
      the object. Without such a child, a defined `length` child that is not
      a number makes the object array-like, of length zero. */
  predicate EmptyBufferObject(c: map<string, Entry>) {
    Get(c, "valueOf") == Str("") || (Get(c, "valueOf") == Undef && Get(c, "length") != Undef)
  }

  /** `Buffer.from(value, "base64")`: a string is decoded, a Buffer copied,
      a directory object of `EmptyBufferObject` gives the empty Buffer,
      anything else is rejected. */
  function FromBase64(e: Entry): (r: Result<seq<byte>>)
    ensures r.Err? <==> !e.Str? && !e.Buf? && !(e.Dir? && EmptyBufferObject(e.children))
    ensures e.Dir? && EmptyBufferObject(e.children) ==> r == Ok([])
  {
    match e
    case Str(s) => Ok(Decode(s))
    case Buf(b) => Ok(b)
    case Dir(c) => if EmptyBufferObject(c) then Ok([]) else Err(TypeError)
    case _ => Err(TypeError)
  }

  /** `readFileSync` without an encoding. The EISDIR and ENOENT branches
      after the conversion are unreachable: a Buffer is always a file. */
  function ReadFileOf(data: map<string, Entry>, path: string): Result<seq<byte>> {
    match PathToArray(path)
    case Err(e) => Err(e)
    case Ok(segs) =>
      match WalkDirs(data, Parents(segs))
      case None => Err(ENOENT)
      case Some(d) =>
        FromBase64(Get(d, LastKey(segs)))
  }

  /** `readdirSync`: the truthy keys of the directory. */
  function ReaddirOf(data: map<string, Entry>, path: string): Result<set<string>> {
    if path == "/" then Ok(data.Keys - {""})
    else
      match PathToArray(path)
      case Err(e) => Err(e)
      case Ok(segs) =>
        match WalkDirs(data, Parents(segs))
        case None => Err(ENOENT)
        case Some(d) =>
          var e := Get(d, LastKey(segs));
          if IsDir(e) then Ok(e.children.Keys - {""})
          else if IsFile(e) then Err(ENOTDIR)
          else Err(ENOENT)
  }

  /** The loop of `mkdirpSync` over the segments: a file stops it, any other
      non-directory is replaced by an empty directory. */
  function MkdirpTree(m: map<string, Entry>, segs: seq<string>): Result<map<string, Entry>>
    decreases |segs|
  {
    if segs == [] then Ok(m)
    else
      var e := Get(m, segs[0]);
      if IsFile(e) then Err(ENOTDIR)
      else
        var sub := if IsDir(e) then e.children else map[];
        match MkdirpTree(sub, segs[1..])
        case Err(x) => Err(x)
        case Ok(sub') => Ok(m[segs[0] := Dir(sub')])
  }

  /** `mkdirpSync`. */
  function MkdirpOf(data: map<string, Entry>, path: string): Result<map<string, Entry>> {
    match PathToArray(path)
    case Err(e) => Err(e)
    case Ok(segs) => MkdirpTree(data, segs)
  }

  /** `mkdirSync`. */
  function MkdirOf(data: map<string, Entry>, path: string): Result<map<string, Entry>> {
    match PathToArray(path)
    case Err(e) => Err(e)
    case Ok(segs) =>
      if segs == [] then Ok(data)
      else if !Writable(data, segs) then Err(ENOENT)
      else if IsDir(EntryAt(data, segs)) then Err(EEXIST)
      else if IsFile(EntryAt(data, segs)) then Err(ENOTDIR)
      else Ok(PutAt(data, segs, Dir(map[])))
  }

  /** `_remove`: `dirTest` selects `isDir` (rmdirSync) or `isFile`
      (unlinkSync); `linked` holds the raw paths recorded in `symlinks` or
      `mounts`. */
  function RemoveOf(data: map<string, Entry>, linked: set<string>, path: string, dirTest: bool, override: bool)
    : Result<map<string, Entry>>
  {
    match PathToArray(path)
    case Err(e) => Err(e)
    case Ok(segs) =>
      if segs == [] then Err(EPERM)
      else if !Writable(data, segs) then Err(ENOENT)
      else
        var e := EntryAt(data, segs);
        var kindOk := if dirTest then IsDir(e) else IsFile(e);
        if !kindOk && !override && path in linked then Err(ENOENT)
        else Ok(DeleteAt(data, segs))
  }

  /** A JavaScript encoding argument is truthy: given and not "". */
  predicate TruthyEncoding(encoding: Option<string>) {
    encoding.Some? && encoding.value != ""
  }

  /** The encoding `new Buffer(string, encoding)` uses: utf8 by default. */
  function EncodingName(encoding: Option<string>): string {
    if TruthyEncoding(encoding) then encoding.value else "utf8"
  }

  /** The value `writeFileSync` stores: the content itself for "meta",
      otherwise the base64 text of its bytes; an object written without an
      encoding is stored as the text its `toString` gives, which throws when
      a key of its own shadows that method. */
  function StoredValue(content: Entry, encoding: Option<string>, encoder: TextEncoder): Result<Entry> {
    if encoding == Some("meta") then Ok(content)
    else if TruthyEncoding(encoding) || content.Str? then
      match content
      case Str(s) => Ok(Str(Encode(encoder(s, EncodingName(encoding)))))
      case Buf(b) => Ok(Str(Encode(b)))
      case Dir(c) => if EmptyBufferObject(c) then Ok(Str(Encode([]))) else Err(TypeError)
      case _ => Err(TypeError)
    else
      match content
      case Buf(b) => Ok(Str(Encode(b)))
      case Dir(c) => if "toString" in c then Err(TypeError) else Ok(Str("[object Object]"))
      case Meta => Ok(Str("[object Object]"))
      case _ => Err(TypeError)
  }

  /** `writeFileSync`. */
  function WriteOf(data: map<string, Entry>, path: string, content: Entry, encoding: Option<string>, encoder: TextEncoder)
    : Result<map<string, Entry>>
  {
    if !Truthy(content) && !TruthyEncoding(encoding) then Err(NoContent)
    else
      match PathToArray(path)
      case Err(e) => Err(e)
      case Ok(segs) =>
        if segs == [] then Err(EISDIR)
        else if !Writable(data, segs) then Err(ENOENT)
        else if IsDir(EntryAt(data, segs)) then Err(EISDIR)
        else
          match StoredValue(content, encoding, encoder)
          case Err(e) => Err(e)
          case Ok(v) => Ok(PutAt(data, segs, v))
  }

  /** The one failure of `writeFileSync` that comes after its assignment: an
      object written without an encoding is stored as it is, and only then
      is its own `toString` child called in place of the method, which
      throws. */
  predicate StoresBeforeThrow(content: Entry, encoding: Option<string>) {
    encoding != Some("meta") && !TruthyEncoding(encoding) && content.Dir? && "toString" in content.children
  }

  /** The tree a failed `writeFileSync` leaves behind. */
  function FailedWriteTree(data: map<string, Entry>, path: string, content: Entry, encoding: Option<string>)
    : map<string, Entry>
  {
    match PathToArray(path)
    case Err(_) => data
    case Ok(segs) =>
      if StoresBeforeThrow(content, encoding) && segs != [] && Writable(data, segs) && !IsDir(EntryAt(data, segs))
      then PutAt(data, segs, content)
      else data
  }
  // ---------------------------------------------------------------------
  // Reading and listing through the walk

  /** The root is the only path without segments that `readdirSync`
      treats as the root. */
  predicate Listable(path: string, segs: seq<string>) {
    PathToArray(path) == Ok(segs) && (segs == [] ==> path == "/")
  }

  /** With its parents in place, `readFileSync` converts the value `meta` returns. */
  lemma ReadFileByMeta(m: map<string, Entry>, path: string, segs: seq<string>)
    requires PathToArray(path) == Ok(segs) && Writable(m, segs)
    ensures MetaOf(m, path) == Ok(EntryAt(m, segs))
    ensures ReadFileOf(m, path) == FromBase64(EntryAt(m, segs))
  {
    EntryAtByParent(m, segs);
  }

  /** Reading a directory never reports EISDIR: one of `EmptyBufferObject`
      reads as the empty Buffer, any other is rejected by the conversion. */
  lemma ReadDirectory(m: map<string, Entry>, path: string)
    requires MetaOf(m, path).Ok? && MetaOf(m, path).value.Dir? && PathToArray(path).value != []
    ensures ReadFileOf(m, path) == if EmptyBufferObject(MetaOf(m, path).value.children) then Ok([]) else Err(TypeError)
  {
    var segs := PathToArray(path).value;
    EntryAtByParent(m, segs);
    ReadFileByMeta(m, path, segs);
  }

  /** `readdirSync` lists the directory the walk along the whole path
      reaches, and fails exactly when the walk does. */
  lemma ReaddirByWalk(m: map<string, Entry>, path: string, segs: seq<string>)
    requires Listable(path, segs)
    ensures ReaddirOf(m, path).Ok? <==> WalkDirs(m, segs).Some?
    ensures WalkDirs(m, segs).Some? ==> ReaddirOf(m, path) == Ok(WalkDirs(m, segs).value.Keys - {""})
  {
    if path == "/" {
      PathFacts.RootSegments(path);
    } else {
      var ps, k := Parents(segs), LastKey(segs);
      assert segs == ps + [k];
      WalkDirsSnoc(m, ps, k);
      assert ReaddirOf(m, path) == match WalkDirs(m, ps)
                                   case None => Err(ENOENT)
                                   case Some(d) => if IsDir(Get(d, k)) then Ok(Get(d, k).children.Keys - {""})
                                                   else if IsFile(Get(d, k)) then Err(ENOTDIR) else Err(ENOENT);
    }
  }

  /** How `readdirSync` fails below the root: ENOTDIR on an object that is
      not a directory, ENOENT on everything else that is not one — a
      written file included. */
  lemma ReaddirErrors(m: map<string, Entry>, path: string, segs: seq<string>)
    requires Listable(path, segs) && segs != []
    ensures ReaddirOf(m, path) == Err(ENOTDIR) <==> IsFile(MetaOf(m, path).value)
    ensures ReaddirOf(m, path) == Err(ENOENT) <==> !IsDir(MetaOf(m, path).value) && !IsFile(MetaOf(m, path).value)
  {
    if path == "/" {
      PathFacts.RootSegments(path);
    }
    assert path != "/";
    assert MetaOf(m, path) == Ok(EntryAt(m, segs));
    EntryAtByParent(m, segs);
  }

  /** Whatever `statSync` accepts, `existsSync` reports as existing. */
  lemma StatExists(m: map<string, Entry>, path: string)
    requires StatOf(m, path).Ok?
    ensures ExistsOf(m, path) == Ok(true)
  {
    var e := MetaOf(m, path).value;
    if path == "/" {
      PathFacts.RootSegments(path);
      assert e == Dir(m);
    } else {
      assert IsDir(e) || IsFile(e);
    }
  }

  /** Whatever `readdirSync` lists, `statSync` reports as a directory. */
  lemma ReaddirStat(m: map<string, Entry>, path: string)
    requires ReaddirOf(m, path).Ok?
    ensures StatOf(m, path) == Ok(Directory)
  {
    if path == "/" {
      PathFacts.RootSegments(path);
    } else {
      assert PathToArray(path).Ok?;
      var segs := PathToArray(path).value;
      if segs != [] {
        ReaddirByWalk(m, path, segs);
        WalkDirsPrefix(m, segs, |segs|);
        assert segs[..|segs|] == segs;
        assert MetaOf(m, path) == Ok(EntryAt(m, segs));
      }
    }
  }

  // ---------------------------------------------------------------------
  // writeFileSync

  /** A successful write targets a path with segments below an existing directory. */
  lemma WriteTarget(data: map<string, Entry>, path: string, content: Entry, encoding: Option<string>, encoder: TextEncoder)
    requires WriteOf(data, path, content, encoding, encoder).Ok?
    ensures PathToArray(path).Ok? && Writable(data, PathToArray(path).value)
    ensures StoredValue(content, encoding, encoder).Ok?
    ensures WriteOf(data, path, content, encoding, encoder).value
         == PutAt(data, PathToArray(path).value, StoredValue(content, encoding, encoder).value)
  {
  }

  /** How `writeFileSync` fails first: NoContent without content and
      encoding, then EINVAL on a malformed path. */
  lemma WriteErrors(data: map<string, Entry>, path: string, content: Entry, encoding: Option<string>, encoder: TextEncoder)
    ensures WriteOf(data, path, content, encoding, encoder) == Err(NoContent) <==> !Truthy(content) && !TruthyEncoding(encoding)
    ensures WriteOf(data, path, content, encoding, encoder) == Err(EINVAL) <==>
              (Truthy(content) || TruthyEncoding(encoding)) && PathToArray(path).Err?
  {
  }

  /** With content given and a well-formed path, EISDIR reports a directory
      (the root included) at the path, and ENOENT a missing parent. */
  lemma WriteErrorsAt(data: map<string, Entry>, path: string, content: Entry, encoding: Option<string>, encoder: TextEncoder)
    requires Truthy(content) || TruthyEncoding(encoding)
    requires PathToArray(path).Ok?
    ensures WriteOf(data, path, content, encoding, encoder) == Err(EISDIR) <==> IsDir(MetaOf(data, path).value)
    ensures PathToArray(path).value != [] ==>
              (WriteOf(data, path, content, encoding, encoder) == Err(ENOENT) <==> !Writable(data, PathToArray(path).value))
  {
    var segs := PathToArray(path).value;
    if segs != [] {
      EntryAtByParent(data, segs);
      assert MetaOf(data, path) == Ok(EntryAt(data, segs));
    }
  }

  /** What a write leaves behind at its path: `meta` returns the stored
      value, which is the content itself for the "meta" encoding; otherwise
      `readFileSync` returns the bytes written, the encoded string's or the
      Buffer's. */
  lemma WriteThenRead(data: map<string, Entry>, path: string, content: Entry, encoding: Option<string>, encoder: TextEncoder)
    requires WriteOf(data, path, content, encoding, encoder).Ok?
    ensures MetaOf(WriteOf(data, path, content, encoding, encoder).value, path) == Ok(StoredValue(content, encoding, encoder).value)
    ensures encoding == Some("meta") ==> MetaOf(WriteOf(data, path, content, encoding, encoder).value, path) == Ok(content)
    ensures encoding != Some("meta") && content.Str? ==>
              ReadFileOf(WriteOf(data, path, content, encoding, encoder).value, path) == Ok(encoder(content.s, EncodingName(encoding)))
    ensures encoding != Some("meta") && content.Buf? ==>
              ReadFileOf(WriteOf(data, path, content, encoding, encoder).value, path) == Ok(content.bytes)
  {
    WriteTarget(data, path, content, encoding, encoder);
    var t := PathToArray(path).value;
    var v := StoredValue(content, encoding, encoder).value;
    WrittenValue(data, path, t, v);
    if encoding != Some("meta") {
      if content.Str? {
        var b := encoder(content.s, EncodingName(encoding));
        assert v == Str(Encode(b));
        DecodeEncode(b);
      } else if content.Buf? {
        assert v == Str(Encode(content.bytes));
        DecodeEncode(content.bytes);
      }
    }
  }

  /** After `v` is put at the segments of `path`, `meta` returns `v` and
      `readFileSync` converts it. */
  lemma WrittenValue(data: map<string, Entry>, path: string, t: seq<string>, v: Entry)
    requires PathToArray(path) == Ok(t) && Writable(data, t)
    ensures MetaOf(PutAt(data, t, v), path) == Ok(v)
    ensures ReadFileOf(PutAt(data, t, v), path) == FromBase64(v)
  {
    PutAtTarget(data, t, v, []);
    PutAtKeepsWalk(data, t, v, t[..|t| - 1]);
    ReadFileByMeta(PutAt(data, t, v), path, t);
  }

  /** A failed write changes the tree only when it throws after its
      assignment: the error is then the TypeError, `meta` at the path returns
      the content itself, and every path apart from it is unchanged. */
  lemma FailedWrite(data: map<string, Entry>, path: string, content: Entry, encoding: Option<string>,
                    encoder: TextEncoder, other: string)
    requires PathToArray(other).Ok?
    ensures FailedWriteTree(data, path, content, encoding) != data ==>
              StoresBeforeThrow(content, encoding) && WriteOf(data, path, content, encoding, encoder) == Err(TypeError)
    ensures StoresBeforeThrow(content, encoding) && WriteOf(data, path, content, encoding, encoder) == Err(TypeError) ==>
              MetaOf(FailedWriteTree(data, path, content, encoding), path) == Ok(content)
    ensures PathToArray(path).Ok? && Apart(PathToArray(other).value, PathToArray(path).value) ==>
              MetaOf(FailedWriteTree(data, path, content, encoding), other) == MetaOf(data, other)
  {
    if PathToArray(path).Ok? {
      var t := PathToArray(path).value;
      if StoresBeforeThrow(content, encoding) && t != [] && Writable(data, t) && !IsDir(EntryAt(data, t)) {
        WrittenValue(data, path, t, content);
        if Apart(PathToArray(other).value, t) {
          PutAtApart(data, t, content, PathToArray(other).value);
        }
      }
    }
  }

  /** A file written without "meta" is a string, which `statSync` and
      `readdirSync` do not recognise. */
  lemma WrittenFileIsNotStat(data: map<string, Entry>, path: string, content: Entry, encoding: Option<string>, encoder: TextEncoder)
    requires WriteOf(data, path, content, encoding, encoder).Ok? && encoding != Some("meta")
    ensures StatOf(WriteOf(data, path, content, encoding, encoder).value, path) == Err(ENOENT)
    ensures ReaddirOf(WriteOf(data, path, content, encoding, encoder).value, path) == Err(ENOENT)
  {
    WriteTarget(data, path, content, encoding, encoder);
    if path == "/" {
      PathFacts.RootSegments(path);
    }
    var t := PathToArray(path).value;
    var v := StoredValue(content, encoding, encoder).value;
    assert v.Str?;
    WrittenValue(data, path, t, v);
    StringNotListed(PutAt(data, t, v), path, t);
  }

  /** A string below the root is neither statted nor listed. */
  lemma StringNotListed(m: map<string, Entry>, path: string, t: seq<string>)
    requires PathToArray(path) == Ok(t) && t != [] && path != "/" && EntryAt(m, t).Str?
    ensures StatOf(m, path) == Err(ENOENT)
    ensures ReaddirOf(m, path) == Err(ENOENT)
  {
    EntryAtByParent(m, t);
  }

  /** A file written without "meta" exists exactly when it is not empty. */
  lemma WrittenFileExists(data: map<string, Entry>, path: string, content: Entry, encoding: Option<string>, encoder: TextEncoder)
    requires WriteOf(data, path, content, encoding, encoder).Ok? && encoding != Some("meta")
    requires content.Str? || content.Buf?
    ensures ReadFileOf(WriteOf(data, path, content, encoding, encoder).value, path).Ok?
    ensures ExistsOf(WriteOf(data, path, content, encoding, encoder).value, path)
         == Ok(ReadFileOf(WriteOf(data, path, content, encoding, encoder).value, path).value != [])
  {
    WriteThenRead(data, path, content, encoding, encoder);
    WriteTarget(data, path, content, encoding, encoder);
    var t := PathToArray(path).value;
    var v := StoredValue(content, encoding, encoder).value;
    var m := PutAt(data, t, v);
    PutAtTarget(data, t, v, []);
    var bytes := if content.Str? then encoder(content.s, EncodingName(encoding)) else content.bytes;
    assert v == Str(Encode(bytes));
    assert ReadFileOf(m, path) == Ok(bytes);
    assert MetaOf(m, path) == Ok(v);
    assert ExistsOf(m, path) == Ok(Truthy(v));
    EncodeLength(bytes);
    assert Truthy(v) == (bytes != []);
  }

  /** Writing into a directory adds the written name to its listing and
      leaves the other names in place. */
  lemma PutListing(data: map<string, Entry>, t: seq<string>, v: Entry, dir: string)
    requires Writable(data, t) && ValidSegments(t) && Listable(dir, Parents(t))
    ensures ReaddirOf(data, dir).Ok?
    ensures ReaddirOf(PutAt(data, t, v), dir) == Ok(ReaddirOf(data, dir).value + {LastKey(t)})
  {
    var m := PutAt(data, t, v);
    ReaddirByWalk(data, dir, Parents(t));
    ReaddirByWalk(m, dir, Parents(t));
    PutAtWalk(data, t, v);
    var d := WalkDirs(data, Parents(t)).value;
    assert LastKey(t) != "";
    assert d[LastKey(t) := v].Keys - {""} == (d.Keys - {""}) + {LastKey(t)};
  }

  lemma WriteListing(data: map<string, Entry>, path: string, content: Entry, encoding: Option<string>, encoder: TextEncoder, dir: string)
    requires WriteOf(data, path, content, encoding, encoder).Ok?
    requires PathToArray(path).Ok? && Listable(dir, Parents(PathToArray(path).value))
    ensures ReaddirOf(data, dir).Ok?
    ensures ReaddirOf(WriteOf(data, path, content, encoding, encoder).value, dir)
         == Ok(ReaddirOf(data, dir).value + {LastKey(PathToArray(path).value)})
  {
    WriteTarget(data, path, content, encoding, encoder);
    PutListing(data, PathToArray(path).value, StoredValue(content, encoding, encoder).value, dir);
  }

  /** A write changes nothing at the paths apart from its own, and the
      directories above it stay directories. */
  lemma WriteFrame(data: map<string, Entry>, path: string, content: Entry, encoding: Option<string>, encoder: TextEncoder, other: string)
    requires WriteOf(data, path, content, encoding, encoder).Ok?
    requires PathToArray(path).Ok? && PathToArray(other).Ok?
    ensures Apart(PathToArray(other).value, PathToArray(path).value) ==>
              MetaOf(WriteOf(data, path, content, encoding, encoder).value, other) == MetaOf(data, other)
    ensures PathToArray(other).value < PathToArray(path).value ==>
              StatOf(WriteOf(data, path, content, encoding, encoder).value, other) == Ok(Directory)
  {
    WriteTarget(data, path, content, encoding, encoder);
    var t := PathToArray(path).value;
    var q := PathToArray(other).value;
    var v := StoredValue(content, encoding, encoder).value;
    if Apart(q, t) {
      PutAtApart(data, t, v, q);
    }
    if q < t && q != [] {
      assert t[..|q|] == q;
      PutAtAbove(data, t, v, |q|);
    }
  }
  // ---------------------------------------------------------------------
  // mkdirSync and mkdirpSync

  /** How `mkdirSync` ends below the root: ENOENT without a parent
      directory, EEXIST on a directory, ENOTDIR on an object that is not
      one, and otherwise a new directory — in particular in place of a
      written file. */
  lemma MkdirOutcome(data: map<string, Entry>, path: string)
    requires PathToArray(path).Ok? && PathToArray(path).value != []
    ensures MkdirOf(data, path) == Err(ENOENT) <==> !Writable(data, PathToArray(path).value)
    ensures MkdirOf(data, path) == Err(EEXIST) <==> IsDir(MetaOf(data, path).value)
    ensures MkdirOf(data, path) == Err(ENOTDIR) <==> IsFile(MetaOf(data, path).value)
    ensures MkdirOf(data, path).Ok? <==>
              Writable(data, PathToArray(path).value) && !IsDir(MetaOf(data, path).value) && !IsFile(MetaOf(data, path).value)
  {
    EntryAtByParent(data, PathToArray(path).value);
  }

  /** A new directory is empty, is a directory, and is listed in its parent. */
  lemma MkdirThenReaddir(data: map<string, Entry>, path: string, dir: string)
    requires MkdirOf(data, path).Ok? && PathToArray(path).Ok? && PathToArray(path).value != []
    ensures ReaddirOf(MkdirOf(data, path).value, path) == Ok({})
    ensures StatOf(MkdirOf(data, path).value, path) == Ok(Directory)
    ensures Listable(dir, Parents(PathToArray(path).value)) ==>
              ReaddirOf(data, dir).Ok? &&
              ReaddirOf(MkdirOf(data, path).value, dir) == Ok(ReaddirOf(data, dir).value + {LastKey(PathToArray(path).value)})
  {
    var t := PathToArray(path).value;
    var m := PutAt(data, t, Dir(map[]));
    assert MkdirOf(data, path) == Ok(m);
    PutAtTarget(data, t, Dir(map[]), []);
    PutAtWalk(data, t, Dir(map[]));
    assert t == Parents(t) + [LastKey(t)];
    WalkDirsSnoc(m, Parents(t), LastKey(t));
    assert WalkDirs(m, t) == Some(map[]);
    ReaddirByWalk(m, path, t);
    var none: map<string, Entry> := map[];
    assert none.Keys - {""} == {};
    if Listable(dir, Parents(t)) {
      PutListing(data, t, Dir(map[]), dir);
    }
  }

  /** `mkdirpSync` succeeds exactly when no prefix of the path holds a file,
      and then fails with ENOTDIR. */
  lemma {:induction false} MkdirpBlocked(m: map<string, Entry>, segs: seq<string>)
    ensures MkdirpTree(m, segs).Err? <==> exists j :: 1 <= j <= |segs| && IsFile(EntryAt(m, segs[..j]))
    ensures MkdirpTree(m, segs).Err? ==> MkdirpTree(m, segs) == Err(ENOTDIR)
    decreases |segs|
  {
    if segs != [] {
      var e := Get(m, segs[0]);
      assert EntryAt(m, segs[..1]) == e by { assert segs[..1] == [segs[0]]; }
      if !IsFile(e) {
        var sub := if IsDir(e) then e.children else map[];
        MkdirpBlocked(sub, segs[1..]);
        forall j | 2 <= j <= |segs| ensures EntryAt(m, segs[..j]) == EntryAt(sub, segs[1..][..j - 1]) {
          assert segs[..j][0] == segs[0];
          assert segs[..j][1..] == segs[1..][..j - 1];
          if !IsDir(e) {
            EntryAtEmpty(segs[1..][..j - 1]);
          }
        }
        if MkdirpTree(sub, segs[1..]).Err? {
          var j :| 1 <= j <= |segs| - 1 && IsFile(EntryAt(sub, segs[1..][..j]));
          assert IsFile(EntryAt(m, segs[..j + 1]));
        }
        if exists j :: 1 <= j <= |segs| && IsFile(EntryAt(m, segs[..j])) {
          var j :| 1 <= j <= |segs| && IsFile(EntryAt(m, segs[..j]));
          assert j >= 2;
          assert IsFile(EntryAt(sub, segs[1..][..j - 1]));
        }
      }
    }
  }

  /** Nothing lies in an empty directory. */
  lemma EntryAtEmpty(q: seq<string>)
    requires |q| >= 1
    ensures EntryAt(map[], q) == Undef
  {
  }

  /** After a successful `mkdirpSync` every prefix of the path is a directory. */
  lemma {:induction false} MkdirpDirs(m: map<string, Entry>, segs: seq<string>)
    requires MkdirpTree(m, segs).Ok?
    ensures WalkDirs(MkdirpTree(m, segs).value, segs).Some?
    decreases |segs|
  {
    if segs != [] {
      var e := Get(m, segs[0]);
      var sub := if IsDir(e) then e.children else map[];
      MkdirpDirs(sub, segs[1..]);
    }
  }

  /** Where every prefix already is a directory, `mkdirpSync` changes nothing. */
  lemma {:induction false} MkdirpExisting(m: map<string, Entry>, segs: seq<string>)
    requires WalkDirs(m, segs).Some?
    ensures MkdirpTree(m, segs) == Ok(m)
    decreases |segs|
  {
    if segs != [] {
      var e := Get(m, segs[0]);
      MkdirpExisting(e.children, segs[1..]);
      assert m[segs[0] := Dir(e.children)] == m;
    }
  }

  /** `mkdirpSync` is idempotent. */
  lemma MkdirpIdempotent(m: map<string, Entry>, segs: seq<string>)
    requires MkdirpTree(m, segs).Ok?
    ensures MkdirpTree(MkdirpTree(m, segs).value, segs) == MkdirpTree(m, segs)
  {
    MkdirpDirs(m, segs);
    MkdirpExisting(MkdirpTree(m, segs).value, segs);
  }

  /** `mkdirpSync` changes nothing except the prefixes of its path: what
      lies beside them, and what lay in a directory already at the path,
      is kept. */
  lemma {:induction false} MkdirpFrame(m: map<string, Entry>, segs: seq<string>, q: seq<string>)
    requires MkdirpTree(m, segs).Ok? && |q| >= 1 && !(q <= segs)
    ensures EntryAt(MkdirpTree(m, segs).value, q) == EntryAt(m, q)
    decreases |segs|
  {
    if segs != [] && q[0] == segs[0] {
      PrefixTail(q, segs);
      var e := Get(m, segs[0]);
      var sub := if IsDir(e) then e.children else map[];
      MkdirpFrame(sub, segs[1..], q[1..]);
      if !IsDir(e) {
        EntryAtEmpty(q[1..]);
      }
    }
  }

  /** The directories below the last existing one are created fresh. */
  lemma {:induction false} MkdirpEmpty(r: seq<string>)
    ensures MkdirpTree(map[], r) == Ok(Chain(r))
    decreases |r|
  {
    if r != [] {
      MkdirpEmpty(r[1..]);
    }
  }

  /** `mkdirpSync` walks the existing directories and, at the first segment
      that is not one, either stops at a file or writes a chain of fresh
      directories there. */
  lemma {:induction false} MkdirpAt(m: map<string, Entry>, segs: seq<string>, k: nat)
    requires k < |segs| && WalkDirs(m, segs[..k]).Some? && !IsDir(Get(WalkDirs(m, segs[..k]).value, segs[k]))
    ensures Writable(m, segs[..k + 1])
    ensures MkdirpTree(m, segs)
         == if IsFile(Get(WalkDirs(m, segs[..k]).value, segs[k])) then Err(ENOTDIR)
            else Ok(PutAt(m, segs[..k + 1], Dir(Chain(segs[k + 1..]))))
    decreases k
  {
    assert segs[..k + 1][..k] == segs[..k];
    if k == 0 {
      MkdirpEmpty(segs[1..]);
      assert segs[..1] == [segs[0]];
    } else {
      var c := Get(m, segs[0]).children;
      assert segs[..k][1..] == segs[1..][..k - 1];
      MkdirpAt(c, segs[1..], k - 1);
      assert segs[1..][k..] == segs[k + 1..];
      assert segs[..k + 1][1..] == segs[1..][..k];
    }
  }

  /** A successful `mkdirpSync` leaves a directory at the path. */
  lemma MkdirpThenStat(data: map<string, Entry>, path: string)
    requires MkdirpOf(data, path).Ok?
    ensures StatOf(MkdirpOf(data, path).value, path) == Ok(Directory)
    ensures Listable(path, PathToArray(path).value) ==> ReaddirOf(MkdirpOf(data, path).value, path).Ok?
  {
    var segs := PathToArray(path).value;
    var m := MkdirpTree(data, segs);
    MkdirpDirs(data, segs);
    if segs != [] {
      WalkDirsPrefix(m.value, segs, |segs|);
      assert segs[..|segs|] == segs;
    }
    if Listable(path, segs) {
      ReaddirByWalk(m.value, path, segs);
    }
  }

  // ---------------------------------------------------------------------
  // _remove, rmdirSync and unlinkSync

  /** A successful removal targets a path with segments below an existing directory. */
  lemma RemoveTarget(data: map<string, Entry>, linked: set<string>, path: string, dirTest: bool, override: bool)
    requires RemoveOf(data, linked, path, dirTest, override).Ok?
    ensures PathToArray(path).Ok? && Writable(data, PathToArray(path).value)
    ensures RemoveOf(data, linked, path, dirTest, override).value == DeleteAt(data, PathToArray(path).value)
  {
  }

  /** After a removal nothing exists at the path or below it. */
  lemma RemoveGone(data: map<string, Entry>, linked: set<string>, path: string, dirTest: bool, override: bool, other: string)
    requires RemoveOf(data, linked, path, dirTest, override).Ok? && PathToArray(other).Ok?
    requires PathToArray(path).value <= PathToArray(other).value
    ensures ExistsOf(RemoveOf(data, linked, path, dirTest, override).value, other) == Ok(false)
  {
    RemoveTarget(data, linked, path, dirTest, override);
    var t := PathToArray(path).value;
    var q := PathToArray(other).value;
    assert q == t + q[|t|..];
    DeleteAtTarget(data, t, q[|t|..]);
    NothingAt(DeleteAt(data, t), other, q);
  }

  /** A removal never brings back a path that does not exist. */
  lemma RemoveKeepsGone(data: map<string, Entry>, linked: set<string>, path: string, dirTest: bool, override: bool, other: string)
    requires RemoveOf(data, linked, path, dirTest, override).Ok? && ExistsOf(data, other) == Ok(false)
    ensures ExistsOf(RemoveOf(data, linked, path, dirTest, override).value, other) == Ok(false)
  {
    RemoveTarget(data, linked, path, dirTest, override);
    var t := PathToArray(path).value;
    var q := PathToArray(other).value;
    if q == [] {
      assert false;
    } else if t <= q {
      RemoveGone(data, linked, path, dirTest, override, other);
    } else if q <= t {
      assert t[..|t| - 1][..|q|] == q;
      WalkDirsPrefix(data, t[..|t| - 1], |q|);
      assert false;
    } else {
      RemoveFrame(data, linked, path, dirTest, override, other);
    }
  }

  /** An undefined value below the root does not exist. */
  lemma NothingAt(m: map<string, Entry>, path: string, q: seq<string>)
    requires PathToArray(path) == Ok(q) && q != [] && EntryAt(m, q) == Undef
    ensures ExistsOf(m, path) == Ok(false)
  {
  }

  /** A removal changes nothing at the paths apart from its own, and the
      directories above it stay directories. */
  lemma RemoveFrame(data: map<string, Entry>, linked: set<string>, path: string, dirTest: bool, override: bool, other: string)
    requires RemoveOf(data, linked, path, dirTest, override).Ok? && PathToArray(other).Ok?
    ensures Apart(PathToArray(other).value, PathToArray(path).value) ==>
              MetaOf(RemoveOf(data, linked, path, dirTest, override).value, other) == MetaOf(data, other)
    ensures PathToArray(other).value < PathToArray(path).value ==>
              StatOf(RemoveOf(data, linked, path, dirTest, override).value, other) == Ok(Directory)
  {
    RemoveTarget(data, linked, path, dirTest, override);
    var t := PathToArray(path).value;
    var q := PathToArray(other).value;
    if Apart(q, t) {
      DeleteAtApart(data, t, q);
    }
    if q < t && q != [] {
      assert t[..|q|] == q;
      DeleteAtAbove(data, t, |q|);
    }
  }

  /** A removal takes exactly the removed name out of its parent's listing. */
  lemma RemoveListing(data: map<string, Entry>, linked: set<string>, path: string, dirTest: bool, override: bool, dir: string)
    requires RemoveOf(data, linked, path, dirTest, override).Ok?
    requires PathToArray(path).Ok? && Listable(dir, Parents(PathToArray(path).value))
    ensures ReaddirOf(data, dir).Ok?
    ensures ReaddirOf(RemoveOf(data, linked, path, dirTest, override).value, dir)
         == Ok(ReaddirOf(data, dir).value - {LastKey(PathToArray(path).value)})
  {
    RemoveTarget(data, linked, path, dirTest, override);
    DeleteListing(data, PathToArray(path).value, dir);
  }

  /** Deleting takes the deleted name out of its directory's listing. */
  lemma DeleteListing(data: map<string, Entry>, t: seq<string>, dir: string)
    requires Writable(data, t) && Listable(dir, Parents(t))
    ensures ReaddirOf(data, dir).Ok?
    ensures ReaddirOf(DeleteAt(data, t), dir) == Ok(ReaddirOf(data, dir).value - {LastKey(t)})
  {
    var m := DeleteAt(data, t);
    ReaddirByWalk(data, dir, Parents(t));
    ReaddirByWalk(m, dir, Parents(t));
    DeleteAtWalk(data, t);
    var d := WalkDirs(data, Parents(t)).value;
    assert (d - {LastKey(t)}).Keys - {""} == (d.Keys - {""}) - {LastKey(t)};
  }

  /** Removing a name the parent does not list changes nothing. */
  lemma RemoveMissing(data: map<string, Entry>, linked: set<string>, path: string, dirTest: bool, override: bool, dir: string)
    requires RemoveOf(data, linked, path, dirTest, override).Ok?
    requires PathToArray(path).Ok? && Listable(dir, Parents(PathToArray(path).value))
    requires ReaddirOf(data, dir).Ok? && LastKey(PathToArray(path).value) !in ReaddirOf(data, dir).value
    ensures RemoveOf(data, linked, path, dirTest, override) == Ok(data)
  {
    RemoveTarget(data, linked, path, dirTest, override);
    var t := PathToArray(path).value;
    ReaddirByWalk(data, dir, Parents(t));
    assert LastKey(t) != "";
    DeleteAtMissing(data, t);
  }

  /** The kind test matters only for a linked path without the override:
      otherwise `rmdirSync` removes files and `unlinkSync` directories. */
  lemma RemoveKindIgnored(data: map<string, Entry>, linked: set<string>, path: string, override: bool)
    requires override || path !in linked
    ensures RemoveOf(data, linked, path, true, override) == RemoveOf(data, linked, path, false, override)
    ensures PathToArray(path).Ok? && PathToArray(path).value != [] && Writable(data, PathToArray(path).value) ==>
              RemoveOf(data, linked, path, true, override).Ok?
  {
  }

  /** For a linked path without the override, the kind test decides. */
  lemma RemoveKindChecked(data: map<string, Entry>, linked: set<string>, path: string, dirTest: bool)
    requires path in linked && PathToArray(path).Ok? && PathToArray(path).value != []
    requires Writable(data, PathToArray(path).value)
    ensures RemoveOf(data, linked, path, dirTest, false).Ok?
        <==> (if dirTest then IsDir(MetaOf(data, path).value) else IsFile(MetaOf(data, path).value))
  {
  }
}
