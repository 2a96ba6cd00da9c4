/** The privileged process (main.js): the IPC handlers that open, save, patch and
    auto-load the configuration file. The file system is a map from paths to what
    reading and parsing each file yields; comment-json's parse and stringify are
    not modelled: a document written to disk reads back as its JSON clone. */
module Privileged {
  import opened Wrappers
  import opened Json
  import opened KeyPath
  import opened Tree

  /** What `commentJson.parse(fs.readFileSync(p))` yields for an existing file. */
  datatype FileState = Parsed(doc: Json) | Unparseable(parseError: string)

  type Disk = map<string, FileState>

  datatype Loaded = Doc(doc: Json) | LoadFailed(message: string)

  /** Node's message for reading a file that does not exist. */
  function NoSuchFile(path: string): string {
    "ENOENT: no such file or directory, open '" + path + "'"
  }

  /** Read and parse the file, re-reading the disk on every call. */
  function Load(disk: Disk, path: string): (r: Loaded)
    ensures r.Doc? <==> path in disk && disk[path].Parsed?
    ensures r.Doc? ==> r.doc == disk[path].doc
  {
    if path !in disk then LoadFailed(NoSuchFile(path))
    else match disk[path]
      case Parsed(d) => Doc(d)
      case Unparseable(e) => LoadFailed(e)
  }

  /** The `{ success, error }` reply of save and patch. */
  datatype Reply = Success | Failure(error: string)

  /** Node's message when `stringify` yields `undefined` and `writeFileSync` rejects it. */
  const UndefinedData := "The \"data\" argument must be of type string or an instance of Buffer, TypedArray, or DataView. Received undefined"

  /** Serialise and overwrite the file. `writeError` is the failure, if any, that
      the file system reports for this write (permissions, a full disk). */
  function Store(disk: Disk, path: string, data: Json, writeError: Option<string>): (r: (Reply, Disk))
    ensures r.0.Failure? ==> r.1 == disk
    ensures r.0.Success? <==> data != Undef && writeError.None?
    ensures r.0.Success? ==> r.1 == disk[path := Parsed(Clone(data))]
  {
    if data == Undef then (Failure(UndefinedData), disk)
    else match writeError
      case Some(e) => (Failure(e), disk)
      case None => (Success, disk[path := Parsed(Clone(data))])
  }

  // ---------------------------------------------------------------------------
  // open-config-dialog

  datatype OpenReply =
    | OpenCanceled
    | OpenFailed(filePath: string, error: string)
    | Opened(filePath: string, data: Json)

  /** The dialog's outcome (`canceled`, `filePaths`) comes in as parameters. */
  function OpenConfigDialog(disk: Disk, canceled: bool, filePaths: seq<string>): (r: OpenReply)
    ensures r.OpenCanceled? <==> canceled || |filePaths| == 0 || filePaths[0] == ""
    ensures !r.OpenCanceled? ==> r.filePath == filePaths[0]
    ensures r.Opened? <==> !r.OpenCanceled? && filePaths[0] in disk && disk[filePaths[0]].Parsed?
    ensures r.Opened? ==> r.data == disk[filePaths[0]].doc
    ensures r.OpenFailed? ==> Load(disk, filePaths[0]) == LoadFailed(r.error)
  {
    if canceled || |filePaths| == 0 || filePaths[0] == "" then OpenCanceled
    else match Load(disk, filePaths[0])
      case Doc(d) => Opened(filePaths[0], d)
      case LoadFailed(e) => OpenFailed(filePaths[0], e)
  }

  // ---------------------------------------------------------------------------
  // save-config-file

  /** The `save-config-file` handler: serialise exactly the supplied data over the
      file, and report the serialiser's or the file system's error otherwise. */
  function SaveConfigFile(disk: Disk, filePath: string, data: Json, writeError: Option<string>): (r: (Reply, Disk))
    ensures r.0.Success? ==> Load(r.1, filePath) == Doc(Clone(data))
    ensures r.0.Failure? ==> r.1 == disk
    ensures r.0.Failure? && data == Undef ==> r.0.error == UndefinedData
    ensures r.0.Failure? && data != Undef ==> writeError == Some(r.0.error)
  {
    Store(disk, filePath, data, writeError)
  }

  /** A successful save reads back as exactly the saved data, minus `undefined`
      properties, wherever one looks; a failed save leaves the disk unchanged. */
  lemma SaveReadsBack(disk: Disk, filePath: string, data: Json, writeError: Option<string>, r: Path)
    requires WellFormed(data)
    ensures var (reply, disk') := SaveConfigFile(disk, filePath, data, writeError);
      (reply.Success? <==> data != Undef && writeError.None?) &&
      (reply.Success? ==> Load(disk', filePath).Doc? &&
                          Read(Load(disk', filePath).doc, r) == Clone(Read(data, r))) &&
      (reply.Failure? ==> disk' == disk)
  {
    ReadClone(data, r);
  }

  // ---------------------------------------------------------------------------
  // patch-config-value

  datatype Patched = Patched(doc: Json) | Rejected(error: string)

  /** V8's message for assigning a property of `null` or `undefined`. */
  function SetError(base: Json, k: string): string {
    "Cannot set properties of " + (if base == Null then "null" else "undefined")
      + " (setting '" + k + "')"
  }

  const InvalidPath := "Invalid path"

  /** The patch applied to a freshly parsed document: walk every segment but the
      last, then assign the last. Assigning a property of a primitive is a silent
      no-op in main.js's sloppy-mode code. */
  function PatchDoc(doc: Json, path: Path, value: Json): (r: Patched)
    ensures doc == Null || doc == Undef ==> r.Rejected?
  {
    match DefinedWalk(doc, Init(path))
    case Stopped => Rejected(InvalidPath)
    case Threw(e) => Rejected(e)
    case Reached(t) =>
      if t == Null || t == Undef then Rejected(SetError(t, Final(path)))
      else if t.Obj? then Patched(AssignAt(doc, Init(path), Final(path), value))
      else Patched(doc)
  }

  /** The whole handler: re-read, patch, write back. */
  function Patch(disk: Disk, filePath: string, path: Path, value: Json, writeError: Option<string>): (r: (Reply, Disk))
    ensures r.0.Failure? ==> r.1 == disk
  {
    match Load(disk, filePath)
    case LoadFailed(e) => (Failure(e), disk)
    case Doc(d) =>
      match PatchDoc(d, path, value)
      case Rejected(e) => (Failure(e), disk)
      case Patched(d') => Store(disk, filePath, d', writeError)
  }

  /** main.js's loop over every segment but the last, rebinding `obj` as it goes. */
  method WalkSegments(parsed: Json, segs: Path) returns (w: Walk)
    ensures w == DefinedWalk(parsed, segs)
  {
    var obj := parsed;
    var i := 0;
    while i < |segs|
      invariant 0 <= i <= |segs|
      invariant DefinedWalk(parsed, segs) == DefinedWalk(obj, segs[i..])
    {
      assert segs[i..][1..] == segs[i + 1..];
      if obj == Null || obj == Undef {
        return Threw(ReadError(obj, segs[i]));
      }
      if !obj.Obj? || Lookup(obj.members, segs[i]) == Undef {
        return Stopped;
      }
      obj := Lookup(obj.members, segs[i]);
      i := i + 1;
    }
    return Reached(obj);
  }

  /** The handler as main.js writes it: re-read, walk, assign, write back. */
  method PatchConfigValue(disk: Disk, filePath: string, path: Path, value: Json, writeError: Option<string>)
    returns (reply: Reply, disk': Disk)
    ensures (reply, disk') == Patch(disk, filePath, path, value, writeError)
  {
    var loaded := Load(disk, filePath);
    if loaded.LoadFailed? {
      return Failure(loaded.message), disk;
    }
    var parsed := loaded.doc;
    var w := WalkSegments(parsed, Init(path));
    if w.Stopped? {
      return Failure(InvalidPath), disk;
    } else if w.Threw? {
      return Failure(w.message), disk;
    }
    var obj := w.target;
    var last := Final(path);
    if obj == Null || obj == Undef {
      return Failure(SetError(obj, last)), disk;
    }
    var updated := if obj.Obj? then AssignAt(parsed, Init(path), last, value) else parsed;
    var stored := Store(disk, filePath, updated, writeError);
    reply, disk' := stored.0, stored.1;
  }

  /** Along objects, the patch assigns the last segment in the object the walk reaches. */
  lemma PatchDocAlongObjects(d: Json, path: Path, value: Json)
    requires ObjectsAlong(d, Init(path))
    ensures PatchDoc(d, path, value) == Patched(AssignAt(d, Init(path), Final(path), value))
  {
    WalksAlongObjects(d, Init(path));
    var t := Read(d, Init(path));
    assert DefinedWalk(d, Init(path)) == Reached(t) && t.Obj?;
  }

  /** A patched document with no `undefined` in it reaches the disk unchanged. */
  lemma PatchStores(disk: Disk, filePath: string, path: Path, value: Json, d1: Json)
    requires Load(disk, filePath).Doc? && PatchDoc(Load(disk, filePath).doc, path, value) == Patched(d1)
    requires Clean(d1) && d1 != Undef
    ensures Patch(disk, filePath, path, value, None) == (Success, disk[filePath := Parsed(d1)])
  {
    CloneOfClean(d1);
  }

  /** Every failure, whatever its cause, leaves the disk as it was; a success
      changes only the patched file. */
  lemma PatchFailureWritesNothing(disk: Disk, filePath: string, path: Path, value: Json, writeError: Option<string>)
    ensures var (reply, disk') := Patch(disk, filePath, path, value, writeError);
      (reply.Failure? ==> disk' == disk) &&
      (reply.Success? ==> disk'.Keys == disk.Keys + {filePath} &&
                          forall p :: p in disk && p != filePath ==> disk'[p] == disk[p])
  {
  }

  /** A segment before the last that is `undefined` in the file rejects the patch
      and nothing is written. When it is the first failing step, the reply is
      "Invalid path", or the TypeError for reading from `null` when its base is
      `null`. */
  lemma UndefinedSegmentRejects(disk: Disk, filePath: string, path: Path, value: Json,
                                writeError: Option<string>, i: nat)
    requires Load(disk, filePath).Doc? && Load(disk, filePath).doc != Undef
    requires i < |Init(path)| && !StepDefined(Load(disk, filePath).doc, Init(path), i)
    ensures Patch(disk, filePath, path, value, writeError).0.Failure?
    ensures Patch(disk, filePath, path, value, writeError).1 == disk
    ensures PatchDoc(Load(disk, filePath).doc, path, value).Rejected?
    ensures var d := Load(disk, filePath).doc;
      (forall k :: 0 <= k < i ==> StepDefined(d, Init(path), k)) ==>
        Patch(disk, filePath, path, value, writeError) ==
          (Failure(if Read(d, Init(path)[..i]) == Null then ReadError(Null, Init(path)[i]) else InvalidPath), disk)
  {
    var d := Load(disk, filePath).doc;
    DefinedWalkReached(d, Init(path));
    if forall k :: 0 <= k < i ==> StepDefined(d, Init(path), k) {
      DefinedWalkFails(d, Init(path), i);
    }
  }

  /** Neither TypeError text is the "Invalid path" reply. */
  lemma TypeErrorsAreNotInvalidPath()
    ensures forall b, k :: ReadError(b, k) != InvalidPath
    ensures forall b, k :: SetError(b, k) != InvalidPath
  {
  }

  /** The privileged walk rejects with "Invalid path" only when some segment is
      `undefined`: that reply means the walk stopped at such a segment. */
  lemma InvalidPathMeansUndefined(doc: Json, path: Path, value: Json)
    requires doc != Undef && PatchDoc(doc, path, value) == Rejected(InvalidPath)
    ensures DefinedWalk(doc, Init(path)) == Stopped
    ensures exists i :: 0 <= i < |Init(path)| && !StepDefined(doc, Init(path), i)
  {
    WalkThrowsRead(doc, Init(path));
    TypeErrorsAreNotInvalidPath();
    DefinedWalkReached(doc, Init(path));
  }

  /** On a file whose intermediates along the path are objects, the patch succeeds:
      the file then holds `value` at the path and every disjoint path reads as
      before (subtrees with their key order). */
  lemma PatchSetsLeaf(disk: Disk, filePath: string, path: Path, value: Json, r: Path)
    requires Load(disk, filePath).Doc?
    requires var d := Load(disk, filePath).doc; Clean(d) && ObjectsAlong(d, Init(path))
    requires Clean(value) && |path| >= 1
    ensures var d := Load(disk, filePath).doc;
      var d' := AssignAt(d, Init(path), Final(path), value);
      Patch(disk, filePath, path, value, None) == (Success, disk[filePath := Parsed(d')]) &&
      Read(d', path) == value &&
      (Disjoint(path, r) ==> Read(d', r) == Read(d, r))
  {
    var d := Load(disk, filePath).doc;
    var q, k := Init(path), Final(path);
    var d1 := AssignAt(d, q, k, value);
    PatchDocAlongObjects(d, path, value);
    AssignAtClean(d, q, k, value);
    PatchStores(disk, filePath, path, value, d1);
    ReadAssignAt(d, q, k, value);
    if Disjoint(path, r) {
      AssignAtFrame(d, q, k, value, r);
    }
  }

  /** Each object along the patched path keeps its key order, gaining the assigned
      key at the end only if it was new. */
  lemma PatchKeepsKeyOrder(d: Json, path: Path, value: Json, i: nat)
    requires ObjectsAlong(d, Init(path)) && i < |path|
    ensures var d' := AssignAt(d, Init(path), Final(path), value);
      KeysAt(d', path[..i]) ==
        (if path[i] in KeysAt(d, path[..i]) then KeysAt(d, path[..i]) else KeysAt(d, path[..i]) + [path[i]])
  {
    var q, k := Init(path), Final(path);
    AssignAtKeys(d, q, k, value, i);
    assert q[..i] == path[..i] && (q + [k])[i] == path[i];
  }

  /** The first of two assignments at disjoint paths keeps the document well formed
      and clean, and keeps the objects along the second path. */
  lemma FirstAssignKeeps(d: Json, a: Path, va: Json, b: Path)
    requires WellFormed(d) && Clean(d) && ObjectsAlong(d, Init(a)) && ObjectsAlong(d, Init(b))
    requires WellFormed(va) && Clean(va) && |a| >= 1 && |b| >= 1 && Disjoint(a, b)
    ensures var d1 := AssignAt(d, Init(a), Final(a), va);
      WellFormed(d1) && Clean(d1) && ObjectsAlong(d1, Init(b)) && Read(d1, a) == va
  {
    assert !(a <= Init(b)) by {
      assert Init(b) <= b;
    }
    AssignAtKeepsObjects(d, Init(a), Final(a), va, Init(b));
    AssignAtWellFormed(d, Init(a), Final(a), va);
    AssignAtClean(d, Init(a), Final(a), va);
    ReadAssignAt(d, Init(a), Final(a), va);
  }

  /** Two assignments at disjoint paths leave both values in the document. */
  lemma AssignsCompose(d: Json, a: Path, va: Json, b: Path, vb: Json)
    requires WellFormed(d) && Clean(d) && ObjectsAlong(d, Init(a)) && ObjectsAlong(d, Init(b))
    requires WellFormed(va) && Clean(va) && |a| >= 1 && |b| >= 1 && Disjoint(a, b)
    ensures var d1 := AssignAt(d, Init(a), Final(a), va);
      WellFormed(d1) && Clean(d1) && ObjectsAlong(d1, Init(b)) &&
      Read(AssignAt(d1, Init(b), Final(b), vb), a) == va &&
      Read(AssignAt(d1, Init(b), Final(b), vb), b) == vb
  {
    var d1 := AssignAt(d, Init(a), Final(a), va);
    FirstAssignKeeps(d, a, va, b);
    ReadAssignAt(d1, Init(b), Final(b), vb);
    AssignAtFrame(d1, Init(b), Final(b), vb, a);
  }

  /** Each patch re-reads the file, so a second patch builds on the first: after two
      successful patches at disjoint paths the file holds both values. */
  lemma PatchesCompose(disk: Disk, filePath: string, d: Json, a: Path, va: Json, b: Path, vb: Json)
    requires Load(disk, filePath) == Doc(d)
    requires WellFormed(d) && Clean(d) && ObjectsAlong(d, Init(a)) && ObjectsAlong(d, Init(b))
    requires WellFormed(va) && Clean(va) && Clean(vb) && |a| >= 1 && |b| >= 1 && Disjoint(a, b)
    ensures var d1 := AssignAt(d, Init(a), Final(a), va);
      var d2 := AssignAt(d1, Init(b), Final(b), vb);
      Patch(disk, filePath, a, va, None) == (Success, disk[filePath := Parsed(d1)]) &&
      Patch(disk[filePath := Parsed(d1)], filePath, b, vb, None) == (Success, disk[filePath := Parsed(d2)]) &&
      Read(d2, a) == va && Read(d2, b) == vb
  {
    AssignsCompose(d, a, va, b, vb);
    PatchCleanAlongObjects(disk, filePath, d, a, va);
    PatchOverPatched(disk, filePath, AssignAt(d, Init(a), Final(a), va), b, vb);
  }

  /** A patch of a file the previous patch wrote re-reads what that patch wrote. */
  lemma PatchOverPatched(disk: Disk, filePath: string, d1: Json, b: Path, vb: Json)
    requires Clean(d1) && ObjectsAlong(d1, Init(b)) && Clean(vb)
    ensures Patch(disk[filePath := Parsed(d1)], filePath, b, vb, None) ==
      (Success, disk[filePath := Parsed(AssignAt(d1, Init(b), Final(b), vb))])
  {
    var disk1 := disk[filePath := Parsed(d1)];
    PatchCleanAlongObjects(disk1, filePath, d1, b, vb);
    assert disk1[filePath := Parsed(AssignAt(d1, Init(b), Final(b), vb))] ==
           disk[filePath := Parsed(AssignAt(d1, Init(b), Final(b), vb))];
  }

  /** A patch along objects of a clean file with a clean value succeeds and writes
      the assigned document as it is. */
  lemma PatchCleanAlongObjects(disk: Disk, filePath: string, d: Json, path: Path, value: Json)
    requires Load(disk, filePath) == Doc(d)
    requires Clean(d) && ObjectsAlong(d, Init(path)) && Clean(value)
    ensures Patch(disk, filePath, path, value, None) ==
      (Success, disk[filePath := Parsed(AssignAt(d, Init(path), Final(path), value))])
  {
    PatchDocAlongObjects(d, path, value);
    AssignAtClean(d, Init(path), Final(path), value);
    PatchStores(disk, filePath, path, value, AssignAt(d, Init(path), Final(path), value));
  }

  // ---------------------------------------------------------------------------
  // auto-load-config

  datatype AutoLoadReply =
    | AutoLoaded(filePath: string, data: Json)
    | AutoLoadFailed(filePath: string, error: string)

  /** Loads the fixed configuration path; both replies carry that path. */
  function AutoLoadConfig(disk: Disk, configPath: string): (r: AutoLoadReply)
    ensures r.filePath == configPath
    ensures r.AutoLoaded? <==> configPath in disk && disk[configPath].Parsed?
    ensures r.AutoLoaded? ==> r.data == disk[configPath].doc
  {
    match Load(disk, configPath)
    case Doc(d) => AutoLoaded(configPath, d)
    case LoadFailed(e) => AutoLoadFailed(configPath, e)
  }
}
