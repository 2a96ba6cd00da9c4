/** The renderer (App.tsx and configUtils.ts): `getOriginal`, the two optimistic
    in-memory patches, and the session the App component keeps in React state —
    the working copy, the file path, the error line, the dirty flag and the
    autosave timer. Every IPC `invoke` is a call of the matching handler of the
    privileged process on the current disk. */
module Editor {
  import opened Wrappers
  import opened Json
  import opened KeyPath
  import opened Tree
  import opened Privileged
  import opened Sections

  // ---------------------------------------------------------------------------
  // getOriginal

  /** `getOriginal(originalConfig, path)`: the snapshot's value under `hideoutOptions`. */
  method GetOriginal(originalConfig: Json, path: Path) returns (r: Json)
    ensures !Truthy(originalConfig) ==> r == Undef
    ensures r == Read(originalConfig, ["hideoutOptions"] + path)
  {
    var whole := ["hideoutOptions"] + path;
    assert whole[1..] == path;
    if !Truthy(originalConfig) {
      ReadUndef(path);
      return Undef;
    }
    var obj := if originalConfig.Obj? then Lookup(originalConfig.members, "hideoutOptions") else Undef;
    ReadUndef(path);
    var i := 0;
    while i < |path|
      invariant 0 <= i <= |path|
      invariant Read(originalConfig, whole) == Read(obj, path[i..])
    {
      assert path[i..][0] == path[i] && path[i..][1..] == path[i + 1..];
      if obj == Null || obj == Undef {
        ReadUndef(path[i + 1..]);
        return Undef;
      }
      obj := if obj.Obj? then Lookup(obj.members, path[i]) else Undef;
      ReadUndef(path[i + 1..]);
      i := i + 1;
    }
    return obj;
  }

  // ---------------------------------------------------------------------------
  // The optimistic in-memory patches run after a successful privileged patch

  /** `{ ...prev }`: the members of an object; nothing for any other value. */
  function Spread(prev: Json): (r: seq<Member>)
    ensures Lookup(r, "hideoutOptions") == Read(prev, ["hideoutOptions"])
  {
    if prev.Obj? then prev.members else []
  }

  /** The updater of configUtils' `patchValue`: keep `prev` when it is falsy or when
      an intermediate is not a non-null object; otherwise assign the leaf inside
      `hideoutOptions` of a shallow copy. */
  function UtilsUpdate(prev: Json, path: Path, value: Json): (r: Update)
    ensures !Truthy(prev) ==> r.Kept?
    ensures r.Updated? ==> prev.Obj? && r.next.Obj?
  {
    if !Truthy(prev) then Kept
    else
      var next := Spread(prev);
      var ho := Lookup(next, "hideoutOptions");
      match ObjectWalk(ho, Init(path))
      case Stopped => Kept
      case Threw(_) => Crashed
      case Reached(t) =>
        if t.Obj? then Updated(Obj(Assign(next, "hideoutOptions", AssignAt(ho, Init(path), Final(path), value))))
        else Crashed
  }

  /** The updater of App's own `patchValue`: keep `prev` when a segment is
      `undefined`; assigning into `null`, `undefined` or a primitive throws. */
  function InlineUpdate(prev: Json, path: Path, value: Json): (r: Update)
    ensures r.Updated? ==> prev.Obj? && r.next.Obj?
  {
    var next := Spread(prev);
    var ho := Lookup(next, "hideoutOptions");
    match DefinedWalk(ho, Init(path))
    case Stopped => Kept
    case Threw(_) => Crashed
    case Reached(t) =>
      if t.Obj? then Updated(Obj(Assign(next, "hideoutOptions", AssignAt(ho, Init(path), Final(path), value))))
      else Crashed
  }

  /** configUtils' loop over every segment but the last. */
  method WalkObjects(start: Json, segs: Path) returns (w: Walk)
    ensures w == ObjectWalk(start, segs)
  {
    var obj := start;
    var i := 0;
    while i < |segs|
      invariant 0 <= i <= |segs|
      invariant ObjectWalk(start, segs) == ObjectWalk(obj, segs[i..])
    {
      assert segs[i..][1..] == segs[i + 1..];
      if obj == Null || obj == Undef {
        return Threw(ReadError(obj, segs[i]));
      }
      var child := if obj.Obj? then Lookup(obj.members, segs[i]) else Undef;
      if !child.Obj? {
        return Stopped;
      }
      obj := child;
      i := i + 1;
    }
    return Reached(obj);
  }

  method UtilsUpdater(prev: Json, path: Path, value: Json) returns (u: Update)
    ensures u == UtilsUpdate(prev, path, value)
  {
    if !Truthy(prev) {
      return Kept;
    }
    var next := Spread(prev);
    var ho := Lookup(next, "hideoutOptions");
    var w := WalkObjects(ho, Init(path));
    if w.Stopped? {
      return Kept;
    } else if w.Threw? || !w.target.Obj? {
      return Crashed;
    }
    return Updated(Obj(Assign(next, "hideoutOptions", AssignAt(ho, Init(path), Final(path), value))));
  }

  method InlineUpdater(prev: Json, path: Path, value: Json) returns (u: Update)
    ensures u == InlineUpdate(prev, path, value)
  {
    var next := Spread(prev);
    var ho := Lookup(next, "hideoutOptions");
    var w := WalkSegments(ho, Init(path));
    if w.Stopped? {
      return Kept;
    } else if w.Threw? || !w.target.Obj? {
      return Crashed;
    }
    return Updated(Obj(Assign(next, "hideoutOptions", AssignAt(ho, Init(path), Final(path), value))));
  }

  /** The object walk never throws from an object, and reaches only objects. */
  lemma {:induction false} ObjectWalkFromObject(j: Json, q: Path)
    requires j.Obj?
    ensures !ObjectWalk(j, q).Threw?
    ensures ObjectWalk(j, q).Reached? <==> ObjectsAlong(j, q)
    decreases |q|
  {
    if q != [] {
      var c := Lookup(j.members, q[0]);
      if c.Obj? {
        ObjectWalkFromObject(c, q[1..]);
      }
    }
  }

  /** After the object-walk patch of an object whose `hideoutOptions` is an object:
      it assigns exactly when every intermediate is an object, and then the value
      is at the path and every disjoint path reads as before; otherwise the working
      copy is kept as it was. */
  lemma UtilsUpdateSpec(prev: Json, path: Path, value: Json, r: Path)
    requires prev.Obj? && Lookup(prev.members, "hideoutOptions").Obj? && |path| >= 1
    ensures var ho := Lookup(prev.members, "hideoutOptions");
      var u := UtilsUpdate(prev, path, value);
      (u.Updated? <==> ObjectsAlong(ho, Init(path))) && (u.Kept? <==> !ObjectsAlong(ho, Init(path))) &&
      (u.Updated? ==> Read(u.next, ["hideoutOptions"] + path) == value &&
                      (Disjoint(["hideoutOptions"] + path, r) ==> Read(u.next, r) == Read(prev, r)))
  {
    var ho := Lookup(prev.members, "hideoutOptions");
    ObjectWalkFromObject(ho, Init(path));
    if ObjectsAlong(ho, Init(path)) {
      WalksAlongObjects(ho, Init(path));
      HideoutPatchReads(prev, path, value, r);
    }
  }

  /** The inline patch of an object: when `hideoutOptions` leads through objects
      along the path it assigns the value; when `hideoutOptions` is missing the
      updater throws; at the first step `i` that finds `undefined` (or reads
      from `null`) it keeps `prev` behind a non-null base and throws behind `null`. */
  lemma InlineUpdateSpec(prev: Json, path: Path, value: Json, r: Path, i: nat)
    requires prev.Obj? && |path| >= 1
    ensures var ho := Lookup(prev.members, "hideoutOptions");
      var u := InlineUpdate(prev, path, value);
      (ho == Undef ==> u == Crashed) &&
      (ObjectsAlong(ho, Init(path)) ==>
        u.Updated? && Read(u.next, ["hideoutOptions"] + path) == value &&
        (Disjoint(["hideoutOptions"] + path, r) ==> Read(u.next, r) == Read(prev, r))) &&
      ((exists k :: 0 <= k < |Init(path)| && !StepDefined(ho, Init(path), k)) ==> !u.Updated?) &&
      (ho != Undef && i < |Init(path)| && !StepDefined(ho, Init(path), i) &&
       (forall k :: 0 <= k < i ==> StepDefined(ho, Init(path), k)) ==>
        u == if Read(ho, Init(path)[..i]) == Null then Crashed else Kept)
  {
    var ho := Lookup(prev.members, "hideoutOptions");
    if ho != Undef {
      DefinedWalkReached(ho, Init(path));
      if ObjectsAlong(ho, Init(path)) {
        WalksAlongObjects(ho, Init(path));
        HideoutPatchReads(prev, path, value, r);
      }
      if i < |Init(path)| && !StepDefined(ho, Init(path), i) &&
         forall k :: 0 <= k < i ==> StepDefined(ho, Init(path), k) {
        DefinedWalkFails(ho, Init(path), i);
      }
    }
  }

  /** Assigning at `path` inside `hideoutOptions` is assigning at the full path. */
  lemma HideoutPatchReads(prev: Json, path: Path, value: Json, r: Path)
    requires prev.Obj? && |path| >= 1
    requires ObjectsAlong(Lookup(prev.members, "hideoutOptions"), Init(path))
    ensures var ho := Lookup(prev.members, "hideoutOptions");
      var n := Obj(Assign(prev.members, "hideoutOptions", AssignAt(ho, Init(path), Final(path), value)));
      ObjectsAlong(prev, Init(["hideoutOptions"] + path)) &&
      n == AssignAt(prev, Init(["hideoutOptions"] + path), Final(["hideoutOptions"] + path), value) &&
      Read(n, ["hideoutOptions"] + path) == value &&
      (Disjoint(["hideoutOptions"] + path, r) ==> Read(n, r) == Read(prev, r))
  {
    var whole := ["hideoutOptions"] + path;
    assert Init(whole) == ["hideoutOptions"] + Init(path) && Final(whole) == Final(path);
    assert Init(whole)[0] == "hideoutOptions" && Init(whole)[1..] == Init(path);
    assert ObjectsAlong(prev, Init(whole));
    ReadAssignAt(prev, Init(whole), Final(whole), value);
    if Disjoint(whole, r) {
      AssignAtFrame(prev, Init(whole), Final(whole), value, r);
    }
  }

  // ---------------------------------------------------------------------------
  // The autosave debounce

  /** The pending autosave timeout, if any. Its callback is the `saveConfig` of the
      render that armed it, so it saves that render's file path and working copy. */
  datatype Timer = Idle | Armed(deadline: int, filePath: string, data: Json)

  const SaveDelay := 5000

  /** React's `Object.is` on the `config` dependency: a freshly built object is
      always a change; anything else compares by value. */
  predicate ConfigChanged(before: Json, after: Json, rebuilt: bool) {
    (rebuilt && after.Obj?) || before != after
  }

  /** The effect on `[dirty, config]`: when a dependency changed, its cleanup clears
      the pending timeout and, if dirty, it arms a new one `SaveDelay` ms out over
      the render's `filePath` and `config`. */
  function AutosaveEffect(timer: Timer, dirtyBefore: bool, dirty: bool, configChanged: bool,
                          now: int, filePath: string, config: Json): (t: Timer)
    ensures t != timer ==> t == if dirty then Armed(now + SaveDelay, filePath, config) else Idle
    ensures !dirty && dirtyBefore ==> t == Idle
  {
    if dirtyBefore != dirty || configChanged then (if dirty then Armed(now + SaveDelay, filePath, config) else Idle)
    else timer
  }

  /** A pending timeout exists only while dirty and always saves the current working
      copy; a change while dirty re-arms from now; a change to not dirty disarms;
      with no change the pending timeout, and the file path it captured, stay. */
  lemma AutosaveRule(timer: Timer, dirtyBefore: bool, dirty: bool, configBefore: Json, config: Json,
                     configChanged: bool, now: int, filePath: string)
    requires timer.Armed? ==> dirtyBefore && timer.data == configBefore
    requires configChanged || config == configBefore
    ensures var t := AutosaveEffect(timer, dirtyBefore, dirty, configChanged, now, filePath, config);
      (t.Armed? ==> dirty && t.data == config) &&
      (dirty && (configChanged || !dirtyBefore) ==> t == Armed(now + SaveDelay, filePath, config)) &&
      (!dirty ==> t == Idle) &&
      (dirtyBefore == dirty && !configChanged ==> t == timer)
  {
  }

  // ---------------------------------------------------------------------------
  // Messages

  const NoIpc := "Electron IPC not available."
  const NoFile := "No file loaded."
  const SaveFallback := "Unknown error"
  const UpdateFallback := "Failed to update config"
  const AutoLoadFallback := "Failed to auto-load config"

  /** `result.error || fallback`. */
  function ErrorOr(e: string, fallback: string): string {
    if e == "" then fallback else e
  }

  // ---------------------------------------------------------------------------
  // The App component's state

  class App {
    var config: Json
    var filePath: string
    var error: string
    var dirty: bool
    var timer: Timer
    /** An updater threw: React has unmounted the tree, cleaning up the timer. */
    var crashed: bool

    predicate Valid()
      reads this
    {
      timer.Armed? ==> dirty && !crashed && timer.data == config
    }

    /** The Save button: `disabled={!filePath || !config}`. */
    predicate SaveEnabled()
      reads this
      ensures SaveEnabled() ==> filePath != "" && config != Null && config != Undef
    {
      filePath != "" && Truthy(config)
    }

    constructor ()
      ensures Valid() && !crashed
      ensures config == Null && filePath == "" && error == "" && !dirty && timer == Idle
    {
      config := Null;
      filePath := "";
      error := "";
      dirty := false;
      timer := Idle;
      crashed := false;
    }

    /** `openConfig`: the dialog's outcome comes in as `canceled` and `filePaths`.
        The dirty flag is left as it was. */
    method OpenConfig(ipc: bool, disk: Disk, canceled: bool, filePaths: seq<string>, now: int)
      requires Valid() && !crashed
      modifies this
      ensures Valid() && !crashed && dirty == old(dirty)
      ensures !ipc ==> error == NoIpc && config == old(config) && filePath == old(filePath) && timer == old(timer)
      ensures ipc ==> var r := OpenConfigDialog(disk, canceled, filePaths);
        (r.OpenCanceled? ==> error == "" && config == old(config) && filePath == old(filePath)) &&
        (r.OpenFailed? ==> filePath == r.filePath && error == r.error &&
                           config == (if r.error == "" then Undef else Null)) &&
        (r.Opened? ==> error == "" && config == r.data && filePath == r.filePath) &&
        timer == AutosaveEffect(old(timer), old(dirty), dirty, ConfigChanged(old(config), config, r.Opened?),
                                now, filePath, config)
    {
      var dirty0, config0 := dirty, config;
      error := "";
      if !ipc {
        error := NoIpc;
        return;
      }
      var r := OpenConfigDialog(disk, canceled, filePaths);
      if r.OpenCanceled? {
        return;
      }
      if r.OpenFailed? && r.error != "" {
        error := r.error;
        config := Null;
        filePath := r.filePath;
      } else {
        config := if r.Opened? then r.data else Undef;
        filePath := r.filePath;
      }
      timer := AutosaveEffect(timer, dirty0, dirty, ConfigChanged(config0, config, r.Opened?), now, filePath, config);
    }

    /** The auto-load effect on mount: only with IPC and outside development. */
    method AutoLoad(ipc: bool, development: bool, disk: Disk, configPath: string, now: int)
      requires Valid() && !crashed
      modifies this
      ensures Valid() && !crashed && dirty == old(dirty)
      ensures !ipc || development ==> config == old(config) && filePath == old(filePath) &&
                                      error == old(error) && timer == old(timer)
      ensures ipc && !development ==> var r := AutoLoadConfig(disk, configPath);
        (r.AutoLoaded? ==> config == r.data && filePath == configPath && error == old(error)) &&
        (r.AutoLoadFailed? ==> error == ErrorOr(r.error, AutoLoadFallback) &&
                               config == old(config) && filePath == old(filePath)) &&
        timer == AutosaveEffect(old(timer), old(dirty), dirty, ConfigChanged(old(config), config, r.AutoLoaded?),
                                now, filePath, config)
    {
      if !ipc || development {
        return;
      }
      var config0 := config;
      var r := AutoLoadConfig(disk, configPath);
      if r.AutoLoaded? {
        config := r.data;
        filePath := r.filePath;
      } else {
        error := ErrorOr(r.error, AutoLoadFallback);
      }
      timer := AutosaveEffect(timer, dirty, dirty, ConfigChanged(config0, config, r.AutoLoaded?), now, filePath, config);
    }

    /** `saveConfig` run from the closure of a render whose file path and working
        copy were `path` and `data`. As written it refuses only without IPC or a
        path; with `guardData` it also refuses a falsy `data`, as the Save button does. */
    method SaveFrom(ipc: bool, disk: Disk, path: string, data: Json, guardData: bool,
                    writeError: Option<string>, now: int) returns (disk': Disk)
      requires Valid() && !crashed
      modifies this
      ensures Valid() && !crashed && config == old(config) && filePath == old(filePath)
      ensures !ipc ==> error == NoIpc && disk' == disk && dirty == old(dirty) && timer == old(timer)
      ensures ipc && (path == "" || (guardData && !Truthy(data))) ==>
        error == NoFile && disk' == disk && dirty == old(dirty) && timer == old(timer)
      ensures ipc && path != "" && !(guardData && !Truthy(data)) ==>
        var (reply, written) := SaveConfigFile(disk, path, data, writeError);
        disk' == written &&
        (reply.Failure? ==> error == ErrorOr(reply.error, SaveFallback) && dirty == old(dirty) && timer == old(timer)) &&
        (reply.Success? ==> error == "" && !dirty && timer == Idle)
    {
      error := "";
      if !ipc {
        error := NoIpc;
        return disk;
      }
      if path == "" || (guardData && !Truthy(data)) {
        error := NoFile;
        return disk;
      }
      var saved := SaveConfigFile(disk, path, data, writeError);
      disk' := saved.1;
      if saved.0.Failure? {
        error := ErrorOr(saved.0.error, SaveFallback);
      } else {
        var dirty0 := dirty;
        dirty := false;
        timer := AutosaveEffect(timer, dirty0, dirty, false, now, filePath, config);
      }
    }

    /** The Save button's `saveConfig` as App.tsx writes it: a `null` working copy
        is sent and written. */
    method SaveConfigAsWritten(ipc: bool, disk: Disk, writeError: Option<string>, now: int) returns (disk': Disk)
      requires Valid() && !crashed
      modifies this
      ensures Valid() && !crashed && config == old(config) && filePath == old(filePath)
      ensures !ipc ==> error == NoIpc && disk' == disk && dirty == old(dirty) && timer == old(timer)
      ensures ipc && filePath == "" ==> error == NoFile && disk' == disk && dirty == old(dirty) && timer == old(timer)
      ensures ipc && filePath != "" ==> var (reply, written) := SaveConfigFile(disk, filePath, config, writeError);
        disk' == written &&
        (reply.Failure? ==> error == ErrorOr(reply.error, SaveFallback) && dirty == old(dirty) && timer == old(timer)) &&
        (reply.Success? ==> error == "" && !dirty && timer == Idle)
    {
      disk' := SaveFrom(ipc, disk, filePath, config, false, writeError, now);
    }

    /** `saveConfig` with the Save button's guard: nothing is sent unless there is a
        file path and a truthy working copy, so a save never writes a falsy document. */
    method SaveConfig(ipc: bool, disk: Disk, writeError: Option<string>, now: int) returns (disk': Disk)
      requires Valid() && !crashed
      modifies this
      ensures Valid() && !crashed && config == old(config) && filePath == old(filePath)
      ensures !ipc ==> error == NoIpc && disk' == disk && dirty == old(dirty) && timer == old(timer)
      ensures ipc && !SaveEnabled() ==> error == NoFile && disk' == disk && dirty == old(dirty) && timer == old(timer)
      ensures ipc && SaveEnabled() ==> var (reply, written) := SaveConfigFile(disk, filePath, config, writeError);
        disk' == written &&
        (reply.Failure? ==> error == ErrorOr(reply.error, SaveFallback) && dirty == old(dirty) && timer == old(timer)) &&
        (reply.Success? ==> error == "" && !dirty && timer == Idle &&
                            filePath in disk' && disk'[filePath].Parsed? && Truthy(disk'[filePath].doc))
    {
      disk' := SaveFrom(ipc, disk, filePath, config, true, writeError, now);
    }

    /** The pending timeout fires and runs the `saveConfig` it captured, as written. */
    method TickAsWritten(ipc: bool, disk: Disk, writeError: Option<string>, now: int) returns (disk': Disk)
      requires Valid() && !crashed && timer.Armed? && now >= timer.deadline
      modifies this
      ensures Valid() && !crashed && config == old(config) && filePath == old(filePath) && timer == Idle
      ensures var t := old(timer);
        (!ipc ==> error == NoIpc && disk' == disk && dirty == old(dirty)) &&
        (ipc && t.filePath == "" ==> error == NoFile && disk' == disk && dirty == old(dirty)) &&
        (ipc && t.filePath != "" ==> var (reply, written) := SaveConfigFile(disk, t.filePath, config, writeError);
          disk' == written &&
          (reply.Failure? ==> error == ErrorOr(reply.error, SaveFallback) && dirty == old(dirty)) &&
          (reply.Success? ==> error == "" && !dirty))
    {
      var t := timer;
      timer := Idle;
      disk' := SaveFrom(ipc, disk, t.filePath, t.data, false, writeError, now);
    }

    /** The pending timeout fires with the corrected guard. */
    method Tick(ipc: bool, disk: Disk, writeError: Option<string>, now: int) returns (disk': Disk)
      requires Valid() && !crashed && timer.Armed? && now >= timer.deadline
      modifies this
      ensures Valid() && !crashed && config == old(config) && filePath == old(filePath) && timer == Idle
      ensures var t := old(timer);
        (!ipc ==> error == NoIpc && disk' == disk && dirty == old(dirty)) &&
        (ipc && (t.filePath == "" || !Truthy(config)) ==> error == NoFile && disk' == disk && dirty == old(dirty)) &&
        (ipc && t.filePath != "" && Truthy(config) ==>
          var (reply, written) := SaveConfigFile(disk, t.filePath, config, writeError);
          disk' == written &&
          (reply.Failure? ==> error == ErrorOr(reply.error, SaveFallback) && dirty == old(dirty)) &&
          (reply.Success? ==> error == "" && !dirty &&
                              t.filePath in disk' && disk'[t.filePath].Parsed? && Truthy(disk'[t.filePath].doc)))
    {
      var t := timer;
      timer := Idle;
      disk' := SaveFrom(ipc, disk, t.filePath, t.data, true, writeError, now);
    }

    /** After a successful privileged patch: run the updater, `setDirty(true)`, and
        with `clearError` also `setError('')`. */
    method Optimistic(u: Update, clearError: bool, now: int)
      requires Valid() && !crashed
      modifies this
      ensures Valid() && filePath == old(filePath)
      ensures u.Crashed? ==> crashed && timer == Idle
      ensures !u.Crashed? ==>
        !crashed && dirty && error == (if clearError then "" else old(error)) &&
        config == (if u.Updated? then u.next else old(config)) &&
        timer == AutosaveEffect(old(timer), old(dirty), true, ConfigChanged(old(config), config, u.Updated?),
                                now, filePath, config)
    {
      if u.Crashed? {
        crashed := true;
        timer := Idle;
        return;
      }
      var dirty0, config0 := dirty, config;
      if u.Updated? {
        config := u.next;
      }
      dirty := true;
      if clearError {
        error := "";
      }
      timer := AutosaveEffect(timer, dirty0, dirty, ConfigChanged(config0, config, u.Updated?), now, filePath, config);
    }

    /** configUtils' `patchValue`: the privileged patch under `hideoutOptions`, then on
        success the optimistic update, `dirty` and a cleared error. */
    method PatchValue(ipc: bool, disk: Disk, path: Path, value: Json, writeError: Option<string>, now: int)
      returns (disk': Disk)
      requires Valid() && !crashed
      modifies this
      ensures Valid() && filePath == old(filePath)
      ensures !ipc || old(filePath) == "" ==>
        (disk' == disk && config == old(config) && error == old(error) &&
         dirty == old(dirty) && timer == old(timer) && !crashed)
      ensures ipc && old(filePath) != "" ==>
        var (reply, patched) := Patch(disk, filePath, ["hideoutOptions"] + path, value, writeError);
        var u := UtilsUpdate(old(config), path, value);
        disk' == patched &&
        (reply.Failure? ==> error == ErrorOr(reply.error, UpdateFallback) && config == old(config) &&
                            dirty == old(dirty) && timer == old(timer) && !crashed) &&
        (reply.Success? && u.Crashed? ==> crashed && timer == Idle) &&
        (reply.Success? && !u.Crashed? ==>
          !crashed && dirty && error == "" && config == (if u.Updated? then u.next else old(config)) &&
          timer == AutosaveEffect(old(timer), old(dirty), true, ConfigChanged(old(config), config, u.Updated?),
                                  now, filePath, config))
    {
      if !ipc || filePath == "" {
        return disk;
      }
      var patched := Patch(disk, filePath, ["hideoutOptions"] + path, value, writeError);
      disk' := patched.1;
      if patched.0.Failure? {
        error := ErrorOr(patched.0.error, UpdateFallback);
        return;
      }
      var u := UtilsUpdater(config, path, value);
      Optimistic(u, true, now);
    }

    /** App's own `patchValue`: the same request, the inline update, and `dirty`;
        the error line is not cleared. */
    method PatchHideoutValue(ipc: bool, disk: Disk, path: Path, value: Json, writeError: Option<string>, now: int)
      returns (disk': Disk)
      requires Valid() && !crashed
      modifies this
      ensures Valid() && filePath == old(filePath)
      ensures !ipc || old(filePath) == "" ==>
        (disk' == disk && config == old(config) && error == old(error) &&
         dirty == old(dirty) && timer == old(timer) && !crashed)
      ensures ipc && old(filePath) != "" ==>
        var (reply, patched) := Patch(disk, filePath, ["hideoutOptions"] + path, value, writeError);
        var u := InlineUpdate(old(config), path, value);
        disk' == patched &&
        (reply.Failure? ==> error == ErrorOr(reply.error, UpdateFallback) && config == old(config) &&
                            dirty == old(dirty) && timer == old(timer) && !crashed) &&
        (reply.Success? && u.Crashed? ==> crashed && timer == Idle) &&
        (reply.Success? && !u.Crashed? ==>
          !crashed && dirty && error == old(error) && config == (if u.Updated? then u.next else old(config)) &&
          timer == AutosaveEffect(old(timer), old(dirty), true, ConfigChanged(old(config), config, u.Updated?),
                                  now, filePath, config))
    {
      if !ipc || filePath == "" {
        return disk;
      }
      var patched := Patch(disk, filePath, ["hideoutOptions"] + path, value, writeError);
      disk' := patched.1;
      if patched.0.Failure? {
        error := ErrorOr(patched.0.error, UpdateFallback);
        return;
      }
      var u := InlineUpdater(config, path, value);
      Optimistic(u, false, now);
    }

    /** Runs a section component's updater, then `setDirty(true)`. */
    method Apply(u: Update, now: int)
      requires Valid() && !crashed && !u.Kept?
      modifies this
      ensures Valid() && filePath == old(filePath) && error == old(error)
      ensures u.Updated? ==> !crashed && config == u.next && dirty && timer == Armed(now + SaveDelay, filePath, config)
      ensures u.Crashed? ==> crashed && timer == Idle && config == old(config) && dirty == old(dirty)
    {
      if u.Updated? {
        var dirty0 := dirty;
        config := u.next;
        dirty := true;
        timer := AutosaveEffect(timer, dirty0, dirty, true, now, filePath, config);
      } else {
        crashed := true;
        timer := Idle;
      }
    }

    method HandleChange(s: Section, key: string, value: Json, now: int)
      requires Valid() && !crashed
      modifies this
      ensures Valid() && filePath == old(filePath) && error == old(error)
      ensures var u := ChangeUpdate(old(config), s, key, value);
        (u.Updated? ==> !crashed && config == u.next && dirty && timer == Armed(now + SaveDelay, filePath, config)) &&
        (!u.Updated? ==> crashed && timer == Idle)
    {
      Apply(ChangeUpdate(config, s, key, value), now);
    }

    method HandleUndo(originalConfig: Json, s: Section, key: string, now: int)
      requires Valid() && !crashed
      modifies this
      ensures Valid() && filePath == old(filePath) && error == old(error)
      ensures var u := UndoUpdate(old(config), originalConfig, s, key);
        (u.Updated? ==> !crashed && config == u.next && dirty && timer == Armed(now + SaveDelay, filePath, config)) &&
        (!u.Updated? ==> crashed && timer == Idle)
    {
      Apply(UndoUpdate(config, originalConfig, s, key), now);
    }

    method ResetSection(originalConfig: Json, s: Section, now: int)
      requires Valid() && !crashed
      modifies this
      ensures Valid() && filePath == old(filePath) && error == old(error)
      ensures var u := ResetUpdate(old(config), originalConfig, s);
        (u.Updated? ==> !crashed && config == u.next && dirty && timer == Armed(now + SaveDelay, filePath, config)) &&
        (!u.Updated? ==> crashed && timer == Idle)
    {
      Apply(ResetUpdate(config, originalConfig, s), now);
    }
  }

  // ---------------------------------------------------------------------------
  // Memory and disk

  /** When the working copy equals a clean file whose `hideoutOptions` leads through
      objects along the path, a patch leaves the working copy equal to the file
      again, whichever of the two updaters runs. */
  lemma PatchStaysInSync(disk: Disk, filePath: string, path: Path, value: Json)
    requires Load(disk, filePath).Doc?
    requires var d := Load(disk, filePath).doc;
      d.Obj? && Clean(d) && Lookup(d.members, "hideoutOptions").Obj? &&
      ObjectsAlong(Lookup(d.members, "hideoutOptions"), Init(path))
    requires Clean(value) && |path| >= 1
    ensures var d := Load(disk, filePath).doc;
      var (reply, disk') := Patch(disk, filePath, ["hideoutOptions"] + path, value, None);
      var u := UtilsUpdate(d, path, value);
      reply.Success? && u.Updated? && InlineUpdate(d, path, value) == u &&
      disk' == disk[filePath := Parsed(u.next)]
  {
    var d := Load(disk, filePath).doc;
    var whole := ["hideoutOptions"] + path;
    var ho := Lookup(d.members, "hideoutOptions");
    HideoutPatchReads(d, path, value, []);
    WalksAlongObjects(ho, Init(path));
    DefinedWalkReachedObject(ho, Init(path));
    PatchDocAlongObjects(d, whole, value);
    AssignAtClean(d, Init(whole), Final(whole), value);
    PatchStores(disk, filePath, whole, value, AssignAt(d, Init(whole), Final(whole), value));
  }

  // ---------------------------------------------------------------------------
  // The autosave overwrite, and its correction

  const FileA := "/configs/a.json5"
  const FileB := "/configs/b.json5"
  const ParseErrorB := "Unexpected token } in JSON at position 12"

  /** A good file A and a file B that does not parse. */
  function TwoFiles(): Disk {
    map[FileA := Parsed(Obj([Member("hideoutOptions", Obj([Member("disableFIRHideout", Bool(false))]))])),
        FileB := Unparseable(ParseErrorB)]
  }

  /** Patch a field of A, open B within the delay, let the timer fire: the
      as-written save replaces B with `null`. */
  method NullOverwriteAsWritten() returns (after: Disk)
    ensures TwoFiles()[FileB] == Unparseable(ParseErrorB)
    ensures FileB in after && after[FileB] == Parsed(Null)
  {
    var disk := TwoFiles();
    var app := new App();
    app.OpenConfig(true, disk, false, [FileA], 0);
    var disk1 := EditA(app, disk);
    app.OpenConfig(true, disk1, false, [FileB], 2000);
    assert app.config == Null && app.filePath == FileB && app.timer == Armed(7000, FileB, Null);
    after := app.TickAsWritten(true, disk1, None, 7000);
  }

  /** The same steps with the corrected guard: B is left as it was. */
  method NullOverwriteCorrected() returns (after: Disk)
    ensures FileB in after && after[FileB] == Unparseable(ParseErrorB)
  {
    var disk := TwoFiles();
    var app := new App();
    app.OpenConfig(true, disk, false, [FileA], 0);
    var disk1 := EditA(app, disk);
    app.OpenConfig(true, disk1, false, [FileB], 2000);
    assert app.config == Null && app.timer == Armed(7000, FileB, Null);
    after := app.Tick(true, disk1, None, 7000);
  }

  /** App's own `patchValue` of `disableFIRHideout` in A, one second in: it
      succeeds, marks the session dirty and arms the timer; B is untouched. */
  method EditA(app: App, disk: Disk) returns (disk1: Disk)
    requires disk == TwoFiles() && app.Valid() && !app.crashed
    requires app.filePath == FileA && app.config == TwoFiles()[FileA].doc
    modifies app
    ensures app.Valid() && !app.crashed && app.dirty && app.filePath == FileA && app.config.Obj?
    ensures disk1.Keys == disk.Keys && disk1[FileB] == disk[FileB]
  {
    var path := ["disableFIRHideout"];
    assert Init(path) == [];
    PatchStaysInSync(disk, FileA, path, Bool(true));
    disk1 := app.PatchHideoutValue(true, disk, path, Bool(true), None, 1000);
  }
}
