# Kynexis SoftcoreRedux config editor, modelled in Dafny

The config editor is an Electron application for the `config.json5` of the Kynexis
SoftcoreRedux mod. It has two halves:

- **The privileged main process** (`main.js`) reads and writes the file on behalf of
  the renderer through four IPC handlers: open a file through a dialog, save a whole
  document, patch one value at a key path, and load the fixed configuration path.
- **The renderer** is a React application (`App.tsx`). It keeps the working copy of
  the document, the file path, an error line and a dirty flag. Its autosave effect
  saves the whole document five seconds after the last change. `configUtils.ts`
  holds the shared `getOriginal` and `patchValue`. Eight section components
  (hideout, economy, other tweaks, traders, insurance, stash, secure containers,
  crafting) edit one top-level section each, through dotted field keys.

This project models that core and proves what it promises.

| module | file | what it holds |
|---|---|---|
| `Wrappers` | `wrappers.dfy` | `Option` |
| `Json` | `json.dfy` | JavaScript values as the editor sees them (`undefined` included), property read and write with key order, and `JSON.parse(JSON.stringify(…))` as `Clone` |
| `KeyPath` | `keypath.dfy` | key paths, `split('.')` and its inverse, and the "all but the last" / "last" segments of a patch path |
| `Tree` | `tree.dfy` | reading along a path; the three set-at-path variants (`SetIn`, which creates `{}` intermediates, and `AssignAt`, which assigns only through objects); the two walks that decide when a patch gives up |
| `Privileged` | `privileged.dfy` | the four `main.js` handlers over a disk, a map from paths to parsed documents or parse errors |
| `Sections` | `sections.dfy` | the logic the eight section components share: `getValue`, `setValue`, `deepClone`, `changed`, `sectionChanged`, and the change, undo and reset state updaters |
| `Tables` | `tables.dfy` | the eight field tables, with the component laws instantiated on each |
| `Editor` | `editor.dfy` | `getOriginal`, the two optimistic updaters, the autosave debounce, and the `App` class whose fields are the component's state |

The source's loops stay loops:
- `getOriginal`'s walk;
- the walk of the privileged patch (`Privileged.WalkSegments`);
- the walk of `configUtils`' updater (`Editor.WalkObjects`).

Each of them is proved equal to a specification function, and the lemmas are about
those functions. The App component's `useState` fields are the fields of the class
`Editor.App`. Each of its methods states the whole new state. Its invariant
`Valid()` says that a pending autosave exists only while dirty, and that it saves
the current working copy.

Four facts about the code shape the session model:
- Opening a file leaves the dirty flag as it was: `openConfig` (App.tsx:71-87) never
  calls `setDirty`.
- The App component keeps no snapshot of the original document. The section
  components receive `originalConfig` as a prop, so the model takes it as a parameter
  (`Editor.App.HandleUndo`, `Editor.App.ResetSection`, `Editor.GetOriginal`).
- Resetting a section does not save it. The reset only updates the working copy and
  sets `dirty` (HideoutOptions.tsx:100-107), leaving the write to the autosave.
- `App.tsx` renders its own inline hideout form with its own `patchValue`. It does
  not import `configUtils.ts` or the section components. The model gives both
  `patchValue`s and all the component handlers as session operations.

Three JavaScript semantics are made explicit:
- `main.js` is sloppy-mode CommonJS, so there an assignment to a property of a
  primitive is silently ignored.
- The renderer is ES-module code and runs in strict mode, so the same assignment
  throws there. A throwing state updater unmounts the React tree; the model records
  it in the `crashed` field and stops.
- Walking into `null` or `undefined` throws V8's "Cannot read properties of …"
  error, which the privileged handler returns as its error.

## Model

| member | source | states |
|---|---|---|
| Json.Lookup | main.js:71 | reading a key an object does not have gives `undefined` |
| Json.Assign | main.js:75 | `o[k] = v` on an object's members: an existing key is overwritten in place and a new one is added, so the object grows by at most one member (the read-back and key-order laws are `Json.LookupAssign`, `Json.AssignKeys`) |
| Json.AssignKeys | main.js:76 | a property assignment keeps the object's key order, and a new key goes at the end |
| Json.LookupAssign | main.js:76 | after `o[k] = v`, `o[k]` reads `v` and every other key reads as before |
| Json.AssignLookup | main.js:76 | writing back the value a present key holds changes nothing |
| Json.LookupWellFormed | main.js:74 | a property of an object with distinct keys has distinct keys itself |
| Json.AssignWellFormed | main.js:76 | assignment keeps every object's keys distinct |
| Json.LookupClean | main.js:74 | a property of JSON data is `undefined` or JSON data |
| Json.AssignClean | main.js:76-77 | assigning JSON data into JSON data leaves nothing for stringify to drop |
| Json.Clone | config-app/src/components/HideoutOptions.tsx:64-66 | `JSON.parse(JSON.stringify(x))`: the clone is an object exactly when the original is one, and is `undefined` exactly when the original is |
| Json.CloneMembers | config-app/src/components/HideoutOptions.tsx:64-66 | stringify drops the `undefined` properties of an object, so its clone never has more members than it |
| Json.LookupClone | config-app/src/components/HideoutOptions.tsx:64-66 | a property of a deep clone is the deep clone of the property |
| Json.CloneWellFormed | config-app/src/components/HideoutOptions.tsx:64-66 | the deep clone of a document with distinct keys has distinct keys |
| Json.CloneClean | config-app/src/components/HideoutOptions.tsx:64-66 | the deep clone of a defined value contains no `undefined` |
| Json.CloneOfClean | config-app/src/components/HideoutOptions.tsx:64-66 | deep-cloning JSON data gives the same value: the clone is idempotent |
| KeyPath.Split | config-app/src/components/HideoutOptions.tsx:56 | `split('.')` never returns an empty array |
| KeyPath.JoinSplit | config-app/src/components/HideoutOptions.tsx:56 | joining the segments of a split key with '.' gives the key back |
| KeyPath.SplitJoin | config-app/src/components/HideoutOptions.tsx:56 | splitting the join of dot-free segments gives the segments back |
| KeyPath.SplitUndotted | config-app/src/components/CraftingChanges.tsx:20-22 | a key without a dot is a single segment |
| KeyPath.Init | main.js:70-76 | for a non-empty path, the walked segments followed by the assigned key are the whole path |
| Tree.Read | config-app/src/components/HideoutOptions.tsx:52-54 | `getValue`'s reduce along a path: a non-empty path yields something defined only from an object (the laws of reading are `Tree.ReadUndef`, `Tree.ReadAppend`, `Tree.ReadClone`) |
| Tree.ReadUndef | config-app/src/components/HideoutOptions.tsx:53 | reading any path from `undefined` gives `undefined` |
| Tree.ReadAppend | config-app/src/components/HideoutOptions.tsx:53 | reading along `p + q` is reading `q` from the value at `p` |
| Tree.ReadClone | config-app/src/components/HideoutOptions.tsx:64-66 | reading any path of a deep clone gives the deep clone of the value there |
| Tree.SetIn | config-app/src/components/HideoutOptions.tsx:55-63 | `setValue` on an object: the last segment is assigned the value; for a longer path the first segment holds an object afterwards, created as `{}` when it was missing or not an object (the full laws are `Tree.ReadSetIn`, `Tree.SetInFrame`, `Tree.SetInCreates`) |
| Tree.ReadSetIn | config-app/src/components/HideoutOptions.tsx:55-63 | after setting a path in an object, reading that path gives the value set |
| Tree.SetInFrame | config-app/src/components/HideoutOptions.tsx:55-63 | every path that is neither a prefix nor an extension of the set path reads as before |
| Tree.SetInCreates | config-app/src/components/HideoutOptions.tsx:58-61 | afterwards every proper prefix of the set path holds an object |
| Tree.SetInKeys | config-app/src/components/HideoutOptions.tsx:58-62 | the object keeps its key order, and gains the first segment at the end only if it was new |
| Tree.SetInWellFormed | config-app/src/components/HideoutOptions.tsx:55-63 | setting a path keeps every object's keys distinct |
| Tree.AssignAt | main.js:75 | `obj[last] = value` at the end of a walk along objects; the root stays an object exactly when it was one (the read-back, frame and key-order laws are `Tree.ReadAssignAt`, `Tree.AssignAtFrame`, `Tree.AssignAtKeys`) |
| Tree.ReadAssignAt | main.js:69-76 | when the walked segments lead through objects, the full path reads the assigned value |
| Tree.AssignAtNoOp | main.js:76 | when they do not, the document is unchanged |
| Tree.AssignAtFrame | main.js:69-76 | every path disjoint from the assigned one reads as before, whole subtrees included |
| Tree.AssignAtKeys | main.js:69-76 | every object along the assigned path keeps its key order, gaining the next key at the end only if new |
| Tree.AssignAtWellFormed | main.js:76 | assignment at a path keeps every object's keys distinct |
| Tree.AssignAtClean | main.js:76-77 | assigning JSON data at a path in JSON data gives JSON data |
| Tree.AssignAtKeepsObjects | main.js:69-76 | a path through objects still runs through objects after an assignment that is not on it |
| Tree.DefinedWalk | main.js:69-74 | the `=== undefined` walk over every segment but the last; a walk of at least one step that reaches its end never stands on `undefined` (when it reaches the end and when it fails: `Tree.DefinedWalkReached`, `Tree.DefinedWalkFails`) |
| Tree.ObjectWalk | config-app/src/utils/configUtils.ts:24-28 | the non-null-object walk of the shared `patchValue`; a walk of at least one step that reaches its end stands on an object (exactly along objects: `Tree.ObjectWalkReached`, `Editor.ObjectWalkFromObject`) |
| Tree.DefinedWalkReached | main.js:70-75 | the privileged walk reaches the end exactly when no step finds `undefined` behind a non-null value, and then it stands on the value at the path |
| Tree.DefinedWalkFails | main.js:70-75 | at the first failing step the privileged walk throws the TypeError for reading from `null` when that step's base is `null`, and stops otherwise |
| Tree.WalkThrowsRead | main.js:71-74 | whenever the privileged walk throws, its error is the V8 TypeError for reading a property of `null` or `undefined` |
| Tree.WalksAlongObjects | main.js:70-75 | along objects, the privileged and the object walk both reach the value at the path, which is an object |
| Tree.ObjectWalkReached | config-app/src/utils/configUtils.ts:25-28 | configUtils' walk reaches an object only along objects, and stands on the value at the path |
| Tree.DefinedWalkReachedObject | config-app/src/App.tsx:185-188 | the inline walk reaching an object means every node along the path is an object |
| Privileged.Load | main.js:43-45 | a read succeeds exactly when the file exists and parses, and then gives the parsed document |
| Privileged.Store | main.js:56-57 | a write succeeds exactly when the data is defined and the write does not fail; it then replaces the file by the serialisation round trip of the data; a failure writes nothing |
| Privileged.SaveConfigFile | main.js:54-62 | the `save-config-file` handler: after a success the file parses to the clone of exactly the data sent; a failure writes nothing and reports Node's error for `undefined` data, or the file system's own error for defined data |
| Privileged.OpenConfigDialog | main.js:42-49 | canceled exactly when the dialog was canceled or gave no path; otherwise it carries the chosen path, with data exactly when the file parses, and otherwise the read or parse error |
| Privileged.SaveReadsBack | main.js:54-62 | after a successful save, every path of the file reads the clone of what the saved data holds there |
| Privileged.WalkSegments | main.js:69-75 | the loop over all but the last segment computes the privileged walk |
| Privileged.PatchDoc | main.js:69-76 | the patch on a freshly parsed document; a file that holds `null` (or nothing) is always rejected (rejections and success in general: `Privileged.UndefinedSegmentRejects`, `Privileged.InvalidPathMeansUndefined`, `Privileged.PatchDocAlongObjects`) |
| Privileged.Patch | main.js:65-83 | the whole handler over the disk: re-read, patch, write back; every failing reply leaves the disk as it was |
| Privileged.PatchConfigValue | main.js:65-83 | the handler returns the reply and disk of the patch function: re-read, walk, assign, write |
| Privileged.PatchDocAlongObjects | main.js:69-76 | on a document whose walked segments lead through objects, the patch assigns the leaf |
| Privileged.PatchStores | main.js:76-79 | a patched document free of `undefined` is written to the file unchanged, with `success: true` |
| Privileged.PatchFailureWritesNothing | main.js:80-82 | every failing patch leaves the disk as it was; a successful one changes only the patched file |
| Privileged.UndefinedSegmentRejects | main.js:70-73 | an `undefined` segment before the last fails the patch and writes nothing; when it is the first failing step the reply is exactly "Invalid path", or the TypeError for reading from `null` when its base is `null` |
| Privileged.InvalidPathMeansUndefined | main.js:69-76 | when the patch of a defined document is rejected with "Invalid path", the walk stopped, and some segment before the last is `undefined` |
| Privileged.TypeErrorsAreNotInvalidPath | main.js:72-81 | the TypeErrors a walk or an assignment throws are never the text "Invalid path", so the reply tells the two apart |
| Privileged.PatchSetsLeaf | main.js:69-79 | on a clean file whose intermediates are objects, the patch succeeds, the file holds the value at the path, and every disjoint path reads as before |
| Privileged.PatchKeepsKeyOrder | main.js:69-76 | each object along the patched path keeps its key order, gaining the assigned key at the end only if new |
| Privileged.AssignsCompose | main.js:69-76 | two assignments at disjoint paths leave both values in the document |
| Privileged.PatchesCompose | main.js:67-77 | each patch re-reads the file, so a second patch at a disjoint path succeeds on what the first one wrote, and the file then holds both values |
| Privileged.PatchCleanAlongObjects | main.js:67-79 | a patch of a clean file along objects with a clean value succeeds and writes exactly the assigned document |
| Privileged.PatchOverPatched | main.js:67-79 | a patch of a file that the previous patch wrote builds on that patch's document |
| Privileged.AutoLoadConfig | main.js:86-93 | either success with the fixed path and its parsed data, or failure with the error and the same fixed path |
| Sections.GetValue | config-app/src/components/HideoutOptions.tsx:52-54 | `getValue` on something that is not an object (a missing section, `null`) gives `undefined` for every key |
| Sections.GetValueLeavesObject | config-app/src/components/HideoutOptions.tsx:52-54 | `getValue` gives `undefined` once the walk meets a value that is not an object |
| Sections.SetValue | config-app/src/components/HideoutOptions.tsx:55-63 | `setValue` throws exactly when its target is not an object |
| Sections.GetAfterSet | config-app/src/components/HideoutOptions.tsx:52-63 | `getValue(setValue(o, k, v), k) == v` for every dotted key |
| Sections.SetValueFrame | config-app/src/components/HideoutOptions.tsx:55-63 | `setValue` at `k` leaves every path neither a prefix nor an extension of `k`'s path unchanged |
| Sections.SetValueCreates | config-app/src/components/HideoutOptions.tsx:58-61 | afterwards every intermediate of `k` is an object, and the object's key order is kept |
| Sections.SetValueWellFormed | config-app/src/components/HideoutOptions.tsx:55-63 | `setValue` keeps keys distinct |
| Sections.DeepClone | config-app/src/components/HideoutOptions.tsx:64-66 | `deepClone` throws exactly on `undefined`, and otherwise gives JSON data |
| Sections.Changed | config-app/src/components/HideoutOptions.tsx:115 | the per-field `changed` flag; two sections that are both absent or not objects show no change |
| Sections.SectionChanged | config-app/src/components/HideoutOptions.tsx:91-93 | `sectionChanged`; two sections that are both absent or not objects show no change in any table |
| Sections.SectionChangedSome | config-app/src/components/HideoutOptions.tsx:91-93 | `sectionChanged` holds exactly when some field of the table is changed |
| Sections.SectionOf | config-app/src/components/HideoutOptions.tsx:71 | `originalConfig?.hideoutOptions` and its kin: `undefined` when the document is not an object, and otherwise the section's property |
| Sections.SectionOfClone | config-app/src/components/HideoutOptions.tsx:74-75 | the section of the clone is the clone of the section |
| Sections.ChangeUpdate | config-app/src/components/HideoutOptions.tsx:72-79 | the `handleChange` updater never hands back `prev` itself: it returns a new object clone or throws, and it returns one only for an object `prev` |
| Sections.UndoUpdate | config-app/src/components/HideoutOptions.tsx:81-88 | the `handleUndo` updater likewise returns a new object clone or throws, never `prev` |
| Sections.ResetUpdate | config-app/src/components/HideoutOptions.tsx:100-107 | the section-reset updater likewise returns a new object clone or throws, never `prev` |
| Sections.ChangeSucceeds | config-app/src/components/HideoutOptions.tsx:72-79 | `handleChange`'s updater throws exactly when the section is not an object, and never keeps `prev` |
| Sections.ChangeSetsField | config-app/src/components/HideoutOptions.tsx:72-79 | after `handleChange(k, v)` the section holds `v` at `k`, and every disjoint path holds the clone of what it held |
| Sections.UndoClearsChanged | config-app/src/components/HideoutOptions.tsx:81-88 | after `handleUndo(k)`, the field's `changed` flag is off |
| Sections.SectionChangedSelf | config-app/src/components/HideoutOptions.tsx:91-93 | no field differs when the section equals the snapshot's |
| Sections.ResetSucceeds | config-app/src/components/HideoutOptions.tsx:100-107 | the reset throws exactly when `prev` is not an object or the snapshot has no such section |
| Sections.ResetRestoresSection | config-app/src/components/HideoutOptions.tsx:100-107 | after the reset the section equals the snapshot's, `sectionChanged` is off, and other sections hold the clone of what they held |
| Sections.ComponentContract | config-app/src/components/HideoutOptions.tsx:72-115 | for any table and any field of it: change sets, undo clears `changed`, reset clears `sectionChanged` |
| Tables.HideoutComponent | config-app/src/components/HideoutOptions.tsx:21-115 | the component laws for every field of the hideout table |
| Tables.EconomyComponent | config-app/src/components/EconomyOptions.tsx:44-134 | the component laws for every field of the economy table |
| Tables.TweaksComponent | config-app/src/components/OtherTweaks.tsx:32-115 | the component laws for every field of the other-tweaks table |
| Tables.TradersComponent | config-app/src/components/TraderChanges.tsx:20-94 | the component laws for every field of the trader table |
| Tables.InsuranceComponent | config-app/src/components/InsuranceChanges.tsx:24-95 | the component laws for every field of the insurance table |
| Tables.StashComponent | config-app/src/components/StashOptions.tsx:20-90 | the component laws for every field of the stash table |
| Tables.SecureContainersComponent | config-app/src/components/SecureContainersOptions.tsx:24-92 | the component laws for every field of the secure-containers table |
| Tables.CraftingComponent | config-app/src/components/CraftingChanges.tsx:19-87 | the component laws for the crafting table, and `sectionChanged` holds exactly when one of its three toggles differs |
| Editor.GetOriginal | config-app/src/utils/configUtils.ts:4-12 | `undefined` without a snapshot; otherwise the snapshot's value at `hideoutOptions` plus the path |
| Editor.WalkObjects | config-app/src/utils/configUtils.ts:25-28 | the loop computes configUtils' object walk |
| Editor.Spread | config-app/src/utils/configUtils.ts:23-24 | `{ ...prev }` followed by `next.hideoutOptions` reads the same as `prev.hideoutOptions` would |
| Editor.UtilsUpdate | config-app/src/utils/configUtils.ts:21-31 | the shared updater keeps a falsy `prev`, and returns a new document only for an object `prev` (exact behaviour: `Editor.UtilsUpdateSpec`) |
| Editor.InlineUpdate | config-app/src/App.tsx:182-191 | App's own updater returns a new document only for an object `prev` (exact behaviour: `Editor.InlineUpdateSpec`) |
| Editor.UtilsUpdater | config-app/src/utils/configUtils.ts:21-31 | the updater keeps a falsy `prev`, keeps it when the walk stops, throws on a non-object target, and otherwise assigns the leaf in a shallow copy |
| Editor.InlineUpdater | config-app/src/App.tsx:182-191 | the inline updater keeps `prev` on an `undefined` segment, throws on `null` or a non-object target, and otherwise assigns the leaf |
| Editor.ObjectWalkFromObject | config-app/src/utils/configUtils.ts:25-28 | from an object, configUtils' walk never throws, and reaches its end exactly along objects |
| Editor.UtilsUpdateSpec | config-app/src/utils/configUtils.ts:21-31 | assigns exactly when every intermediate is an object, and then only the leaf changes; otherwise keeps the working copy |
| Editor.InlineUpdateSpec | config-app/src/App.tsx:182-191 | along objects it assigns only the leaf; a missing `hideoutOptions` throws; at the first step that finds `undefined` it keeps `prev` when that step's base is not `null`, and throws when it is `null` |
| Editor.HideoutPatchReads | config-app/src/utils/configUtils.ts:16 | assigning at a path inside `hideoutOptions` is assigning at the full path sent to the main process |
| Editor.AutosaveEffect | config-app/src/App.tsx:106-116 | the effect either leaves the timer as it was or replaces it by a timer armed 5000 ms out (when dirty) or by none (when not dirty); turning not dirty always disarms |
| Editor.AutosaveRule | config-app/src/App.tsx:106-116 | the effect preserves the session invariant that a pending timer exists only while dirty and saves the current working copy; a change while dirty re-arms it 5000 ms out, not dirty disarms it, and with no change the pending timer stays |
| Editor.App.constructor | config-app/src/App.tsx:61-67 | no document, no path, no error, not dirty, no timer |
| Editor.App.OpenConfig | config-app/src/App.tsx:71-87 | clears the error, then: no IPC sets its message; cancel keeps config and path; an error sets config `null`, the chosen path and the error; success sets both from the result; dirty never changes |
| Editor.App.AutoLoad | config-app/src/App.tsx:90-103 | only with IPC outside development; success sets config and path, failure sets the error or its fallback |
| Editor.App.SaveFrom | config-app/src/App.tsx:119-143 | the guards set their messages and send nothing; success clears dirty and the timer; failure sets the error and keeps dirty |
| Editor.App.SaveConfigAsWritten | config-app/src/App.tsx:119-135 | no IPC sets 'Electron IPC not available.', no path sets 'No file loaded.', and neither sends anything; otherwise it sends the whole working copy, `null` included; success clears the error, dirty and the timer; failure sets the reply's error or 'Unknown error' and keeps dirty |
| Editor.App.SaveEnabled | config-app/src/App.tsx:325 | the Save button is enabled only when there is a path and a working copy that is neither `null` nor `undefined` |
| Editor.App.SaveConfig | config-app/src/App.tsx:325 | the same with the Save button's guard: nothing is sent unless there is a path and a truthy working copy, and a successful save leaves a truthy document in the file |
| Editor.App.TickAsWritten | config-app/src/App.tsx:109-111 | the timeout is spent and saves the path captured when it was armed with the working copy, setting the error line as `saveConfig` does |
| Editor.App.Tick | config-app/src/App.tsx:109-111 | the same with the Save button's guard, writing only a truthy document |
| Editor.App.Optimistic | config-app/src/utils/configUtils.ts:21-33 | after a successful patch: a throwing updater crashes the session; otherwise dirty, error cleared as asked, timer re-armed by the effect |
| Editor.App.PatchValue | config-app/src/utils/configUtils.ts:14-34 | nothing without IPC or a path; sends `hideoutOptions` plus the path; failure sets the error and keeps config and dirty; success applies the updater, sets dirty and clears the error even when the updater kept `prev` |
| Editor.App.PatchHideoutValue | config-app/src/App.tsx:175-193 | as configUtils' `patchValue` with the inline updater, except that the error line is not cleared |
| Editor.App.Apply | config-app/src/components/HideoutOptions.tsx:73-78 | for an updater that never keeps `prev`: its result becomes the working copy, dirty is set and the autosave armed; a throw crashes the session |
| Editor.App.HandleChange | config-app/src/components/HideoutOptions.tsx:72-79 | the working copy becomes `handleChange`'s result, dirty, and the timer is armed 5000 ms out |
| Editor.App.HandleUndo | config-app/src/components/HideoutOptions.tsx:81-88 | the working copy becomes `handleUndo`'s result, dirty, and the timer is armed 5000 ms out |
| Editor.App.ResetSection | config-app/src/components/HideoutOptions.tsx:100-107 | the working copy becomes the reset's result, dirty, and the timer is armed 5000 ms out |
| Editor.PatchStaysInSync | config-app/src/utils/configUtils.ts:14-34 | when the working copy equals the clean file, both updaters leave it equal to the patched file |
| Editor.NullOverwriteAsWritten | config-app/src/App.tsx:71-143 | edit file A with App's own `patchValue` (App.tsx:175-193), open a file B that does not parse within the delay, let the timer fire: B is overwritten with `null` |
| Editor.NullOverwriteCorrected | config-app/src/App.tsx:325 | the same steps with the Save button's guard leave B as it was, still unparseable |

## Left out

- Comments and formatting: `comment-json` is a foreign parser and printer (main.js:6). The disk holds parsed documents. Stringify followed by parse is the round trip `Clone`, which drops `undefined` properties. Nothing about comments or whitespace is stated.
- I/O: the file system, Electron IPC, the native dialog and window creation. The disk is a map from paths to parsed documents or parse errors. A write failure is the parameter `writeError`. The dialog's outcome (`canceled`, `filePaths`), the fixed configuration path, `NODE_ENV` and the presence of `ipcRenderer` are parameters. The text of a file-system error is approximated by the ENOENT message.
- Concurrency: each handler runs as one step, and no `await` interleaves with another event. Time is the `now` parameter. The state setters a handler calls after an `await` commit together in one render, as React 18's automatic batching does; without batching, the effect would run between `setConfig` and `setFilePath`.
- Timers other than autosave: the save-alert fade timers (App.tsx:133-141) and the Enter-key immediate save (App.tsx:196-205).
- Rendering: JSX, CSS, the inline form's local number buffers (App.tsx:160-172), and the presentational components.
- Floating point: numbers are integers, and `Number(…)` parsing of inputs is not modelled.
- Arrays, inherited properties and JavaScript's ordering of integer-like keys before other keys: objects here keep plain insertion order.
- The type declarations of `config.ts`.
- Editor.UtilsUpdate: `{ ...prev }` is a shallow copy, so the source's in-place `obj[last] = value` also mutates the `hideoutOptions` object shared with the previous state. The model works on values and does not capture that aliasing.
- Editor.InlineUpdate: the same aliasing through `{ ...prev }` is not captured.
- Sections.SetValue: `setValue` mutates the clone in place. It is modelled as a function on values, which is the same thing for a fresh clone.
- Sections.Changed: `!==` compares objects by reference, but the model compares field values structurally. They agree for the primitive leaves that every field table holds.
- Editor.App.SaveConfig: the corrected guard reports 'No file loaded.' also when there is a path but the working copy is falsy. The Save button is disabled in that case (App.tsx:325), so the message is seen only after an autosave.
- Editor.App.Apply: it takes only updaters that never keep `prev` (the section components'); the two `patchValue` updaters, which may, go through `Editor.App.Optimistic`. After a throwing updater the model only records `crashed` and disarms the timer. React's error handling is not modelled.
- Editor.ConfigChanged: React's `Object.is` on the `config` dependency is modelled as "a rebuilt object, or a different value". A dependency that is a fresh object equal to the previous one always counts as changed.
- The `result.filePath || ''` fallback of `openConfig` (App.tsx:82) is never taken, because the dialog handler sends a path with every error.

## Findings

| source | as written | input that shows it | evidently intended | confidence | as-written member | corrected member |
|---|---|---|---|---|---|---|
| config-app/src/App.tsx:119-129 | `saveConfig` refuses only without IPC or a file path, so it sends the working copy even when it is `null`; `openConfig` sets the working copy to `null` on a parse error but leaves `dirty` set, and the autosave effect re-arms on that change | open a good file, edit a field, and within five seconds open a file that does not parse: five seconds later the broken file is overwritten with `null` (with `openConfig`'s three setters committed in one render, as React 18 batches them; without batching the effect re-arms while the path is still the good file's, and that file is overwritten instead) | the Save button's guard (App.tsx:325): nothing is saved without a path and a truthy working copy | not executed | Editor.NullOverwriteAsWritten | Editor.App.SaveConfig |
