# Xposed permission gate, modelled in Dafny

This project models `PermissionManager`, the permission gate of the Xposed hook
framework. Before a module's hook runs against a target application, the gate
decides whether that module may act on that package. It has three parts:

- **Module-name resolution** (`checkPermission`, lines 34-59). A module path
  becomes a module name in a fixed order. The `modulePathToName` cache is tried
  first. Next comes the package manager's reading of the archive. Last comes a
  guess from the path: split it on `/`, take the second-to-last piece, and keep
  the text before its first `-`. A name that is found is cached.
- **Decision** (lines 61-74). A two-level lookup in `permissionMap` (module name,
  then package name). It yields the returned `granted` and the status string
  `"unknown"`, `"allowed"` or `"denied"` that goes to the notification.
- **Loading** (`readModulesArray`, `readModule`, `readPackagesMap`, lines
  112-149). An array of module objects is read. Each object has a `"name"`
  string and a `"packages"` object of package name to boolean. Each record is
  `put` into the existing map as soon as it is read.

Files, one module each:

- `JavaLang.dfy`: Java's null (`Option`), the exceptions that can escape
  (`Fault`), `Result`, and the exact semantics of `String.split`. A string
  without the delimiter is returned whole. Trailing empty pieces are dropped,
  so `"a/b/"` gives `["a","b"]` and `"--"` gives `[]`. The lemmas about `split`
  are a round trip through `Join`, the empty-array case, the first piece, and
  the last two pieces.
- `JsonReading.dfy`: the permissions file as a tokenised JSON value. Object
  members are kept in order with repeats, because `JsonReader` streams them.
  Also here are `nextString` (a string, or a number's text) and `nextBoolean`.
- `NameResolution.dfy`: the path heuristic, the resolution order and the cache
  update, as functions with lemmas.
- `Decision.dfy`: the verdict for a known module name.
- `PermissionLoading.dfy`: the three readers as functions over the JSON value,
  with lemmas. It also holds `readPackagesMap` and `readModule` as the loop
  methods the source runs, each proved equal to its function.
- `PermissionManager.dfy`: class `PermissionManager`. It has the three static
  fields `pm`, `modulePathToName` and `permissionMap`, and the methods
  `CheckPermission` and `ReadModulesArray`. Each method states the new state
  in terms of the functions above. A client method, `LoadThenCheck`, loads a
  one-record file and checks two packages through the contracts alone.

The Android calls are parameters. `AndroidAppHelper.currentApplication()` is
the `app` argument of `CheckPermission`. `getPackageManager()` is a field of
`Application`. `getPackageArchiveInfo(path, 0).packageName` is the function
held by a `PackageManager`. `pm` is memoised the first time a cache miss finds
it null and an application exists.

The `Module` record is a datatype. `readModule` reassigns it field by field in
its loop. The record is local to the call and never shared, so nothing about
aliasing is lost.

### Where the code's behaviour is surprising

The model follows the code in each of these cases:

- A path that yields no module name is not treated as "unknown". That happens
  when it splits into at most one piece and the package manager gives nothing.
  `moduleName` stays null, and `permissionMap.containsKey(null)` at line 64
  throws `NullPointerException`, because the map is a `ConcurrentHashMap`.
  `CheckPermission` returns `Failure(NullPointer)` here, and nothing is cached.
- A second-to-last path piece made only of `-` (for example `/a/--/b.apk`)
  splits into an empty array. `parts[0]` at line 53 then throws
  `ArrayIndexOutOfBoundsException`. `CheckPermission` returns
  `Failure(ArrayIndexOutOfBounds)` and caches nothing.
- Loading does not replace the map atomically. The map is never cleared, so
  entries for names not in the file stay. Records are stored one at a time, so
  a malformed record leaves the records before it in the map
  (`LoadStopsAtFirstFailure`).
- Only one schema is read: `"packages"` must be an object of booleans. A list
  of package names is refused with `IllegalStateException`.

## Model

| member | source | states |
|---|---|---|
| `Xposed.PermissionManager.constructor` | app/src/main/java/de/robv/android/xposed/PermissionManager.java:24-26 | the gate starts with no package manager, an empty cache and an empty permission map |
| `Xposed.PermissionManager.CheckPermission` | app/src/main/java/de/robv/android/xposed/PermissionManager.java:28-75 | a null path returns true and changes nothing. Otherwise `pm` is memoised only on a cache miss, the name is resolved cache first, then package manager, then heuristic, and the cache gains the path only when a name is found. A failed resolution throws ArrayIndexOutOfBounds, or NullPointer when no name is found. A found name returns the verdict's `granted` and notifies `(name, package, status)`. `permissionMap` is never changed |
| `Xposed.PermissionManager.ReadModulesArray` | app/src/main/java/de/robv/android/xposed/PermissionManager.java:112-119 | the map afterwards, and the exception thrown, are exactly those of putting the records one by one into the old map and stopping at the first failure; the cache and `pm` are untouched |
| `JavaLang.SplitRoundTrip` | app/src/main/java/de/robv/android/xposed/PermissionManager.java:49 | `split` loses only trailing delimiters: its pieces joined with the delimiter are a prefix of the input, followed only by delimiters |
| `JavaLang.SplitEmptyIff` | app/src/main/java/de/robv/android/xposed/PermissionManager.java:52-53 | `split` gives an empty array exactly when the input is non-empty and all delimiters, so that `parts[0]` throws exactly then |
| `JavaLang.SplitFirst` | app/src/main/java/de/robv/android/xposed/PermissionManager.java:52-53 | the first piece of a non-empty `split` is the text before the first delimiter |
| `JavaLang.SplitLastTwo` | app/src/main/java/de/robv/android/xposed/PermissionManager.java:49-51 | for `prefix/segment/file` with a non-empty `file`, `split` has more than one piece and its last two are `segment` and `file` |
| `JavaLang.TakeUntilPrefix` | app/src/main/java/de/robv/android/xposed/PermissionManager.java:52-53 | the text before the first delimiter is a prefix of the input, holds no delimiter, and is followed by a delimiter or the end |
| `JsonReading.NextString` | app/src/main/java/de/robv/android/xposed/PermissionManager.java:128 | `nextString` accepts exactly string and number tokens, gives a string's text or a number's literal text, and throws IllegalStateException on any other |
| `JsonReading.NextBoolean` | app/src/main/java/de/robv/android/xposed/PermissionManager.java:144 | `nextBoolean` accepts exactly boolean tokens, gives their value, and throws IllegalStateException on any other |
| `NameResolution.HeuristicTakesSegmentPrefix` | app/src/main/java/de/robv/android/xposed/PermissionManager.java:48-55 | the guess is absent exactly when the path splits into at most one piece. Otherwise it throws exactly when the second-to-last piece is a non-empty run of `-`, and else it is the text before that piece's first `-`. A guessed name holds neither `/` nor `-` |
| `NameResolution.HeuristicOfInstalledArchive` | app/src/main/java/de/robv/android/xposed/PermissionManager.java:49-54 | for any path `prefix/name-rest/file`, with `name` non-empty and free of `/` and `-`, and `file` non-empty, the guess is `name` |
| `NameResolution.HeuristicExample` | app/src/main/java/de/robv/android/xposed/PermissionManager.java:49-54 | `/data/app/com.example.mod-1/base.apk` gives `com.example.mod` |
| `NameResolution.CacheHitDecides` | app/src/main/java/de/robv/android/xposed/PermissionManager.java:34-35 | on a cache hit the cached name is the result, whatever the package manager would say, and the cache is unchanged |
| `NameResolution.CacheMissUpdate` | app/src/main/java/de/robv/android/xposed/PermissionManager.java:42-58 | on a miss the package manager's name wins over the heuristic. A found name adds exactly `path -> name`, and every other entry is kept. No name or an exception leaves the cache as it was |
| `NameResolution.ResolveIdempotent` | app/src/main/java/de/robv/android/xposed/PermissionManager.java:34-58 | once a path's name is cached, resolving it again gives the same name, whatever the package manager now says, and does not change the cache |
| `Decision.Decide` | app/src/main/java/de/robv/android/xposed/PermissionManager.java:62-71 | granted exactly when the module and the package are both present and the flag is true. The status is unknown exactly when either key is missing, and allowed exactly when granted. Granted implies not unknown |
| `Decision.Status.Text` | app/src/main/java/de/robv/android/xposed/PermissionManager.java:71 | the three statuses map to the three distinct strings `unknown`, `allowed`, `denied` |
| `PermissionLoading.PackagesFromSpec` | app/src/main/java/de/robv/android/xposed/PermissionManager.java:142-146 | the package loop fails exactly on a non-boolean value, with IllegalStateException. Otherwise the keys are the old keys plus the member names, a repeated name keeps its last boolean, and other entries are kept |
| `PermissionLoading.PackagesOfSpec` | app/src/main/java/de/robv/android/xposed/PermissionManager.java:139-149 | `readPackagesMap` fails exactly on a non-object or a non-boolean value. Otherwise it maps exactly the member names, each to the last boolean given for it |
| `PermissionLoading.ModuleFromSpec` | app/src/main/java/de/robv/android/xposed/PermissionManager.java:125-134 | the record loop fails exactly when some member is refused. Unrecognised members are skipped, a field whose key never appears keeps its value, and a repeated `name` or `packages` keeps its last value |
| `PermissionLoading.ModuleOfSpec` | app/src/main/java/de/robv/android/xposed/PermissionManager.java:121-137 | `readModule` fails exactly on a non-object or a refused member. Otherwise `name` is non-null exactly when a `name` member exists, and then holds the last one's text; `packages` likewise |
| `PermissionLoading.RecordFaults` | app/src/main/java/de/robv/android/xposed/PermissionManager.java:115-116 | a record is stored exactly when it is an object with no refused member and with both `name` and `packages`. A record that reads but lacks one of them throws NullPointerException at `put`; any other bad record throws IllegalStateException |
| `PermissionLoading.LoadThrowsIff` | app/src/main/java/de/robv/android/xposed/PermissionManager.java:113-118 | loading an array throws exactly when one of its records cannot be stored |
| `PermissionLoading.LoadStopsAtFirstFailure` | app/src/main/java/de/robv/android/xposed/PermissionManager.java:114-117 | a load stops at the first record that cannot be stored. The map holds the records before it, stored as usual, and that record's exception is thrown |
| `PermissionLoading.LoadAllStored` | app/src/main/java/de/robv/android/xposed/PermissionManager.java:112-119 | a load of good records throws nothing. The map gains the record names, each name holds the packages of its last record, and every other entry keeps its value |
| `PermissionLoading.LoadKeepsOthers` | app/src/main/java/de/robv/android/xposed/PermissionManager.java:112-119 | an entry whose name no record is stored under is left as it was, even when the load fails, because the map is never cleared |
| `PermissionLoading.DecideAfterLoad` | app/src/main/java/de/robv/android/xposed/PermissionManager.java:62-71 | after a load of good records, a module's verdict for a package is the flag in its last record, or unknown when that record does not list the package |
| `PermissionLoading.UnknownAfterLoad` | app/src/main/java/de/robv/android/xposed/PermissionManager.java:62-71 | a module neither stored before nor stored by the load is unknown and not granted afterwards |
| `PermissionLoading.ReadPackagesMap` | app/src/main/java/de/robv/android/xposed/PermissionManager.java:139-149 | the member-by-member loop that fills a fresh map returns exactly `readPackagesMap`'s result or exception |
| `PermissionLoading.ReadModule` | app/src/main/java/de/robv/android/xposed/PermissionManager.java:121-137 | the member-by-member loop that assigns the record's fields returns exactly `readModule`'s record or exception |

## Left out

- `sendNotification` (lines 77-91) is an Intent broadcast. `CheckPermission` returns the `(moduleName, packageName, status)` triple handed to it instead. Whether a broadcast happens depends on a second `currentApplication()` call, which is not modelled.
- `Log.i` calls (lines 61, 72, 89, 109) only log.
- `readPermissionsFromStream` (lines 102-110) is not modelled: it only wraps `readModulesArray` with tokenising, `close()` and a log line. Loading starts from an already tokenised JSON value. Malformed JSON text, I/O errors, and anything after the closing `]` are not modelled.
- `AndroidAppHelper.currentApplication`, `getPackageManager` and `getPackageArchiveInfo` are Android framework calls. They become the `app` parameter and the function held by `PackageManager`.
- Concurrency is not modelled. That covers the `ConcurrentHashMap`, the unsynchronised `HashMap` cache, and the gap between `containsKey` and `get` at lines 64-65. Every operation is a sequential update.
- `packageName` is never null in the model. In Java a null package name finds no entry in the `HashMap` of packages, so its status is unknown.
- `JsonReader.nextString` on a number gives the number's text as written. The JSON value keeps that text (`JNumber(literal)`) and does not interpret it.
- `getPackageArchiveInfo` answers are assumed stable for the life of the memoised `pm`: the model cannot express the archive at a path changing between calls, for example after a reinstall.
- `String.split` takes a regular expression. Only its use with the plain one-character delimiters `/` and `-` is modelled.
