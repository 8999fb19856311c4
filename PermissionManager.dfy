/**
 * The permission gate itself (PermissionManager.java): the process-wide
 * package manager, path-to-name cache and permission map, `checkPermission`
 * and the loading loop that fills the map.
 */
module Xposed {
  import opened JavaLang
  import opened JsonReading
  import opened NameResolution
  import opened Decision
  import opened PermissionLoading

  /**
   * The Android package manager, reduced to the one call the gate makes:
   * `getPackageArchiveInfo(path, 0).packageName`, None when it gives no
   * PackageInfo or no package name.
   */
  datatype PackageManager = PackageManager(archivePackageName: string -> Option<string>)

  /** The current application, reduced to its `getPackageManager()`. */
  datatype Application = Application(packageManager: Option<PackageManager>)

  /** `pm` after lines 36-41: fetched from the current application while it is still null. */
  function MemoisedPm(pm: Option<PackageManager>, app: Option<Application>): Option<PackageManager>
  {
    if pm.None? && app.Some? then app.value.packageManager else pm
  }

  /** What the package manager, if there is one, reads from the archive (lines 42-47). */
  function ArchiveName(pm: Option<PackageManager>, path: string): Option<string>
  {
    if pm.Some? then pm.value.archivePackageName(path) else None
  }

  class PermissionManager {
    var pm: Option<PackageManager>
    var modulePathToName: map<string, string>
    var permissionMap: Store

    /** The static fields as the class loader leaves them (lines 24-26). */
    constructor ()
      ensures pm == None && modulePathToName == map[] && permissionMap == map[]
    {
      pm := None;
      modulePathToName := map[];
      permissionMap := map[];
    }

    /**
     * `checkPermission(modulePath, packageName)` (lines 28-75). `app` is what
     * `AndroidAppHelper.currentApplication()` gives at line 37. The result is
     * the boolean returned or the exception thrown; `notice` is the triple
     * handed to `sendNotification`, if the call gets that far.
     */
    method CheckPermission(modulePath: Option<string>, packageName: string, app: Option<Application>)
      returns (r: Result<bool>, notice: Option<Notice>)
      modifies this
      ensures permissionMap == old(permissionMap)
      ensures modulePath.None? ==>
        && r == Success(true) && notice == None
        && modulePathToName == old(modulePathToName) && pm == old(pm)
      ensures modulePath.Some? ==>
        var path := modulePath.value;
        var hit := path in old(modulePathToName);
        && pm == (if hit then old(pm) else MemoisedPm(old(pm), app))
        && var resolved := ResolveName(old(modulePathToName), path, ArchiveName(pm, path));
        && modulePathToName == CacheAfter(old(modulePathToName), path, resolved)
        && match resolved
           case Failure(e) => r == Failure(e) && notice == None
           case Success(None) => r == Failure(NullPointer) && notice == None
           case Success(Some(name)) =>
             var v := Decide(permissionMap, name, packageName);
             r == Success(v.granted) && notice == Some(Notice(name, packageName, v.status.Text()))
    {
      if modulePath.None? {
        // a hook installed by the framework itself, not by a module
        return Success(true), None;
      }
      var path := modulePath.value;

      var moduleName: Option<string> := None;
      if path in modulePathToName {
        moduleName := Some(modulePathToName[path]);
      } else {
        if pm.None? && app.Some? {
          pm := app.value.packageManager;
        }
        if pm.Some? {
          moduleName := pm.value.archivePackageName(path);
        }
        if moduleName.None? {
          var parts := Split(path, '/');
          if |parts| > 1 {
            var pieces := Split(parts[|parts| - 2], '-');
            if |pieces| == 0 {
              return Failure(ArrayIndexOutOfBounds), None;
            }
            moduleName := Some(pieces[0]);
          }
        }
        if moduleName.Some? {
          modulePathToName := modulePathToName[path := moduleName.value];
        }
      }

      if moduleName.None? {
        // ConcurrentHashMap.containsKey(null)
        return Failure(NullPointer), None;
      }
      var granted := false;
      var unknown := true;
      if moduleName.value in permissionMap {
        var perms := permissionMap[moduleName.value];
        if packageName in perms {
          unknown := false;
          granted := perms[packageName];
        }
      }
      var status := if unknown then Unknown else if granted then Allowed else Denied;
      notice := Some(Notice(moduleName.value, packageName, status.Text()));
      r := Success(granted);
    }

    /**
     * `readModulesArray` (lines 112-119): each record is put into the
     * existing map as soon as it is read. `thrown` is the exception that ends
     * the load early; the records put before it stay.
     */
    method ReadModulesArray(v: Json) returns (thrown: Option<Fault>)
      modifies this
      ensures permissionMap == Load(old(permissionMap), v).store
      ensures thrown == Load(old(permissionMap), v).thrown
      ensures pm == old(pm) && modulePathToName == old(modulePathToName)
    {
      if !v.JArray? {
        return Some(IllegalState);   // beginArray
      }
      var items := v.items;
      var i := 0;
      while i < |items|
        invariant 0 <= i <= |items|
        invariant LoadFrom(permissionMap, items[i..]) == Load(old(permissionMap), v)
        invariant pm == old(pm) && modulePathToName == old(modulePathToName)
      {
        assert items[i..][1..] == items[i + 1..];
        var m := ReadModule(items[i]);
        if m.Failure? {
          return Some(m.fault);
        }
        if m.value.name.None? || m.value.packages.None? {
          return Some(NullPointer);   // ConcurrentHashMap.put(null, ...) or put(..., null)
        }
        permissionMap := permissionMap[m.value.name.value := m.value.packages.value];
        i := i + 1;
      }
      thrown := None;
    }
  }

  /**
   * A caller's view of the contracts: a permissions file granting
   * "com.target.app" to "com.example.mod", then two checks from that
   * module's installed archive, with no application context yet.
   */
  method LoadThenCheck()
  {
    var gate := new PermissionManager();
    var packages := JObject([Member("com.target.app", JBool(true))]);
    var record := JObject([Member("name", JString("com.example.mod")), Member("packages", packages)]);
    var granted := map["com.target.app" := true];
    assert PackagesOf(packages) == Success(granted) by {
      assert packages.members[1..] == [];
    }
    assert ModuleOf(record) == Success(Module(Some("com.example.mod"), Some(granted))) by {
      var ms := record.members;
      assert ms[1..][1..] == [];
      assert ms[0].name == "name" && NextString(ms[0].value) == Success("com.example.mod");
      assert ModuleFrom(Module(None, None), ms) == ModuleFrom(Module(Some("com.example.mod"), None), ms[1..]);
      assert ms[1..][0].name == "packages" && "packages" != "name";
      assert ModuleFrom(Module(Some("com.example.mod"), None), ms[1..])
          == ModuleFrom(Module(Some("com.example.mod"), Some(granted)), []);
    }
    assert [record][1..] == [];
    assert Load(map[], JArray([record])) == LoadFrom(map["com.example.mod" := granted], []);
    var thrown := gate.ReadModulesArray(JArray([record]));
    assert thrown == None && gate.permissionMap == map["com.example.mod" := granted];

    var path := "/data/app/com.example.mod-1/base.apk";
    HeuristicExample(path);
    var r, notice := gate.CheckPermission(Some(path), "com.target.app", None);
    assert r == Success(true);
    assert gate.modulePathToName == map[path := "com.example.mod"];

    r, notice := gate.CheckPermission(Some(path), "com.other.app", None);
    assert r == Success(false);
    assert notice == Some(Notice("com.example.mod", "com.other.app", "unknown"));

    r, notice := gate.CheckPermission(None, "com.other.app", None);
    assert r == Success(true);
  }
}
