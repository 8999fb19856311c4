/**
 * Reading the permissions file (PermissionManager.java lines 96-149): an
 * array of module objects, each with a "name" string and a "packages"
 * object of package name to boolean. The readers are given as functions
 * over the JSON value (what the reader consumes) and as the loop methods the
 * source runs; the map they fill in place is the manager's `permissionMap`.
 */
module PermissionLoading {
  import opened JavaLang
  import opened JsonReading
  import opened Decision

  /** The `Module` record (lines 96-99); both fields start out null. */
  datatype Module = Module(name: Option<string>, packages: Option<map<string, bool>>)

  /** The permission map: module name to (package name to granted). */
  type Store = map<string, map<string, bool>>

  /** What a load leaves: the map, and the exception that ended it, if any. */
  datatype LoadOutcome = LoadOutcome(store: Store, thrown: Option<Fault>)

  /** The names of the members of an object. */
  function MemberNames(members: seq<Member>): set<string>
  {
    set i | 0 <= i < |members| :: members[i].name
  }

  /** No member after the `i`-th has the same name: its value is the one that stays. */
  predicate LastOfName(members: seq<Member>, i: int)
    requires 0 <= i < |members|
  {
    forall j :: i < j < |members| ==> members[j].name != members[i].name
  }

  // ---------------------------------------------------------------------------
  // readPackagesMap (lines 139-149)
  // ---------------------------------------------------------------------------

  /** The loop of lines 142-146 from map `acc` onwards. */
  function PackagesFrom(acc: map<string, bool>, members: seq<Member>): Result<map<string, bool>>
    decreases |members|
  {
    if |members| == 0 then Success(acc)
    else match NextBoolean(members[0].value)
      case Failure(e) => Failure(e)
      case Success(b) => PackagesFrom(acc[members[0].name := b], members[1..])
  }

  /** `readPackagesMap`: `beginObject` refuses anything but an object. */
  function PackagesOf(v: Json): Result<map<string, bool>>
  {
    if v.JObject? then PackagesFrom(map[], v.members) else Failure(IllegalState)
  }

  // ---------------------------------------------------------------------------
  // readModule (lines 121-137)
  // ---------------------------------------------------------------------------

  /** The loop of lines 125-134 from record `m` onwards. */
  function ModuleFrom(m: Module, members: seq<Member>): Result<Module>
    decreases |members|
  {
    if |members| == 0 then Success(m)
    else
      var f := members[0];
      if f.name == "name" then
        match NextString(f.value)
        case Failure(e) => Failure(e)
        case Success(s) => ModuleFrom(m.(name := Some(s)), members[1..])
      else if f.name == "packages" then
        match PackagesOf(f.value)
        case Failure(e) => Failure(e)
        case Success(p) => ModuleFrom(m.(packages := Some(p)), members[1..])
      else
        ModuleFrom(m, members[1..])   // skipValue
  }

  /** `readModule`: `beginObject` refuses anything but an object. */
  function ModuleOf(v: Json): Result<Module>
  {
    if v.JObject? then ModuleFrom(Module(None, None), v.members) else Failure(IllegalState)
  }

  /** A member whose value the reader refuses. */
  predicate BadMember(f: Member)
  {
    || (f.name == "name" && NextString(f.value).Failure?)
    || (f.name == "packages" && PackagesOf(f.value).Failure?)
  }

  // ---------------------------------------------------------------------------
  // readModulesArray (lines 112-119)
  // ---------------------------------------------------------------------------

  /** `permissionMap.put(m.name, m.packages)`: a null key or value throws. */
  function Put(store: Store, m: Module): Result<Store>
  {
    if m.name.Some? && m.packages.Some? then Success(store[m.name.value := m.packages.value])
    else Failure(NullPointer)
  }

  /** The loop of lines 114-117 over the remaining records. */
  function LoadFrom(store: Store, items: seq<Json>): LoadOutcome
    decreases |items|
  {
    if |items| == 0 then LoadOutcome(store, None)
    else match ModuleOf(items[0])
      case Failure(e) => LoadOutcome(store, Some(e))
      case Success(m) =>
        match Put(store, m)
        case Failure(e) => LoadOutcome(store, Some(e))
        case Success(next) => LoadFrom(next, items[1..])
  }

  /** `readModulesArray` into the existing map; `beginArray` refuses anything but an array. */
  function Load(store: Store, v: Json): LoadOutcome
  {
    if v.JArray? then LoadFrom(store, v.items) else LoadOutcome(store, Some(IllegalState))
  }

  /** A record that reads and can be put: it has both a name and packages. */
  predicate Storable(item: Json)
  {
    ModuleOf(item).Success? && ModuleOf(item).value.name.Some? && ModuleOf(item).value.packages.Some?
  }

  /** The exception a record that cannot be stored raises. */
  function FaultOf(item: Json): Fault
  {
    if ModuleOf(item).Failure? then ModuleOf(item).fault else NullPointer
  }

  /** The record would be stored under `name`. */
  predicate StoresUnder(item: Json, name: string)
  {
    Storable(item) && RecordName(item) == name
  }

  /** No later record is stored under the same name as the `i`-th. */
  predicate LastRecordOfName(items: seq<Json>, i: int)
    requires 0 <= i < |items| && Storable(items[i])
  {
    forall j :: i < j < |items| ==> !StoresUnder(items[j], RecordName(items[i]))
  }

  /** The name a storable record is put under. */
  function RecordName(item: Json): string
    requires Storable(item)
  {
    ModuleOf(item).value.name.value
  }

  /** The package map a storable record puts. */
  function RecordPackages(item: Json): map<string, bool>
    requires Storable(item)
  {
    ModuleOf(item).value.packages.value
  }

  /** The names the records of a fully storable array are put under. */
  function RecordNames(items: seq<Json>): set<string>
    requires forall i :: 0 <= i < |items| ==> Storable(items[i])
  {
    set i | 0 <= i < |items| :: RecordName(items[i])
  }

  // ---------------------------------------------------------------------------
  // Lemmas
  // ---------------------------------------------------------------------------

  /**
   * The package loop fails exactly when some value is not a boolean (and then
   * with IllegalStateException); otherwise its keys are those of `acc` and the
   * member names, a repeated name keeps its last boolean, and entries of
   * `acc` not named again are kept.
   */
  lemma {:induction false} PackagesFromSpec(acc: map<string, bool>, members: seq<Member>)
    ensures PackagesFrom(acc, members).Failure? <==> exists i :: 0 <= i < |members| && !members[i].value.JBool?
    ensures PackagesFrom(acc, members).Failure? ==> PackagesFrom(acc, members).fault == IllegalState
    ensures PackagesFrom(acc, members).Success? ==>
      var m := PackagesFrom(acc, members).value;
      && m.Keys == acc.Keys + MemberNames(members)
      && (forall i :: 0 <= i < |members| && LastOfName(members, i) ==> m[members[i].name] == members[i].value.b)
      && (forall k :: k in acc && k !in MemberNames(members) ==> m[k] == acc[k])
    decreases |members|
  {
    if |members| > 0 {
      var f := members[0];
      var tail := members[1..];
      assert MemberNames(members) == {f.name} + MemberNames(tail) by {
        forall k | k in MemberNames(members) ensures k in {f.name} + MemberNames(tail) {
          var i :| 0 <= i < |members| && members[i].name == k;
          if i > 0 { assert tail[i - 1] == members[i]; }
        }
        forall k | k in MemberNames(tail) ensures k in MemberNames(members) {
          var i :| 0 <= i < |tail| && tail[i].name == k;
          assert members[i + 1] == tail[i];
        }
      }
      if f.value.JBool? {
        var acc' := acc[f.name := f.value.b];
        PackagesFromSpec(acc', tail);
        if (exists i :: 0 <= i < |members| && !members[i].value.JBool?) {
          var i :| 0 <= i < |members| && !members[i].value.JBool?;
          assert tail[i - 1] == members[i];
        }
        if (exists i :: 0 <= i < |tail| && !tail[i].value.JBool?) {
          var i :| 0 <= i < |tail| && !tail[i].value.JBool?;
          assert members[i + 1] == tail[i];
        }
        if PackagesFrom(acc, members).Success? {
          var m := PackagesFrom(acc, members).value;
          forall i | 0 <= i < |members| && LastOfName(members, i)
            ensures m[members[i].name] == members[i].value.b
          {
            if i == 0 {
              assert f.name !in MemberNames(tail);
            } else {
              assert tail[i - 1] == members[i];
              assert LastOfName(tail, i - 1) by {
                forall j | i - 1 < j < |tail| ensures tail[j].name != tail[i - 1].name {
                  assert tail[j] == members[j + 1];
                }
              }
            }
          }
        }
      }
    }
  }

  /**
   * `readPackagesMap` fails exactly on a non-object or a non-boolean value,
   * with IllegalStateException; otherwise it maps each package name to the
   * last boolean given for it, and to nothing else.
   */
  lemma PackagesOfSpec(v: Json)
    ensures PackagesOf(v).Failure? <==>
      !v.JObject? || exists i :: 0 <= i < |v.members| && !v.members[i].value.JBool?
    ensures PackagesOf(v).Failure? ==> PackagesOf(v).fault == IllegalState
    ensures PackagesOf(v).Success? ==>
      var m := PackagesOf(v).value;
      && m.Keys == MemberNames(v.members)
      && (forall i :: 0 <= i < |v.members| && LastOfName(v.members, i) ==> m[v.members[i].name] == v.members[i].value.b)
  {
    if v.JObject? {
      PackagesFromSpec(map[], v.members);
    }
  }

  /**
   * The record loop fails exactly when some member is refused (always with
   * IllegalStateException). Otherwise a field whose key never appears keeps
   * its value from `m`, and a repeated "name" or "packages" keeps the value
   * of its last occurrence; other members are skipped.
   */
  lemma {:induction false} ModuleFromSpec(m: Module, members: seq<Member>)
    ensures ModuleFrom(m, members).Failure? <==> exists i :: 0 <= i < |members| && BadMember(members[i])
    ensures ModuleFrom(m, members).Failure? ==> ModuleFrom(m, members).fault == IllegalState
    ensures ModuleFrom(m, members).Success? ==>
      var r := ModuleFrom(m, members).value;
      && ("name" !in MemberNames(members) ==> r.name == m.name)
      && ("packages" !in MemberNames(members) ==> r.packages == m.packages)
      && (forall i :: 0 <= i < |members| && members[i].name == "name" && LastOfName(members, i) ==>
            r.name == Some(NextString(members[i].value).value))
      && (forall i :: 0 <= i < |members| && members[i].name == "packages" && LastOfName(members, i) ==>
            r.packages == Some(PackagesOf(members[i].value).value))
    decreases |members|
  {
    if |members| > 0 {
      var f := members[0];
      var tail := members[1..];
      assert MemberNames(members) == {f.name} + MemberNames(tail) by {
        forall k | k in MemberNames(members) ensures k in {f.name} + MemberNames(tail) {
          var i :| 0 <= i < |members| && members[i].name == k;
          if i > 0 { assert tail[i - 1] == members[i]; }
        }
        forall k | k in MemberNames(tail) ensures k in MemberNames(members) {
          var i :| 0 <= i < |tail| && tail[i].name == k;
          assert members[i + 1] == tail[i];
        }
      }
      PackagesOfSpec(f.value);
      if !BadMember(f) {
        var m' := if f.name == "name" then m.(name := Some(NextString(f.value).value))
                  else if f.name == "packages" then m.(packages := Some(PackagesOf(f.value).value))
                  else m;
        assert ModuleFrom(m, members) == ModuleFrom(m', tail);
        ModuleFromSpec(m', tail);
        if (exists i :: 0 <= i < |members| && BadMember(members[i])) {
          var i :| 0 <= i < |members| && BadMember(members[i]);
          assert tail[i - 1] == members[i];
        }
        if (exists i :: 0 <= i < |tail| && BadMember(tail[i])) {
          var i :| 0 <= i < |tail| && BadMember(tail[i]);
          assert members[i + 1] == tail[i];
        }
        if ModuleFrom(m, members).Success? {
          forall i | 0 <= i < |members| && LastOfName(members, i)
            ensures i > 0 ==> LastOfName(tail, i - 1) && tail[i - 1] == members[i]
            ensures i == 0 ==> f.name !in MemberNames(tail)
          {
            if i > 0 {
              forall j | i - 1 < j < |tail| ensures tail[j].name != tail[i - 1].name {
                assert tail[j] == members[j + 1];
              }
            }
          }
        }
      }
    }
  }

  /**
   * `readModule` fails exactly on a non-object or a refused member, with
   * IllegalStateException. Otherwise the name is the last "name" value (a
   * string, or a number's text) and the packages the last "packages" map; a
   * field with no member stays null.
   */
  lemma ModuleOfSpec(v: Json)
    ensures ModuleOf(v).Failure? <==>
      !v.JObject? || exists i :: 0 <= i < |v.members| && BadMember(v.members[i])
    ensures ModuleOf(v).Failure? ==> ModuleOf(v).fault == IllegalState
    ensures ModuleOf(v).Success? ==>
      var r := ModuleOf(v).value;
      var ms := v.members;
      && (r.name.Some? <==> "name" in MemberNames(ms))
      && (r.packages.Some? <==> "packages" in MemberNames(ms))
      && (forall i :: 0 <= i < |ms| && ms[i].name == "name" && LastOfName(ms, i) ==>
            r.name == Some(NextString(ms[i].value).value))
      && (forall i :: 0 <= i < |ms| && ms[i].name == "packages" && LastOfName(ms, i) ==>
            r.packages == Some(PackagesOf(ms[i].value).value))
  {
    if v.JObject? {
      var ms := v.members;
      ModuleFromSpec(Module(None, None), ms);
      if "name" in MemberNames(ms) { LastOfNameExists(ms, "name"); }
      if "packages" in MemberNames(ms) { LastOfNameExists(ms, "packages"); }
    }
  }

  /** A name that occurs in an object has a last occurrence. */
  lemma LastOfNameExists(members: seq<Member>, k: string)
    requires k in MemberNames(members)
    ensures exists i :: 0 <= i < |members| && members[i].name == k && LastOfName(members, i)
  {
    var i :| 0 <= i < |members| && members[i].name == k;
    while exists j :: i < j < |members| && members[j].name == k
      invariant 0 <= i < |members| && members[i].name == k
      decreases |members| - i
    {
      var j :| i < j < |members| && members[j].name == k;
      i := j;
    }
  }

  /**
   * A load stops at the first record that cannot be stored: the records
   * before it stay stored, and its exception is the one thrown.
   */
  lemma {:induction false} LoadStopsAtFirstFailure(store: Store, items: seq<Json>, k: nat)
    requires k < |items| && !Storable(items[k])
    requires forall j :: 0 <= j < k ==> Storable(items[j])
    ensures LoadFrom(store, items) == LoadOutcome(LoadFrom(store, items[..k]).store, Some(FaultOf(items[k])))
    decreases k
  {
    if k > 0 {
      var next := store[RecordName(items[0]) := RecordPackages(items[0])];
      assert LoadFrom(store, items) == LoadFrom(next, items[1..]);
      LoadStopsAtFirstFailure(next, items[1..], k - 1);
      assert items[..k][0] == items[0] && items[..k][1..] == items[1..][..k - 1];
    }
  }

  /**
   * A load that meets no bad record throws nothing. The map gains the record
   * names; each name holds the packages of its last record; every other
   * entry keeps its value.
   */
  lemma {:induction false} LoadAllStored(store: Store, items: seq<Json>)
    requires forall i :: 0 <= i < |items| ==> Storable(items[i])
    ensures LoadFrom(store, items).thrown == None
    ensures var after := LoadFrom(store, items).store;
      && after.Keys == store.Keys + RecordNames(items)
      && (forall i :: 0 <= i < |items| && LastRecordOfName(items, i) ==>
            after[RecordName(items[i])] == RecordPackages(items[i]))
      && (forall n :: n in store && n !in RecordNames(items) ==> after[n] == store[n])
    decreases |items|
  {
    if |items| > 0 {
      var tail := items[1..];
      var name := RecordName(items[0]);
      var next := store[name := RecordPackages(items[0])];
      assert LoadFrom(store, items) == LoadFrom(next, tail);
      assert RecordNames(items) == {name} + RecordNames(tail) by {
        forall n | n in RecordNames(items) ensures n in {name} + RecordNames(tail) {
          var i :| 0 <= i < |items| && RecordName(items[i]) == n;
          if i > 0 { assert tail[i - 1] == items[i]; }
        }
        forall n | n in RecordNames(tail) ensures n in RecordNames(items) {
          var i :| 0 <= i < |tail| && RecordName(tail[i]) == n;
          assert items[i + 1] == tail[i];
        }
      }
      LoadAllStored(next, tail);
      var after := LoadFrom(store, items).store;
      forall i | 0 <= i < |items| && LastRecordOfName(items, i)
        ensures after[RecordName(items[i])] == RecordPackages(items[i])
      {
        if i == 0 {
          assert name !in RecordNames(tail);
        } else {
          assert tail[i - 1] == items[i];
          assert LastRecordOfName(tail, i - 1) by {
            forall j | i - 1 < j < |tail| ensures !StoresUnder(tail[j], RecordName(tail[i - 1])) {
              assert tail[j] == items[j + 1];
            }
          }
        }
      }
    }
  }

  /**
   * The map is never cleared: an entry whose name no record is stored under
   * is left as it was, whether or not the load fails.
   */
  lemma {:induction false} LoadKeepsOthers(store: Store, items: seq<Json>, n: string)
    requires forall i :: 0 <= i < |items| ==> !StoresUnder(items[i], n)
    ensures var after := LoadFrom(store, items).store;
      (n in after <==> n in store) && (n in store ==> after[n] == store[n])
    decreases |items|
  {
    if |items| > 0 && Storable(items[0]) {
      var next := store[RecordName(items[0]) := RecordPackages(items[0])];
      assert LoadFrom(store, items) == LoadFrom(next, items[1..]);
      forall i | 0 <= i < |items[1..]| ensures !StoresUnder(items[1..][i], n) {
        assert items[1..][i] == items[i + 1];
      }
      LoadKeepsOthers(next, items[1..], n);
    }
  }

  /**
   * After a load of good records, asking about a module whose last record
   * lists the package gives that record's flag as verdict; a package it
   * does not list is "unknown".
   */
  lemma DecideAfterLoad(store: Store, items: seq<Json>, i: nat, packageName: string)
    requires forall j :: 0 <= j < |items| ==> Storable(items[j])
    requires i < |items| && LastRecordOfName(items, i)
    ensures var p := RecordPackages(items[i]);
      Decide(LoadFrom(store, items).store, RecordName(items[i]), packageName) ==
        if packageName in p then Verdict(p[packageName], if p[packageName] then Allowed else Denied)
        else Verdict(false, Unknown)
  {
    LoadAllStored(store, items);
  }

  /** A module neither stored before nor named by a stored record is "unknown" after the load. */
  lemma UnknownAfterLoad(store: Store, items: seq<Json>, n: string, packageName: string)
    requires n !in store
    requires forall i :: 0 <= i < |items| ==> !StoresUnder(items[i], n)
    ensures Decide(LoadFrom(store, items).store, n, packageName) == Verdict(false, Unknown)
  {
    LoadKeepsOthers(store, items, n);
  }

  /**
   * Which records can be stored, and what the others throw: a non-object or
   * a refused member throws IllegalStateException while reading; a record
   * that reads but lacks "name" or "packages" throws NullPointerException at
   * the `put`.
   */
  lemma RecordFaults(item: Json)
    ensures Storable(item) <==>
      && item.JObject?
      && (forall i :: 0 <= i < |item.members| ==> !BadMember(item.members[i]))
      && "name" in MemberNames(item.members)
      && "packages" in MemberNames(item.members)
    ensures !Storable(item) ==>
      FaultOf(item) == if item.JObject? && forall i :: 0 <= i < |item.members| ==> !BadMember(item.members[i])
                       then NullPointer else IllegalState
  {
    ModuleOfSpec(item);
  }

  /** A load of an array throws exactly when one of its records cannot be stored. */
  lemma {:induction false} LoadThrowsIff(store: Store, items: seq<Json>)
    ensures LoadFrom(store, items).thrown.None? <==> forall i :: 0 <= i < |items| ==> Storable(items[i])
    decreases |items|
  {
    if |items| > 0 && Storable(items[0]) {
      var next := store[RecordName(items[0]) := RecordPackages(items[0])];
      assert LoadFrom(store, items) == LoadFrom(next, items[1..]);
      LoadThrowsIff(next, items[1..]);
      if forall i :: 0 <= i < |items[1..]| ==> Storable(items[1..][i]) {
        forall i | 0 <= i < |items| ensures Storable(items[i]) {
          if i > 0 { assert items[i] == items[1..][i - 1]; }
        }
      }
    }
  }

  // ---------------------------------------------------------------------------
  // The reader loops as the source runs them
  // ---------------------------------------------------------------------------

  /** `readPackagesMap`: fills a fresh map member by member (lines 139-149). */
  method ReadPackagesMap(v: Json) returns (r: Result<map<string, bool>>)
    ensures r == PackagesOf(v)
  {
    if !v.JObject? {
      return Failure(IllegalState);   // beginObject
    }
    var members := v.members;
    var packages: map<string, bool> := map[];
    var i := 0;
    while i < |members|
      invariant 0 <= i <= |members|
      invariant PackagesFrom(packages, members[i..]) == PackagesOf(v)
    {
      assert members[i..][1..] == members[i + 1..];
      var packageName := members[i].name;
      var isAllowed := NextBoolean(members[i].value);
      if isAllowed.Failure? {
        return Failure(isAllowed.fault);
      }
      packages := packages[packageName := isAllowed.value];
      i := i + 1;
    }
    r := Success(packages);
  }

  /** `readModule`: assigns the record's fields member by member (lines 121-137). */
  method ReadModule(v: Json) returns (r: Result<Module>)
    ensures r == ModuleOf(v)
  {
    if !v.JObject? {
      return Failure(IllegalState);   // beginObject
    }
    var members := v.members;
    var m := Module(None, None);
    var i := 0;
    while i < |members|
      invariant 0 <= i <= |members|
      invariant ModuleFrom(m, members[i..]) == ModuleOf(v)
    {
      assert members[i..][1..] == members[i + 1..];
      var name := members[i].name;
      if name == "name" {
        var s := NextString(members[i].value);
        if s.Failure? {
          return Failure(s.fault);
        }
        m := m.(name := Some(s.value));
      } else if name == "packages" {
        var packages := ReadPackagesMap(members[i].value);
        if packages.Failure? {
          return Failure(packages.fault);
        }
        m := m.(packages := Some(packages.value));
      }
      i := i + 1;
    }
    r := Success(m);
  }
}
