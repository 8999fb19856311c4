/**
 * How `checkPermission` turns a module path into a module name
 * (PermissionManager.java lines 34-59): the path-to-name cache first, then
 * the package manager's reading of the archive, then a guess from the path.
 */
module NameResolution {
  import opened JavaLang

  /**
   * The guess from the path (lines 48-55): split on '/', take the
   * second-to-last piece, and keep its text before the first '-'. A path of
   * at most one piece gives no name; a second-to-last piece made only of
   * '-' splits into an empty array, and `parts[0]` throws.
   */
  function HeuristicName(path: string): Result<Option<string>>
  {
    var parts := Split(path, '/');
    if |parts| > 1 then
      var pieces := Split(parts[|parts| - 2], '-');
      if |pieces| == 0 then Failure(ArrayIndexOutOfBounds) else Success(Some(pieces[0]))
    else
      Success(None)
  }

  /**
   * The name `checkPermission` settles on (lines 34-55). `archiveName` is the
   * package name the package manager reads from the archive at `path`, or
   * None when there is no package manager or it cannot read the archive; it
   * is consulted only on a cache miss.
   */
  function ResolveName(cache: map<string, string>, path: string, archiveName: Option<string>): Result<Option<string>>
  {
    if path in cache then Success(Some(cache[path]))
    else if archiveName.Some? then Success(archiveName)
    else HeuristicName(path)
  }

  /** The cache after a resolution with outcome `r` (lines 56-58). */
  function CacheAfter(cache: map<string, string>, path: string, r: Result<Option<string>>): map<string, string>
  {
    if path !in cache && r.Success? && r.value.Some? then cache[path := r.value.value] else cache
  }

  // ---------------------------------------------------------------------------
  // Lemmas
  // ---------------------------------------------------------------------------

  /**
   * The guess is the text before the first '-' of the second-to-last
   * '/'-piece of the path; it holds neither '/' nor '-'. It throws exactly
   * when that piece is a non-empty run of '-', and gives no name exactly
   * when the path splits into at most one piece.
   */
  lemma HeuristicTakesSegmentPrefix(path: string)
    ensures var parts := Split(path, '/');
      && (HeuristicName(path) == Success(None) <==> |parts| <= 1)
      && (|parts| > 1 ==>
            var segment := parts[|parts| - 2];
            && (HeuristicName(path).Failure? <==> |segment| > 0 && AllChar(segment, '-'))
            && (HeuristicName(path).Success? ==> HeuristicName(path) == Success(Some(TakeUntil(segment, '-')))))
    ensures HeuristicName(path).Failure? ==> HeuristicName(path).fault == ArrayIndexOutOfBounds
    ensures HeuristicName(path).Success? && HeuristicName(path).value.Some? ==>
      var name := HeuristicName(path).value.value;
      '/' !in name && '-' !in name
  {
    var parts := Split(path, '/');
    if |parts| > 1 {
      var segment := parts[|parts| - 2];
      SplitEmptyIff(segment, '-');
      if |Split(segment, '-')| > 0 {
        SplitFirst(segment, '-');
        TakeUntilPrefix(segment, '-');
        var name := TakeUntil(segment, '-');
        assert forall c :: c in name ==> c in segment;
      }
    }
  }

  /**
   * For an installed archive `prefix/name-rest/file` the guess is `name`,
   * when `name` is non-empty and holds neither '/' nor '-'.
   */
  lemma HeuristicOfInstalledArchive(prefix: string, name: string, rest: string, file: string)
    requires name != "" && '/' !in name && '-' !in name
    requires '/' !in rest && '/' !in file && file != ""
    ensures HeuristicName(prefix + "/" + (name + "-" + rest) + "/" + file) == Success(Some(name))
  {
    var segment := name + "-" + rest;
    assert '/' !in segment;
    SplitLastTwo(prefix, segment, file, '/');
    assert !AllChar(segment, '-') by { assert segment[0] != '-'; }
    SplitEmptyIff(segment, '-');
    SplitFirst(segment, '-');
    TakeUntilPrefix(segment, '-');
    assert segment[|name|] == '-';
    assert TakeUntil(segment, '-') == name;
  }

  /**
   * A typical installed-archive path: "/data/app/com.example.mod-1/base.apk"
   * gives "com.example.mod". The path is a parameter fixed by `requires`, not
   * a literal in the `ensures`, so that `SplitAll` is not unfolded on a constant.
   */
  lemma HeuristicExample(path: string)
    requires path == "/data/app/com.example.mod-1/base.apk"
    ensures HeuristicName(path) == Success(Some("com.example.mod"))
  {
    assert path == "/data/app" + "/" + ("com.example.mod" + "-" + "1") + "/" + "base.apk";
    HeuristicOfInstalledArchive("/data/app", "com.example.mod", "1", "base.apk");
  }

  /** A cache hit decides the name: neither the package manager nor the path is consulted. */
  lemma CacheHitDecides(cache: map<string, string>, path: string, archiveName: Option<string>)
    requires path in cache
    ensures ResolveName(cache, path, archiveName) == Success(Some(cache[path]))
    ensures CacheAfter(cache, path, ResolveName(cache, path, archiveName)) == cache
  {
  }

  /**
   * A miss that finds a name adds exactly `path -> name`; a miss that finds
   * none, or throws, leaves the cache as it was.
   */
  lemma CacheMissUpdate(cache: map<string, string>, path: string, archiveName: Option<string>)
    requires path !in cache
    ensures var r := ResolveName(cache, path, archiveName);
      var after := CacheAfter(cache, path, r);
      && (r.Success? && r.value.Some? ==> after.Keys == cache.Keys + {path} && after[path] == r.value.value)
      && (r.Failure? || r.value.None? ==> after == cache)
      && (forall p :: p in cache ==> p in after && after[p] == cache[p])
    ensures archiveName.Some? ==> ResolveName(cache, path, archiveName) == Success(archiveName)
    ensures archiveName.None? ==> ResolveName(cache, path, archiveName) == HeuristicName(path)
  {
  }

  /**
   * Resolving a path a second time, after the first resolution was cached,
   * gives the same name whatever the package manager now says.
   */
  lemma ResolveIdempotent(cache: map<string, string>, path: string, first: Option<string>, second: Option<string>)
    requires ResolveName(cache, path, first).Success? && ResolveName(cache, path, first).value.Some?
    ensures var r := ResolveName(cache, path, first);
      var after := CacheAfter(cache, path, r);
      && ResolveName(after, path, second) == r
      && CacheAfter(after, path, ResolveName(after, path, second)) == after
  {
  }
}
