/**
 * Step 2 of `Log::writeLog` (lib/Log.php:133-150): the list of path
 * prefixes whose code is "custom".  It starts with the configuration
 * directory and goes on with the install path of every enabled app that is
 * not shipped with the host and whose app info has no `repository['@value']`,
 * in enabled-app order.
 */
module PathAllowList {
  import opened LogTypes

  /** The fixed first prefix (lib/Log.php:134). */
  const ConfigPrefix: string := "/var/www/html/config/"

  /** The `repository` element of an app's info, as the host's app-info parser
      leaves it. */
  datatype Repository =
    /** The key is absent. */
    | NoRepository
    /** An array; only its set of keys matters here. */
    | RepositoryArray(keys: set<string>)
    /** A string, or null: not an array. */
    | RepositoryScalar(text: string)

  /** What `getAppInfo` returns: null, or an array that may hold `repository`. */
  datatype AppInfo = NoAppInfo | AppInfo(repository: Repository)

  /** One enabled app as the app manager reports it. */
  datatype App = App(id: string, shipped: bool, info: AppInfo, path: string)

  /**
   * The condition of lib/Log.php:144-146 for a non-shipped app: true when the
   * info has no `repository` or the repository has no `@value`.  PHP 8 raises
   * a TypeError when `array_key_exists` meets a null info or a repository that
   * is not an array.
   */
  function LacksRepositoryValue(app: App): Result<bool, Failure>
  {
    match app.info
    case NoAppInfo => Err(AppInfoNotArray(app.id))
    case AppInfo(NoRepository) => Ok(true)
    case AppInfo(RepositoryArray(keys)) => Ok("@value" !in keys)
    case AppInfo(RepositoryScalar(_)) => Err(AppInfoNotArray(app.id))
  }

  /** A non-shipped app whose info makes the condition raise. */
  predicate Malformed(app: App)
  {
    !app.shipped && LacksRepositoryValue(app).Err?
  }

  /** An app whose path joins the list. */
  predicate Qualifies(app: App)
  {
    !app.shipped && LacksRepositoryValue(app) == Ok(true)
  }

  /** The paths the loop appends, or the error of the first malformed app. */
  function CustomAppPaths(apps: seq<App>): (r: Result<seq<string>, Failure>)
    ensures r.Ok? <==> forall j :: 0 <= j < |apps| ==> !Malformed(apps[j])
    ensures r.Ok? ==> |r.value| <= |apps|
    decreases |apps|
  {
    if apps == [] then Ok([])
    else
      var init := apps[..|apps| - 1];
      var app := apps[|apps| - 1];
      match CustomAppPaths(init)
      case Err(e) => Err(e)
      case Ok(paths) =>
        if app.shipped then Ok(paths)
        else
          match LacksRepositoryValue(app)
          case Err(e) => Err(e)
          case Ok(keep) => Ok(if keep then paths + [app.path] else paths)
  }

  /** The prefix list the loop leaves behind: the configuration directory, then
      the custom apps' paths. */
  function AllowList(apps: seq<App>): (r: Result<seq<string>, Failure>)
    ensures r.Ok? <==> forall j :: 0 <= j < |apps| ==> !Malformed(apps[j])
    ensures r.Ok? ==> 1 <= |r.value| <= 1 + |apps| && r.value[0] == ConfigPrefix
  {
    match CustomAppPaths(apps)
    case Err(e) => Err(e)
    case Ok(paths) => Ok([ConfigPrefix] + paths)
  }

  /** The indices of the qualifying apps, in increasing order: the reference
      the prefix list is checked against. */
  function QualifyingIndices(apps: seq<App>): (idx: seq<nat>)
    ensures forall k :: 0 <= k < |idx| ==> idx[k] < |apps| && Qualifies(apps[idx[k]])
    ensures forall k1, k2 :: 0 <= k1 < k2 < |idx| ==> idx[k1] < idx[k2]
    ensures forall j :: 0 <= j < |apps| && Qualifies(apps[j]) ==> j in idx
    decreases |apps|
  {
    if apps == [] then []
    else
      var n := |apps| - 1;
      var init := QualifyingIndices(apps[..n]);
      assert forall j :: 0 <= j < n ==> apps[..n][j] == apps[j];
      init + (if Qualifies(apps[n]) then [n] else [])
  }

  /**
   * The prefix list is an in-order filter of the enabled apps: after the
   * configuration directory come exactly the paths of the qualifying apps,
   * one per app, in enabled-app order.
   */
  lemma {:induction false} AllowListIsOrderedFilter(apps: seq<App>)
    requires AllowList(apps).Ok?
    ensures |AllowList(apps).value| == 1 + |QualifyingIndices(apps)|
    ensures forall k :: 0 <= k < |QualifyingIndices(apps)| ==>
              AllowList(apps).value[k + 1] == apps[QualifyingIndices(apps)[k]].path
  {
    CustomPathsFollowIndices(apps);
    var paths := CustomAppPaths(apps).value;
    assert AllowList(apps).value == [ConfigPrefix] + paths;
  }

  /** The custom-app paths are the paths of the qualifying apps, by index. */
  lemma {:induction false} CustomPathsFollowIndices(apps: seq<App>)
    requires CustomAppPaths(apps).Ok?
    ensures |CustomAppPaths(apps).value| == |QualifyingIndices(apps)|
    ensures forall k :: 0 <= k < |QualifyingIndices(apps)| ==>
              CustomAppPaths(apps).value[k] == apps[QualifyingIndices(apps)[k]].path
    decreases |apps|
  {
    if apps != [] {
      var n := |apps| - 1;
      var init := apps[..n];
      CustomPathsFollowIndices(init);
      var paths := CustomAppPaths(init).value;
      var idx := QualifyingIndices(init);
      forall j | 0 <= j < n ensures init[j] == apps[j] { }
      if Qualifies(apps[n]) {
        assert CustomAppPaths(apps).value == paths + [apps[n].path];
        assert QualifyingIndices(apps) == idx + [n];
      } else {
        assert CustomAppPaths(apps).value == paths;
        assert QualifyingIndices(apps) == idx;
      }
    }
  }

  /** A shipped app's path is never added on its own account: every path past
      the first belongs to a non-shipped app. */
  lemma AllowListExcludesShipped(apps: seq<App>, k: nat)
    requires AllowList(apps).Ok? && 1 <= k < |AllowList(apps).value|
    ensures exists j :: 0 <= j < |apps| && !apps[j].shipped && apps[j].path == AllowList(apps).value[k]
  {
    AllowListIsOrderedFilter(apps);
    var j := QualifyingIndices(apps)[k - 1];
    assert apps[j].path == AllowList(apps).value[k];
  }

  /** Once an app raises, the rest of the list does not matter. */
  lemma {:induction false} CustomAppPathsErrorPersists(apps: seq<App>, i: nat)
    requires i <= |apps| && CustomAppPaths(apps[..i]).Err?
    ensures CustomAppPaths(apps) == CustomAppPaths(apps[..i])
    decreases |apps| - i
  {
    if i < |apps| {
      assert apps[..i + 1][..i] == apps[..i];
      CustomAppPathsErrorPersists(apps, i + 1);
    } else {
      assert apps[..i] == apps;
    }
  }

  /** The error raised is the one of the first malformed app in enabled-app
      order. */
  lemma AllowListRaisesAtFirstMalformed(apps: seq<App>, j: nat)
    requires j < |apps| && Malformed(apps[j])
    requires forall i :: 0 <= i < j ==> !Malformed(apps[i])
    ensures AllowList(apps) == Err(AppInfoNotArray(apps[j].id))
  {
    var init := apps[..j];
    assert forall i :: 0 <= i < j ==> init[i] == apps[i];
    assert CustomAppPaths(init).Ok?;
    assert apps[..j + 1][..j] == init;
    assert CustomAppPaths(apps[..j + 1]) == Err(AppInfoNotArray(apps[j].id));
    CustomAppPathsErrorPersists(apps, j + 1);
  }

  /**
   * The loop of lib/Log.php:133-150: shipped apps are skipped, the others
   * have their path appended when their info lacks a repository value, and a
   * malformed info raises.
   */
  method BuildPathPrefixes(apps: seq<App>) returns (r: Result<seq<string>, Failure>)
    ensures r == AllowList(apps)
  {
    var prefixes := [ConfigPrefix];
    for i := 0 to |apps|
      invariant CustomAppPaths(apps[..i]).Ok?
      invariant prefixes == [ConfigPrefix] + CustomAppPaths(apps[..i]).value
    {
      var app := apps[i];
      assert apps[..i + 1][..i] == apps[..i];
      if app.shipped {
        continue;
      }
      var lacks := LacksRepositoryValue(app);
      if lacks.Err? {
        CustomAppPathsErrorPersists(apps, i + 1);
        return Err(lacks.error);
      }
      if lacks.value {
        prefixes := prefixes + [app.path];
      }
    }
    assert apps[..|apps|] == apps;
    r := Ok(prefixes);
  }
}
