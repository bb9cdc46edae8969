/**
 * The module registry's HTTP handlers over the record store: listing the
 * versions of a module, redirecting to the download of its latest version,
 * and answering the download of one version with the location of its source.
 * The store's query for a module is a parameter: the records of that module
 * in the order the store yields them (`Models.IsQuery`).
 */
module Registry {
  import opened Results
  import opened Strings
  import opened Models
  import opened SemVer
  import opened Latest
  import opened Http

  // ---------------------------------------------------------------------------
  // List available versions

  /** `{"version": v}` for each record, in the order given. */
  function VersionEntries(q: seq<ModuleRecord>): (entries: seq<Json>)
    ensures |entries| == |q|
    ensures forall i :: 0 <= i < |q| ==> entries[i] == JObject([("version", JString(q[i].version))])
  {
    if q == [] then [] else [JObject([("version", JString(q[0].version))])] + VersionEntries(q[1..])
  }

  /** `list_versions`: one module entry, its display name and one version object per queried record. */
  function ListVersions(m: ModuleName, q: seq<ModuleRecord>): (r: Json)
    ensures r.JObject? && |r.fields| == 1 && r.fields[0].0 == "modules"
  {
    JObject([("modules", JArray([JObject([
      ("source", JString(Display(m))),
      ("versions", JArray(VersionEntries(q)))])]))])
  }

  /** A client reading a list of version objects. */
  function VersionsRead(entries: seq<Json>): Option<seq<string>> {
    if entries == [] then Some([])
    else
      var e := entries[0];
      if e.JObject? && |e.fields| == 1 && e.fields[0].0 == "version" && e.fields[0].1.JString? then
        match VersionsRead(entries[1..])
        case None => None
        case Some(rest) => Some([e.fields[0].1.text] + rest)
      else None
  }

  /**
   * A client reading a versions document that lists exactly one module: its
   * `source` and its version strings in document order.
   */
  function Listing(j: Json): Option<(string, seq<string>)> {
    if j.JObject? && |j.fields| == 1 && j.fields[0].0 == "modules" && j.fields[0].1.JArray?
       && |j.fields[0].1.items| == 1
    then
      var entry := j.fields[0].1.items[0];
      if entry.JObject? && |entry.fields| == 2
         && entry.fields[0].0 == "source" && entry.fields[0].1.JString?
         && entry.fields[1].0 == "versions" && entry.fields[1].1.JArray?
      then
        match VersionsRead(entry.fields[1].1.items)
        case None => None
        case Some(vs) => Some((entry.fields[0].1.text, vs))
      else None
    else None
  }

  lemma {:induction false} VersionsReadEntries(q: seq<ModuleRecord>)
    ensures VersionsRead(VersionEntries(q)) == Some(Versions(q))
  {
    if q != [] {
      VersionsReadEntries(q[1..]);
      assert VersionEntries(q)[1..] == VersionEntries(q[1..]);
      assert Versions(q) == [q[0].version] + Versions(q[1..]);
    }
  }

  /**
   * The versions document lists one module, under its display name, with the
   * queried versions in the store's order and nothing sorted or dropped.
   */
  lemma ListVersionsReadsBack(m: ModuleName, q: seq<ModuleRecord>)
    ensures Listing(ListVersions(m, q)) == Some((Display(m), Versions(q)))
  {
    VersionsReadEntries(q);
  }

  /** Against the store: every stored version of the module is listed, each exactly once. */
  lemma ListVersionsComplete(store: Store, m: ModuleName, q: seq<ModuleRecord>)
    requires IsQuery(store, m, q)
    ensures Listing(ListVersions(m, q)).Some?
    ensures var vs := Listing(ListVersions(m, q)).value.1;
      && (forall v :: v in vs <==> v in StoredVersions(store, m))
      && |vs| == |StoredVersions(store, m)|
      && (forall i, j :: 0 <= i < j < |vs| ==> vs[i] != vs[j])
  {
    ListVersionsReadsBack(m, q);
    QueryVersionsComplete(store, m, q);
  }

  lemma QueryVersionsComplete(store: Store, m: ModuleName, q: seq<ModuleRecord>)
    requires IsQuery(store, m, q)
    ensures var vs := Versions(q);
      && (forall v :: v in vs <==> v in StoredVersions(store, m))
      && |vs| == |StoredVersions(store, m)|
      && (forall i, j :: 0 <= i < j < |vs| ==> vs[i] != vs[j])
  {
    QueryListsStoredVersions(store, m, q);
    var vs := Versions(q);
    var listed := set i | 0 <= i < |q| :: q[i].version;
    forall v ensures v in vs <==> v in listed {
      if v in vs {
        var i :| 0 <= i < |vs| && vs[i] == v;
        assert q[i].version == v;
      }
      if v in listed {
        var i :| 0 <= i < |q| && q[i].version == v;
        assert vs[i] == v;
      }
    }
  }

  // ---------------------------------------------------------------------------
  // Download the latest version

  /** The suffix of a download path. */
  const DownloadSuffix: string := "/download"

  /**
   * `re.sub(r"/download$", f"/{version}/download", path)`: a trailing
   * `/download` gains the version in front of it; any other path is unchanged.
   */
  function RewritePath(path: string, version: string): (r: string)
    ensures EndsWith(path, DownloadSuffix) ==>
      && |r| == |path| + |version| + 1
      && r[..|path| - |DownloadSuffix|] == path[..|path| - |DownloadSuffix|]
      && EndsWith(r, "/" + version + DownloadSuffix)
    ensures !EndsWith(path, DownloadSuffix) ==> r == path
  {
    if EndsWith(path, DownloadSuffix)
    then path[..|path| - |DownloadSuffix|] + "/" + version + DownloadSuffix
    else path
  }

  /** Removing the inserted `/<version>` from the redirect gives the request path back. */
  lemma RewritePathInverse(path: string, version: string)
    requires EndsWith(path, DownloadSuffix)
    ensures var r := RewritePath(path, version);
      r[..|path| - |DownloadSuffix|] + r[|r| - |DownloadSuffix|..] == path
  {
    var r := RewritePath(path, version);
    assert path == path[..|path| - |DownloadSuffix|] + path[|path| - |DownloadSuffix|..];
  }

  /** A path ending in `/download` has the version inserted right before that suffix. */
  lemma RewriteSuffixed(prefix: string, version: string)
    ensures RewritePath(prefix + DownloadSuffix, version) == prefix + "/" + version + DownloadSuffix
  {
    var path := prefix + DownloadSuffix;
    assert path[|prefix|..] == DownloadSuffix;
    assert path[..|prefix|] == prefix;
  }

  /** The body of the 302 answer: an anchor to the new location. */
  function FoundBody(location: string): string {
    "<a href=\"" + location + "\">Found</a>."
  }

  function NotFoundMessage(m: ModuleName): string {
    "Module " + Display(m) + " was not found!"
  }

  /**
   * `download_latest`: 404 when the module has no versions, otherwise a 302
   * to the download path of the latest version. `semver.compare` raising
   * `ValueError` leaves the handler.
   */
  function DownloadLatest(m: ModuleName, q: seq<ModuleRecord>, path: string): (r: Result<Response, InvalidVersion>)
    ensures r.Err? <==> |q| >= 2 && exists i :: 0 <= i < |q| && !IsValid(q[i].version)
    ensures r.Ok? && q == [] ==> r.value == Response(NOT_FOUND, map[], JsonBody(Errors([NotFoundMessage(m)])))
    ensures r.Ok? && q != [] ==>
      exists v :: && v in Versions(q)
                  && r.value == Response(FOUND, map["Location" := RewritePath(path, v)], TextBody(FoundBody(RewritePath(path, v))))
  {
    LatestVersionFails(Versions(q));
    match LatestVersion(Versions(q))
    case Err(e) => Err(e)
    case Ok(None) => Ok(Response(NOT_FOUND, map[], JsonBody(Errors([NotFoundMessage(m)]))))
    case Ok(Some(v)) =>
      LatestVersionIsMaximum(Versions(q));
      var location := RewritePath(path, v);
      Ok(Response(FOUND, map["Location" := location], TextBody(FoundBody(location))))
  }

  /**
   * Versions `0.0.0`, `0.9.0` and `0.10.0`, answered in any order, redirect
   * to the download of `0.10.0`: precedence is numeric, not textual.
   */
  lemma DownloadLatestExample(m: ModuleName, q: seq<ModuleRecord>, path: string)
    requires multiset(Versions(q)) == multiset{"0.0.0", "0.9.0", "0.10.0"}
    ensures var location := RewritePath(path, "0.10.0");
      DownloadLatest(m, q, path) == Ok(Response(FOUND, map["Location" := location], TextBody(FoundBody(location))))
  {
    LatestVersionExample(Versions(q));
  }

  /** The latest of a query's versions is a stored version with no stored version above it. */
  lemma LatestFromStore(store: Store, m: ModuleName, q: seq<ModuleRecord>)
    requires IsQuery(store, m, q)
    requires LatestVersion(Versions(q)).Ok? && LatestVersion(Versions(q)).value.Some?
    ensures var v := LatestVersion(Versions(q)).value.value;
      && v in StoredVersions(store, m)
      && forall w :: w in StoredVersions(store, m) ==> Compare(w, v) != Ok(1)
  {
    QueryListsStoredVersions(store, m, q);
    var vs := Versions(q);
    var v := LatestVersion(vs).value.value;
    LatestVersionIsMaximum(vs);
    forall w | w in StoredVersions(store, m) ensures Compare(w, v) != Ok(1) {
      assert w in (set i | 0 <= i < |q| :: q[i].version);
      var i :| 0 <= i < |q| && q[i].version == w;
      assert vs[i] == w;
    }
    var k :| 0 <= k < |vs| && vs[k] == v;
    assert v in (set i | 0 <= i < |q| :: q[i].version);
  }

  /**
   * Against the store: no stored version means 404 with exactly one error
   * message; otherwise a 302 to the download path of a stored version with no
   * stored version above it.
   */
  lemma DownloadLatestFromStore(store: Store, m: ModuleName, q: seq<ModuleRecord>, path: string)
    requires IsQuery(store, m, q)
    requires DownloadLatest(m, q, path).Ok?
    ensures var r := DownloadLatest(m, q, path).value;
      && (StoredVersions(store, m) == {} <==> r.status == NOT_FOUND)
      && (r.status == NOT_FOUND ==> r.body.JsonBody? && ErrorMessages(r.body.json) == Some([NotFoundMessage(m)]))
      && (r.status != NOT_FOUND ==>
           exists v :: && v in StoredVersions(store, m)
                       && (forall w :: w in StoredVersions(store, m) ==> Compare(w, v) != Ok(1))
                       && r == Response(FOUND, map["Location" := RewritePath(path, v)], TextBody(FoundBody(RewritePath(path, v)))))
  {
    QueryListsStoredVersions(store, m, q);
    if q == [] {
      ErrorMessagesOfErrors([NotFoundMessage(m)]);
    } else {
      assert q[0].version in (set i | 0 <= i < |q| :: q[i].version);
      LatestVersionFails(Versions(q));
      LatestFromStore(store, m, q);
    }
  }

  // ---------------------------------------------------------------------------
  // Download one version

  /** The message of PynamoDB's `DoesNotExist`, raised by `get` for an absent key. */
  const DoesNotExistMessage: string := "Item does not exist"

  /** The view error's message for a record without a source. */
  function MissingSourceMessage(m: ModuleName, version: string): string {
    Serialize(m) + "/" + version + " is missing the `source` attribute."
  }

  /**
   * `download` as intended: 204 with `X-Terraform-Get` naming the source, 404
   * for an absent record, and the view error's status for a record without a
   * source. Each error answer carries exactly one message.
   */
  function Download(store: Store, m: ModuleName, version: string): (r: Response)
    ensures r.status == NO_CONTENT <==> (m, version) in store && store[(m, version)].source.Some?
    ensures r.status == NO_CONTENT ==> r.headers == map["X-Terraform-Get" := store[(m, version)].source.value] && r.body == NoBody
    ensures r.status == NOT_FOUND <==> (m, version) !in store
    ensures r.status == NOT_FOUND ==> r.body.JsonBody? && ErrorMessages(r.body.json) == Some([DoesNotExistMessage])
    ensures r.status == VIEW_ERROR <==> (m, version) in store && store[(m, version)].source.None?
    ensures r.status == VIEW_ERROR ==> r.body.JsonBody? && ErrorMessages(r.body.json) == Some([MissingSourceMessage(m, version)])
  {
    if (m, version) !in store then
      ErrorMessagesOfErrors([DoesNotExistMessage]);
      Response(NOT_FOUND, map[], JsonBody(Errors([DoesNotExistMessage])))
    else
      match store[(m, version)].source
      case None =>
        ErrorMessagesOfErrors([MissingSourceMessage(m, version)]);
        Response(VIEW_ERROR, map[], JsonBody(Errors([MissingSourceMessage(m, version)])))
      case Some(source) => Response(NO_CONTENT, map["X-Terraform-Get" := source], NoBody)
  }

  /** An exception that escapes the handler, leaving the framework's generic error answer. */
  datatype Uncaught = UncaughtTypeError(message: string)

  /**
   * `download` as written: the view error is built with a keyword argument,
   * which an exception class without its own initialiser rejects, so the
   * missing-source case raises `TypeError` instead of answering.
   */
  function DownloadAsWritten(store: Store, m: ModuleName, version: string): (r: Result<Response, Uncaught>)
    ensures r.Err? <==> (m, version) in store && store[(m, version)].source.None?
    ensures r.Ok? ==> r.value == Download(store, m, version)
  {
    if (m, version) in store && store[(m, version)].source.None?
    then Err(UncaughtTypeError("ChaliceViewError() takes no keyword arguments"))
    else Ok(Download(store, m, version))
  }

  /** A record saved without a source: the handler as written raises, the intended one answers. */
  lemma DownloadMissingSourceRaises()
    ensures var m := ModuleName("namespace", "name", "provider");
      var store := map[(m, "0.1.0") := ModuleRecord(m, "0.1.0", None, 0, None, None, None, 0)];
      && DownloadAsWritten(store, m, "0.1.0").Err?
      && Download(store, m, "0.1.0").status == VIEW_ERROR
  {
  }
}
