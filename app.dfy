/**
 * The application: the modules handlers mounted under `/v1`, and the
 * remote-service-discovery document that tells Terraform where that is
 * (`GET /.well-known/terraform.json` answers `{"modules.v1": "https://<host>/v1"}`).
 */
module App {
  import opened Results
  import opened Strings
  import opened Models
  import opened Http
  import opened Registry

  /** The URL prefix the modules handlers are mounted at. */
  const ModulesPrefix: string := "/v1"

  /** The request path of a modules route once mounted. */
  function Mount(route: string): string {
    ModulesPrefix + route
  }

  /** Raised by a lookup of a missing key. */
  datatype KeyError = KeyError(key: string)

  /**
   * `discovery`: the `host` request header under `https://`, followed by the
   * path `/v1` written out in the handler, as the only service. No `host`
   * header, no document. Request headers are keyed by lower-cased name, as
   * the web framework presents them.
   */
  function Discovery(headers: map<string, string>): (r: Result<Json, KeyError>)
    ensures r.Err? <==> "host" !in headers
    ensures r.Err? ==> r.error == KeyError("host")
    ensures r.Ok? ==> r.value.JObject? && |r.value.fields| == 1 && r.value.fields[0].0 == "modules.v1"
  {
    if "host" !in headers then Err(KeyError("host"))
    else Ok(JObject([("modules.v1", JString("https://" + headers["host"] + "/v1"))]))
  }

  /** A client reading the discovery document: the base URL of the modules service, if advertised. */
  function ModulesBase(doc: Json): Option<string> {
    if doc.JObject? && |doc.fields| >= 1 && doc.fields[0].0 == "modules.v1" && doc.fields[0].1.JString?
    then Some(doc.fields[0].1.text)
    else None
  }

  /** The part after `//`: an authority without `/`, then the path. */
  function ParseAuthority(rest: string): (string, string) {
    var (authority, path) := SplitOnce(rest, '/');
    (authority, match path case None => "" case Some(p) => "/" + p)
  }

  /** The scheme, authority and path of a `scheme://authority/path` URL. */
  function ParseUrl(url: string): Option<(string, string, string)> {
    match SplitOnce(url, ':')
    case (_, None) => None
    case (scheme, Some(rest)) =>
      if |rest| >= 2 && rest[..2] == "//" then
        var (authority, path) := ParseAuthority(rest[2..]);
        Some((scheme, authority, path))
      else None
  }

  lemma ParseAuthorityOf(authority: string, path: string)
    requires '/' !in authority
    requires |path| >= 1 && path[0] == '/'
    ensures ParseAuthority(authority + path) == (authority, path)
  {
    assert authority + path == authority + ['/'] + path[1..];
    SplitOnceAt(authority, path[1..], '/');
    assert "/" + path[1..] == path;
  }

  /** A URL put together from its scheme, an authority without `/` and a path parses back into them. */
  lemma ParseUrlOf(scheme: string, authority: string, path: string)
    requires ':' !in scheme && '/' !in authority
    requires |path| >= 1 && path[0] == '/'
    ensures ParseUrl(scheme + "://" + authority + path) == Some((scheme, authority, path))
  {
    var rest := "//" + authority + path;
    assert "://" == [':'] + "//";
    assert scheme + "://" + authority + path == scheme + [':'] + rest;
    SplitOnceAt(scheme, rest, ':');
    assert rest[..2] == "//";
    assert rest[2..] == authority + path;
    ParseAuthorityOf(authority, path);
  }

  /**
   * The advertised base, followed by a handler's route, is a URL on the
   * request's host, always `https`, whose path is that route mounted under the
   * modules prefix: what Terraform requests reaches the handler.
   */
  lemma DiscoveryReachesHandlers(headers: map<string, string>, route: string)
    requires "host" in headers && '/' !in headers["host"]
    requires |route| >= 1 && route[0] == '/'
    ensures Discovery(headers).Ok?
    ensures ModulesBase(Discovery(headers).value).Some?
    ensures ParseUrl(ModulesBase(Discovery(headers).value).value + route) == Some(("https", headers["host"], Mount(route)))
  {
    var host := headers["host"];
    assert ModulesPrefix == "/v1";
    assert "https://" + host + "/v1" + route == "https" + "://" + host + Mount(route);
    ParseUrlOf("https", host, Mount(route));
  }

  /** The advertised base alone names the mount prefix. */
  lemma DiscoveryAdvertisesPrefix(headers: map<string, string>)
    requires "host" in headers && '/' !in headers["host"]
    ensures Discovery(headers).Ok?
    ensures ModulesBase(Discovery(headers).value).Some?
    ensures ParseUrl(ModulesBase(Discovery(headers).value).value) == Some(("https", headers["host"], ModulesPrefix))
  {
    var host := headers["host"];
    assert ModulesPrefix == "/v1";
    assert "https://" + host + "/v1" == "https" + "://" + host + ModulesPrefix;
    ParseUrlOf("https", host, ModulesPrefix);
  }

  /** The route of the latest-version download of a module. */
  function LatestDownloadRoute(m: ModuleName): string {
    "/" + Serialize(m) + "/download"
  }

  /** The route of the download of one version of a module. */
  function DownloadRoute(m: ModuleName, version: string): string {
    "/" + Serialize(m) + "/" + version + "/download"
  }

  /**
   * Mounted, the latest-version download redirects to the mounted route of
   * the chosen version's download.
   */
  lemma LatestRedirectsToDownload(m: ModuleName, version: string)
    ensures RewritePath(Mount(LatestDownloadRoute(m)), version) == Mount(DownloadRoute(m, version))
  {
    MountedRewrite(Serialize(m), version);
  }

  /** The rewrite inserts the version right before the trailing `/download` of a mounted path. */
  lemma MountedRewrite(name: string, version: string)
    ensures RewritePath(Mount("/" + name + "/download"), version) == Mount("/" + name + "/" + version + "/download")
  {
    var prefix := ModulesPrefix + "/" + name;
    assert Mount("/" + name + "/download") == prefix + DownloadSuffix;
    RewriteSuffixed(prefix, version);
    assert prefix + "/" + version + DownloadSuffix == Mount("/" + name + "/" + version + "/download");
  }
}
