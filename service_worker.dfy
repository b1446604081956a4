/** The lists of the service-worker manifest (`create_serviceworker_manifest`):
    the static files to cache, the client build files, and the page routes.
    The directory walk and the clock are parameters; each emitted path is
    kept as the value that `stringify` serialises. */
module ServiceWorker {
  import opened ManifestTypes

  const IndexPage := "service-worker-index.html"

  /** `'/' + x` for every entry, in order. */
  function Rooted(paths: seq<string>): (r: seq<string>)
    ensures |r| == |paths|
    ensures forall i :: 0 <= i < |r| ==> |r[i]| >= 1 && r[i][0] == '/'
  {
    seq(|paths|, i requires 0 <= i < |paths| => "/" + paths[i])
  }

  /** The reverse of `Rooted`: drop the first character of every entry. */
  function Unrooted(paths: seq<string>): seq<string>
  {
    seq(|paths|, i requires 0 <= i < |paths| => if paths[i] == [] then [] else paths[i][1..])
  }

  /** Every emitted entry is the original path behind a slash. */
  lemma UnrootedRooted(paths: seq<string>)
    ensures Unrooted(Rooted(paths)) == paths
  {
    forall i | 0 <= i < |paths| ensures Unrooted(Rooted(paths))[i] == paths[i] {
      assert ("/" + paths[i])[1..] == paths[i];
    }
  }

  /** The cached static files: the index page, then the walked files when the
      static directory exists (`walked == None` when it does not). */
  function StaticFiles(walked: Option<seq<string>>): (files: seq<string>)
    ensures |files| >= 1 && files[0] == IndexPage
    ensures walked.None? ==> files == [IndexPage]
    ensures walked.Some? ==> files[1..] == walked.value
  {
    match walked
    case None => [IndexPage]
    case Some(ws) => [IndexPage] + ws
  }

  datatype ServiceWorkerManifest = ServiceWorkerManifest(
    timestamp: int,
    files: seq<string>,
    assets: seq<string>,
    shell: seq<string>,
    routes: seq<Route>)

  /** `routes`: one route per page, in page order, carrying its pattern. */
  function Routes(pages: seq<Page>): (r: seq<Route>)
    ensures |r| == |pages|
    ensures forall i :: 0 <= i < |pages| ==> r[i].pattern == pages[i].pattern
  {
    seq(|pages|, i requires 0 <= i < |pages| => Route(pages[i].pattern))
  }

  /** The service-worker manifest for a build, with `now` standing for
      `Date.now()`. `assets` is the legacy alias of `files`. */
  function ServiceWorkerLists(walked: Option<seq<string>>, clientFiles: seq<string>, pages: seq<Page>, now: int)
    : (sw: ServiceWorkerManifest)
    ensures sw.timestamp == now
    ensures sw.assets == sw.files
    ensures |sw.files| >= 1 && sw.files[0] == "/" + IndexPage
    ensures forall i :: 0 <= i < |sw.files| ==> |sw.files[i]| >= 1 && sw.files[i][0] == '/'
    ensures forall i :: 0 <= i < |sw.shell| ==> |sw.shell[i]| >= 1 && sw.shell[i][0] == '/'
    ensures walked.None? ==> sw.files == ["/" + IndexPage]
    ensures walked.Some? ==> Unrooted(sw.files) == [IndexPage] + walked.value
    ensures |sw.shell| == |clientFiles| && Unrooted(sw.shell) == clientFiles
    ensures |sw.routes| == |pages| && forall i :: 0 <= i < |pages| ==> sw.routes[i].pattern == pages[i].pattern
  {
    var files := Rooted(StaticFiles(walked));
    UnrootedRooted(StaticFiles(walked));
    UnrootedRooted(clientFiles);
    ServiceWorkerManifest(now, files, files, Rooted(clientFiles), Routes(pages))
  }
}
