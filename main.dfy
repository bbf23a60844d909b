/**
 * The application wiring of `src/main.rs`: the single-segment redirect
 * `index_without_slash`, the IP filter's `on_block` answer, and the order in
 * which the services are registered (listing, redirect, catch-all file
 * handler). actix-web tries services in registration order and the first
 * that matches answers; the IP filter runs before all of them. Whether an
 * address is blocked is a parameter.
 */
module Server {
  import opened Wrappers
  import opened Paths
  import opened Utils
  import opened Serve

  /** A response, or the error a response builder records when a header
      value is refused; `finish()` then answers with an error response. */
  datatype Response =
    | Response(status: int, location: Option<string>, body: string)
    | HeaderRejected(header: string)

  /** A character a header value may hold once written as UTF-8: tab,
      or anything from space upwards except DEL. The bytes of a non-ASCII
      character are all 0x80 or above, which a header value allows. */
  predicate HeaderValueChar(c: char) {
    c == '\t' || (c >= ' ' && c != '\U{7F}')
  }

  predicate ValidHeaderValue(s: string) {
    forall i :: 0 <= i < |s| ==> HeaderValueChar(s[i])
  }

  /** `index_without_slash`: 302 Found to the captured segment plus `/`,
      unless the segment holds a control character, which the `Location`
      header refuses. */
  function IndexWithoutSlash(subPath: string): (r: Response)
    ensures r.Response? <==> ValidHeaderValue(subPath)
    ensures r.Response? ==> r.status == 302 && r.body == "" && r.location.Some?
    ensures r.Response? ==> var loc := r.location.value;
            |loc| == |subPath| + 1 && loc[..|subPath|] == subPath && loc[|subPath|] == '/'
    ensures r.HeaderRejected? ==> r.header == "Location"
  {
    var loc := subPath + "/";
    assert forall i :: 0 <= i < |subPath| ==> loc[i] == subPath[i];
    if ValidHeaderValue(loc) then Response(302, Some(loc), "")
    else
      assert !HeaderValueChar(loc[|loc| - 1]) || exists i :: 0 <= i < |subPath| && !HeaderValueChar(subPath[i]);
      HeaderRejected("Location")
  }

  /** `on_block`: the same 403 for every blocked client and path. */
  function OnBlock(ip: string, reqPath: string): (r: Response)
    ensures r.Response? && r.status == 403 && r.location.None? && r.body == "Forbidden"
  {
    Response(403, None, "Forbidden")
  }

  datatype ListingConfig = ListingConfig(enabled: bool, route: string, dir: string)

  datatype Route =
    | Blocked(response: Response)
    | ListingRoute
    | RedirectRoute(subPath: string)
    | HandlerRoute(path: string)
    | NoRoute

  /** actix-files mounts the listing at the route with trailing `/`
      removed and matches it as a whole-segment prefix. */
  predicate MountMatches(route: string, reqPath: string) {
    var m := TrimEndSlashes(route);
    m == "" || reqPath == m || m + "/" <= reqPath
  }

  /** `/{sub_path}`: one non-empty segment without `/`. */
  predicate SingleSegment(reqPath: string) {
    |reqPath| >= 2 && reqPath[0] == '/' && '/' !in reqPath[1..]
  }

  /** The IP filter, then the services in the order they are registered:
      the listing (when enabled), the redirect, then `/{path:.*}`. */
  function Dispatch(blocked: bool, ip: string, lc: ListingConfig, reqPath: string): (r: Route) {
    if blocked then Blocked(OnBlock(ip, reqPath))
    else if lc.enabled && MountMatches(lc.route, reqPath) then ListingRoute
    else if SingleSegment(reqPath) then RedirectRoute(reqPath[1..])
    else if |reqPath| > 0 && reqPath[0] == '/' then HandlerRoute(reqPath[1..])
    else NoRoute
  }

  /** The registration order decides: a blocked client gets 403 whatever
      the path; the listing wins over the redirect and the file handler;
      the redirect wins over the file handler; and the file handler only
      ever sees the root or a path with a `/` in it, never a bare segment. */
  lemma DispatchOrder(blocked: bool, ip: string, lc: ListingConfig, reqPath: string)
    ensures blocked ==> Dispatch(blocked, ip, lc, reqPath) == Blocked(Response(403, None, "Forbidden"))
    ensures !blocked && lc.enabled && MountMatches(lc.route, reqPath) ==>
              Dispatch(blocked, ip, lc, reqPath) == ListingRoute
    ensures !blocked && !(lc.enabled && MountMatches(lc.route, reqPath)) && SingleSegment(reqPath) ==>
              Dispatch(blocked, ip, lc, reqPath) == RedirectRoute(reqPath[1..])
    ensures Dispatch(blocked, ip, lc, reqPath).HandlerRoute? ==>
              var p := Dispatch(blocked, ip, lc, reqPath).path;
              reqPath == "/" + p && (p == "" || '/' in p)
  {
    if Dispatch(blocked, ip, lc, reqPath).HandlerRoute? {
      assert reqPath == [reqPath[0]] + reqPath[1..];
    }
  }

  /** The part of a path a relative reference replaces: everything up to
      and including the last `/` (the merge step of section 5.2.3 of
      RFC 3986). */
  function DropLastSegment(path: string): (r: string)
    ensures r <= path
    ensures r == [] || r[|r| - 1] == '/'
    decreases |path|
  {
    if path == [] then []
    else if path[|path| - 1] == '/' then path
    else DropLastSegment(path[..|path| - 1])
  }

  /** How a client resolves the relative `Location` of a redirect from
      `basePath`, for a reference that holds no dot segment. */
  function ResolveLocation(basePath: string, location: string): (r: string) {
    DropLastSegment(basePath) + location
  }

  lemma {:induction false} DropSegmentTail(a: string, b: string)
    requires '/' !in b
    ensures DropLastSegment(a + b) == DropLastSegment(a)
    decreases |b|
  {
    if b != [] {
      var b' := b[..|b| - 1];
      assert (a + b)[..|a + b| - 1] == a + b';
      assert (a + b)[|a + b| - 1] == b[|b| - 1];
      DropSegmentTail(a, b');
    } else {
      assert a + b == a;
    }
  }

  /** The redirect leads back to the directory form: from `/x` the client
      follows `x/` to `/x/`. */
  lemma RedirectResolves(seg: string)
    requires seg != [] && '/' !in seg && seg != "." && seg != ".." && ValidHeaderValue(seg)
    ensures ResolveLocation("/" + seg, IndexWithoutSlash(seg).location.value) == "/" + seg + "/"
  {
    DropSegmentTail("/", seg);
    assert DropLastSegment("/") == "/";
  }

  /** A top-level `x` that is a regular file under `public_dir`: `/x` is
      redirected to `x/`, the client asks for `/x/`, the catch-all hands
      `x/` to `file_handler`, and the trimmed candidate serves
      `public_dir/x`. This is the reason for the trim step. */
  lemma RedirectThenServe(fs: Fs, cfg: Config, lc: ListingConfig, ip: string, seg: string)
    requires seg != [] && '/' !in seg && seg != "." && seg != ".." && ValidHeaderValue(seg)
    requires !(lc.enabled && MountMatches(lc.route, "/" + seg))
    requires !(lc.enabled && MountMatches(lc.route, "/" + seg + "/"))
    requires !HasParentDir(Parse(cfg.publicDir))
    requires RegularFile(fs, Trimmed(cfg, seg))
    ensures Dispatch(false, ip, lc, "/" + seg) == RedirectRoute(seg)
    ensures var next := ResolveLocation("/" + seg, IndexWithoutSlash(seg).location.value);
            next == "/" + seg + "/" &&
            Dispatch(false, ip, lc, next) == HandlerRoute(seg + "/") &&
            Resolution(fs, cfg, seg + "/") == ServeFile(Trimmed(cfg, seg))
  {
    assert ("/" + seg)[1..] == seg;
    RedirectResolves(seg);
    var next := "/" + seg + "/";
    assert next[1..] == seg + "/";
    assert '/' in next[1..] by {
      assert next[1..][|seg|] == '/';
    }
    SegmentIsSafe(seg);
    TrailingSlashServesSameFile(fs, cfg, seg);
  }

  /** A single segment other than ".." is never a traversal. */
  lemma SegmentIsSafe(seg: string)
    requires '/' !in seg && seg != ".."
    ensures !HasParentDir(Parse(seg))
  {
    SinglePiece(seg);
    TraversalIffDotDotPiece(seg);
  }
}
