/**
 * The request-path resolver of `src/serve.rs` (`file_handler`).
 *
 * The filesystem is an oracle `Fs`: the paths that exist and the paths
 * that are regular files, keyed by the component view of `Paths`. The
 * configuration (`public_dir`, `not_found_page`) is a parameter. The
 * handler either picks a path to open, or, when the upward search reaches
 * the bare root "/" without finding an index, never answers: `pop()` on "/"
 * does nothing, so the loop re-probes "/index.html" forever. `Spin` records
 * that outcome instead of excluding absolute paths.
 */
module Serve {
  import opened Paths
  import opened Utils

  datatype Fs = Fs(existing: set<Path>, files: set<Path>)

  datatype Config = Config(publicDir: string, notFoundPage: string)

  /** One question put to the filesystem: `exists()` or `is_file()`. */
  datatype FsCall = Exists(path: Path) | IsFile(path: Path)

  datatype WalkResult = Found(index: Path) | NoIndex | Spins

  datatype Outcome = ServeFile(path: Path) | ServeNotFound(path: Path) | Spin

  predicate RegularFile(fs: Fs, p: Path) {
    p in fs.existing && p in fs.files
  }

  /** `Path::new("index.html")`. */
  const IndexFile: Path := Path([Normal("index.html")], false)

  /** `dir.join("index.html")` for a directory with components `dir`. */
  function IndexProbe(dir: seq<Component>): (r: Path) {
    Path(dir + [Normal("index.html")], false)
  }

  lemma IndexFileParses()
    ensures Parse("index.html") == IndexFile
  {
    SinglePiece("index.html");
    BodyCons("index.html", []);
    assert BodyComponents([]) == [];
  }

  lemma ProbeIsJoin(dir: Path)
    requires dir.comps != []
    ensures Join(dir, IndexFile) == IndexProbe(dir.comps)
  {
  }

  // ---------------------------------------------------------------------
  // The upward search for index.html (serve.rs lines 51-64)
  // ---------------------------------------------------------------------

  /** The search, one component at a time from the full path downwards. */
  function IndexSearch(fs: Fs, dir: seq<Component>): (r: WalkResult)
    decreases |dir|
  {
    if dir == [] then NoIndex
    else if IndexProbe(dir) in fs.existing then Found(IndexProbe(dir))
    else if dir == [RootDir] then Spins
    else IndexSearch(fs, dir[..|dir| - 1])
  }

  /** The reference definition: the `k`-component prefix of `c` is the
      longest one whose index.html exists. */
  predicate LongestIndexed(fs: Fs, c: seq<Component>, k: int) {
    && 1 <= k <= |c|
    && IndexProbe(c[..k]) in fs.existing
    && forall j :: k < j <= |c| ==> IndexProbe(c[..j]) !in fs.existing
  }

  predicate NoneIndexed(fs: Fs, c: seq<Component>) {
    forall k :: 1 <= k <= |c| ==> IndexProbe(c[..k]) !in fs.existing
  }

  /** The search finds the longest prefix with an index.html; with none, it
      ends without a match on a relative path and spins on an absolute one. */
  lemma {:induction false} IndexSearchSpec(fs: Fs, c: seq<Component>)
    ensures IndexSearch(fs, c).Found? ==>
              exists k :: LongestIndexed(fs, c, k) && IndexSearch(fs, c).index == IndexProbe(c[..k])
    ensures IndexSearch(fs, c).Found? <==> !NoneIndexed(fs, c)
    ensures IndexSearch(fs, c).Spins? <==> NoneIndexed(fs, c) && |c| > 0 && c[0] == RootDir
    ensures IndexSearch(fs, c).NoIndex? <==> NoneIndexed(fs, c) && !(|c| > 0 && c[0] == RootDir)
    decreases |c|
  {
    if c == [] {
    } else if IndexProbe(c) in fs.existing {
      assert c[..|c|] == c;
      assert LongestIndexed(fs, c, |c|);
    } else if c == [RootDir] {
      assert c[..1] == c;
    } else {
      var c' := c[..|c| - 1];
      IndexSearchSpec(fs, c');
      assert forall j :: 1 <= j <= |c'| ==> c'[..j] == c[..j];
      assert c[..|c|] == c;
      if IndexSearch(fs, c').Found? {
        var k :| LongestIndexed(fs, c', k) && IndexSearch(fs, c').index == IndexProbe(c'[..k]);
        assert LongestIndexed(fs, c, k);
      }
      assert NoneIndexed(fs, c) <==> NoneIndexed(fs, c');
      if c' == [] {
        assert c == [c[0]];
      } else {
        assert c'[0] == c[0];
      }
    }
  }

  /** `while !index_dir.as_os_str().is_empty() { ... index_dir.pop(); }`.
      On top of the answer it returns the questions asked: one `exists()`
      per prefix, longest first. */
  method WalkForIndex(fs: Fs, start: Path) returns (r: WalkResult, calls: seq<FsCall>)
    ensures r == IndexSearch(fs, start.comps)
    ensures |calls| <= |start.comps|
    ensures forall i {:trigger calls[i]} :: 0 <= i < |calls| ==>
              calls[i] == Exists(IndexProbe(start.comps[..|start.comps| - i]))
    ensures r.Found? ==> calls != [] && calls[|calls| - 1] == Exists(r.index)
    ensures r.NoIndex? ==> |calls| == |start.comps|
  {
    var indexDir := start;
    calls := [];
    while !IsEmpty(indexDir)
      invariant indexDir.comps == start.comps[..|indexDir.comps|]
      invariant |calls| == |start.comps| - |indexDir.comps|
      invariant forall i {:trigger calls[i]} :: 0 <= i < |calls| ==>
                  calls[i] == Exists(IndexProbe(start.comps[..|start.comps| - i]))
      invariant IndexSearch(fs, indexDir.comps) == IndexSearch(fs, start.comps)
      decreases |indexDir.comps|
    {
      var indexPath := Join(indexDir, IndexFile);
      calls := calls + [Exists(indexPath)];
      if indexPath in fs.existing {
        return Found(indexPath), calls;
      }
      match Parent(indexDir)
      case None =>
        // pop() leaves "/" as it is: `file_handler` repeats this probe forever
        return Spins, calls;
      case Some(parent) =>
        indexDir := parent;
    }
    return NoIndex, calls;
  }

  // ---------------------------------------------------------------------
  // file_handler (serve.rs lines 8-75)
  // ---------------------------------------------------------------------

  function NotFoundPath(cfg: Config): (r: Path) {
    Parse(cfg.notFoundPage)
  }

  /** `public_dir.join(path.trim_end_matches('/'))`. */
  function Trimmed(cfg: Config, path: string): (r: Path) {
    Join(Parse(cfg.publicDir), Parse(TrimEndSlashes(path)))
  }

  /** `public_dir.join(path)`. */
  function AsGiven(cfg: Config, path: string): (r: Path) {
    Join(Parse(cfg.publicDir), Parse(path))
  }

  /** The decision once the request passed the gate, given the trimmed
      candidate `t` and the as-given candidate `g`. */
  function Decide(fs: Fs, notFound: Path, t: Path, g: Path): (r: Outcome) {
    if RegularFile(fs, t) && !HasParentDir(t) then ServeFile(t)
    else if RegularFile(fs, g) then ServeFile(g)
    else
      match IndexSearch(fs, g.comps)
      case Found(index) => ServeFile(index)
      case NoIndex => ServeNotFound(notFound)
      case Spins => Spin
  }

  /** The decision sequence: traversal gate, trimmed candidate, as-given
      candidate, upward index search, not-found page. */
  function Resolution(fs: Fs, cfg: Config, path: string): (r: Outcome) {
    if HasParentDir(Parse(path)) then ServeNotFound(NotFoundPath(cfg))
    else Decide(fs, NotFoundPath(cfg), Trimmed(cfg, path), AsGiven(cfg, path))
  }

  /** `p` is the index.html of a non-empty prefix of `c`. */
  predicate IsProbeOf(c: seq<Component>, p: Path) {
    var k := |p.comps| - 1;
    1 <= k <= |c| && p == IndexProbe(c[..k])
  }

  /** Every call is about the trimmed candidate `t`, the as-given candidate
      `g`, or an index.html on the way up from `g`. */
  predicate OnlyCandidates(t: Path, g: Path, calls: seq<FsCall>) {
    forall i :: 0 <= i < |calls| ==> calls[i].path == t || calls[i].path == g || IsProbeOf(g.comps, calls[i].path)
  }

  /** `p.exists() && p.is_file()`, with the calls it makes. */
  method ProbeFile(fs: Fs, p: Path) returns (hit: bool, calls: seq<FsCall>)
    ensures hit <==> RegularFile(fs, p)
    ensures calls == if p in fs.existing then [Exists(p), IsFile(p)] else [Exists(p)]
  {
    calls := [Exists(p)];
    hit := false;
    if p in fs.existing {
      calls := calls + [IsFile(p)];
      hit := p in fs.files;
    }
  }

  /** `file_handler`: returns the decision and the filesystem calls made
      on the way, in order. No call is made for an unsafe request. */
  method FileHandler(fs: Fs, cfg: Config, path: string) returns (o: Outcome, calls: seq<FsCall>)
    ensures o == Resolution(fs, cfg, path)
    ensures calls == [] <==> HasParentDir(Parse(path))
    ensures OnlyCandidates(Trimmed(cfg, path), AsGiven(cfg, path), calls)
    ensures o.ServeFile? ==> calls != [] && calls[|calls| - 1].path == o.path
  {
    var unsafe := HasTraversal(Parse(path));
    if unsafe {
      return ServeNotFound(NotFoundPath(cfg)), [];
    }
    o, calls := ServeCandidates(fs, NotFoundPath(cfg), Trimmed(cfg, path), AsGiven(cfg, path));
  }

  /** The body of `file_handler` after the gate: the trimmed candidate `t`
      (also re-checked for traversal), the as-given candidate `g`, then the
      upward search from `g`. `&&` short-circuits, as in `file_handler`. */
  method ServeCandidates(fs: Fs, notFound: Path, t: Path, g: Path) returns (o: Outcome, calls: seq<FsCall>)
    ensures o == Decide(fs, notFound, t, g)
    ensures calls != [] && OnlyCandidates(t, g, calls)
    ensures o.ServeFile? ==> calls[|calls| - 1].path == o.path
  {
    var isFile, firstCalls := ProbeFile(fs, t);
    ProbeCallsAreCandidates(fs, t, g, t);
    if isFile {
      var unsafeJoined := HasTraversal(t);
      if !unsafeJoined {
        return ServeFile(t), firstCalls;
      }
    }
    var isFile2, secondCalls := ProbeFile(fs, g);
    ProbeCallsAreCandidates(fs, t, g, g);
    CandidatesConcat(t, g, firstCalls, secondCalls);
    calls := firstCalls + secondCalls;
    if isFile2 {
      return ServeFile(g), calls;
    }
    var found, walkCalls := WalkForIndex(fs, g);
    WalkCallsAreCandidates(t, g, walkCalls);
    CandidatesConcat(t, g, calls, walkCalls);
    calls := calls + walkCalls;
    match found
    case Found(index) =>
      o := ServeFile(index);
    case NoIndex =>
      o := ServeNotFound(notFound);
    case Spins =>
      o := Spin;
  }

  lemma ProbeCallsAreCandidates(fs: Fs, t: Path, g: Path, p: Path)
    requires p == t || p == g
    ensures OnlyCandidates(t, g, if p in fs.existing then [Exists(p), IsFile(p)] else [Exists(p)])
  {
  }

  lemma WalkCallsAreCandidates(t: Path, g: Path, walkCalls: seq<FsCall>)
    requires |walkCalls| <= |g.comps|
    requires forall i {:trigger walkCalls[i]} :: 0 <= i < |walkCalls| ==>
               walkCalls[i] == Exists(IndexProbe(g.comps[..|g.comps| - i]))
    ensures OnlyCandidates(t, g, walkCalls)
  {
    forall i | 0 <= i < |walkCalls|
      ensures IsProbeOf(g.comps, walkCalls[i].path)
    {
      assert walkCalls[i].path == IndexProbe(g.comps[..|g.comps| - i]);
    }
  }

  lemma CandidatesConcat(t: Path, g: Path, a: seq<FsCall>, b: seq<FsCall>)
    requires OnlyCandidates(t, g, a) && OnlyCandidates(t, g, b)
    ensures OnlyCandidates(t, g, a + b)
  {
    forall i | 0 <= i < |a + b|
      ensures (a + b)[i] == if i < |a| then a[i] else b[i - |a|]
    {
    }
  }

  // ---------------------------------------------------------------------
  // Properties of the resolver
  // ---------------------------------------------------------------------

  /** Every outcome is one of: a regular file the oracle reports, an
      index.html the oracle says exists (the longest such prefix of the
      as-given path), the not-found page, or the endless loop, which needs
      an absolute as-given path. An unsafe request always gets the
      not-found page. */
  lemma OutcomeKinds(fs: Fs, cfg: Config, path: string)
    ensures HasParentDir(Parse(path)) ==> Resolution(fs, cfg, path) == ServeNotFound(NotFoundPath(cfg))
    ensures Resolution(fs, cfg, path).ServeFile? ==>
              var p := Resolution(fs, cfg, path).path;
              p in fs.existing &&
              (RegularFile(fs, p) ||
               exists k :: LongestIndexed(fs, AsGiven(cfg, path).comps, k) &&
                           p == IndexProbe(AsGiven(cfg, path).comps[..k]))
    ensures Resolution(fs, cfg, path).ServeNotFound? ==>
              Resolution(fs, cfg, path).path == NotFoundPath(cfg)
    ensures Resolution(fs, cfg, path).Spin? ==> IsAbsolute(AsGiven(cfg, path))
  {
    var t := Trimmed(cfg, path);
    var g := AsGiven(cfg, path);
    if HasParentDir(Parse(path)) {
    } else if RegularFile(fs, t) && !HasParentDir(t) {
    } else if RegularFile(fs, g) {
    } else {
      IndexSearchSpec(fs, g.comps);
    }
  }

  /** For a `public_dir` without "..", `d` and `d/` both serve the regular
      file `public_dir/d`: that is what the trimmed candidate is for. A ".."
      in `public_dir` defeats it: the second `has_traversal` then rejects
      the trimmed candidate, and `d/` falls through to the other steps. */
  lemma TrailingSlashServesSameFile(fs: Fs, cfg: Config, d: string)
    requires !HasParentDir(Parse(d)) && !HasParentDir(Parse(cfg.publicDir))
    requires RegularFile(fs, Trimmed(cfg, d))
    ensures Resolution(fs, cfg, d) == ServeFile(Trimmed(cfg, d))
    ensures Resolution(fs, cfg, d + "/") == ServeFile(Trimmed(cfg, d))
  {
    var d' := d + "/";
    assert d'[..|d'| - 1] == d;
    assert TrimEndSlashes(d') == TrimEndSlashes(d);
    TrimKeepsTraversal(d);
    TrimKeepsTraversal(d');
    JoinTraversal(Parse(cfg.publicDir), Parse(TrimEndSlashes(d)));
  }

  /** A safe request that does not end in `/` and names a regular file is
      served that file, whatever `public_dir` holds: when the trimmed
      candidate fails its second traversal check, the as-given candidate,
      which is the same path, picks the file up. */
  lemma ServesNamedFile(fs: Fs, cfg: Config, p: string)
    requires !HasParentDir(Parse(p))
    requires !(|p| > 0 && p[|p| - 1] == '/')
    requires RegularFile(fs, AsGiven(cfg, p))
    ensures Resolution(fs, cfg, p) == ServeFile(AsGiven(cfg, p))
  {
    assert TrimEndSlashes(p) == p;
  }

  /** With a `public_dir` that holds "..", the named file is still served. */
  lemma ServesNamedFileUnderDottedRoot(f: Path)
    requires f == AsGiven(Config("../site", "404"), "d")
    ensures Resolution(Fs({f}, {f}), Config("../site", "404"), "d") == ServeFile(f)
    ensures HasParentDir(Trimmed(Config("../site", "404"), "d"))
  {
    ServesNamedFile(Fs({f}, {f}), Config("../site", "404"), "d");
    TrimmedRecheckOnlySeesRoot(Config("../site", "404"), "d");
    assert HasParentDir(Parse("../site")) by { DotDotFirst("site"); assert ".." + "/" + "site" == "../site"; }
  }

  /** After the request passed the gate, the second `has_traversal` on the
      trimmed candidate can only fail because `public_dir` itself has a
      ".." (and never for an absolute request, which replaces it). */
  lemma TrimmedRecheckOnlySeesRoot(cfg: Config, path: string)
    requires !HasParentDir(Parse(path))
    ensures HasParentDir(Trimmed(cfg, path)) <==>
              !IsAbsolute(Parse(TrimEndSlashes(path))) && HasParentDir(Parse(cfg.publicDir))
  {
    TrimKeepsTraversal(path);
    JoinTraversal(Parse(cfg.publicDir), Parse(TrimEndSlashes(path)));
  }

  /** For a relative request both file candidates lie under `public_dir`. */
  lemma CandidatesUnderRoot(cfg: Config, path: string)
    requires !IsAbsolute(Parse(path))
    ensures Parse(cfg.publicDir).comps <= Trimmed(cfg, path).comps
    ensures Parse(cfg.publicDir).comps <= AsGiven(cfg, path).comps
  {
    var t := TrimEndSlashes(path);
    assert t != [] ==> t[0] == path[0];
  }

  /** The operating system never reports a regular file behind a path that
      it can only resolve to a directory ("pub/d/", "pub/d/."). */
  predicate DirectoryFlagRespected(fs: Fs) {
    forall p :: p in fs.files ==> !p.trailingSep
  }

  /** `d/.` names the directory `d`: neither file candidate is the regular
      file `public_dir/d`, because `exists()` fails on `pub/d/.` when
      `pub/d` is a file. */
  lemma FinalDotIsNoFile(fs: Fs, cfg: Config, d: string)
    requires DirectoryFlagRespected(fs)
    requires ValidName(d)
    ensures !RegularFile(fs, Trimmed(cfg, d + "/."))
    ensures !RegularFile(fs, AsGiven(cfg, d + "/."))
  {
    var x := d + "/.";
    assert x[|x| - 1] == '.';
    assert TrimEndSlashes(x) == x;
    var q := FinalDotOfName(d);
    var t := Join(Parse(cfg.publicDir), q);
    JoinKeepsFlag(Parse(cfg.publicDir), q);
    assert Trimmed(cfg, x) == t && AsGiven(cfg, x) == t;
    assert t !in fs.files;
  }

  /** `d/.` for a valid name `d`: the component `d`, flagged. */
  lemma FinalDotOfName(d: string) returns (q: Path)
    requires ValidName(d)
    ensures q == Parse(d + "/.") && q == Path([Normal(d)], true)
  {
    NameParses(d);
    BodyCons(d, []);
    assert BodyComponents([]) == [];
    SinglePiece(d);
    FinalCurDir(d);
    q := Parse(d + "/.");
  }

  /** Where `public_dir/d` is the only file, the request `d` serves it and
      the request `d/.` gets the not-found page: `exists()` fails on both
      candidates and the walk finds no index.html (unless `d` is itself
      "index.html", whose parent's index.html the walk then serves). */
  lemma FinalDotAfterFileIsNotFound(cfg: Config, d: string)
    requires ValidName(d) && d != "index.html"
    requires !IsAbsolute(Parse(cfg.publicDir))
    ensures var f := AsGiven(cfg, d);
            Resolution(Fs({f}, {f}), cfg, d) == ServeFile(f) &&
            Resolution(Fs({f}, {f}), cfg, d + "/.") == ServeNotFound(NotFoundPath(cfg))
  {
    var pub := Parse(cfg.publicDir);
    var f := AsGiven(cfg, d);
    var g := AsGiven(cfg, d + "/.");
    var fs := Fs({f}, {f});
    PlainNameDecides(fs, cfg, d);
    FinalDotDecides(fs, cfg, d);
    assert f == Join(pub, Path([Normal(d)], false));
    assert g == Join(pub, Path([Normal(d)], true));
    DecideFinalDot(pub, d, NotFoundPath(cfg));
  }

  lemma PlainNameDecides(fs: Fs, cfg: Config, d: string)
    requires ValidName(d)
    ensures Parse(d) == Path([Normal(d)], false)
    ensures Resolution(fs, cfg, d) == Decide(fs, NotFoundPath(cfg), AsGiven(cfg, d), AsGiven(cfg, d))
  {
    assert TrimEndSlashes(d) == d;
    NameParses(d);
    assert !HasParentDir(Parse(d)) by {
      assert Parse(d).comps == [Normal(d)];
    }
  }

  lemma FinalDotDecides(fs: Fs, cfg: Config, d: string)
    requires ValidName(d)
    ensures Parse(d + "/.") == Path([Normal(d)], true)
    ensures Resolution(fs, cfg, d + "/.") ==
              Decide(fs, NotFoundPath(cfg), AsGiven(cfg, d + "/."), AsGiven(cfg, d + "/."))
  {
    var x := d + "/.";
    assert x[|x| - 1] == '.';
    assert TrimEndSlashes(x) == x;
    var q := FinalDotOfName(d);
    assert !HasParentDir(q) by {
      assert q.comps == [Normal(d)];
    }
  }

  lemma DecideFinalDot(pub: Path, d: string, notFound: Path)
    requires !IsAbsolute(pub) && d != "index.html"
    ensures var f := Join(pub, Path([Normal(d)], false));
            var g := Join(pub, Path([Normal(d)], true));
            Decide(Fs({f}, {f}), notFound, f, f) == ServeFile(f) &&
            Decide(Fs({f}, {f}), notFound, g, g) == ServeNotFound(notFound)
  {
    var c := pub.comps + [Normal(d)];
    var f := Path(c, false);
    var g := Path(c, true);
    assert Join(pub, Path([Normal(d)], false)) == f && Join(pub, Path([Normal(d)], true)) == g by {
      if pub.comps == [] {
        assert c == [Normal(d)];
      } else {
        assert |c| >= 2;
      }
    }
    var fs := Fs({f}, {f});
    assert c[0] != RootDir;
    OnlyFileNotIndexed(f, d);
    IndexSearchSpec(fs, c);
    assert IndexSearch(fs, c) == NoIndex;
    assert g !in fs.existing;
  }

  /** Only `f` exists and its last component is not "index.html": no prefix
      of its components has an index.html. */
  lemma OnlyFileNotIndexed(f: Path, d: string)
    requires |f.comps| >= 1 && f.comps[|f.comps| - 1] == Normal(d) && d != "index.html"
    ensures NoneIndexed(Fs({f}, {f}), f.comps)
  {
    var c := f.comps;
    forall k | 1 <= k <= |c|
      ensures IndexProbe(c[..k]) != f
    {
      var probe := c[..k] + [Normal("index.html")];
      if |probe| == |c| {
        assert probe[|c| - 1] != c[|c| - 1];
      }
    }
  }

  /** An absolute request path (the route captures "/etc/passwd" from
      "//etc/passwd") replaces `public_dir`: the file is served from wherever
      it is, whatever the root. */
  lemma AbsoluteRequestEscapesRoot(fs: Fs, cfg: Config, path: string)
    requires |path| > 0 && path[0] == '/' && path[|path| - 1] != '/'
    requires !HasParentDir(Parse(path)) && RegularFile(fs, Parse(path))
    ensures Resolution(fs, cfg, path) == ServeFile(Parse(path))
  {
    assert TrimEndSlashes(path) == path;
  }

  /** Only one index.html exists, in the top directory of the as-given
      candidate `g`, and no regular file: that index.html is the answer. */
  lemma TopIndexAnswers(notFound: Path, t: Path, g: Path)
    requires |g.comps| >= 1
    ensures var above := IndexProbe(g.comps[..1]);
            Decide(Fs({above}, {}), notFound, t, g) == ServeFile(above)
  {
    var c := g.comps;
    var above := IndexProbe(c[..1]);
    var fs := Fs({above}, {});
    IndexSearchSpec(fs, c);
    assert !NoneIndexed(fs, c);
    var k :| LongestIndexed(fs, c, k) && IndexSearch(fs, c).index == IndexProbe(c[..k]);
    assert |IndexProbe(c[..k]).comps| == k + 1;
  }

  /** The upward search does not stop at the root: an index.html in the
      top directory of a two-level `public_dir` is served, although it does
      not lie inside `public_dir`, for a request that matches nothing. */
  lemma WalkEscapesRoot(cfg: Config, path: string)
    requires !IsAbsolute(Parse(path)) && !HasParentDir(Parse(path))
    requires |Parse(cfg.publicDir).comps| >= 2
    ensures var above := IndexProbe(Parse(cfg.publicDir).comps[..1]);
            Resolution(Fs({above}, {}), cfg, path) == ServeFile(above) &&
            !(Parse(cfg.publicDir).comps < above.comps)
  {
    var root := Parse(cfg.publicDir).comps;
    var g := AsGiven(cfg, path);
    CandidatesUnderRoot(cfg, path);
    assert g.comps[..1] == root[..1];
    TopIndexAnswers(NotFoundPath(cfg), Trimmed(cfg, path), g);
  }

  /** The search spins only on an absolute as-given candidate. */
  lemma SpinNeedsAbsolute(fs: Fs, notFound: Path, t: Path, g: Path)
    ensures Decide(fs, notFound, t, g) == Spin ==> IsAbsolute(g)
    ensures IsAbsolute(g) && fs.existing == {} ==> Decide(fs, notFound, t, g) == Spin
  {
    IndexSearchSpec(fs, g.comps);
  }

  /** With an absolute `public_dir` and no index.html on the way, `file_handler`
      never answers: the search reaches "/" and `pop()` stays there. */
  lemma AbsoluteRootSpins(cfg: Config, path: string)
    requires IsAbsolute(Parse(cfg.publicDir))
    requires !HasParentDir(Parse(path))
    ensures Resolution(Fs({}, {}), cfg, path) == Spin
  {
    SpinNeedsAbsolute(Fs({}, {}), NotFoundPath(cfg), Trimmed(cfg, path), AsGiven(cfg, path));
  }

  /** With a relative `public_dir` and a relative request the search ends
      after at most one probe per component, on the empty path. */
  lemma RelativeAlwaysAnswers(fs: Fs, cfg: Config, path: string)
    requires !IsAbsolute(Parse(cfg.publicDir)) && !IsAbsolute(Parse(path))
    ensures Resolution(fs, cfg, path) != Spin
  {
    var g := AsGiven(cfg, path);
    assert !IsAbsolute(g);
    SpinNeedsAbsolute(fs, NotFoundPath(cfg), Trimmed(cfg, path), g);
  }
}
