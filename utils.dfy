/**
 * The traversal detector of `src/utils.rs`: a path is unsafe when one of
 * its components is `ParentDir`, i.e. a piece that is exactly "..".
 */
module Utils {
  import opened Paths

  /** The specification: some component is `ParentDir`. */
  predicate HasParentDir(p: Path) {
    exists i :: 0 <= i < |p.comps| && p.comps[i] == ParentDir
  }

  /** `has_traversal`: scans the components and stops at the first `ParentDir`. */
  method HasTraversal(p: Path) returns (unsafe: bool)
    ensures unsafe <==> HasParentDir(p)
  {
    for i := 0 to |p.comps|
      invariant forall j :: 0 <= j < i ==> p.comps[j] != ParentDir
    {
      if p.comps[i] == ParentDir {
        return true;
      }
    }
    return false;
  }

  lemma {:induction false} BodyParentDir(segs: seq<string>)
    ensures ParentDir in BodyComponents(segs) <==> ".." in segs
    decreases |segs|
  {
    if segs != [] {
      BodyParentDir(segs[1..]);
      assert segs == [segs[0]] + segs[1..];
    }
  }

  /** On request text: unsafe exactly when some '/'-separated piece is "..".
      Pieces that merely hold dots ("...", "a..b", "..a") do not count, and
      neither do empty pieces or ".". */
  lemma TraversalIffDotDotPiece(s: string)
    ensures HasParentDir(Parse(s)) <==> ".." in Split(s)
  {
    BodyParentDir(Split(s));
    var lead := LeadComponents(s);
    var body := BodyComponents(Split(s));
    assert Parse(s).comps == lead + body;
    assert ParentDir !in lead;
    assert ParentDir in lead + body <==> ParentDir in body;
  }

  /** `p.join(q)` is unsafe exactly when `p` or a relative `q` is; an
      absolute `q` replaces `p`, so then only `q` matters. */
  lemma JoinTraversal(p: Path, q: Path)
    ensures HasParentDir(Join(p, q)) <==>
              if IsAbsolute(q) then HasParentDir(q) else HasParentDir(p) || HasParentDir(q)
  {
    if !IsAbsolute(q) && p.comps != [] {
      var r := Join(p, q);
      var d := DropCurDir(q.comps);
      assert r.comps == p.comps + d;
      assert HasParentDir(q) <==> ParentDir in d by {
        if |q.comps| > 0 && q.comps[0] == CurDir {
          assert q.comps == [CurDir] + d;
        }
      }
      assert HasParentDir(r) <==> ParentDir in p.comps + d;
    }
  }

  /** Trailing separators never change the verdict: `trim_end_matches('/')`
      keeps a path unsafe exactly when it was. */
  lemma {:induction false} TrimKeepsTraversal(s: string)
    ensures HasParentDir(Parse(TrimEndSlashes(s))) <==> HasParentDir(Parse(s))
    decreases |s|
  {
    if |s| > 0 && s[|s| - 1] == '/' {
      var s' := s[..|s| - 1];
      assert s == s' + "/";
      assert TrimEndSlashes(s) == TrimEndSlashes(s');
      TrimKeepsTraversal(s');
      SlashKeepsTraversal(s');
    }
  }

  lemma SlashKeepsTraversal(s: string)
    ensures HasParentDir(Parse(s + "/")) <==> HasParentDir(Parse(s))
  {
    SplitTrailingSlash(s);
    TraversalIffDotDotPiece(s + "/");
    TraversalIffDotDotPiece(s);
    assert ".." in Split(s) + [""] <==> ".." in Split(s);
  }

  /** Doubled separators never change the verdict either. */
  lemma DoubledSeparatorKeepsTraversal(a: string, b: string)
    ensures HasParentDir(Parse(a + "//" + b)) <==> HasParentDir(Parse(a + "/" + b))
  {
    RedundantSeparator(a, b);
  }

  lemma SplitDotDot()
    ensures Split("..") == [".."]
  {
    var s := "..";
    assert s[1..] == ".";
    SplitDot();
    var rest := Split(s[1..]);
    assert rest == ["."];
    assert [s[0]] + rest[0] == "..";
  }

  /** A ".." piece is detected wherever it stands: first, inside or last. */
  lemma DotDotFirst(b: string)
    ensures HasParentDir(Parse(".." + "/" + b))
  {
    TraversalIffDotDotPiece(".." + "/" + b);
    SplitConcat("..", b);
    SplitDotDot();
  }

  lemma DotDotInside(a: string, b: string)
    ensures HasParentDir(Parse(a + "/.." + "/" + b))
  {
    var t := ".." + "/" + b;
    assert a + "/.." + "/" + b == a + "/" + t;
    TraversalIffDotDotPiece(a + "/" + t);
    SplitConcat(a, t);
    SplitConcat("..", b);
    SplitDotDot();
    assert Split(a + "/" + t)[|Split(a)|] == "..";
  }

  lemma DotDotLast(a: string)
    ensures HasParentDir(Parse(a + "/" + ".."))
  {
    TraversalIffDotDotPiece(a + "/" + "..");
    SplitConcat(a, "..");
    SplitDotDot();
    assert Split(a + "/" + "..")[|Split(a)|] == "..";
  }

  /** Text glued from pieces none of which is exactly ".." is never unsafe,
      whatever dots the pieces hold ("...", "a..b", "..a", "."); neither is
      the empty path. */
  lemma DottedNamesAreSafe(pieces: seq<string>)
    requires |pieces| >= 1
    requires forall i :: 0 <= i < |pieces| ==> '/' !in pieces[i] && pieces[i] != ".."
    ensures !HasParentDir(Parse(Unsplit(pieces)))
    ensures !HasParentDir(Parse(""))
  {
    UnsplitSplit(pieces);
    TraversalIffDotDotPiece(Unsplit(pieces));
    TraversalIffDotDotPiece("");
  }
}
