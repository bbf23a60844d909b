/**
 * Paths as the Rust standard library's `std::path` sees them on Unix.
 *
 * A `PathBuf` is a string; what the server relies on is its component view
 * (`Path::components`), the way `join` glues two paths, and `pop`/`parent`.
 * `Path` below keeps exactly that view: the components, plus whether the
 * text ends in a separator or a "." piece after a non-root component
 * ("pub/d/" or "pub/d/." against "pub/d"), because the operating system
 * resolves such a path only to a directory.
 * `ParseJoin` proves that `Join` on this view agrees with gluing the texts.
 */
module Paths {
  import opened Wrappers

  datatype Component = RootDir | CurDir | ParentDir | Normal(name: string)

  datatype Path = Path(comps: seq<Component>, trailingSep: bool)

  predicate IsAbsolute(p: Path) {
    |p.comps| > 0 && p.comps[0] == RootDir
  }

  /** `as_os_str().is_empty()`: only the empty text has no components. */
  predicate IsEmpty(p: Path) {
    p.comps == []
  }

  /** A name a `Normal` component can carry. */
  predicate ValidName(n: string) {
    n != "" && n != "." && n != ".." && '/' !in n
  }

  /** What every path produced by `Parse`, `Join` and `Parent` satisfies. */
  predicate WellFormed(p: Path) {
    && (forall i :: 0 < i < |p.comps| ==> p.comps[i] != RootDir && p.comps[i] != CurDir)
    && (forall i :: 0 <= i < |p.comps| && p.comps[i].Normal? ==> ValidName(p.comps[i].name))
    && (p.trailingSep ==> p.comps != [] && p.comps != [RootDir])
  }

  // ---------------------------------------------------------------------
  // Text: splitting at '/'
  // ---------------------------------------------------------------------

  /** The pieces of `s` between separators; "a//b/" gives ["a", "", "b", ""]. */
  function Split(s: string): (r: seq<string>)
    ensures |r| >= 1
    decreases |s|
  {
    if s == [] then [""]
    else if s[0] == '/' then [""] + Split(s[1..])
    else
      var rest := Split(s[1..]);
      [[s[0]] + rest[0]] + rest[1..]
  }

  /** The inverse of `Split`: the pieces glued back with '/'. */
  function Unsplit(segs: seq<string>): (r: string)
    requires |segs| >= 1
    decreases |segs|
  {
    if |segs| == 1 then segs[0] else segs[0] + "/" + Unsplit(segs[1..])
  }

  lemma {:induction false} SplitConcat(a: string, b: string)
    ensures Split(a + "/" + b) == Split(a) + Split(b)
    decreases |a|
  {
    if a == [] {
      assert a + "/" + b == "/" + b;
      assert ("/" + b)[1..] == b;
    } else {
      assert (a + "/" + b)[0] == a[0];
      assert (a + "/" + b)[1..] == a[1..] + "/" + b;
      SplitConcat(a[1..], b);
    }
  }

  /** `Split` undoes `Unsplit` when no piece holds a separator. */
  lemma {:induction false} UnsplitSplit(segs: seq<string>)
    requires |segs| >= 1
    requires forall i :: 0 <= i < |segs| ==> '/' !in segs[i]
    ensures Split(Unsplit(segs)) == segs
    decreases |segs|
  {
    SinglePiece(segs[0]);
    if |segs| > 1 {
      UnsplitSplit(segs[1..]);
      SplitConcat(segs[0], Unsplit(segs[1..]));
    }
  }

  /** Text without a separator is a single piece. */
  lemma {:induction false} SinglePiece(s: string)
    requires '/' !in s
    ensures Split(s) == [s]
    decreases |s|
  {
    if s != [] {
      SinglePiece(s[1..]);
      assert s == [s[0]] + s[1..];
    }
  }

  /** The piece after the last separator. */
  function LastPiece(s: string): (r: string) {
    Split(s)[|Split(s)| - 1]
  }

  /** The text ends in a separator or in a "." piece after one ("a/", "a/."),
      or is "." itself: the operating system resolves it as a directory. */
  predicate EndsAsDirectory(s: string) {
    LastPiece(s) == "" || LastPiece(s) == "."
  }

  lemma LastPieceGlued(a: string, b: string)
    ensures LastPiece(a + "/" + b) == LastPiece(b)
  {
    SplitConcat(a, b);
  }

  lemma SplitTrailingSlash(s: string)
    ensures Split(s + "/") == Split(s) + [""]
  {
    SplitConcat(s, "");
    assert s + "/" + "" == s + "/";
  }

  // ---------------------------------------------------------------------
  // Components
  // ---------------------------------------------------------------------

  /** One piece: empty pieces and "." vanish, ".." is `ParentDir`. */
  function SegmentComponents(seg: string): (r: seq<Component>) {
    if seg == "" || seg == "." then []
    else if seg == ".." then [ParentDir]
    else [Normal(seg)]
  }

  function BodyComponents(segs: seq<string>): (r: seq<Component>)
    decreases |segs|
  {
    if segs == [] then [] else SegmentComponents(segs[0]) + BodyComponents(segs[1..])
  }

  lemma {:induction false} BodyConcat(x: seq<string>, y: seq<string>)
    ensures BodyComponents(x + y) == BodyComponents(x) + BodyComponents(y)
    decreases |x|
  {
    if x != [] {
      assert (x + y)[0] == x[0];
      assert (x + y)[1..] == x[1..] + y;
      BodyConcat(x[1..], y);
    } else {
      assert x + y == y;
    }
  }

  /** The component the text starts with before its pieces: `RootDir` for a
      leading '/', `CurDir` for a leading "." piece of a relative path. */
  function LeadComponents(s: string): (r: seq<Component>) {
    if |s| > 0 && s[0] == '/' then [RootDir]
    else if Split(s)[0] == "." then [CurDir]
    else []
  }

  /** `Path::new(s)`, seen through `components()`. */
  function Parse(s: string): (p: Path)
    ensures p.comps == [] <==> s == []
    ensures IsAbsolute(p) <==> |s| > 0 && s[0] == '/'
  {
    var comps := LeadComponents(s) + BodyComponents(Split(s));
    assert s != [] && s[0] != '/' ==> Split(s)[0] != "" && Split(s)[0][0] == s[0];
    assert s != [] && s[0] != '/' && Split(s)[0] != "." ==> BodyComponents(Split(s)) != [];
    Path(comps, EndsAsDirectory(s) && comps != [] && comps != [RootDir])
  }

  lemma {:induction false} SplitPiecesHaveNoSeparator(s: string)
    ensures forall i :: 0 <= i < |Split(s)| ==> '/' !in Split(s)[i]
    decreases |s|
  {
    if s != [] {
      SplitPiecesHaveNoSeparator(s[1..]);
    }
  }

  lemma {:induction false} BodyHasNoRootOrCurDir(segs: seq<string>)
    ensures forall i :: 0 <= i < |BodyComponents(segs)| ==>
              BodyComponents(segs)[i] != RootDir && BodyComponents(segs)[i] != CurDir
    decreases |segs|
  {
    if segs != [] {
      BodyHasNoRootOrCurDir(segs[1..]);
    }
  }

  lemma {:induction false} BodyValidNames(segs: seq<string>)
    requires forall i :: 0 <= i < |segs| ==> '/' !in segs[i]
    ensures forall i :: 0 <= i < |BodyComponents(segs)| && BodyComponents(segs)[i].Normal? ==>
              ValidName(BodyComponents(segs)[i].name)
    decreases |segs|
  {
    if segs != [] {
      BodyValidNames(segs[1..]);
    }
  }

  lemma ParseWellFormed(s: string)
    ensures WellFormed(Parse(s))
  {
    SplitPiecesHaveNoSeparator(s);
    BodyValidNames(Split(s));
    BodyHasNoRootOrCurDir(Split(s));
  }

  // ---------------------------------------------------------------------
  // Join (PathBuf::push / Path::join) and Parent (Path::parent, PathBuf::pop)
  // ---------------------------------------------------------------------

  /** `PathBuf::push` on the text: an absolute argument replaces the base;
      otherwise a separator is inserted unless the base is empty or already
      ends in one. */
  function JoinText(base: string, p: string): (r: string) {
    if |p| > 0 && p[0] == '/' then p
    else if base == [] then p
    else if base[|base| - 1] == '/' then base + p
    else base + "/" + p
  }

  function DropCurDir(comps: seq<Component>): (r: seq<Component>) {
    if |comps| > 0 && comps[0] == CurDir then comps[1..] else comps
  }

  /** `base.join(p)` on components. A relative `p` lands under `base`; an
      absolute one discards `base` altogether. */
  function Join(base: Path, p: Path): (r: Path)
    ensures IsAbsolute(p) ==> r == p
    ensures !IsAbsolute(p) ==> base.comps <= r.comps
    ensures !IsAbsolute(p) && base.comps != [] ==> r.comps[|base.comps|..] == DropCurDir(p.comps)
  {
    if IsAbsolute(p) then p
    else if base.comps == [] then p
    else
      var comps := base.comps + DropCurDir(p.comps);
      Path(comps, (p.comps == [] || p.trailingSep) && comps != [RootDir])
  }

  lemma LeadOfJoinedText(a: string, b: string)
    requires a != []
    ensures LeadComponents(a + "/" + b) == LeadComponents(a)
  {
    SplitConcat(a, b);
    assert (a + "/" + b)[0] == a[0];
  }

  /** Gluing a non-empty text and a piece list with '/' concatenates the components. */
  lemma ComponentsOfGlued(a: string, b: string)
    requires a != []
    ensures Parse(a + "/" + b).comps == Parse(a).comps + BodyComponents(Split(b))
  {
    SplitConcat(a, b);
    BodyConcat(Split(a), Split(b));
    LeadOfJoinedText(a, b);
  }

  lemma SplitAfterSlash(b: string)
    ensures Split("/" + b) == [""] + Split(b)
  {
    assert ("/" + b)[0] == '/';
    assert ("/" + b)[1..] == b;
  }

  lemma BodyCons(x: string, y: seq<string>)
    ensures BodyComponents([x] + y) == SegmentComponents(x) + BodyComponents(y)
  {
    assert ([x] + y)[0] == x;
    assert ([x] + y)[1..] == y;
  }

  /** Two texts with the same lead, the same pieces' components and the same
      last-character-is-separator answer are the same path. */
  lemma ParseEq(s: string, t: string)
    requires LeadComponents(s) == LeadComponents(t)
    requires BodyComponents(Split(s)) == BodyComponents(Split(t))
    requires EndsAsDirectory(s) == EndsAsDirectory(t)
    ensures Parse(s) == Parse(t)
  {
  }

  lemma ComponentsAfterRoot(b: string)
    ensures Parse("/" + b).comps == [RootDir] + BodyComponents(Split(b))
  {
    SplitAfterSlash(b);
    BodyCons("", Split(b));
    assert ("/" + b)[0] == '/';
  }

  lemma EmptyTextHasNoPieceComponents()
    ensures BodyComponents(Split("")) == []
  {
    BodyCons("", []);
  }

  /** The same when the base text already ends in its separator. */
  lemma ComponentsOfSlashEnded(a: string, b: string)
    requires a != [] && a[|a| - 1] == '/'
    ensures Parse(a + b).comps == Parse(a).comps + BodyComponents(Split(b))
  {
    if |a| == 1 {
      assert a == "/";
      RootPlus(b);
    } else {
      var a' := a[..|a| - 1];
      assert a == a' + "/";
      assert a + b == a' + "/" + b;
      GluedTwice(a', b);
    }
  }

  lemma RootPlus(b: string)
    ensures Parse("/" + b).comps == Parse("/").comps + BodyComponents(Split(b))
  {
    RootText();
    ComponentsAfterRoot(b);
  }

  lemma RootText()
    ensures Parse("/").comps == [RootDir]
  {
    var s := "/";
    assert s[1..] == [];
    assert Split(s) == ["", ""];
    BodyCons("", [""]);
    BodyCons("", []);
  }

  lemma GluedTwice(a: string, b: string)
    requires a != []
    ensures Parse(a + "/" + b).comps == Parse(a + "/").comps + BodyComponents(Split(b))
  {
    ComponentsOfGlued(a, b);
    SlashAppended(a);
  }

  /** A trailing separator adds no component. */
  lemma SlashAppended(a: string)
    requires a != []
    ensures Parse(a + "/").comps == Parse(a).comps
  {
    assert BodyComponents(Split(a + "/")) == BodyComponents(Split(a)) by {
      SplitTrailingSlash(a);
      BodyConcat(Split(a), [""]);
      BodyCons("", []);
    }
    assert LeadComponents(a + "/") == LeadComponents(a) by {
      SplitTrailingSlash(a);
      assert (a + "/")[0] == a[0];
    }
  }

  lemma RelativeDropCurDir(b: string)
    requires !(|b| > 0 && b[0] == '/')
    ensures DropCurDir(Parse(b).comps) == BodyComponents(Split(b))
  {
    var body := BodyComponents(Split(b));
    BodyHasNoRootOrCurDir(Split(b));
    if LeadComponents(b) == [CurDir] {
      assert Parse(b).comps == [CurDir] + body;
      assert ([CurDir] + body)[1..] == body;
    } else {
      assert Parse(b).comps == body;
    }
  }

  /** The component view is faithful: joining the texts and then reading
      the components gives what `Join` computes from the two views. */
  lemma ParseJoin(a: string, b: string)
    ensures Parse(JoinText(a, b)) == Join(Parse(a), Parse(b))
  {
    if |b| > 0 && b[0] == '/' {
    } else if a == [] {
      assert Split(a) == [""];
      assert Parse(a).comps == [];
    } else {
      JoinComponents(a, b);
      JoinLastPiece(a, b);
      assert b == [] ==> LastPiece(b) == "";
    }
  }

  lemma JoinComponents(a: string, b: string)
    requires a != [] && !(|b| > 0 && b[0] == '/')
    ensures Parse(JoinText(a, b)).comps == Parse(a).comps + DropCurDir(Parse(b).comps)
  {
    if a[|a| - 1] == '/' {
      ComponentsOfSlashEnded(a, b);
    } else {
      ComponentsOfGlued(a, b);
    }
    RelativeDropCurDir(b);
  }

  lemma JoinLastPiece(a: string, b: string)
    requires a != [] && !(|b| > 0 && b[0] == '/')
    ensures LastPiece(JoinText(a, b)) == LastPiece(b)
  {
    if a[|a| - 1] == '/' {
      var a' := a[..|a| - 1];
      assert JoinText(a, b) == a' + "/" + b;
      LastPieceGlued(a', b);
    } else {
      LastPieceGlued(a, b);
    }
  }

  /** `Path::parent`: `None` for the empty path and for the bare root;
      otherwise the path without its last component (and without any
      trailing separator). `PathBuf::pop` does nothing when this is `None`. */
  function Parent(p: Path): (r: Option<Path>)
    ensures r.None? <==> p.comps == [] || p.comps == [RootDir]
    ensures r.Some? ==> |r.value.comps| == |p.comps| - 1 && r.value.comps <= p.comps
  {
    if p.comps == [] || p.comps == [RootDir] then None
    else Some(Path(p.comps[..|p.comps| - 1], false))
  }

  /** Parent and join are inverse: joining the last component back onto
      the parent restores a well-formed path. */
  lemma ParentJoin(p: Path)
    requires WellFormed(p) && Parent(p).Some?
    ensures Join(Parent(p).value, Path([p.comps[|p.comps| - 1]], p.trailingSep)) == p
  {
    var n := |p.comps|;
    var last := p.comps[n - 1];
    var q := Parent(p).value;
    if n == 1 {
      assert last != RootDir;
      assert q.comps == [];
    } else {
      assert last != RootDir && last != CurDir;
      assert q.comps + [last] == p.comps;
    }
  }

  lemma JoinWellFormed(a: Path, b: Path)
    requires WellFormed(a) && WellFormed(b)
    ensures WellFormed(Join(a, b))
  {
    if !IsAbsolute(b) && a.comps != [] {
      var d := DropCurDir(b.comps);
      assert forall i :: 0 <= i < |d| ==> d[i] != RootDir && d[i] != CurDir by {
        if |b.comps| > 0 && b.comps[0] == CurDir {
          assert forall i :: 0 <= i < |d| ==> d[i] == b.comps[i + 1];
        }
      }
      var r := Join(a, b);
      assert r.comps == a.comps + d;
      assert forall i :: 0 <= i < |r.comps| && r.comps[i].Normal? ==> ValidName(r.comps[i].name) by {
        forall i | 0 <= i < |r.comps| && r.comps[i].Normal?
          ensures ValidName(r.comps[i].name)
        {
          if i >= |a.comps| {
            if |b.comps| > 0 && b.comps[0] == CurDir {
              assert r.comps[i] == b.comps[i - |a.comps| + 1];
            } else {
              assert r.comps[i] == b.comps[i - |a.comps|];
            }
          }
        }
      }
    }
  }

  lemma SplitDot()
    ensures Split(".") == ["."]
  {
    var s := ".";
    assert s[1..] == [];
    var rest := Split(s[1..]);
    assert rest == [""];
    assert [s[0]] + rest[0] == ".";
  }

  /** `a + "/" + x` and `a + "/" + b` are the same path when the pieces of
      `x` have the components of the pieces of `b`. */
  lemma GluedSame(a: string, x: string, b: string)
    requires BodyComponents(Split(x)) == BodyComponents(Split(b))
    requires EndsAsDirectory(x) == EndsAsDirectory(b)
    ensures Parse(a + "/" + x) == Parse(a + "/" + b)
  {
    var s, t := a + "/" + x, a + "/" + b;
    assert BodyComponents(Split(s)) == BodyComponents(Split(t)) by {
      SplitConcat(a, x);
      SplitConcat(a, b);
      BodyConcat(Split(a), Split(x));
      BodyConcat(Split(a), Split(b));
    }
    assert LeadComponents(s) == LeadComponents(t) by {
      if a != [] {
        LeadOfJoinedText(a, x);
        LeadOfJoinedText(a, b);
      } else {
        assert s[0] == '/' && t[0] == '/';
      }
    }
    LastPieceGlued(a, x);
    LastPieceGlued(a, b);
    ParseEq(s, t);
  }

  /** "a//b" reads as "a/b": a doubled separator changes nothing. */
  lemma RedundantSeparator(a: string, b: string)
    ensures Parse(a + "//" + b) == Parse(a + "/" + b)
  {
    assert a + "//" + b == a + "/" + ("/" + b);
    assert BodyComponents(Split("/" + b)) == BodyComponents(Split(b)) by {
      SplitAfterSlash(b);
      BodyCons("", Split(b));
    }
    assert "" + "/" + b == "/" + b;
    LastPieceGlued("", b);
    GluedSame(a, "/" + b, b);
  }

  /** "a/./b" reads as "a/b": an inner "." piece changes nothing. */
  lemma InnerCurDir(a: string, b: string)
    ensures Parse(a + "/./" + b) == Parse(a + "/" + b)
  {
    assert a + "/./" + b == a + "/" + ("./" + b);
    assert BodyComponents(Split("./" + b)) == BodyComponents(Split(b)) by {
      assert "./" + b == "." + "/" + b;
      SplitConcat(".", b);
      SplitDot();
      BodyCons(".", Split(b));
    }
    assert "./" + b == "." + "/" + b;
    LastPieceGlued(".", b);
    GluedSame(a, "./" + b, b);
  }

  /** Joining onto a flagged path that names something below its lead keeps
      the flag. */
  lemma JoinKeepsFlag(base: Path, q: Path)
    requires q.trailingSep && DropCurDir(q.comps) != []
    requires !IsAbsolute(q) ==> DropCurDir(q.comps)[0] != RootDir
    ensures Join(base, q).trailingSep
  {
    if !IsAbsolute(q) && base.comps != [] {
      var comps := base.comps + DropCurDir(q.comps);
      assert comps[|base.comps|] != RootDir;
    }
  }

  /** A single valid name is one `Normal` component without the flag. */
  lemma NameParses(n: string)
    requires ValidName(n)
    ensures Parse(n) == Path([Normal(n)], false)
  {
    SinglePiece(n);
    BodyCons(n, []);
    assert BodyComponents([]) == [];
    assert LastPiece(n) == n;
  }

  /** "a/." reads as "a" with the directory flag set: the same components,
      but the operating system resolves it only to a directory. */
  lemma FinalCurDir(a: string)
    requires BodyComponents(Split(a)) != []
    ensures Parse(a + "/.").comps == Parse(a).comps
    ensures Parse(a + "/.").trailingSep
  {
    EmptyTextHasNoPieceComponents();
    assert a != [];
    DotPieceAdds(a);
    var body := BodyComponents(Split(a));
    var comps := Parse(a).comps;
    assert comps == LeadComponents(a) + body;
    BodyHasNoRootOrCurDir(Split(a));
    assert body[0] != RootDir;
    assert comps != [RootDir] by {
      if LeadComponents(a) == [] {
        assert comps[0] == body[0];
      } else {
        assert |comps| >= 2;
      }
    }
    assert a + "/." == a + "/" + ".";
    LastPieceGlued(a, ".");
    SplitDot();
    assert LastPiece(".") == ".";
  }

  lemma DotPieceAdds(a: string)
    requires a != []
    ensures BodyComponents(Split(a + "/.")) == BodyComponents(Split(a))
    ensures LeadComponents(a + "/.") == LeadComponents(a)
  {
    assert a + "/." == a + "/" + ".";
    SplitConcat(a, ".");
    SplitDot();
    assert Split(a + "/.") == Split(a) + ["."];
    BodyConcat(Split(a), ["."]);
    BodyCons(".", []);
    assert BodyComponents(["."]) == [];
    LeadOfJoinedText(a, ".");
  }

  // ---------------------------------------------------------------------
  // str::trim_end_matches('/')
  // ---------------------------------------------------------------------

  /** Removes every trailing '/', not only the last one. */
  function TrimEndSlashes(s: string): (r: string)
    ensures r <= s
    ensures r == [] || r[|r| - 1] != '/'
    decreases |s|
  {
    if |s| > 0 && s[|s| - 1] == '/' then TrimEndSlashes(s[..|s| - 1]) else s
  }

  /** What `trim_end_matches('/')` removes is separators only. */
  lemma {:induction false} TrimmedTailIsSlashes(s: string)
    ensures forall i :: |TrimEndSlashes(s)| <= i < |s| ==> s[i] == '/'
    decreases |s|
  {
    if |s| > 0 && s[|s| - 1] == '/' {
      TrimmedTailIsSlashes(s[..|s| - 1]);
    }
  }
}
