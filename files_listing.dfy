/**
 * The directory-listing renderer of `src/files_listing.rs`
 * (`directory_listing`).
 *
 * The directory read is an oracle: either `read_dir` fails, or it yields
 * the entries in enumeration order, each with what the loop asks of it:
 * whether the listing policy shows it, whether its path strips the
 * directory prefix, and its metadata (directory or not) if that read works.
 * The request path `req.path()` is a parameter.
 */
module FilesListing {
  import opened Wrappers
  import opened Paths
  import opened Encoding

  datatype EntryKind = Directory | NotDirectory

  datatype DirEntry = DirEntry(name: string, visible: bool, stripsPrefix: bool, metadata: Option<EntryKind>)

  datatype ReadDir = ReadDirFailed | Entries(entries: seq<DirEntry>)

  datatype HtmlResponse = HtmlResponse(status: int, contentType: string, body: string)

  /** The entries that get an item: visible, under the directory, with
      readable metadata. */
  predicate Kept(e: DirEntry) {
    e.visible && e.stripsPrefix && e.metadata.Some?
  }

  /** The link target: `base.join(name)` as text, percent-encoded. */
  function Href(reqPath: string, name: string): (r: string) {
    EncodeUrl(JoinText(reqPath, name))
  }

  /** The label: the raw name, HTML-escaped. */
  function Label(name: string): (r: string) {
    HtmlEscape(name)
  }

  /** The markup of one kept entry: a directory gets `/` after its label,
      a file gets the document-icon style. */
  function Item(reqPath: string, e: DirEntry): (r: string)
    requires Kept(e)
  {
    match e.metadata.value
    case Directory =>
      "<li><a href=\"" + Href(reqPath, e.name) + "\">" + Label(e.name) + "/</a></li>"
    case NotDirectory =>
      "<li style='list-style: &quot\U{1F4C4}&quot;'><a href=\"" + Href(reqPath, e.name) + "\">"
        + Label(e.name) + "</a></li>"
  }

  /** What the loop appends for one entry. */
  function Piece(reqPath: string, e: DirEntry): (r: string) {
    if Kept(e) then Item(reqPath, e) else ""
  }

  /** The `body` string after the loop has seen `entries`. */
  function Body(reqPath: string, entries: seq<DirEntry>): (r: string)
    decreases |entries|
  {
    if entries == [] then ""
    else Body(reqPath, entries[..|entries| - 1]) + Piece(reqPath, entries[|entries| - 1])
  }

  /** The kept entries, in enumeration order. */
  function Keep(entries: seq<DirEntry>): (r: seq<DirEntry>)
    ensures |r| <= |entries|
    decreases |entries|
  {
    if entries == [] then []
    else if Kept(entries[0]) then [entries[0]] + Keep(entries[1..])
    else Keep(entries[1..])
  }

  /** One item per kept entry, in order. */
  function Items(reqPath: string, kept: seq<DirEntry>): (r: seq<string>)
    requires forall i :: 0 <= i < |kept| ==> Kept(kept[i])
    ensures |r| == |kept|
    decreases |kept|
  {
    if kept == [] then []
    else Items(reqPath, kept[..|kept| - 1]) + [Item(reqPath, kept[|kept| - 1])]
  }

  function Concat(ss: seq<string>): (r: string) {
    if ss == [] then "" else ss[0] + Concat(ss[1..])
  }

  const GoBack: string := "<li style='list-style:\"\U{21A9}\U{FE0F}\"'><a href='javascript:history.back()'>Go Back</a></li>"

  const Style: string :=
    "<style>body {background-color: #202124;font-family: monospace;}"
    + "h1 {color: #93b5f6;margin: 50px 10px;}"
    + "a {all: unset;margin-left: 10px;color: #aaa;}"
    + "a:hover {text-decoration: underline;color: white;}"
    + "ul {color: #93b5f6;}"
    + "li {margin: 15px 0;font-size: 20px;list-style: '\U{1F4C1}';cursor: pointer;}</style>"

  /** The page heading, `req.path()` as it is. */
  function IndexOf(reqPath: string): (r: string) {
    "\U{1F4C2} " + reqPath
  }

  function Title(reqPath: string): (r: string) {
    "<title>" + IndexOf(reqPath) + "</title>"
  }

  function Heading(reqPath: string): (r: string) {
    "<h1>" + IndexOf(reqPath) + "</h1>"
  }

  /** The list: the fixed "Go Back" item, then the entry items. */
  function List(body: string): (r: string) {
    GoBack + body + "</ul>"
  }

  /** The final `format!` template. */
  function Page(reqPath: string, body: string): (r: string) {
    "<html><head>" + Title(reqPath) + "</head><body>" + Style + Heading(reqPath)
      + "<ul>" + List(body) + "</body>\n</html>"
  }

  /** `directory_listing`: the entry loop appending to `body`, then the page. */
  method DirectoryListing(dir: ReadDir, reqPath: string) returns (r: Result<HtmlResponse>)
    ensures dir.ReadDirFailed? ==> r.Err?
    ensures dir.Entries? ==>
              r == Ok(HtmlResponse(200, "text/html; charset=utf-8", Page(reqPath, Body(reqPath, dir.entries))))
  {
    if dir.ReadDirFailed? {
      return Err(IoError);
    }
    var entries := dir.entries;
    var body := "";
    for i := 0 to |entries|
      invariant body == Body(reqPath, entries[..i])
    {
      var entry := entries[i];
      assert entries[..i + 1][..i] == entries[..i];
      if !entry.visible {
        continue;
      }
      if !entry.stripsPrefix {
        continue;
      }
      match entry.metadata
      case None =>
      case Some(kind) =>
        body := body + Item(reqPath, entry);
    }
    assert entries[..|entries|] == entries;
    return Ok(HtmlResponse(200, "text/html; charset=utf-8", Page(reqPath, body)));
  }

  // ---------------------------------------------------------------------
  // Properties of the listing
  // ---------------------------------------------------------------------

  lemma {:induction false} ConcatAppend(a: seq<string>, b: seq<string>)
    ensures Concat(a + b) == Concat(a) + Concat(b)
    decreases |a|
  {
    if a == [] {
      assert a + b == b;
    } else {
      assert (a + b)[1..] == a[1..] + b;
      ConcatAppend(a[1..], b);
    }
  }

  lemma {:induction false} KeepAppend(a: seq<DirEntry>, e: DirEntry)
    ensures Keep(a + [e]) == Keep(a) + (if Kept(e) then [e] else [])
    decreases |a|
  {
    if a == [] {
      assert Keep([e]) == (if Kept(e) then [e] else []) + Keep([]);
    } else {
      assert (a + [e])[1..] == a[1..] + [e];
      KeepAppend(a[1..], e);
    }
  }

  lemma KeepIsKept(entries: seq<DirEntry>)
    ensures forall i :: 0 <= i < |Keep(entries)| ==> Kept(Keep(entries)[i])
  {
    KeepMembers(entries);
  }

  /** Membership: an entry gets an item exactly when it is kept. */
  lemma {:induction false} KeepMembers(entries: seq<DirEntry>)
    ensures forall e :: e in Keep(entries) <==> e in entries && Kept(e)
    decreases |entries|
  {
    if entries != [] {
      KeepMembers(entries[1..]);
      assert entries == [entries[0]] + entries[1..];
    }
  }

  lemma ItemsSnoc(reqPath: string, a: seq<DirEntry>, e: DirEntry)
    requires forall i :: 0 <= i < |a| ==> Kept(a[i])
    requires Kept(e)
    ensures forall i :: 0 <= i < |a + [e]| ==> Kept((a + [e])[i])
    ensures Items(reqPath, a + [e]) == Items(reqPath, a) + [Item(reqPath, e)]
  {
    assert (a + [e])[..|a|] == a;
  }

  /** The body is the items of the kept entries, one each, in enumeration
      order; skipped entries leave no trace. */
  lemma {:induction false} BodyIsItems(reqPath: string, entries: seq<DirEntry>)
    ensures forall i :: 0 <= i < |Keep(entries)| ==> Kept(Keep(entries)[i])
    ensures Body(reqPath, entries) == Concat(Items(reqPath, Keep(entries)))
    decreases |entries|
  {
    KeepIsKept(entries);
    if entries != [] {
      var a := entries[..|entries| - 1];
      var e := entries[|entries| - 1];
      assert entries == a + [e];
      BodyIsItems(reqPath, a);
      KeepAppend(a, e);
      if Kept(e) {
        ItemsSnoc(reqPath, Keep(a), e);
        ConcatAppend(Items(reqPath, Keep(a)), [Item(reqPath, e)]);
        assert Concat([Item(reqPath, e)]) == Item(reqPath, e);
      } else {
        assert Keep(entries) == Keep(a);
      }
    }
  }

  /** The joined text ends with the (relative, non-empty) name. */
  lemma JoinEndsWithName(reqPath: string, name: string)
    requires name != [] && name[0] != '/'
    ensures var p := JoinText(reqPath, name); p != [] && p[|p| - 1] == name[|name| - 1]
  {
  }

  /** A kept directory's link target never ends in `/`: the slash goes on
      the label only. */
  lemma DirHrefHasNoTrailingSlash(reqPath: string, name: string)
    requires name != [] && '/' !in name
    ensures var h := Href(reqPath, name); h != [] && h[|h| - 1] != '/'
  {
    JoinEndsWithName(reqPath, name);
    EncodeUrlKeepsLastNonSlash(JoinText(reqPath, name));
  }

  /** For a printable-ASCII path the link target is the path itself: a
      space stays a space and a `"` closes the `href` attribute early. */
  lemma HrefKeepsPrintable(reqPath: string, name: string)
    requires forall i :: 0 <= i < |JoinText(reqPath, name)| ==> PrintableAscii(JoinText(reqPath, name)[i])
    ensures Href(reqPath, name) == JoinText(reqPath, name)
  {
    PrintableUnchanged(JoinText(reqPath, name));
  }

  /** Percent-decoding the link target gives back the bytes of the joined
      path, provided the path holds no `%`. */
  lemma HrefDecodes(reqPath: string, name: string)
    requires '%' !in JoinText(reqPath, name)
    ensures PercentDecode(Href(reqPath, name)) == Utf8Str(JoinText(reqPath, name))
  {
    var p := JoinText(reqPath, name);
    NoPercentByte(p);
    PercentRoundTrip(Utf8Str(p));
  }

  lemma {:induction false} NoPercentByte(s: string)
    requires '%' !in s
    ensures forall i :: 0 <= i < |Utf8Str(s)| ==> Utf8Str(s)[i] != 0x25
    decreases |s|
  {
    if s != [] {
      NoPercentByte(s[1..]);
      var u := Utf8(s[0]);
      assert s[0] != '%';
      assert forall i :: 0 <= i < |u| ==> u[i] != 0x25;
    }
  }

  /** HTML-unescaping the label gives back the raw name, and the label
      cannot break out of the markup. */
  lemma LabelDecodes(name: string)
    ensures HtmlUnescape(Label(name)) == name
    ensures forall i :: 0 <= i < |Label(name)| ==> Label(name)[i] !in "<>\"'"
  {
    EscapeRoundTrip(name);
    EscapedHasNoMarkup(name);
  }

  /** `t` occurs in `s`. */
  predicate Occurs(t: string, s: string) {
    exists k :: 0 <= k <= |s| && t <= s[k..]
  }

  lemma OccursInLayout(a: string, t: string, b: string, c: string, h: string, d: string, g: string, e: string)
    ensures Occurs(t, a + t + b + c + h + d + g + e)
    ensures Occurs(h, a + t + b + c + h + d + g + e)
    ensures Occurs(g, a + t + b + c + h + d + g + e)
  {
    var s := a + t + b + c + h + d + g + e;
    assert s[|a|..] == t + b + c + h + d + g + e;
    assert s[|a + t + b + c|..] == h + d + g + e;
    assert s[|a + t + b + c + h + d|..] == g + e;
  }

  /** The request path goes into `<title>` and `<h1>` unescaped, and the
      items follow the fixed "Go Back" item. */
  lemma PageEmbedsPath(reqPath: string, body: string)
    ensures Occurs("<title>" + IndexOf(reqPath) + "</title>", Page(reqPath, body))
    ensures Occurs("<h1>" + IndexOf(reqPath) + "</h1>", Page(reqPath, body))
    ensures Occurs(GoBack + body + "</ul>", Page(reqPath, body))
  {
    OccursInLayout("<html><head>", Title(reqPath), "</head><body>", Style, Heading(reqPath),
                   "<ul>", List(body), "</body>\n</html>");
  }
}
