# rust-actix-web-server: request-path resolver and directory listing

This project models the core of a small static file server built on
actix-web:

- the traversal detector `has_traversal`;
- the request-path resolver `file_handler`, which tries two file candidates
  under `public_dir` and then searches upwards for an `index.html`;
- the directory-listing renderer `directory_listing`;
- the single-segment redirect `index_without_slash`, the IP filter's
  `on_block` answer, and the order in which the services are registered.

The model proves properties of these operations.

Paths are modelled the way Rust's `std::path` sees them on Unix (module
`Paths`). A `Path` is the sequence of its `components()` plus a flag set when
the text ends in a separator or in a `.` piece (`pub/d/`, `pub/d/.`). The
flag matters because the OS resolves such a path only to a directory:
`exists()` fails on `pub/d/` and `pub/d/.` when `pub/d` is a regular file,
although all three have the same components. A filesystem oracle that
respects this (`DirectoryFlagRespected`) lists no flagged path as a file.

- `Parse` reads text as `Path::new` does.
  - A leading `/` becomes `RootDir`.
  - A leading `.` becomes `CurDir`.
  - `..` becomes `ParentDir`.
  - Empty pieces and inner `.` pieces vanish.
- `Join` is `PathBuf::join`. An absolute argument replaces the base.
- `Parent` is `Path::parent`, which is what `pop()` truncates to.
- `ParseJoin` proves that joining on components agrees with `push` on the
  text, so the component view is justified rather than assumed.

The filesystem is an oracle `Fs`: the set of paths that exist and the set of
regular files. The configuration (`public_dir`, `not_found_page`, the
listing route) is a parameter. `FileHandler` returns its decision together
with the list of `exists()`/`is_file()` calls it made, so "no file is
touched" can be stated.

There are three outcomes:

- `ServeFile(p)`;
- `ServeNotFound(not_found_page)`;
- `Spin`, which records that `file_handler` never answers. When the joined
  path is absolute (an absolute `public_dir` or an absolute request) and no
  `index.html` lies on the way up, `pop()` on `/` does nothing, and the loop
  at `src/serve.rs:53-64` probes `/index.html` forever. When one does lie on
  the way, the longest-prefix one is served (`IndexSearchSpec`,
  `TopIndexAnswers`).

Three behaviours of the code are proved rather than excluded:

- An absolute request path (`//etc/passwd` captures `/etc/passwd`) replaces
  `public_dir` and is served from wherever it points
  (`AbsoluteRequestEscapesRoot`).
- The upward search does not stop at `public_dir`. With a two-level root it
  can serve an `index.html` from above it (`WalkEscapesRoot`).
- With an absolute `public_dir` and no `index.html` on the way, the handler
  spins (`AbsoluteRootSpins`). An absolute request (`//x`) spins as well
  when no `index.html` lies on its way, whatever `public_dir` is
  (`SpinNeedsAbsolute`), so any client can trigger the loop. With a
  relative root and a relative request it always answers
  (`RelativeAlwaysAnswers`).

The listing encoders are in module `Encoding`:

- UTF-8;
- `utf8_percent_encode` with `CONTROLS`, which encodes bytes below 0x20,
  the byte 0x7F and every non-ASCII byte as `%XX` with upper-case hex;
- an HTML escaper for `<`, `>`, `&`, `"` and `'`.

Facts about the listing encoders worth knowing:

- Under `CONTROLS` a space stays literal in a link target, as do `"`, `<`
  and `%` (`PrintableUnchanged`, `HrefKeepsPrintable`).
- A directory's link target has no trailing `/`; only its label does
  (`DirHrefHasNoTrailingSlash`).
- Percent-decoding a link target gives the path back when it holds no `%`
  (`HrefDecodes`). Since `%` is copied verbatim, a `%` followed by two hex
  digits reads back as one byte (`PercentNotInjective`).

In `file_handler`, `trim_end_matches` strips every trailing `/`, not just
one (`TrimEndSlashes`). The trim step lets `d/` serve the file `d` for a
relative request and a `public_dir` without `..`: with one, the second `has_traversal`
rejects the trimmed candidate (`TrimmedRecheckOnlySeesRoot`).
A request that does not end in `/` is still served its regular file under
such a `public_dir`, since the as-given candidate is the same path
(`ServesNamedFile`).

The redirect writes the captured segment into a `Location` header. A
segment holding a control character (the request `/%01`) is not a valid
header value; the builder records the error and `finish()` answers with an
error response instead of the 302 (`IndexWithoutSlash`).

## Model

| member | source | states |
|---|---|---|
| Paths.Parse | src/serve.rs:12 | the path text has no components exactly when it is empty, and it is absolute exactly when it starts with `/` |
| Paths.ParseWellFormed | src/utils.rs:5 | `components()` yields `RootDir`/`CurDir` only first, names without `/`, and no trailing-separator flag on an empty path or on `/` |
| Paths.RedundantSeparator | src/utils.rs:5 | `a//b` has the same components as `a/b` |
| Paths.InnerCurDir | src/utils.rs:5 | `a/./b` has the same components as `a/b` |
| Paths.Join | src/serve.rs:39 | an absolute argument replaces the base; otherwise the base's components come first and the argument's follow, without a leading `.` |
| Paths.ParseJoin | src/serve.rs:25 | joining two texts with `push` and reading the result gives the component-level join of the two parsed paths |
| Paths.JoinWellFormed | src/serve.rs:39 | joining two well-formed paths gives a well-formed path |
| Paths.Parent | src/serve.rs:63 | `pop()` finds no parent exactly for the empty path and for `/`; otherwise it drops one component, keeping a prefix |
| Paths.ParentJoin | src/serve.rs:63 | joining the popped component back onto the parent restores the path |
| Paths.FinalCurDir | src/serve.rs:25 | for `a` that names at least one component, `a/.` has the components of `a` and carries the directory flag |
| Paths.TrimEndSlashes | src/serve.rs:25 | `trim_end_matches('/')` keeps a prefix that does not end in `/` |
| Paths.TrimmedTailIsSlashes | src/serve.rs:25 | everything `trim_end_matches('/')` removes is `/` |
| Utils.HasTraversal | src/utils.rs:3-14 | the scan returns true exactly when some component is `ParentDir` |
| Utils.TraversalIffDotDotPiece | src/utils.rs:5-9 | on text: unsafe exactly when some `/`-separated piece is exactly `..` |
| Utils.DottedNamesAreSafe | src/utils.rs:12-13 | pieces like `...`, `a..b`, `..a` or `.`, and the empty path, are never flagged |
| Utils.DotDotFirst | src/utils.rs:5-10 | a leading `..` piece is detected |
| Utils.DotDotInside | src/utils.rs:5-10 | an inner `..` piece is detected |
| Utils.DotDotLast | src/utils.rs:5-10 | a final `..` piece is detected |
| Utils.JoinTraversal | src/utils.rs:5-13 | `p.join(q)` is unsafe exactly when `p` or `q` is, for relative `q`; for absolute `q`, exactly when `q` is |
| Utils.TrimKeepsTraversal | src/utils.rs:5 | trailing separators never change the verdict |
| Utils.DoubledSeparatorKeepsTraversal | src/utils.rs:5 | a doubled separator never changes the verdict |
| Serve.IndexFileParses | src/serve.rs:54 | `index.html` is the single component the walk appends |
| Serve.ProbeIsJoin | src/serve.rs:54 | `index_dir.join("index.html")` is the probe `IndexSearch` asks about |
| Serve.IndexSearchSpec | src/serve.rs:52-64 | the search returns the index.html of the longest prefix that has one; with none, it ends without a match on a relative path and spins on an absolute one |
| Serve.WalkForIndex | src/serve.rs:52-64 | the `while`/`pop()` loop returns the search result, probing `exists()` once per prefix, longest first, at most one probe per component, with the served file probed last |
| Serve.ProbeFile | src/serve.rs:42 | `exists() && is_file()` holds exactly for a regular file, and `is_file()` is asked only when `exists()` held |
| Serve.ServeCandidates | src/serve.rs:23-73 | after the gate: trimmed candidate (if it passes the second traversal check), then as-given candidate, then the index search, then the not-found page; every call concerns one of these paths, and a served file is the last path asked about |
| Serve.FileHandler | src/serve.rs:8-74 | `file_handler` decides as `Resolution` says (gate, trimmed candidate, as-given candidate, index search, not-found page); an unsafe request makes no filesystem call at all, a safe one makes some, and each call concerns a candidate path |
| Serve.OutcomeKinds | src/serve.rs:20-73 | a served path exists and is a regular file or the index.html of the longest prefix that has one; otherwise the answer is the not-found page, or the endless loop, which needs an absolute as-given candidate; an unsafe request always gets the not-found page |
| Serve.TrailingSlashServesSameFile | src/serve.rs:24-37 | for a `public_dir` without `..`, `d` and `d/` both serve `public_dir/d` when that is a regular file |
| Serve.ServesNamedFile | src/serve.rs:24-49 | a safe request that does not end in `/` is served `public_dir/p` whenever that is a regular file, whatever `public_dir` holds |
| Serve.ServesNamedFileUnderDottedRoot | src/serve.rs:24-49 | with `public_dir` `../site`, the trimmed candidate of `d` fails its traversal check, yet the as-given candidate serves the file |
| Serve.FinalDotIsNoFile | src/serve.rs:27-42 | for a filesystem that respects the directory flag, neither file candidate of `d/.` is a regular file |
| Serve.FinalDotAfterFileIsNotFound | src/serve.rs:24-73 | where `public_dir/d` is the only file, `d` serves it and `d/.` gets the not-found page (for `d` other than `index.html` and a relative `public_dir`) |
| Serve.TrimmedRecheckOnlySeesRoot | src/serve.rs:27-29 | after the gate, the second `has_traversal` fails exactly when the trimmed request is relative and `public_dir` holds `..` |
| Serve.CandidatesUnderRoot | src/serve.rs:24-39 | for a relative request both file candidates have `public_dir`'s components as a prefix |
| Serve.AbsoluteRequestEscapesRoot | src/serve.rs:24-37 | an absolute request naming a regular file is served whatever `public_dir` is |
| Serve.TopIndexAnswers | src/serve.rs:53-61 | when the only thing that exists is an index.html in the top directory of the as-given candidate, that file is served |
| Serve.WalkEscapesRoot | src/serve.rs:53 | with a two-level `public_dir`, an index.html outside it is served for a request that matches nothing |
| Serve.SpinNeedsAbsolute | src/serve.rs:53-63 | the handler spins only for an absolute as-given candidate, and always does so when nothing exists |
| Serve.AbsoluteRootSpins | src/serve.rs:63 | with an absolute `public_dir` and an empty filesystem the handler never answers |
| Serve.RelativeAlwaysAnswers | src/serve.rs:53-63 | with a relative `public_dir` and a relative request the handler always answers |
| Encoding.Utf8 | src/files_listing.rs:12 | a character takes 1 to 4 bytes, one exactly for ASCII, and a multi-byte sequence has no ASCII byte at its ends |
| Encoding.Utf8Decodes | src/files_listing.rs:12 | the bytes decode to the character and the lead byte gives the length |
| Encoding.Utf8StrInjective | src/files_listing.rs:12 | distinct strings have distinct byte sequences |
| Encoding.EncodeByte | src/files_listing.rs:12 | a `CONTROLS` or non-ASCII byte becomes `%` and two hex digits; any other byte is copied |
| Encoding.EncodedIsPrintable | src/files_listing.rs:12 | the link target is printable ASCII |
| Encoding.PercentRoundTrip | src/files_listing.rs:12 | percent-decoding undoes the encoding of bytes that hold no `%` |
| Encoding.PercentNotInjective | src/files_listing.rs:12 | byte 0x01 and the text `%01` get the same link target |
| Encoding.PrintableUnchanged | src/files_listing.rs:12 | printable ASCII, including space, `"`, `<` and `%`, is copied verbatim |
| Encoding.NonPrintableEncoded | src/files_listing.rs:12 | every byte of a character outside printable ASCII is percent-encoded |
| Encoding.EncodeUrlKeepsLastNonSlash | src/files_listing.rs:12 | text not ending in `/` is encoded into text not ending in `/` |
| Encoding.EscapeRoundTrip | src/files_listing.rs:18 | HTML-unescaping an escaped name gives the name back |
| Encoding.EscapedHasNoMarkup | src/files_listing.rs:18 | an escaped name has no `<`, `>`, `"` or `'` |
| FilesListing.DirectoryListing | src/files_listing.rs:9-111 | a `read_dir` failure is an error; otherwise the response is 200, `text/html; charset=utf-8`, the page around the body that the entry loop builds |
| FilesListing.BodyIsItems | src/files_listing.rs:31-63 | the body is one item per kept entry, in enumeration order, and nothing else |
| FilesListing.KeepMembers | src/files_listing.rs:32-44 | an entry gets an item exactly when it is visible, strips the prefix and has readable metadata |
| FilesListing.DirHrefHasNoTrailingSlash | src/files_listing.rs:45-53 | a directory's link target does not end in `/` |
| FilesListing.HrefKeepsPrintable | src/files_listing.rs:37-49 | for printable-ASCII paths the link target is the joined path itself |
| FilesListing.HrefDecodes | src/files_listing.rs:10-14 | percent-decoding the link target gives the bytes of the joined path, if it holds no `%` |
| FilesListing.LabelDecodes | src/files_listing.rs:16-20 | unescaping the label gives the raw name, and the label has no markup characters |
| FilesListing.PageEmbedsPath | src/files_listing.rs:65-102 | `📂 ` plus the unescaped request path is in both `<title>` and `<h1>`, and the items follow the Go Back item inside the list |
| Server.IndexWithoutSlash | src/main.rs:20-26 | a 302 with an empty body and a `Location` that is the segment followed by `/`, with no leading `/` added, exactly when the segment is a valid header value; otherwise the builder's `Location` error |
| Server.OnBlock | src/main.rs:28-36 | 403 with body `Forbidden`, no `Location`, whatever the client and path |
| Server.DispatchOrder | src/main.rs:77-86 | a blocked client gets 403; the listing wins over the redirect, and the redirect over the file handler; the file handler only sees the root or paths with a `/` |
| Server.RedirectResolves | src/main.rs:24 | for a segment other than `.` and `..` that is a valid header value, the relative `Location` of `/x` resolves to `/x/` |
| Server.RedirectThenServe | src/main.rs:24 | for a `public_dir` without `..` and a segment that is a valid header value, `/x` redirects, `/x/` reaches `file_handler` as `x/`, and the trimmed candidate serves `public_dir/x` |

## Left out

- Opening the chosen file is left out. So are `NamedFile::open` I/O errors, logging (`println!`, colors), and client-address lookup. The model stops at the choice of file.
- The filesystem is a fixed oracle. The model has no races and no changes between calls.
- Each `is_visible` verdict is an abstract flag on the entry, and so is each `strip_prefix` success. An entry whose read failed is one the policy does not show.
- The Windows branch of the listing (`src/files_listing.rs:38`) is left out. So is `to_string_lossy` on names that are not UTF-8. Names are Unicode strings.
- `HtmlEscape` leaves `/` alone. Whether the escaper escapes `/` depends on the library version, and file names never hold `/`.
- Routing covers GET only. actix's percent-decoding of the captured path is taken as done. Query strings are not modelled, and neither is the leading `/` actix adds to a mount route without one.
- `ResolveLocation` does not remove dot segments (section 5.2.4 of RFC 3986). `RedirectResolves` and `RedirectThenServe` therefore exclude the segments `.` and `..`.
- IndexWithoutSlash: the status and body of the error response `finish()` builds from a refused header are not modelled, only that no redirect is sent.
- Server setup is left out: TLS, binding, the server futures, configuration loading, and rate limiting. Whether the IP filter blocks a client is a parameter of `Server.Dispatch`. Only `on_block`'s reply is modelled.
- Absolute paths are not excluded. Root replacement is modelled by `Join`, and the non-terminating walk by the `Spin` outcome.
