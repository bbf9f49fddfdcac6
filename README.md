# sharedir: the request sandbox, modelled in Dafny

sharedir is a small HTTP server. It shares one directory, the root, read-only.
Its security rests on one path of code, which runs for every request:

- `parseSafePath` strips the leading slash from the request URI and decodes
  HTML entities and three percent escapes. It joins the result onto the root,
  makes the result absolute, and admits it only when the root is a string
  prefix of it. It returns the absolute path and the path relative to the root.
- `serve` answers the favicon URI first. An inadmissible path gets 400 and a
  path that `os.Stat` cannot see gets 404. Only then does the sharing policy
  decide: a directory is listed only when it is the root or recursive mode is
  on, a file is served only when it sits directly in the root or recursive mode
  is on, and anything else gets 401.
- `guessMimeType` picks the content type of a served file from its extension.
- The listing page computes its title (`"/" + rel`) and its links (the `href`
  template function).
- `main` scans the command line `sharedir [-r] [-a ADDR] [directory]`.

The model has these modules:

- `Strings` (strings.dfy) models Go's `strings.HasPrefix`, `TrimPrefix` and
  `ReplaceAll`.
- `FilePath` (filepath.dfy) models the lexical path functions of Go's
  `path/filepath` for "/"-separated paths: `Clean`, `Join`, `Dir` and `Ext`.
  They are built on splitting into elements and the left-to-right scan of
  `Clean` (`Lex`). A clean absolute path is characterised by its element list
  (`Segs`).
- `Sandbox` (sandbox.dfy) holds `parseSafePath` as written and the
  segment-bounded containment test that its doc comment promises.
- `Serve` (serve.dfy) holds the decision of `serve` as a response value, as
  written and with the corrected containment test.
- `Mime` (mime.dfy) holds `guessMimeType`.
- `Listing` (listing.dfy) holds the page title and the link function of
  `serveDir`.
- `Cli` (cli.dfy) holds the argument loop of `main`. It is a method with a
  `while` loop, proved equal to a recursive specification function.
- `Wrappers` (wrappers.dfy) holds `Option`.

The root and the recursive flag are package globals in the program. They are
set once at startup and never written again. In the model they are parameters.
These library calls are function-typed parameters:

- `html.UnescapeString` is `unescape`.
- `mime.TypeByExtension` is `typeByExtension`; "" means an unknown extension.
- `os.Stat` is `stat`, a function from paths to `StatError`, `IsDirectory` or
  `NotDirectory`.

The comment above `parseSafePath` (sharedir.go:29-31) promises that a path
is admissible only when it is "a subpath of root". The code does not quite
keep that promise, and the model follows the code:

- The code tests a bare string prefix (sharedir.go:53). The root "/data" is
  a string prefix of the sibling "/data-secret", which is not a subpath of
  it. A path that fails the test is answered 400 "invalid path"
  (sharedir.go:100-102). `Sandbox.ParseSafePath` and `Serve.Serve` model the
  code as written.
- The promised test is modelled beside it, in `Sandbox.ParseSafePathWithin`
  and `Serve.ServeWithin`. A bounded test written as "equal to the root, or
  prefixed by the root followed by a separator" would reject every path other
  than the root itself when the root is "/". `Sandbox.Within` handles that root separately.

Paths below the root are written `Below(root, rel)`: the root, one
separator, and `rel`, with no separator added after the root "/". For any
other root this is root + "/" + rel.

## Model

| member | source | states |
|---|---|---|
| Strings.HasPrefix | sharedir.go:53 | `p` is a prefix of `s` exactly when `s` is `p` followed by the rest of `s` |
| Strings.TrimPrefix | sharedir.go:39 | the result is `s` without `p` when `p` is a prefix, else `s` unchanged |
| Strings.ReplaceAll | sharedir.go:41-43 | a string in which the pattern does not occur is left unchanged |
| Strings.ReplaceAllKeep | sharedir.go:41-43 | text in which the pattern cannot start is copied unchanged, and replacing goes on after it |
| Strings.ReplaceAllSplice | sharedir.go:41-43 | the first occurrence after such text becomes the replacement, the text before it is kept, and the rest is replaced in turn |
| Strings.ReplaceAllSkip | sharedir.go:41-43 | a piece that starts like the pattern without being an occurrence of it is copied unchanged |
| Strings.ReplaceAllRemoves | sharedir.go:41-43 | after replacing every `%XX` by a character that cannot start one, no `%XX` is left |
| Strings.ReplaceAllKeepsAbsent | sharedir.go:41-43 | a replacement whose text shares no character with a pattern never creates that pattern, so a later replacement cannot bring back one an earlier replacement removed |
| Sandbox.Decode | sharedir.go:40-43 | after decoding, none of "%20", "%28", "%29" is left in the request path, and when HTML unescaping leaves no '%' the decoded path is the unescaped one |
| Sandbox.DecodePercent | sharedir.go:41-43 | the three percent passes leave none of the three escapes, and leave a string without '%' as it is |
| Sandbox.DecodePass | sharedir.go:41-43 | one pass keeps '%'-free text, replaces an escape that is its pattern, keeps any other escape, and goes on over the rest |
| Sandbox.DecodePercentEscape | sharedir.go:41-43 | "%20", "%28" and "%29" after '%'-free text become ' ', '(' and ')', and decoding goes on over the rest, so a path of '%'-free text and escapes is decoded escape by escape |
| Sandbox.DecodeEscape | sharedir.go:40-43 | a request whose unescaping is one escape between '%'-free pieces decodes to those pieces with the escape's character between them |
| FilePath.SplitJoin | sharedir.go:46 | splitting the join of separator-free elements gives them back |
| FilePath.JoinSplit | sharedir.go:46 | joining the split of a string gives it back |
| FilePath.SplitConcat | sharedir.go:46 | splitting at a separator splits the two sides independently |
| FilePath.LexAppendPlain | sharedir.go:46-48 | plain elements after any prefix survive cleaning unchanged |
| FilePath.LexDropLast | sharedir.go:46-48 | a ".." after a kept element removes that element |
| FilePath.LexSkip | sharedir.go:46-48 | an empty or "." element vanishes, rooted or not |
| FilePath.LexRootUp | sharedir.go:46-48 | a ".." with nothing left to remove vanishes at the start of a rooted path |
| FilePath.LexRelUp | sharedir.go:46-48 | in a relative path a ".." with nothing left to remove, or after a kept "..", is kept |
| FilePath.Clean | sharedir.go:46-48 | the result is never empty, and it is absolute exactly when the argument is; its elements are those `Lex` keeps under the rules of the `Lex` lemmas |
| FilePath.CleanAbs | sharedir.go:46-48 | cleaning an absolute path gives a clean absolute path whose elements are those `Lex` keeps |
| FilePath.CleanIdempotent | sharedir.go:46-48 | cleaning is idempotent on absolute paths and leaves no empty, "." or ".." element |
| FilePath.CleanFixesCleanAbs | sharedir.go:48 | a clean absolute path is its own cleaning, so making it absolute again changes nothing |
| FilePath.FromSegs | sharedir.go:46-48 | every list of plain elements is the element list of exactly one clean absolute path |
| FilePath.SegsInjective | sharedir.go:58 | (helper fact about element lists, not a model of the line) two clean absolute paths are equal exactly when their element lists are |
| FilePath.Join | sharedir.go:46 | the join is empty only when both parts are, and a join with a non-empty first part is absolute exactly when that part is |
| FilePath.JoinCleanRel | sharedir.go:46 | joining a clean relative path onto a clean absolute one appends its elements |
| FilePath.JoinCleanRelText | sharedir.go:46 | as text, that join is the relative path placed below the absolute one, with one separator between them |
| FilePath.BelowTwice | sharedir.go:191 | (helper fact about strings, not a model of the line) placing "a/b" below a path is placing b below a below that path |
| FilePath.JoinRelPlain | sharedir.go:191 | joining a plain name onto a clean relative path appends it with one separator, and the result is clean |
| FilePath.Dir | sharedir.go:117 | the directory is never empty, is absolute when the path is, and is "." for a path without a separator |
| FilePath.DirCleanAbs | sharedir.go:117 | the directory of a clean absolute path other than "/" is that path without its last element |
| FilePath.DirOfRoot | sharedir.go:117 | the directory of "/" is "/" |
| FilePath.Child | sharedir.go:117 | a plain name placed below a clean absolute path (including "/") is clean, one element longer, and its directory is the parent |
| FilePath.ExtEmpty | sharedir.go:71 | the extension is empty exactly when the final element has no '.' |
| FilePath.ExtLast | sharedir.go:71 | the extension depends only on the final element of the path |
| FilePath.Ext | sharedir.go:71 | the extension is empty, or a '.'-led suffix of the path with no other '.' and no separator |
| Sandbox.Resolve | sharedir.go:39-51 | the candidate path is clean and absolute, and cleaning it again changes nothing, so making it absolute cannot fail |
| Sandbox.ResolveUnescaped | sharedir.go:39-48 | a request "/" + e whose unescaping has no '%' resolves to the cleaned root, separator and unescaped text |
| Sandbox.Contain | sharedir.go:53-61 | the test admits exactly the paths that have the root as a string prefix, and keeps the path as `abs` |
| Sandbox.ContainStripsRoot | sharedir.go:58-61 | for clean paths, `rel` is empty exactly for the root, and is otherwise the path without the root and then without at most one leading separator |
| Sandbox.ParseSafePath | sharedir.go:33-64 | a request is admitted exactly when its candidate has the root as a string prefix; what is admitted is the clean candidate, with an empty `rel` exactly for the root |
| Sandbox.ContainBelow | sharedir.go:53-61 | a clean relative path placed below the root is admitted with that relative path, and its elements continue the root's |
| Sandbox.ParseCleanRequest | sharedir.go:33-64 | a clean relative request without '%' that HTML unescaping leaves alone is admitted as that path placed below the root, with the request as `rel`, for every root including "/" |
| Sandbox.ClimbOutOfRoot | sharedir.go:46-56 | under a two-element root, a request that unescapes to "../../c/d" cleans to "/c/d", which is rejected when c and a start with different characters |
| Sandbox.TraversalRejected | sharedir.go:46-56 | under "/srv/share", a request that unescapes to "../../etc/passwd" resolves to "/etc/passwd" and is not admitted |
| Sandbox.SiblingPrefixAccepted | sharedir.go:53-61 | under "/n", a request that unescapes to "../" + n + s is admitted as the sibling "/" + n + s with `rel` s, though it is not below the root; the corrected test rejects it |
| Sandbox.SiblingDotDot | sharedir.go:53-61 | under "/n", a request that unescapes to "../" + n + ".." is admitted with `rel` "..", which is not a clean relative path; the corrected test rejects it |
| Sandbox.RootClimb | sharedir.go:39-61 | under the root "/", a request that unescapes to "../" + x resolves to "/" + x and is admitted with `rel` x |
| Sandbox.SiblingDataSecret | sharedir.go:53-61 | under "/data", the request "/&period;&period;/data-secret" is admitted as "/data-secret" with `rel` "-secret", and the corrected test rejects it |
| Sandbox.WithinIffSubpath | sharedir.go:29-31 | the corrected test holds exactly when the root's elements are a prefix of the path's |
| Sandbox.SubpathBelow | sharedir.go:29-31 | a path in the root's subtree, other than the root, is a clean relative path placed below the root, and the string-prefix test derives that relative path |
| Sandbox.ContainWithin | sharedir.go:29-31 | the corrected containment admits exactly the paths in the root's subtree and then agrees with the string-prefix test; `rel` is empty for the root and otherwise a clean relative path that leads from the root back to the path |
| Sandbox.ParseSafePathWithin | sharedir.go:29-31 | every path the corrected parse admits lies in the root's subtree, is admitted by the original parse with the same result, and has an empty or clean relative `rel` |
| Sandbox.ParseWithinAgrees | sharedir.go:29-56 | the corrected parse admits exactly those admissions of the original parse that lie in the root's subtree |
| Serve.Authorize | sharedir.go:105-123 | a directory is listed exactly when stat says directory and recursive mode is on or it is the root; a file is served exactly when stat says file and recursive mode is on or its directory is the root; otherwise 404 on a stat error, else 401 |
| Serve.AuthorizeOutcome | sharedir.go:105-123 | the policy never answers 400 or with the icon, answers 404 "invalid path" exactly on a stat error, and otherwise serves or answers 401 "unauthorized" |
| Serve.Serve | sharedir.go:95-123 | the icon is answered exactly for the favicon URI, and whatever is served was admitted by the path check and found by the stat |
| Serve.ServeCheckOrder | sharedir.go:95-123 | 400 answers exactly an inadmissible path other than the favicon URI, 404 exactly a failed stat, and every answer is the icon, a served path, 400 or 404 "invalid path", or 401 "unauthorized" |
| Serve.ServeAdmitted | sharedir.go:100-123 | an admitted request other than the favicon URI is answered by the policy on the admitted path |
| Serve.ServedHasRootPrefix | sharedir.go:100-121 | whatever is served is the resolved candidate, clean, with the root as a string prefix, and it is listed exactly when stat reports a directory |
| Serve.DirIsRoot | sharedir.go:117 | a clean path whose directory is the root is the root or one element below it |
| Serve.NonRecursiveConfined | sharedir.go:111-121 | outside recursive mode, only the root itself is listed, and only files one element below the root are served |
| Serve.ServeWithin | sharedir.go:29-31 | with the corrected containment test, whatever is served lies in the root's subtree |
| Serve.ServeWithinAdmitted | sharedir.go:100-123 | with the corrected test, a request other than the favicon URI is answered by the policy when admitted and with 400 otherwise |
| Serve.WithinSameOutsideRecursive | sharedir.go:100-123 | outside recursive mode, both containment tests serve exactly the same things |
| Serve.AuthorizeOutsideRefused | sharedir.go:111-123 | outside recursive mode, nothing outside the root's subtree is served |
| Serve.AdmittedPolicy | sharedir.go:100-123 | an admitted path is served in recursive mode when stat finds it; one outside the subtree gets 400 from the corrected test, and 401 outside recursive mode when stat finds it |
| Serve.OutsideFile | sharedir.go:100-123 | an admitted file outside the subtree is served in recursive mode only; the corrected test answers 400 |
| Serve.RecursiveServesSibling | sharedir.go:100-119 | in recursive mode, the sibling file "/" + n + s is served under root "/n" to a request that unescapes to "../" + n + s |
| Serve.TraversalIsBadRequest | sharedir.go:100-102 | under "/srv/share", a request other than the favicon URI that unescapes to "../../etc/passwd" is answered 400 in either mode |
| Serve.ServesTopLevelFile | sharedir.go:117-119 | outside recursive mode, a file directly in the root whose name holds no '%', is left alone by HTML unescaping, and does not make the request the favicon URI, is served at "/" + its name, for every root including "/" |
| Serve.RefusesNested | sharedir.go:111-123 | outside recursive mode, "/a/b" for plain a and b without '%' that HTML unescaping leaves alone is refused with 401 whenever stat finds it, for every root including "/" |
| Serve.NestedNotTop | sharedir.go:117 | a path two elements below the root is neither the root nor directly in it |
| Serve.NotFavicon | sharedir.go:95 | a request with two elements is not the favicon URI |
| Mime.GuessMimeType | sharedir.go:68-80 | the result is never empty: it is the registered type of a non-empty extension, or else "application/octet-stream" |
| Mime.GuessUsesFinalElement | sharedir.go:68-80 | only the final element of the path matters, and the table is asked only with a '.'-led suffix holding no other '.' and no separator |
| Mime.GuessWithoutDot | sharedir.go:71-79 | a final element without '.', including the empty `rel` of the root, gets the default type |
| Mime.GuessWithDot | sharedir.go:71-76 | a final element with a '.' is looked up, and a registered type is used |
| Listing.DirName | sharedir.go:176 | the title of the root is "/", and the title of a clean relative path is the clean absolute path with the same elements |
| Listing.Href | sharedir.go:187-192 | the link of a plain entry of the root or of a clean relative path is a clean relative path: the listed directory's elements followed by the entry |
| Listing.HrefRoundTrip | sharedir.go:187-192 | requesting "/" + link admits the entry placed below root + rel (the directory the title names), with the link as `rel`, for every root including "/"; for a sibling admitted by the test as written that is not the listed directory (see Listing.SiblingLinks) |
| Listing.AdmittedLink | sharedir.go:187-192 | for a directory admitted by the corrected test, every plain entry's link is a clean relative path that names, below the root, the entry below that directory, and requesting it admits exactly that entry |
| Listing.SiblingLinks | sharedir.go:187-192 | under "/n", in the listing of the sibling "/" + n + s admitted with `rel` s, the link s + "/" + m of entry m admits m below "/n/s", a different path from m below the listed "/" + n + s |
| Listing.DotDotListing | sharedir.go:176-192 | under "/n", the listing admitted for a request that unescapes to "../" + n + ".." has rel "..", the title "/.." and the link "../" + m for every plain entry m |
| Listing.DirNameOfRequest | sharedir.go:176 | the title of the directory admitted for a clean request "/" + rel, where rel holds no '%' and HTML unescaping leaves it alone, is "/" + rel, and its elements are those of the listed path after the root's |
| Listing.DirNameBelowRoot | sharedir.go:176 | for any admission in the root's subtree, the title of the root is "/", and otherwise the title's elements are those of the listed path after the root's |
| Cli.Scan | sharedir.go:236-258 | the scan never asks for help, and it fails only when the last argument is an "-a" |
| Cli.ParseArgs | sharedir.go:227-259 | help is asked for exactly by a first argument that is a help word, and the command line fails only when it ends in "-a" |
| Cli.ScanArgs | sharedir.go:227-259 | the argument loop ends in exactly the outcome of the recursive scan from the first argument |
| Cli.ScanAppend | sharedir.go:236-258 | once a prefix of the arguments scans completely, the rest is scanned from the settings it left |
| Cli.AppendOne | sharedir.go:239-257 | after a command line that scans, a positional argument becomes the root (the last one wins), "-r" turns on recursive mode, and a trailing "-a" is an error |
| Cli.AppendAddr | sharedir.go:245-248 | "-a" followed by any value sets the address to that value |
| Cli.ScanWithoutAddr | sharedir.go:236-258 | without "-a" the scan always succeeds: recursive exactly when "-r" appears, the default address, and the last positional argument as root |
| Cli.LastPositional | sharedir.go:256 | the root is the default or one of the positional arguments |
| Cli.ParseWithoutAddr | sharedir.go:227-259 | the whole command line without "-a": the default ":2022", recursive exactly when "-r" appears, and the last positional argument as root |
| Cli.ParseProvenance | sharedir.go:227-259 | the address is ":2022" or the value after some "-a", the root is "" or one of the arguments, and recursive mode needs a "-r" |
| Cli.HelpOnlyFirst | sharedir.go:229-234 | a help word is recognised only as the first argument; later it is taken as the root |
| Cli.AddrTakesFlag | sharedir.go:245-252 | "-a" takes the next argument even when it is "-r", and a trailing "-a" is an error |

## Left out

- Writing the HTTP response is not modelled. This covers `serveFailure`, `serveFile` (reading the file, the 500 answers, setting the content type after the body is written), `serveIcon` and the template execution of `serveDir`. The model ends at the decision of which response is given.
- The path canonicalisation of `http.ServeMux` (sharedir.go:287-288) is not modelled. For every method but CONNECT it answers a request whose path has "." or ".." elements with a 301 redirect before `serve` runs. The model starts from the request URI as `serve` receives it. The worked requests are therefore stated for any raw request "/" + e whose HTML unescaping gives the climbing path: "&period;&period;" is such an e for "..", and the mux leaves it alone.
- `os.Stat`, `os.ReadFile` and `os.ReadDir` are not modelled. The file system enters only through the `stat` parameter, so symbolic links, permissions and files that change between the check and the read are not modelled.
- `html.UnescapeString` and `mime.TypeByExtension` are parameters. Their tables are not modelled. Sandbox.SiblingDataSecret therefore takes as a hypothesis that "&period;&period;/data-secret" unescapes to "../data-secret", which is what the HTML entity table says.
- `filepath.Abs` of the candidate is modelled as `Clean`, which is what it does for an absolute path. The candidate is always absolute because the root is, so its error branch (sharedir.go:48-51) cannot be taken and is not modelled.
- The startup call that makes a relative root absolute (sharedir.go:262-265) is not modelled, since it needs the working directory. Every root is taken to be clean and absolute already.
- Paths are "/"-separated. Windows volume names and the `\` separator are not modelled.
- Go strings are sequences of bytes; the model's strings are sequences of `char`, and each `char` stands for one byte. Every pattern the code looks for ("/", ".", "%20", "%28", "%29", "-a", "-r") is ASCII, so the byte-level behaviour is the same.
- Logging, `log.Fatalf`, printing the usage text, `os.Exit` and the `ttos` template function are not modelled. Exits appear as the `Help` and `MissingAddr` outcomes.
- Starting the HTTP server and concurrent requests are not modelled. The shared state (root, recursive flag) is never written after startup.
- Serve.ServesTopLevelFile, Serve.RefusesNested, Sandbox.ParseCleanRequest and Listing.DirNameOfRequest are stated only for names without '%' that HTML unescaping leaves alone, and ServesTopLevelFile only for names other than "~favicon.ico". A file named "~favicon.ico" in the root is hidden behind the icon. A name such as "x%20y" or "&amp;" is not reached by "/" + its name, because decoding changes the request (the first reaches "x y").
- Listing.HrefRoundTrip and Listing.AdmittedLink state the round trip only for links without '%' that HTML unescaping leaves alone. The link is written into the page by `html/template`, and that escaping and the template are not part of this model. An entry whose name holds a percent escape or an HTML entity does not lead back to itself: the link "x%20y" under "/srv" is decoded to "/srv/x y". Listing.HrefRoundTrip leads below root + rel, which is the listed directory only for admissions inside the root's subtree (Listing.AdmittedLink); for a sibling it is not (Listing.SiblingLinks).

## Findings

| source | as written | input that shows it | evidently intended | confidence | as-written member | corrected member |
|---|---|---|---|---|---|---|
| sharedir.go:53 | containment is a bare string-prefix test of the cleaned path against the root | root `/data`, request `/&period;&period;/data-secret` (HTML unescaping gives `../data-secret`; a CONNECT request for `/../data-secret` reaches `serve` too): admitted as `/data-secret` with rel `-secret`, and a file there is served in recursive mode. Under root `/a` a request that unescapes to `../a..` is admitted with rel `..`, so the listing's title is `/..` and its links start with `../`. The sibling listing of `/data-secret` (rel `-secret`) gives entry x the link `-secret/x`, which leads to `/data/-secret/x` instead of `/data-secret/x` | admit only the root itself and paths below it, compared element by element, as the comment at sharedir.go:29-31 promises | not executed | Sandbox.SiblingPrefixAccepted, Sandbox.SiblingDotDot, Listing.DotDotListing, Listing.SiblingLinks, Serve.RecursiveServesSibling | Sandbox.ParseSafePathWithin, Serve.ServeWithin |

Outside recursive mode the policy already confines serving to the root and
its direct children, so the two tests serve the same things there
(`Serve.WithinSameOutsideRecursive`). The leak needs recursive mode.
