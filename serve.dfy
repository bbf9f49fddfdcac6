/**
  The access decision of `serve` in sharedir.go: which of the favicon, a
  failure status, a directory listing or a file answers a request. The
  configured root and the recursive flag are parameters, and `os.Stat` is
  a function from paths to what it reports.
*/
module Serve {
  import opened Wrappers
  import opened Strings
  import opened FilePath
  import opened Sandbox

  /** What `os.Stat` reports about a path (it follows symbolic links). */
  datatype Stat = StatError | IsDirectory | NotDirectory

  /** How `serve` answers a request. */
  datatype Response =
    | Icon                                  // `serveIcon`
    | Failure(code: int, message: string)   // `serveFailure`
    | ServeDir(path: SafePath)              // `serveDir`
    | ServeFile(path: SafePath)             // `serveFile`
  {
    predicate Served() { ServeDir? || ServeFile? }
  }

  const FaviconURI: string := "/~favicon.ico"
  const StatusBadRequest: int := 400
  const StatusUnauthorized: int := 401
  const StatusNotFound: int := 404

  /**
    The decision once the path is admitted: a failed stat is "not found";
    a directory is listed only in recursive mode or when it is the root; any
    other target is served only in recursive mode or when it sits directly
    in the root; everything else is "unauthorized".
  */
  function Authorize(sp: SafePath, st: Stat, recursive: bool, root: string): (r: Response)
    ensures r.Served() ==> r.path == sp
    ensures r.ServeDir? <==> st == IsDirectory && (recursive || sp.abs == root)
    ensures r.ServeFile? <==> st == NotDirectory && (recursive || Dir(sp.abs) == root)
    ensures !r.Served() ==> r == Failure(if st == StatError then StatusNotFound else StatusUnauthorized,
                                         if st == StatError then "invalid path" else "unauthorized")
  {
    match st
    case StatError => Failure(StatusNotFound, "invalid path")
    case IsDirectory =>
      if recursive || sp.abs == root then ServeDir(sp) else Failure(StatusUnauthorized, "unauthorized")
    case NotDirectory =>
      if recursive || Dir(sp.abs) == root then ServeFile(sp) else Failure(StatusUnauthorized, "unauthorized")
  }

  /**
    `serve`: the favicon first, then the path check, then the stat, then
    the policy. Only the favicon URI gets the icon, and whatever is served
    was admitted by the path check and found by the stat.
  */
  function Serve(uri: string, root: string, recursive: bool, unescape: string -> string,
                 stat: string -> Stat): (r: Response)
    requires IsCleanAbs(root)
    ensures r == Icon <==> uri == FaviconURI
    ensures r.Served() ==> ParseSafePath(root, uri, unescape) == Some(r.path) && stat(r.path.abs) != StatError
  {
    if uri == FaviconURI then Icon
    else match ParseSafePath(root, uri, unescape)
      case None => Failure(StatusBadRequest, "invalid path")
      case Some(sp) => Authorize(sp, stat(sp.abs), recursive, root)
  }

  /**
    The checks run in order and each outcome has exactly one cause: the
    favicon URI is answered with the icon, an inadmissible path with 400, a
    failed stat with 404, and only then does the policy serve or refuse.
  */
  lemma ServeCheckOrder(uri: string, root: string, recursive: bool, unescape: string -> string,
                        stat: string -> Stat)
    requires IsCleanAbs(root)
    ensures var r := Serve(uri, root, recursive, unescape, stat);
      var parsed := ParseSafePath(root, uri, unescape);
      && (r == Failure(StatusBadRequest, "invalid path") <==> uri != FaviconURI && parsed == None)
      && (r == Failure(StatusNotFound, "invalid path") <==>
            uri != FaviconURI && parsed.Some? && stat(parsed.value.abs) == StatError)
      && (|| r == Icon || r.Served()
          || r == Failure(StatusBadRequest, "invalid path")
          || r == Failure(StatusNotFound, "invalid path")
          || r == Failure(StatusUnauthorized, "unauthorized"))
  {
    var parsed := ParseSafePath(root, uri, unescape);
    if uri == FaviconURI {
      assert Serve(uri, root, recursive, unescape, stat) == Icon;
    } else if parsed.None? {
      assert Serve(uri, root, recursive, unescape, stat) == Failure(StatusBadRequest, "invalid path");
    } else {
      ServeAdmitted(uri, root, recursive, unescape, stat);
      AuthorizeOutcome(parsed.value, stat(parsed.value.abs), recursive, root);
    }
  }

  /** The policy never answers 400, answers 404 exactly for a failed stat, and otherwise serves or answers 401. */
  lemma AuthorizeOutcome(sp: SafePath, st: Stat, recursive: bool, root: string)
    ensures var r := Authorize(sp, st, recursive, root);
      && r != Failure(StatusBadRequest, "invalid path")
      && (r == Failure(StatusNotFound, "invalid path") <==> st == StatError)
      && r != Icon
      && (r.Served() || r == Failure(StatusNotFound, "invalid path") || r == Failure(StatusUnauthorized, "unauthorized"))
  {
  }

  /**
    Whatever is served is the cleaned candidate path, has the root as a
    string prefix, and is listed exactly when stat reports a directory.
  */
  lemma ServedHasRootPrefix(uri: string, root: string, recursive: bool, unescape: string -> string,
                            stat: string -> Stat)
    requires IsCleanAbs(root)
    ensures var r := Serve(uri, root, recursive, unescape, stat);
      r.Served() ==>
        && r.path.abs == Resolve(root, uri, unescape)
        && IsCleanAbs(r.path.abs) && HasPrefix(r.path.abs, root)
        && (r.ServeDir? <==> stat(r.path.abs) == IsDirectory)
  {
  }

  /** A clean path whose directory is the root is the root or one element below it. */
  lemma DirIsRoot(abs: string, root: string)
    requires IsCleanAbs(abs) && IsCleanAbs(root) && Dir(abs) == root
    ensures IsSubpath(abs, root)
    ensures abs != root ==> Segs(abs) == Segs(root) + [Segs(abs)[|Segs(abs)| - 1]]
  {
    if abs == [Sep] {
      DirOfRoot();
    } else {
      DirCleanAbs(abs);
      DropLast(Segs(abs), Segs(root));
    }
  }

  /** A list without its last element is a prefix that the last element completes. */
  lemma DropLast(sa: seq<string>, sr: seq<string>)
    requires |sa| >= 1 && sr == sa[..|sa| - 1]
    ensures sr <= sa && sa == sr + [sa[|sa| - 1]]
  {
  }

  /**
    Outside recursive mode only the root itself is listed, and only files
    directly in the root are served: never anything two elements deep, and
    never a sibling that merely shares the root's spelling as a prefix.
  */
  lemma NonRecursiveConfined(uri: string, root: string, unescape: string -> string, stat: string -> Stat)
    requires IsCleanAbs(root)
    ensures var r := Serve(uri, root, false, unescape, stat);
      && (r.ServeDir? ==> r.path.abs == root && r.path.rel == "")
      && (r.ServeFile? ==> IsCleanAbs(r.path.abs) && IsSubpath(r.path.abs, root) && Dir(r.path.abs) == root)
      && (r.ServeFile? && r.path.abs != root ==>
            exists n :: Plain(n) && Segs(r.path.abs) == Segs(root) + [n])
  {
    var r := Serve(uri, root, false, unescape, stat);
    if r.Served() {
      ContainStripsRoot(root, r.path.abs);
      if r.ServeFile? {
        DirIsRoot(r.path.abs, root);
        if r.path.abs != root {
          var sa := Segs(r.path.abs);
          assert sa[|sa| - 1] in sa;
        }
      }
    }
  }

  /** `serve` with the segment-bounded containment test in place of the string prefix. */
  function ServeWithin(uri: string, root: string, recursive: bool, unescape: string -> string,
                       stat: string -> Stat): (r: Response)
    requires IsCleanAbs(root)
    ensures r.Served() ==> IsCleanAbs(r.path.abs) && IsSubpath(r.path.abs, root)
  {
    if uri == FaviconURI then Icon
    else match ParseSafePathWithin(root, uri, unescape)
      case None => Failure(StatusBadRequest, "invalid path")
      case Some(sp) => Authorize(sp, stat(sp.abs), recursive, root)
  }

  /**
    The two containment tests serve the same things outside recursive mode:
    there the policy itself already confines serving to the root and its
    direct children. They differ only in whether a sibling is refused with
    400 or 401.
  */
  lemma WithinSameOutsideRecursive(uri: string, root: string, unescape: string -> string,
                                   stat: string -> Stat)
    requires IsCleanAbs(root)
    ensures var r := Serve(uri, root, false, unescape, stat);
      var w := ServeWithin(uri, root, false, unescape, stat);
      && (r.Served() <==> w.Served())
      && (r.Served() ==> r == w)
  {
    if uri == FaviconURI {
      assert Serve(uri, root, false, unescape, stat) == Icon;
    } else if ParseSafePath(root, uri, unescape).None? {
      ParseWithinAgrees(root, uri, unescape);
      ServeWithinAdmitted(uri, root, false, unescape, stat);
    } else {
      WithinSameAdmitted(uri, root, unescape, stat);
    }
  }

  /** `WithinSameOutsideRecursive` for a request that the string prefix test admits. */
  lemma WithinSameAdmitted(uri: string, root: string, unescape: string -> string, stat: string -> Stat)
    requires IsCleanAbs(root) && uri != FaviconURI && ParseSafePath(root, uri, unescape).Some?
    ensures var r := Serve(uri, root, false, unescape, stat);
      var w := ServeWithin(uri, root, false, unescape, stat);
      && (r.Served() <==> w.Served())
      && (r.Served() ==> r == w)
  {
    var sp := ParseSafePath(root, uri, unescape).value;
    ParseWithinAgrees(root, uri, unescape);
    ServeAdmitted(uri, root, false, unescape, stat);
    ServeWithinAdmitted(uri, root, false, unescape, stat);
    if !IsSubpath(sp.abs, root) {
      AuthorizeOutsideRefused(sp, stat(sp.abs), root);
    }
  }

  /** An admitted request is answered by the policy. */
  lemma ServeAdmitted(uri: string, root: string, recursive: bool, unescape: string -> string,
                      stat: string -> Stat)
    requires IsCleanAbs(root) && uri != FaviconURI && ParseSafePath(root, uri, unescape).Some?
    ensures var sp := ParseSafePath(root, uri, unescape).value;
      Serve(uri, root, recursive, unescape, stat) == Authorize(sp, stat(sp.abs), recursive, root)
  {
  }

  /** With the segment-bounded test, an admitted request is answered by the policy, any other with 400. */
  lemma ServeWithinAdmitted(uri: string, root: string, recursive: bool, unescape: string -> string,
                            stat: string -> Stat)
    requires IsCleanAbs(root) && uri != FaviconURI
    ensures var q := ParseSafePathWithin(root, uri, unescape);
      ServeWithin(uri, root, recursive, unescape, stat) ==
        if q.Some? then Authorize(q.value, stat(q.value.abs), recursive, root)
        else Failure(StatusBadRequest, "invalid path")
  {
  }

  /** Outside recursive mode, nothing outside the root's subtree is served. */
  lemma AuthorizeOutsideRefused(sp: SafePath, st: Stat, root: string)
    requires IsCleanAbs(sp.abs) && IsCleanAbs(root) && !IsSubpath(sp.abs, root)
    ensures !Authorize(sp, st, false, root).Served()
  {
    assert sp.abs != root;
    if Dir(sp.abs) == root {
      DirIsRoot(sp.abs, root);
    }
  }

  /**
    In recursive mode everything the path check admits and stat finds is
    served. A path it admits that is not below the root is refused by the
    segment-bounded test with 400 and, outside recursive mode, by the
    policy with 401.
  */
  lemma AdmittedPolicy(uri: string, root: string, recursive: bool, unescape: string -> string,
                       stat: string -> Stat)
    requires IsCleanAbs(root) && uri != FaviconURI && ParseSafePath(root, uri, unescape).Some?
    ensures var sp := ParseSafePath(root, uri, unescape).value;
      && IsCleanAbs(sp.abs)
      && (recursive && stat(sp.abs) == IsDirectory ==> Serve(uri, root, recursive, unescape, stat) == ServeDir(sp))
      && (recursive && stat(sp.abs) == NotDirectory ==> Serve(uri, root, recursive, unescape, stat) == ServeFile(sp))
      && (!IsSubpath(sp.abs, root) ==>
            && ServeWithin(uri, root, recursive, unescape, stat) == Failure(StatusBadRequest, "invalid path")
            && (!recursive && stat(sp.abs) != StatError ==>
                  Serve(uri, root, recursive, unescape, stat) == Failure(StatusUnauthorized, "unauthorized")))
  {
    var sp := ParseSafePath(root, uri, unescape).value;
    assert Serve(uri, root, recursive, unescape, stat) == Authorize(sp, stat(sp.abs), recursive, root);
    if !IsSubpath(sp.abs, root) {
      ParseWithinAgrees(root, uri, unescape);
      if !recursive {
        AuthorizeOutsideRefused(sp, stat(sp.abs), root);
      }
    }
  }

  /**
    In recursive mode the string prefix test lets a sibling through: under
    "/n", a request that unescapes to "../" + n + s, for a file
    "/" + n + s, is served, although that file is not below the root. The
    segment-bounded test refuses it, and outside recursive mode the policy
    refuses it.
  */
  lemma RecursiveServesSibling(root: string, uri: string, e: string, n: string, s: string,
                               unescape: string -> string, stat: string -> Stat)
    requires Plain(n) && Plain(n + s) && s != "" && '%' !in n + s
    requires unescape(e) == "../" + (n + s)
    requires root == [Sep] + n && uri == "/" + e && uri != FaviconURI
    requires stat([Sep] + (n + s)) == NotDirectory
    ensures IsCleanAbs(root) && IsCleanAbs([Sep] + (n + s))
    ensures Serve(uri, root, true, unescape, stat) == ServeFile(SafePath([Sep] + (n + s), s))
    ensures !IsSubpath([Sep] + (n + s), root)
    ensures ServeWithin(uri, root, true, unescape, stat) == Failure(StatusBadRequest, "invalid path")
    ensures Serve(uri, root, false, unescape, stat) == Failure(StatusUnauthorized, "unauthorized")
  {
    var sp := SafePath([Sep] + (n + s), s);
    SiblingPrefixAccepted(root, uri, e, n, s, unescape);
    OutsideFile(uri, root, sp, unescape, stat);
  }

  /**
    A file admitted by the string prefix test but outside the root's
    subtree is served in recursive mode only, and refused by the
    segment-bounded test.
  */
  lemma OutsideFile(uri: string, root: string, sp: SafePath, unescape: string -> string, stat: string -> Stat)
    requires IsCleanAbs(root) && uri != FaviconURI && ParseSafePath(root, uri, unescape) == Some(sp)
    requires IsCleanAbs(sp.abs) && !IsSubpath(sp.abs, root) && stat(sp.abs) == NotDirectory
    ensures Serve(uri, root, true, unescape, stat) == ServeFile(sp)
    ensures ServeWithin(uri, root, true, unescape, stat) == Failure(StatusBadRequest, "invalid path")
    ensures Serve(uri, root, false, unescape, stat) == Failure(StatusUnauthorized, "unauthorized")
  {
    AdmittedPolicy(uri, root, true, unescape, stat);
    AdmittedPolicy(uri, root, false, unescape, stat);
  }

  /**
    Under root "/srv/share", a request "/" + e whose e unescapes to
    "../../etc/passwd" is answered 400.
  */
  lemma TraversalIsBadRequest(root: string, uri: string, e: string, recursive: bool,
                              unescape: string -> string, stat: string -> Stat)
    requires root == "/srv/share" && uri == "/" + e && uri != FaviconURI
    requires unescape(e) == "../../etc/passwd"
    ensures IsCleanAbs(root)
    ensures Serve(uri, root, recursive, unescape, stat) == Failure(StatusBadRequest, "invalid path")
  {
    TraversalRejected(root, uri, e, unescape);
  }

  /** Outside recursive mode, a file a directly in the root is served at "/a". */
  lemma ServesTopLevelFile(root: string, a: string, unescape: string -> string, stat: string -> Stat)
    requires IsCleanAbs(root) && Plain(a) && '%' !in a && unescape(a) == a
    requires "/" + a != FaviconURI && stat(Below(root, a)) == NotDirectory
    ensures Serve("/" + a, root, false, unescape, stat) == ServeFile(SafePath(Below(root, a), a))
  {
    assert IsCleanRel(a) by { SplitSingle(a); }
    ParseCleanRequest(root, a, unescape);
    Child(root, a);
  }

  /** Outside recursive mode, any "/a/b" that stat finds is refused with 401. */
  lemma RefusesNested(root: string, a: string, b: string, unescape: string -> string, stat: string -> Stat)
    requires IsCleanAbs(root) && Plain(a) && Plain(b)
    requires '%' !in a && '%' !in b && unescape(a + "/" + b) == a + "/" + b
    requires stat(Below(root, a + "/" + b)) != StatError
    ensures Serve("/" + a + "/" + b, root, false, unescape, stat) == Failure(StatusUnauthorized, "unauthorized")
  {
    var ab := a + "/" + b;
    var uri := "/" + a + "/" + b;
    var abs := Below(root, ab);
    assert uri == "/" + ab;
    TwoElements(a, b);
    ParseCleanRequest(root, ab, unescape);
    NotFavicon(a, b);
    NestedNotTop(root, a, b);
    ServeAdmitted(uri, root, false, unescape, stat);
  }

  /** Two plain elements make a clean relative path. */
  lemma TwoElements(a: string, b: string)
    requires Plain(a) && Plain(b)
    ensures IsCleanRel(a + "/" + b)
  {
    SplitConcat(a, b);
    SplitSingle(a);
    SplitSingle(b);
  }

  /** A path two elements below the root is neither the root nor directly in it. */
  lemma NestedNotTop(root: string, a: string, b: string)
    requires IsCleanAbs(root) && Plain(a) && Plain(b)
    ensures var abs := Below(root, a + "/" + b);
      abs != root && Dir(abs) != root
  {
    var parent := Below(root, a);
    Child(root, a);
    Child(parent, b);
    BelowTwice(root, a, b);
    assert |Segs(parent)| > |Segs(root)|;
  }

  /** A request with two elements is not the favicon URI, which has one. */
  lemma NotFavicon(a: string, b: string)
    requires Sep !in a
    ensures "/" + a + "/" + b != FaviconURI
  {
    var u := "/" + a + "/" + b;
    assert u[|a| + 1] == Sep;
    assert forall i :: 1 <= i < |FaviconURI| ==> FaviconURI[i] != Sep;
  }
}
