/**
  The two values `serveDir` in sharedir.go computes from the listed path:
  the page title `DirName` and the `href` template function that builds
  the link of each entry.
*/
module Listing {
  import opened Wrappers
  import opened FilePath
  import opened Sandbox

  /**
    The title of a listing: the relative path with a leading separator.
    The title of the root is "/", and the title of a clean relative path
    is the clean absolute path with the same elements.
  */
  function DirName(rel: string): (t: string)
    ensures rel == "" ==> t == "/"
    ensures IsCleanRel(rel) ==> IsCleanAbs(t) && Segs(t) == Split(rel)
  {
    RootedRel(rel);
    "/" + rel
  }

  /** A clean relative path with a separator in front is a clean absolute path with the same elements. */
  lemma RootedRel(rel: string)
    ensures IsCleanRel(rel) ==> IsCleanAbs("/" + rel) && Segs("/" + rel) == Split(rel)
  {
    if IsCleanRel(rel) {
      JoinSplit(rel);
      FromSegs(Split(rel));
    }
  }

  /**
    The link of entry `n` in the listing of `rel`: the entry alone at the
    root, else joined below `rel`. For a plain entry of the root or of a
    clean relative path, the link is a clean relative path whose elements
    are those of the listed directory followed by the entry.
  */
  function Href(rel: string, n: string): (h: string)
    ensures Plain(n) && (rel == "" || IsCleanRel(rel)) ==>
      && IsCleanRel(h)
      && Split(h) == (if rel == "" then [] else Split(rel)) + [n]
      && h == (if rel == "" then n else rel + "/" + n)
  {
    if rel == "" then PlainEntry(n); n
    else EntryBelow(rel, n); Join(rel, n)
  }

  /** A plain entry is a clean relative path of one element. */
  lemma PlainEntry(n: string)
    ensures Plain(n) ==> IsCleanRel(n) && Split(n) == [n]
  {
    if Plain(n) { SplitSingle(n); }
  }

  /** A plain entry joined below a clean relative path. */
  lemma EntryBelow(rel: string, n: string)
    ensures IsCleanRel(rel) && Plain(n) ==>
      Join(rel, n) == rel + "/" + n && IsCleanRel(Join(rel, n)) && Split(Join(rel, n)) == Split(rel) + [n]
  {
    if IsCleanRel(rel) && Plain(n) { JoinRelPlain(rel, n); }
  }

  /**
    Following a link from a listing reaches the entry: requesting
    "/" + Href(rel, n) admits the path of entry n inside the listed
    directory, with the link itself as its relative path.
  */
  lemma HrefRoundTrip(root: string, rel: string, n: string, unescape: string -> string)
    requires IsCleanAbs(root) && (rel == "" || IsCleanRel(rel)) && Plain(n)
    requires '%' !in Href(rel, n) && unescape(Href(rel, n)) == Href(rel, n)
    ensures var h := Href(rel, n);
      var dir := if rel == "" then root else Below(root, rel);
      ParseSafePath(root, "/" + h, unescape) == Some(SafePath(Below(dir, n), h))
  {
    var h := Href(rel, n);
    ParseCleanRequest(root, h, unescape);
    if rel != "" {
      BelowTwice(root, rel, n);
    }
  }

  /**
    The title of a listing reached by a clean request is that request: for
    a clean relative path rel, the title of the directory admitted for
    "/" + rel is "/" + rel, and its elements are those of the admitted path
    after the root's.
  */
  lemma DirNameOfRequest(root: string, rel: string, unescape: string -> string)
    requires IsCleanAbs(root) && IsCleanRel(rel)
    requires unescape(rel) == rel && '%' !in rel
    ensures ParseSafePath(root, "/" + rel, unescape).Some?
    ensures var sp := ParseSafePath(root, "/" + rel, unescape).value;
      && DirName(sp.rel) == "/" + rel
      && IsCleanAbs(DirName(sp.rel))
      && Segs(sp.abs) == Segs(root) + Segs(DirName(sp.rel))
  {
    ParseCleanRequest(root, rel, unescape);
    ContainBelow(root, rel);
  }

  /**
    For any path admitted below the root (segment-bounded), the title of
    the root is "/", and the title of anything else is a clean absolute
    path whose elements are those of the admitted path after the root's.
  */
  lemma DirNameBelowRoot(root: string, raw: string, unescape: string -> string)
    requires IsCleanAbs(root) && ParseSafePathWithin(root, raw, unescape).Some?
    ensures var sp := ParseSafePathWithin(root, raw, unescape).value;
      && (sp.rel == "" ==> DirName(sp.rel) == "/" && sp.abs == root)
      && (sp.rel != "" ==> IsCleanAbs(DirName(sp.rel)) && Segs(sp.abs) == Segs(root) + Segs(DirName(sp.rel)))
  {
    var sp := ParseSafePathWithin(root, raw, unescape).value;
    if sp.rel != "" {
      ContainBelow(root, sp.rel);
    }
  }

  /**
    The links of a listing reached through the segment-bounded test lead
    to its entries: for a plain entry n of an admitted directory, the link
    is a clean relative path that names, below the root, the entry below
    the directory; when the link needs no unescaping, requesting it admits
    exactly that entry.
  */
  lemma AdmittedLink(root: string, raw: string, n: string, unescape: string -> string)
    requires IsCleanAbs(root) && ParseSafePathWithin(root, raw, unescape).Some? && Plain(n)
    ensures var sp := ParseSafePathWithin(root, raw, unescape).value;
      var h := Href(sp.rel, n);
      && IsCleanRel(h) && Below(root, h) == Below(sp.abs, n)
      && ('%' !in h && unescape(h) == h ==>
            ParseSafePath(root, "/" + h, unescape) == Some(SafePath(Below(sp.abs, n), h)))
  {
    var sp := ParseSafePathWithin(root, raw, unescape).value;
    var h := Href(sp.rel, n);
    if sp.rel != "" {
      BelowTwice(root, sp.rel, n);
    }
    if '%' !in h && unescape(h) == h {
      HrefRoundTrip(root, sp.rel, n, unescape);
    }
  }

  /**
    The listing the containment test as written admits under "/n" for a
    request that unescapes to "../" + n + "..": its relative path is "..",
    so its title is "/.." and the link of every plain entry m is
    "../" + m, a path that climbs out of the listed directory.
  */
  lemma DotDotListing(root: string, raw: string, e: string, n: string, m: string, unescape: string -> string)
    requires Plain(n) && '%' !in n && unescape(e) == "../" + (n + "..")
    requires root == [Sep] + n && raw == "/" + e && Plain(m)
    ensures IsCleanAbs(root) && ParseSafePath(root, raw, unescape).Some?
    ensures var sp := ParseSafePath(root, raw, unescape).value;
      && sp.rel == ".."
      && DirName(sp.rel) == "/.."
      && Href(sp.rel, m) == "../" + m
  {
    SiblingDotDot(root, raw, e, n, unescape);
    DotDotTitle(ParseSafePath(root, raw, unescape).value.rel, m);
  }

  /** The title and links of a listing whose relative path is "..". */
  lemma DotDotTitle(d: string, m: string)
    requires d == ".." && Plain(m)
    ensures DirName(d) == "/.." && Href(d, m) == "../" + m
  {
    assert d != "";
    assert Href(d, m) == Join(d, m);
    DotDotJoin(d, m);
    assert d + [Sep] + m == "../" + m;
    assert DirName(d) == "/" + d == "/..";
  }

  /** ".." joined with a plain element is kept as written: `Clean` cannot remove a leading "..". */
  lemma DotDotJoin(d: string, m: string)
    requires d == ".." && Plain(m)
    ensures Join(d, m) == d + [Sep] + m
  {
    var p := d + [Sep] + m;
    SplitSingle(d);
    SplitSingle(m);
    SplitConcat(d, m);
    assert Split(p) == [d, m];
    assert p[0] == '.';
    assert Lex([d], false) == [d] by {
      assert [d][..0] == [];
    }
    assert [d, m][..1] == [d];
    assert Lex([d, m], false) == [d, m];
    assert JoinSegs([d, m]) == p by {
      assert [d, m][1..] == [m];
    }
  }

  /**
    The links of a sibling listing lead elsewhere. Under "/n", the
    containment test as written admits "/" + n + s with the relative path
    s; the link of its entry m is s + "/" + m, and requesting that link
    admits m below the root's own subdirectory s, not m below the listed
    sibling.
  */
  lemma SiblingLinks(root: string, raw: string, e: string, n: string, s: string, m: string,
                     unescape: string -> string)
    requires Plain(n) && Plain(s) && Plain(n + s) && '%' !in n + s
    requires unescape(e) == "../" + (n + s)
    requires root == [Sep] + n && raw == "/" + e && Plain(m)
    requires '%' !in Href(s, m) && unescape(Href(s, m)) == Href(s, m)
    ensures IsCleanAbs(root)
    ensures ParseSafePath(root, raw, unescape) == Some(SafePath([Sep] + (n + s), s))
    ensures ParseSafePath(root, "/" + Href(s, m), unescape) ==
      Some(SafePath(Below(Below(root, s), m), Href(s, m)))
    ensures Below(Below(root, s), m) != Below([Sep] + (n + s), m)
  {
    SiblingPrefixAccepted(root, raw, e, n, s, unescape);
    SplitSingle(s);
    HrefRoundTrip(root, s, m, unescape);
    SiblingLinkDiffers(root, n, s, m);
  }

  /** "/n/s/m" and "/ns/m" are different paths: they have different numbers of elements. */
  lemma SiblingLinkDiffers(root: string, n: string, s: string, m: string)
    requires Plain(n) && Plain(s) && Plain(n + s) && Plain(m) && root == [Sep] + n
    ensures Below(Below(root, s), m) != Below([Sep] + (n + s), m)
  {
    FromSegs([n]);
    FromSegs([n + s]);
    assert JoinSegs([n]) == n && JoinSegs([n + s]) == n + s;
    Child(root, s);
    Child(Below(root, s), m);
    Child([Sep] + (n + s), m);
  }
}
