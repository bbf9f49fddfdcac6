/**
  Resolution of a request URI to a path under the shared directory:
  `parseSafePath` in sharedir.go, as a pure function of the configured root,
  the raw request URI and the HTML unescaping function.
*/
module Sandbox {
  import opened Wrappers
  import opened Strings
  import opened FilePath

  /** A request path that passed the containment test. */
  datatype SafePath = SafePath(
    abs: string,  // absolute filesystem path, never shown to clients
    rel: string   // the path below the root, shown in listings and links
  )

  /**
    The decoding applied to the request path: `html.UnescapeString`
    (passed in as `unescape`), then the three percent-escapes of
    `DecodePercent`. None of the three escapes is left afterwards, and a
    path without '%' after unescaping is left as it is.
  */
  function Decode(raw: string, unescape: string -> string): (d: string)
    ensures !Contains(d, "%20") && !Contains(d, "%28") && !Contains(d, "%29")
    ensures '%' !in unescape(raw) ==> d == unescape(raw)
  {
    DecodePercent(unescape(raw))
  }

  /**
    The percent-escapes `%20`, `%28` and `%29` only, each replaced
    throughout by ' ', '(' and ')', in that order.
  */
  function DecodePercent(s: string): (d: string)
    ensures !Contains(d, "%20") && !Contains(d, "%28") && !Contains(d, "%29")
    ensures '%' !in s ==> d == s
  {
    var s1 := ReplaceAll(s, "%20", " ");
    var s2 := ReplaceAll(s1, "%28", "(");
    DecodeSteps(s, s1, s2);
    ReplaceAll(s2, "%29", ")")
  }

  /** The three escapes that are decoded. */
  predicate IsEscape(t: string)
  {
    t == "%20" || t == "%28" || t == "%29"
  }

  /** The character an escape stands for. */
  function EscapeChar(t: string): (c: char)
    requires IsEscape(t)
    ensures c != '%' && c != Sep
  {
    if t == "%20" then ' ' else if t == "%28" then '(' else ')'
  }

  /**
    One replacement pass over text without '%', an escape and the rest:
    the text is kept, the escape is replaced when it is the pass's pattern
    and kept otherwise, and the pass goes on over the rest.
  */
  lemma DecodePass(x: string, t: string, z: string, pat: string, rep: string)
    requires '%' !in x && |t| == 3 && t[0] == '%' && '%' !in t[1..]
    requires |pat| == 3 && pat[0] == '%'
    ensures ReplaceAll(x + t + z, pat, rep) == x + (if t == pat then rep else t) + ReplaceAll(z, pat, rep)
  {
    var w := if t == pat then rep else t;
    var rest := ReplaceAll(z, pat, rep);
    calc {
      ReplaceAll(x + t + z, pat, rep);
      { assert x + t + z == x + (t + z); }
      ReplaceAll(x + (t + z), pat, rep);
      { ReplaceAllKeep(x, t + z, pat, rep); }
      x + ReplaceAll(t + z, pat, rep);
      { PassPiece(t, z, pat, rep); }
      x + (w + rest);
      x + w + rest;
    }
  }

  /** One replacement pass over an escape and the rest. */
  lemma PassPiece(t: string, z: string, pat: string, rep: string)
    requires |t| == 3 && t[0] == '%' && '%' !in t[1..]
    requires |pat| == 3 && pat[0] == '%'
    ensures ReplaceAll(t + z, pat, rep) == (if t == pat then rep else t) + ReplaceAll(z, pat, rep)
  {
    if t == pat {
      ReplaceAllSplice([], z, pat, rep);
      assert [] + pat + z == t + z;
    } else {
      assert t == [t[0]] + t[1..] && t[..|pat|] == t;
      ReplaceAllSkip(t[0], t[1..], z, pat, rep);
    }
  }

  /** An escape is '%' and two characters other than '%'. */
  lemma EscapeShape(t: string)
    requires IsEscape(t)
    ensures |t| == 3 && t[0] == '%' && '%' !in t[1..]
  {
  }


  /**
    An escape after text without '%' is decoded to its character, and the
    decoding goes on over the rest: applied from the left, this decodes a
    path made of '%'-free text and the three escapes.
  */
  lemma DecodePercentEscape(x: string, t: string, y: string)
    requires '%' !in x && IsEscape(t)
    ensures DecodePercent(x + t + y) == x + [EscapeChar(t)] + DecodePercent(y)
  {
    var c := [EscapeChar(t)];
    EscapeShape(t);
    EscapeShape("%20");
    EscapeShape("%28");
    EscapeShape("%29");
    var y1 := ReplaceAll(y, "%20", " ");
    var y2 := ReplaceAll(y1, "%28", "(");
    DecodePass(x, t, y, "%20", " ");
    var t1 := if t == "%20" then c else t;
    if t == "%20" {
      assert x + t1 + y1 == (x + c) + y1 && '%' !in x + c;
      ReplaceAllKeep(x + c, y1, "%28", "(");
      ReplaceAllKeep(x + c, y2, "%29", ")");
    } else {
      DecodePass(x, t, y1, "%28", "(");
      if t == "%28" {
        assert x + c + y2 == (x + c) + y2 && '%' !in x + c;
        ReplaceAllKeep(x + c, y2, "%29", ")");
      } else {
        DecodePass(x, t, y2, "%29", ")");
      }
    }
  }

  /**
    A request path whose unescaping is one escape between pieces of text
    without '%' decodes to that text with the escape's character between.
  */
  lemma DecodeEscape(raw: string, x: string, t: string, y: string, unescape: string -> string)
    requires '%' !in x && '%' !in y && IsEscape(t) && unescape(raw) == x + t + y
    ensures Decode(raw, unescape) == x + [EscapeChar(t)] + y
  {
    DecodePercentEscape(x, t, y);
  }

  /** The three replacements of `DecodePercent`, one after the other. */
  lemma DecodeSteps(s: string, s1: string, s2: string)
    requires s1 == ReplaceAll(s, "%20", " ") && s2 == ReplaceAll(s1, "%28", "(")
    ensures var d := ReplaceAll(s2, "%29", ")");
      && !Contains(d, "%20") && !Contains(d, "%28") && !Contains(d, "%29")
      && ('%' !in s ==> d == s)
  {
    ReplaceAllRemoves(s, "%20", " ");
    ReplaceAllRemoves(s1, "%28", "(");
    ReplaceAllKeepsAbsent(s1, "%28", "(", "%20");
    ReplaceAllRemoves(s2, "%29", ")");
    ReplaceAllKeepsAbsent(s2, "%29", ")", "%20");
    ReplaceAllKeepsAbsent(s2, "%29", ")", "%28");
    if Contains(s, "%20") { ContainsFirstChar(s, "%20"); }
    if Contains(s, "%28") { ContainsFirstChar(s, "%28"); }
    if Contains(s, "%29") { ContainsFirstChar(s, "%29"); }
  }

  /**
    The candidate path of `parseSafePath` (sharedir.go, first half): strip
    one leading "/", decode, join onto the root and make absolute.
    `filepath.Abs` of a path that is already absolute is its `Clean`; its
    error path needs a relative argument and cannot be taken here. The
    candidate is absolute, with no empty, "." or ".." element, and
    unchanged by cleaning again.
  */
  function Resolve(root: string, raw: string, unescape: string -> string): (abs: string)
    requires IsCleanAbs(root)
    ensures IsCleanAbs(abs) && Clean(abs) == abs
  {
    var joined := root + "/" + Decode(TrimPrefix(raw, "/"), unescape);
    assert IsAbs(joined);
    CleanIdempotent(joined);
    Clean(Join(root, Decode(TrimPrefix(raw, "/"), unescape)))
  }

  /**
    The containment test of `parseSafePath` (second half): reject unless
    the root is a string prefix of `abs`, and derive the relative path.
    It accepts exactly the paths with that prefix and keeps them as `abs`.
  */
  function Contain(root: string, abs: string): (r: Option<SafePath>)
    ensures r.Some? <==> HasPrefix(abs, root)
    ensures r.Some? ==> r.value.abs == abs
  {
    if !HasPrefix(abs, root) then None
    else if abs == root then Some(SafePath(abs, ""))
    else Some(SafePath(abs, TrimPrefix(TrimPrefix(abs, root), "/")))
  }

  /**
    `parseSafePath`. `root` is the shared directory, already made absolute
    and clean by `filepath.Abs` at startup. It admits exactly the
    candidates that have the root as a string prefix; what it admits is the
    clean candidate, with an empty relative path exactly for the root.
  */
  function ParseSafePath(root: string, raw: string, unescape: string -> string): (r: Option<SafePath>)
    requires IsCleanAbs(root)
    ensures r.Some? <==> HasPrefix(Resolve(root, raw, unescape), root)
    ensures r.Some? ==> r.value.abs == Resolve(root, raw, unescape) && IsCleanAbs(r.value.abs)
    ensures r.Some? ==> (r.value.rel == "" <==> r.value.abs == root)
  {
    ContainStripsRoot(root, Resolve(root, raw, unescape));
    Contain(root, Resolve(root, raw, unescape))
  }

  /**
    For clean paths, the relative path the containment test derives is
    empty exactly when `abs` is the root; otherwise it is `abs` without the
    root and then without at most one leading separator; and when `abs`
    continues the root with a separator, root, separator and `rel` make up
    `abs` again.
  */
  lemma ContainStripsRoot(root: string, abs: string)
    requires IsCleanAbs(root) && IsCleanAbs(abs)
    ensures Contain(root, abs).Some? ==> var rel := Contain(root, abs).value.rel;
      && (rel == "" <==> abs == root)
      && (abs != root ==> rel == TrimPrefix(abs[|root|..], "/"))
      && (HasPrefix(abs, root + "/") ==> root + "/" + rel == abs)
  {
    if HasPrefix(abs, root) && abs != root {
      var t := abs[|root|..];
      assert root + t == abs;
      assert t != [];
      assert abs != [Sep];
      CleanAbsNoTrailingSep(abs);
      assert t[|t| - 1] == abs[|abs| - 1];
      if HasPrefix(abs, root + "/") {
        assert abs[..|root| + 1] == root + "/";
        assert t[0] == '/';
        assert root + "/" + t[1..] == abs;
      }
    }
  }

  /** A clean relative path does not start with a separator. */
  lemma CleanRelHead(x: string)
    requires IsCleanRel(x)
    ensures x[0] != Sep
  {
    assert Split(x)[0] in Split(x);
  }

  /**
    A clean relative path placed below the root is a clean path whose
    elements continue the root's, and the containment test admits it with
    that relative path.
  */
  lemma ContainBelow(root: string, x: string)
    requires IsCleanAbs(root) && IsCleanRel(x)
    ensures IsCleanAbs(Below(root, x)) && Segs(Below(root, x)) == Segs(root) + Split(x)
    ensures Contain(root, Below(root, x)) == Some(SafePath(Below(root, x), x))
  {
    JoinCleanRel(root, x);
    JoinCleanRelText(root, x);
    CleanRelHead(x);
    ContainBelowText(root, x, if root == [Sep] then x else [Sep] + x);
  }

  /** The string steps of the containment test on a path placed below the root. */
  lemma ContainBelowText(root: string, x: string, t: string)
    requires root != [] && x != [] && x[0] != Sep
    requires t == if root == [Sep] then x else [Sep] + x
    ensures Contain(root, Below(root, x)) == Some(SafePath(Below(root, x), x))
  {
    var b := Below(root, x);
    assert b == root + t;
    assert b[..|root|] == root && b[|root|..] == t;
    assert HasPrefix(b, root) && b != root;
    assert TrimPrefix(b, root) == t;
    assert TrimPrefix(t, "/") == x by {
      if root == [Sep] {
        assert !HasPrefix(t, "/") by { assert t[0] != Sep; }
      } else {
        assert t[..1] == "/" && t[1..] == x;
      }
    }
  }

  /**
    A request without '%' that names a clean relative path resolves to
    that path below the root, and is admitted with it as relative path.
  */
  lemma ParseCleanRequest(root: string, rel: string, unescape: string -> string)
    requires IsCleanAbs(root) && IsCleanRel(rel)
    requires unescape(rel) == rel && '%' !in rel
    ensures ParseSafePath(root, "/" + rel, unescape) == Some(SafePath(Below(root, rel), rel))
  {
    var raw := "/" + rel;
    assert Resolve(root, raw, unescape) == Below(root, rel) by {
      assert TrimPrefix(raw, "/") == rel;
      JoinCleanRelText(root, rel);
      JoinCleanRel(root, rel);
      CleanFixesCleanAbs(Join(root, rel));
    }
    ContainBelow(root, rel);
  }

  // --- Segment-bounded containment -----------------------------------------

  /**
    The containment promised by the comment above `parseSafePath`: `abs` is
    `root` or lies below it on an element boundary.
  */
  predicate IsSubpath(abs: string, root: string)
    requires IsCleanAbs(abs) && IsCleanAbs(root)
  {
    Segs(root) <= Segs(abs)
  }

  /**
    A string test for that containment: equality, or a prefix that ends in
    a separator (the root "/" is already such a prefix).
  */
  predicate Within(abs: string, root: string)
  {
    abs == root || HasPrefix(abs, if root == "/" then root else root + "/")
  }

  /** A path that passes `Within` lies on an element boundary below the root. */
  lemma WithinToSubpath(abs: string, root: string)
    requires IsCleanAbs(abs) && IsCleanAbs(root) && Within(abs, root)
    ensures IsSubpath(abs, root)
  {
    if abs != root && root != "/" {
      var t := abs[|root| + 1..];
      assert abs == root + "/" + t by {
        assert abs[..|root| + 1] == root + "/";
      }
      assert abs[1..] == root[1..] + [Sep] + t;
      SplitConcat(root[1..], t);
    }
  }

  /** A path on an element boundary below the root passes `Within`. */
  lemma SubpathToWithin(abs: string, root: string)
    requires IsCleanAbs(abs) && IsCleanAbs(root) && IsSubpath(abs, root)
    ensures Within(abs, root)
  {
    if abs != root && root != "/" {
      var t := SubpathText(abs, root);
      assert abs[..|root| + 1] == root + "/";
    }
  }

  /** A path strictly below a root other than "/" is the root, a separator and the rest. */
  lemma SubpathText(abs: string, root: string) returns (t: string)
    requires IsCleanAbs(abs) && IsCleanAbs(root) && IsSubpath(abs, root)
    requires abs != root && root != "/"
    ensures abs == root + "/" + t
  {
    var sr, sa := Segs(root), Segs(abs);
    var more := sa[|sr|..];
    assert sa == sr + more;
    SegsInjective(abs, root);
    assert |more| >= 1;
    JoinConcat(sr, more);
    t := JoinSegs(more);
  }

  /** The string test `Within` decides containment on element boundaries. */
  lemma WithinIffSubpath(abs: string, root: string)
    requires IsCleanAbs(abs) && IsCleanAbs(root)
    ensures Within(abs, root) <==> IsSubpath(abs, root)
  {
    if Within(abs, root) { WithinToSubpath(abs, root); }
    if IsSubpath(abs, root) { SubpathToWithin(abs, root); }
  }

  /**
    A path on an element boundary below the root, other than the root, is
    a clean relative path placed below it, and the containment test derives
    exactly that relative path.
  */
  lemma SubpathBelow(root: string, abs: string)
    requires IsCleanAbs(root) && IsCleanAbs(abs) && IsSubpath(abs, root) && abs != root
    ensures Contain(root, abs).Some?
    ensures var rel := Contain(root, abs).value.rel;
      IsCleanRel(rel) && Below(root, rel) == abs && Segs(abs) == Segs(root) + Split(rel)
  {
    var x := SubpathRest(root, abs);
    JoinCleanRel(root, x);
    SegsInjective(Join(root, x), abs);
    JoinCleanRelText(root, x);
    ContainBelow(root, x);
  }

  /** The elements of such a path after the root's make up a clean relative path. */
  lemma SubpathRest(root: string, abs: string) returns (x: string)
    requires IsCleanAbs(root) && IsCleanAbs(abs) && IsSubpath(abs, root) && abs != root
    ensures IsCleanRel(x) && Segs(abs) == Segs(root) + Split(x)
  {
    var sr, sa := Segs(root), Segs(abs);
    var more := sa[|sr|..];
    assert sa == sr + more;
    assert |more| >= 1 by { SegsInjective(abs, root); }
    assert AllPlain(more) && NoSep(more) by { assert forall e :: e in more ==> e in sa; }
    x := JoinSegs(more);
    SplitJoin(more);
    JoinSegsLast(more);
  }

  /**
    The containment test of `parseSafePath` with the segment-bounded test
    in place of the bare string prefix: it accepts exactly the paths that
    are the root or below it, and then agrees with the original test. The
    relative path it admits is empty for the root and otherwise a clean
    relative path that leads from the root back to `abs`.
  */
  function ContainWithin(root: string, abs: string): (r: Option<SafePath>)
    requires IsCleanAbs(root) && IsCleanAbs(abs)
    ensures r.Some? <==> IsSubpath(abs, root)
    ensures r.Some? ==> r == Contain(root, abs) && r.value.abs == abs
    ensures r.Some? ==> (r.value.rel == "" <==> abs == root)
    ensures r.Some? && r.value.rel != "" ==>
      && IsCleanRel(r.value.rel) && Below(root, r.value.rel) == abs
      && Segs(abs) == Segs(root) + Split(r.value.rel)
  {
    WithinIffSubpath(abs, root);
    ContainStripsRoot(root, abs);
    if Within(abs, root) && abs != root then SubpathBelow(root, abs); Contain(root, abs)
    else if Within(abs, root) then Contain(root, abs)
    else None
  }

  /**
    `parseSafePath` with the segment-bounded containment test: what it
    admits lies in the root's subtree, is what `parseSafePath` admits, and
    its relative path is empty or a clean relative path below the root.
  */
  function ParseSafePathWithin(root: string, raw: string, unescape: string -> string): (r: Option<SafePath>)
    requires IsCleanAbs(root)
    ensures r.Some? ==> IsCleanAbs(r.value.abs) && IsSubpath(r.value.abs, root)
    ensures r.Some? ==> r == ParseSafePath(root, raw, unescape)
    ensures r.Some? ==> r.value.rel == "" || (IsCleanRel(r.value.rel) && Below(root, r.value.rel) == r.value.abs)
  {
    ContainWithin(root, Resolve(root, raw, unescape))
  }

  /**
    The two containment tests agree wherever the segment-bounded one
    admits a path, and it admits exactly the string-prefix admissions that
    lie in the root's subtree.
  */
  lemma ParseWithinAgrees(root: string, raw: string, unescape: string -> string)
    requires IsCleanAbs(root)
    ensures var p := ParseSafePath(root, raw, unescape);
      var w := ParseSafePathWithin(root, raw, unescape);
      && (w.Some? ==> w == p)
      && (p.Some? ==> IsCleanAbs(p.value.abs) && (w.Some? <==> IsSubpath(p.value.abs, root)))
  {
  }

  // --- Worked requests -------------------------------------------------------
  //
  // Each request is given as its raw text "/" + e together with what
  // `html.UnescapeString` makes of e. The decoded form is what matters to
  // `parseSafePath`; the raw form may hide its ".." elements from the
  // path canonicalisation that `http.ServeMux` applies beforehand.

  /**
    A request given as a list of elements, under a root given as its list
    of elements, resolves to the elements that lexical cleaning keeps.
  */
  lemma ResolveSegs(root: string, raw: string, e: string, rs: seq<string>, qs: seq<string>, kept: seq<string>,
                    unescape: string -> string)
    requires AllPlain(rs) && |rs| >= 1 && NoSep(qs) && |qs| >= 1
    requires root == [Sep] + JoinSegs(rs) && raw == [Sep] + e
    requires Lex([""] + (rs + qs), true) == kept
    requires '%' !in JoinSegs(qs) && unescape(e) == JoinSegs(qs)
    ensures IsCleanAbs(root)
    ensures Resolve(root, raw, unescape) == [Sep] + JoinSegs(kept)
  {
    var req := JoinSegs(qs);
    FromSegs(rs);
    ResolveUnescaped(root, e, req, unescape);
    SplitRootedJoin(rs, qs);
    CleanVia(root + "/" + req, [""] + (rs + qs), kept);
  }

  /** A request that unescapes to a path without '%' is joined as unescaped. */
  lemma ResolveUnescaped(root: string, e: string, req: string, unescape: string -> string)
    requires IsCleanAbs(root) && '%' !in req && unescape(e) == req
    ensures Resolve(root, [Sep] + e, unescape) == Clean(root + "/" + req)
  {
    assert TrimPrefix([Sep] + e, "/") == e;
    CleanIdempotent(root + "/" + req);
  }

  /** The elements of a root followed by a request. */
  lemma SplitRootedJoin(rs: seq<string>, qs: seq<string>)
    requires NoSep(rs) && |rs| >= 1 && NoSep(qs) && |qs| >= 1
    ensures Split([Sep] + JoinSegs(rs) + "/" + JoinSegs(qs)) == [""] + (rs + qs)
  {
    JoinConcat(rs, qs);
    assert [Sep] + JoinSegs(rs) + "/" + JoinSegs(qs) == "" + [Sep] + JoinSegs(rs + qs);
    SplitConcat("", JoinSegs(rs + qs));
    SplitSingle("");
    SplitJoin(rs + qs);
  }

  /** Two ".." elements climb out of a two-element root. */
  lemma ClimbTwo(a: string, b: string, c: string, d: string)
    requires Plain(a) && Plain(b) && Plain(c) && Plain(d)
    ensures Lex([""] + ([a, b] + ["..", "..", c, d]), true) == [c, d]
  {
    var s0 := [""] + [a, b];
    var s1 := s0 + [".."];
    var s2 := s1 + [".."];
    assert Lex(s0, true) == [a] + [b] by {
      LexAppendPlain([""], [a, b], true);
      assert Lex([""], true) == [];
    }
    assert Lex(s1, true) == [] + [a] by {
      LexDropLast(s0, [a], b);
    }
    assert Lex(s2, true) == [] by {
      LexDropLast(s1, [], a);
    }
    assert Lex(s2 + [c, d], true) == [c, d] by {
      LexAppendPlain(s2, [c, d], true);
    }
    assert s2 + [c, d] == [""] + ([a, b] + ["..", "..", c, d]);
  }

  /**
    Under a two-element root "/a/b", a request that unescapes to
    "../../c/d" climbs out of the root to "/c/d".
  */
  lemma ClimbOutOfRoot(root: string, raw: string, e: string, q: string, target: string,
                       a: string, b: string, c: string, d: string, unescape: string -> string)
    requires Plain(a) && Plain(b) && Plain(c) && Plain(d)
    requires root == [Sep] + JoinSegs([a, b]) && target == [Sep] + JoinSegs([c, d])
    requires raw == [Sep] + e && q == JoinSegs(["..", "..", c, d])
    requires '%' !in q && unescape(e) == q
    ensures IsCleanAbs(root)
    ensures Resolve(root, raw, unescape) == target
    ensures a[0] != c[0] ==> ParseSafePath(root, raw, unescape) == None
  {
    ClimbTwo(a, b, c, d);
    ResolveSegs(root, raw, e, [a, b], ["..", "..", c, d], [c, d], unescape);
    if a[0] != c[0] {
      assert !HasPrefix(target, root) by {
        JoinSegsCons(a, [b]);
        JoinSegsCons(c, [d]);
        assert target[1] == c[0] && root[1] == a[0];
      }
    }
  }

  /** The elements of the root "/srv/share". */
  lemma TraversalRoot(root: string)
    requires root == "/srv/share"
    ensures Plain("srv") && Plain("share")
    ensures root == [Sep] + JoinSegs(["srv", "share"])
  {
    JoinSegsCons("srv", ["share"]);
  }

  /** The elements of the path "/etc/passwd". */
  lemma TraversalTarget(target: string)
    requires target == "/etc/passwd"
    ensures Plain("etc") && Plain("passwd")
    ensures target == [Sep] + JoinSegs(["etc", "passwd"])
  {
    JoinSegsCons("etc", ["passwd"]);
  }

  /** The elements of the decoded request "../../etc/passwd". */
  lemma TraversalRequest(q: string)
    requires q == "../../etc/passwd"
    ensures '%' !in q
    ensures q == JoinSegs(["..", "..", "etc", "passwd"])
  {
    JoinSegsCons("etc", ["passwd"]);
    JoinSegsCons("..", ["etc", "passwd"]);
    JoinSegsCons("..", ["..", "etc", "passwd"]);
  }

  /**
    Under root "/srv/share", a request "/" + e whose e unescapes to
    "../../etc/passwd" resolves to "/etc/passwd" and is rejected.
  */
  lemma TraversalRejected(root: string, raw: string, e: string, unescape: string -> string)
    requires root == "/srv/share" && raw == "/" + e
    requires unescape(e) == "../../etc/passwd"
    ensures IsCleanAbs(root)
    ensures Resolve(root, raw, unescape) == "/etc/passwd"
    ensures ParseSafePath(root, raw, unescape) == None
  {
    var q, target := "../../etc/passwd", "/etc/passwd";
    TraversalRoot(root);
    TraversalTarget(target);
    TraversalRequest(q);
    ClimbOutOfRoot(root, raw, e, q, target, "srv", "share", "etc", "passwd", unescape);
  }

  /** One ".." climbs out of a one-element root into a sibling. */
  lemma ClimbToSibling(n: string, m: string)
    requires Plain(n) && Plain(m)
    ensures Lex([""] + ([n] + ["..", m]), true) == [m]
  {
    var e, up := "", "..";
    assert [e] + ([n] + [up, m]) == [e, n, up, m];
    assert Lex([e], true) == [];
    LexSnoc([e], n, true);
    assert [e] + [n] == [e, n];
    LexSnoc([e, n], up, true);
    assert [e, n] + [up] == [e, n, up];
    LexSnoc([e, n, up], m, true);
    assert [e, n, up] + [m] == [e, n, up, m];
  }

  /** Under a one-element root "/n", a request that unescapes to "../" + m names the sibling "/" + m. */
  lemma SiblingResolves(root: string, raw: string, e: string, n: string, m: string, unescape: string -> string)
    requires Plain(n) && Plain(m) && '%' !in m && unescape(e) == "../" + m
    requires root == [Sep] + n && raw == "/" + e
    ensures IsCleanAbs(root) && IsCleanAbs([Sep] + m)
    ensures Resolve(root, raw, unescape) == [Sep] + m
  {
    var qs := ["..", m];
    assert JoinSegs(qs) == "../" + m by { JoinSegsCons("..", [m]); }
    ClimbToSibling(n, m);
    ResolveSegs(root, raw, e, [n], qs, [m], unescape);
    FromSegs([m]);
  }

  /** The string prefix test accepts "/" + n + s under "/" + n, with relative path s. */
  lemma ContainSibling(root: string, abs: string, n: string, s: string)
    requires Plain(n + s) && s != "" && root == [Sep] + n && abs == [Sep] + (n + s)
    ensures Contain(root, abs) == Some(SafePath(abs, s))
  {
    assert abs[..|root|] == root && abs[|root|..] == s;
    assert s[0] != Sep by { assert s[0] == (n + s)[|n|] && (n + s)[|n|] in n + s; }
    assert TrimPrefix(s, "/") == s;
  }

  /**
    The bare string prefix test is weaker than "a subpath of root": under a
    one-element root "/n", a request that unescapes to "../" + n + s, for
    any s that extends n to another plain element, is accepted as the
    sibling "/" + n + s with relative path s, which is not below the root;
    the segment-bounded test rejects it.
  */
  lemma SiblingPrefixAccepted(root: string, raw: string, e: string, n: string, s: string,
                              unescape: string -> string)
    requires Plain(n) && Plain(n + s) && s != "" && '%' !in n + s
    requires unescape(e) == "../" + (n + s)
    requires root == [Sep] + n && raw == "/" + e
    ensures IsCleanAbs(root) && IsCleanAbs([Sep] + (n + s))
    ensures ParseSafePath(root, raw, unescape) == Some(SafePath([Sep] + (n + s), s))
    ensures !IsSubpath([Sep] + (n + s), root)
    ensures ParseSafePathWithin(root, raw, unescape) == None
  {
    var abs := [Sep] + (n + s);
    SiblingResolves(root, raw, e, n, n + s, unescape);
    ContainSibling(root, abs, n, s);
    FromSegs([n]);
    FromSegs([n + s]);
    assert [n] != [n + s] by { assert |n + s| > |n|; }
  }

  /**
    The sibling may be named by extending the root's last element with
    "..": under "/n", a request that unescapes to "../" + n + ".." is
    accepted with the relative path "..", which is not a clean relative
    path.
  */
  lemma SiblingDotDot(root: string, raw: string, e: string, n: string, unescape: string -> string)
    requires Plain(n) && '%' !in n && unescape(e) == "../" + (n + "..")
    requires root == [Sep] + n && raw == "/" + e
    ensures IsCleanAbs(root)
    ensures ParseSafePath(root, raw, unescape) == Some(SafePath([Sep] + (n + ".."), ".."))
    ensures !IsCleanRel("..")
    ensures ParseSafePathWithin(root, raw, unescape) == None
  {
    DotDotExtends(n);
    SiblingPrefixAccepted(root, raw, e, n, "..", unescape);
    DotDotNotClean("..");
  }

  /** ".." alone is not a clean relative path. */
  lemma DotDotNotClean(d: string)
    requires d == ".."
    ensures !IsCleanRel(d)
  {
    assert Sep !in d;
    SplitSingle(d);
    assert d in Split(d);
  }

  /** A plain element extended by ".." is still a plain element. */
  lemma DotDotExtends(n: string)
    requires Plain(n) && '%' !in n
    ensures Plain(n + "..") && '%' !in n + ".."
  {
    var m := n + "..";
    assert |m| >= 3;
    forall i | 0 <= i < |m|
      ensures m[i] != Sep && m[i] != '%'
    {
      if i < |n| { assert m[i] == n[i] && n[i] in n; }
    }
  }

  /** "data-secret" is the plain element "data" extended by "-secret". */
  lemma DataSecretElements()
    ensures Plain("data") && Plain("data" + "-secret") && '%' !in "data" + "-secret"
    ensures "data" + "-secret" == "data-secret"
    ensures "/data" == [Sep] + "data"
    ensures "/data-secret" == [Sep] + ("data" + "-secret")
    ensures "../data-secret" == "../" + ("data" + "-secret")
  {
  }

  /** The raw request "/&period;&period;/data-secret" is "/" followed by its path. */
  lemma DataSecretRequest(raw: string, e: string)
    requires raw == "/&period;&period;/data-secret" && e == "&period;&period;/data-secret"
    ensures raw == "/" + e
  {
  }

  /**
    Under root "/data", the request "/&period;&period;/data-secret", whose
    HTML unescaping is "../data-secret", is accepted as "/data-secret".
  */
  lemma SiblingDataSecret(root: string, raw: string, unescape: string -> string)
    requires root == "/data" && raw == "/&period;&period;/data-secret"
    requires unescape("&period;&period;/data-secret") == "../data-secret"
    ensures IsCleanAbs(root)
    ensures ParseSafePath(root, raw, unescape) == Some(SafePath("/data-secret", "-secret"))
    ensures ParseSafePathWithin(root, raw, unescape) == None
  {
    var e := "&period;&period;/data-secret";
    DataSecretElements();
    DataSecretRequest(raw, e);
    SiblingPrefixAccepted(root, raw, e, "data", "-secret", unescape);
  }

  /**
    At the root "/" there is nothing to climb out of: a request that
    unescapes to "../" + x is admitted as "/" + x, because a ".." at the
    start of a rooted path vanishes.
  */
  lemma RootClimb(root: string, raw: string, e: string, x: string, unescape: string -> string)
    requires root == "/" && raw == "/" + e && Plain(x) && '%' !in x && unescape(e) == "../" + x
    ensures IsCleanAbs(root)
    ensures Resolve(root, raw, unescape) == "/" + x
    ensures ParseSafePath(root, raw, unescape) == Some(SafePath("/" + x, x))
  {
    var q := "../" + x;
    RootClimbRequest(q, x);
    ResolveUnescaped(root, e, q, unescape);
    RootClimbClean(root, q, x);
    assert Resolve(root, raw, unescape) == Below(root, x);
    SplitSingle(x);
    ContainBelow(root, x);
  }

  /** Joined onto the root "/", the request "../" + x cleans to "/" + x. */
  lemma RootClimbClean(root: string, q: string, x: string)
    requires root == [Sep] && Plain(x) && q == JoinSegs(["..", x])
    ensures Clean(root + "/" + q) == [Sep] + x
  {
    RootJoinSplit(root, q, ["..", x]);
    RootClimbSegs(x);
    CleanVia(root + "/" + q, ["", ""] + ["..", x], [x]);
  }

  /** The elements of the decoded request "../" + x. */
  lemma RootClimbRequest(q: string, x: string)
    requires q == "../" + x && Plain(x) && '%' !in x
    ensures '%' !in q && q == JoinSegs(["..", x])
  {
    JoinSegsCons("..", [x]);
  }

  /** A request joined onto the root "/" starts with two empty elements. */
  lemma RootJoinSplit(root: string, q: string, qs: seq<string>)
    requires root == [Sep] && NoSep(qs) && |qs| >= 1 && q == JoinSegs(qs)
    ensures Split(root + "/" + q) == ["", ""] + qs
  {
    assert root + "/" + q == "" + [Sep] + ("" + [Sep] + q);
    SplitConcat("", "" + [Sep] + q);
    SplitConcat("", q);
    SplitSingle("");
    SplitJoin(qs);
  }

  /** Two empty elements and a ".." vanish from a rooted path, and a plain element stays. */
  lemma RootClimbSegs(x: string)
    requires Plain(x)
    ensures Lex(["", ""] + ["..", x], true) == [x]
  {
    var s0 := ["", ""];
    assert Lex(s0, true) == [] by {
      LexSkip([], "", true);
      assert [] + [""] == [""];
      LexSkip([""], "", true);
      assert [""] + [""] == s0;
    }
    var s1 := s0 + [".."];
    LexRootUp(s0);
    LexAppendPlain(s1, [x], true);
    assert s1 + [x] == ["", ""] + ["..", x];
  }
}
