/**
  The lexical part of Go's `path/filepath` package on a Unix system, where
  the separator is '/' and there are no volume names: splitting a path into
  elements, `Clean`, `Join`, `Dir` and `Ext`. None of these functions touches
  the filesystem.
*/
module FilePath {
  import opened Strings

  const Sep: char := '/'

  /** An element that a cleaned path may hold: not empty, not "." or "..", no separator. */
  predicate Plain(e: string)
  {
    e != "" && e != "." && e != ".." && Sep !in e
  }

  predicate AllPlain(segs: seq<string>)
  {
    forall e :: e in segs ==> Plain(e)
  }

  predicate NoSep(segs: seq<string>)
  {
    forall e :: e in segs ==> Sep !in e
  }

  /** The elements of `s` between separators (`strings.Split(s, "/")`). */
  function Split(s: string): (r: seq<string>)
    ensures |r| >= 1
    ensures NoSep(r)
    decreases |s|
  {
    if s == [] then [[]]
    else
      var rest := Split(s[1..]);
      if s[0] == Sep then [[]] + rest
      else [[s[0]] + rest[0]] + rest[1..]
  }

  /** The elements joined by separators (`strings.Join(segs, "/")`). */
  function JoinSegs(segs: seq<string>): string
  {
    if segs == [] then []
    else if |segs| == 1 then segs[0]
    else segs[0] + [Sep] + JoinSegs(segs[1..])
  }

  /** Splitting at a separator splits the two sides independently. */
  lemma {:induction false} SplitConcat(a: string, b: string)
    ensures Split(a + [Sep] + b) == Split(a) + Split(b)
    decreases |a|
  {
    if a == [] {
      assert a + [Sep] + b == [Sep] + b;
      SplitConsSep(b);
    } else {
      var c, t := a[0], a[1..];
      SplitConcat(t, b);
      SplitConcatStep(c, t, b);
      assert a == [c] + t;
    }
  }

  /** The inductive step of `SplitConcat`: one more leading character. */
  lemma SplitConcatStep(c: char, t: string, b: string)
    requires Split(t + [Sep] + b) == Split(t) + Split(b)
    ensures Split([c] + t + [Sep] + b) == Split([c] + t) + Split(b)
  {
    var x := t + [Sep] + b;
    assert [c] + t + [Sep] + b == [c] + x;
    if c == Sep {
      SplitConsSep(x);
      SplitConsSep(t);
      PrependEmpty(Split(t), Split(b), Split(x), Split([c] + t), Split([c] + x));
    } else {
      SplitConsChar(c, x);
      SplitConsChar(c, t);
      PrependToFirst(c, Split(t), Split(b), Split(x), Split([c] + t), Split([c] + x));
    }
  }

  /** List algebra for a leading separator: a new empty first element. */
  lemma PrependEmpty(rt: seq<string>, rb: seq<string>, rx: seq<string>, rct: seq<string>, rcx: seq<string>)
    requires rx == rt + rb && rcx == [[]] + rx && rct == [[]] + rt
    ensures rcx == rct + rb
  {
  }

  /** List algebra for a leading character: it joins the first element. */
  lemma PrependToFirst(c: char, rt: seq<string>, rb: seq<string>, rx: seq<string>, rct: seq<string>, rcx: seq<string>)
    requires |rt| >= 1 && rx == rt + rb
    requires rcx == [[c] + rx[0]] + rx[1..] && rct == [[c] + rt[0]] + rt[1..]
    ensures rcx == rct + rb
  {
    assert rx[0] == rt[0] && rx[1..] == rt[1..] + rb;
  }

  /** A leading separator adds an empty element. */
  lemma SplitConsSep(x: string)
    ensures Split([Sep] + x) == [[]] + Split(x)
  {
    assert ([Sep] + x)[0] == Sep && ([Sep] + x)[1..] == x;
  }

  /** A leading character other than the separator joins the first element. */
  lemma SplitConsChar(c: char, x: string)
    requires c != Sep
    ensures Split([c] + x) == [[c] + Split(x)[0]] + Split(x)[1..]
  {
    assert ([c] + x)[0] == c && ([c] + x)[1..] == x;
  }

  /** A string without separators is one element. */
  lemma {:induction false} SplitSingle(x: string)
    requires Sep !in x
    ensures Split(x) == [x]
    decreases |x|
  {
    if x != [] {
      SplitSingle(x[1..]);
      assert [x[0]] + x[1..] == x;
    }
  }

  /** Joining and then splitting gives back the elements. */
  lemma {:induction false} SplitJoin(segs: seq<string>)
    requires |segs| >= 1 && NoSep(segs)
    ensures Split(JoinSegs(segs)) == segs
    decreases |segs|
  {
    SplitSingle(segs[0]);
    if |segs| > 1 {
      SplitJoin(segs[1..]);
      SplitConcat(segs[0], JoinSegs(segs[1..]));
    }
  }

  /** Splitting and then joining gives back the string. */
  lemma {:induction false} JoinSplit(s: string)
    ensures JoinSegs(Split(s)) == s
    decreases |s|
  {
    if s != [] {
      var c, t := s[0], s[1..];
      assert s == [c] + t;
      JoinSplit(t);
      var rest := Split(t);
      if c == Sep {
        SplitConsSep(t);
        JoinSegsCons([], rest);
      } else {
        SplitConsChar(c, t);
        var first := [c] + rest[0];
        if |rest| == 1 {
          assert [first] + rest[1..] == [first];
        } else {
          assert rest == [rest[0]] + rest[1..];
          JoinSegsCons(rest[0], rest[1..]);
          JoinSegsCons(first, rest[1..]);
        }
      }
    }
  }

  /** Appending one element to a non-empty list appends a separator and the element. */
  lemma {:induction false} JoinSegsSnoc(a: seq<string>, x: string)
    requires |a| >= 1
    ensures JoinSegs(a + [x]) == JoinSegs(a) + [Sep] + x
    decreases |a|
  {
    if |a| > 1 {
      assert (a + [x])[1..] == a[1..] + [x];
      JoinSegsSnoc(a[1..], x);
    }
  }

  /**
    One step of `Clean`'s left-to-right scan: empty and "." elements vanish,
    ".." removes the element before it, and at the start of a rooted path it
    vanishes too (the parent of "/" is "/").
  */
  function Step(acc: seq<string>, e: string, rooted: bool): seq<string>
  {
    if e == "" || e == "." then acc
    else if e == ".." then
      if |acc| > 0 && acc[|acc| - 1] != ".." then acc[..|acc| - 1]
      else if rooted then acc
      else acc + [e]
    else acc + [e]
  }

  /** The elements that `Clean` keeps, scanning `segs` from the left. */
  function Lex(segs: seq<string>, rooted: bool): (r: seq<string>)
    requires NoSep(segs)
    ensures rooted ==> AllPlain(r)
    ensures forall e :: e in r ==> Plain(e) || e == ".."
    decreases |segs|
  {
    if segs == [] then []
    else Step(Lex(segs[..|segs| - 1], rooted), segs[|segs| - 1], rooted)
  }

  /** Plain elements after a prefix are kept as they are. */
  lemma {:induction false} LexAppendPlain(pre: seq<string>, post: seq<string>, rooted: bool)
    requires NoSep(pre) && AllPlain(post)
    ensures Lex(pre + post, rooted) == Lex(pre, rooted) + post
    decreases |post|
  {
    if post == [] {
      assert pre + post == pre;
    } else {
      var all := pre + post;
      var init := post[..|post| - 1];
      var last := post[|post| - 1];
      assert last in post && all[|all| - 1] == last;
      assert all[..|all| - 1] == pre + init;
      LexAppendPlain(pre, init, rooted);
      assert Lex(all, rooted) == Step(Lex(pre, rooted) + init, last, rooted) == Lex(pre, rooted) + init + [last];
      assert init + [last] == post;
    }
  }

  /**
    `filepath.Clean`: the shortest path lexically equivalent to `p`
    (the four rules of Rob Pike's "Lexical File Names in Plan 9").
  */
  function Clean(p: string): (c: string)
    ensures c != []
    ensures IsAbs(c) <==> IsAbs(p)
  {
    if p == [] then "."
    else
      var rooted := p[0] == Sep;
      var segs := Lex(Split(p), rooted);
      if rooted then [Sep] + JoinSegs(segs)
      else if segs == [] then "."
      else JoinSegsHead(segs); JoinSegs(segs)
  }

  /** A list whose first element is plain or ".." joins to a path that does not start with a separator. */
  lemma JoinSegsHead(segs: seq<string>)
    requires |segs| >= 1 && (Plain(segs[0]) || segs[0] == "..")
    ensures JoinSegs(segs) != [] && JoinSegs(segs)[0] != Sep
  {
    var x := segs[0];
    assert x[0] in x;
    if |segs| > 1 {
      assert JoinSegs(segs) == x + ([Sep] + JoinSegs(segs[1..]));
    }
  }

  predicate IsAbs(p: string)
  {
    |p| > 0 && p[0] == Sep
  }

  /** A path that `Clean` leaves alone: "/", or "/" followed by plain elements. */
  predicate IsCleanAbs(p: string)
  {
    p == [Sep] || (|p| > 1 && p[0] == Sep && AllPlain(Split(p[1..])))
  }

  /** A relative path of one or more plain elements. */
  predicate IsCleanRel(p: string)
  {
    p != [] && AllPlain(Split(p))
  }

  /** The elements of a clean absolute path; "/" has none. */
  function Segs(p: string): (r: seq<string>)
    requires IsCleanAbs(p)
    ensures AllPlain(r)
    ensures p == [Sep] + JoinSegs(r)
  {
    if p == [Sep] then []
    else JoinSplit(p[1..]); Split(p[1..])
  }

  /** Every list of plain elements is the element list of exactly one clean absolute path. */
  lemma FromSegs(segs: seq<string>)
    requires AllPlain(segs)
    ensures IsCleanAbs([Sep] + JoinSegs(segs))
    ensures Segs([Sep] + JoinSegs(segs)) == segs
  {
    var p := [Sep] + JoinSegs(segs);
    if segs != [] {
      SplitJoin(segs);
      assert p[1..] == JoinSegs(segs);
      assert |JoinSegs(segs)| > 0 by {
        assert segs[0] in segs;
        assert |JoinSegs(segs)| >= |segs[0]|;
      }
    }
  }

  /** Two clean absolute paths are equal exactly when their elements are. */
  lemma SegsInjective(p: string, q: string)
    requires IsCleanAbs(p) && IsCleanAbs(q)
    ensures p == q <==> Segs(p) == Segs(q)
  {
  }

  /** Cleaning an absolute path gives a clean absolute path, made of the elements `Lex` keeps. */
  lemma CleanAbs(p: string)
    requires IsAbs(p)
    ensures IsCleanAbs(Clean(p))
    ensures Segs(Clean(p)) == Lex(Split(p), true)
  {
    FromSegs(Lex(Split(p), true));
  }

  /** A clean absolute path is a fixed point of `Clean`. */
  lemma CleanFixesCleanAbs(p: string)
    requires IsCleanAbs(p)
    ensures Clean(p) == p
  {
    var segs := Segs(p);
    if p != [Sep] {
      assert Split(p) == [[]] + segs;
      LexAppendPlain([[]], segs, true);
      assert Lex([[]], true) == [];
      assert Lex(Split(p), true) == segs;
      assert Clean(p) == [Sep] + JoinSegs(segs);
    } else {
      assert Split(p) == [[], []];
      assert Lex([[], []], true) == Lex([[]], true) == [];
    }
  }

  /** `Clean` is idempotent on absolute paths, and its result has no empty, "." or ".." element. */
  lemma CleanIdempotent(p: string)
    requires IsAbs(p)
    ensures IsCleanAbs(Clean(p)) && AllPlain(Segs(Clean(p)))
    ensures Clean(Clean(p)) == Clean(p)
  {
    CleanAbs(p);
    CleanFixesCleanAbs(Clean(p));
  }

  /** `filepath.Join` of two elements: the non-empty ones joined by a separator, then cleaned. */
  function Join(a: string, b: string): (r: string)
    ensures r == [] <==> a == [] && b == []
    ensures a != [] ==> (IsAbs(r) <==> IsAbs(a))
  {
    if a != [] then Clean(a + [Sep] + b)
    else if b != [] then Clean(b)
    else []
  }

  /** `Clean` of an absolute path whose elements are some vanishing ones followed by plain ones. */
  lemma CleanOfPlain(p: string, pre: seq<string>, segs: seq<string>)
    requires IsAbs(p) && NoSep(pre) && AllPlain(segs)
    requires Split(p) == pre + segs && Lex(pre, true) == []
    ensures Clean(p) == [Sep] + JoinSegs(segs)
  {
    LexAppendPlain(pre, segs, true);
    assert Lex(Split(p), true) == segs;
    assert p != [] && p[0] == Sep;
  }

  /** The elements of `a + "/" + b` for a clean absolute `a`. */
  lemma SplitUnder(a: string, b: string)
    requires IsCleanAbs(a)
    ensures a == [Sep] ==> Split(a + [Sep] + b) == [[], []] + Split(b)
    ensures a != [Sep] ==> Split(a + [Sep] + b) == [[]] + (Segs(a) + Split(b))
  {
    var s := a + [Sep] + b;
    if a == [Sep] {
      assert s[1..] == [Sep] + b;
      assert s[1..][1..] == b;
    } else {
      assert s[1..] == a[1..] + [Sep] + b;
      SplitConcat(a[1..], b);
    }
  }

  /** Joining a clean relative path onto a clean absolute one appends its elements. */
  lemma JoinCleanRel(a: string, b: string)
    requires IsCleanAbs(a) && IsCleanRel(b)
    ensures IsCleanAbs(Join(a, b))
    ensures Segs(Join(a, b)) == Segs(a) + Split(b)
  {
    var sb := Split(b);
    SplitUnder(a, b);
    if a == [Sep] {
      assert Lex([[], []], true) == [];
      CleanOfPlain(a + [Sep] + b, [[], []], sb);
      assert Segs(a) + sb == sb;
    } else {
      assert Lex([[]], true) == [];
      CleanOfPlain(a + [Sep] + b, [[]], Segs(a) + sb);
    }
    FromSegs(Segs(a) + sb);
  }

  /**
    The text of a clean relative path `rel` placed below a clean absolute
    `root`: one separator between them, none added after "/".
  */
  function Below(root: string, rel: string): string
  {
    (if root == [Sep] then root else root + [Sep]) + rel
  }

  /** Placing "a/b" below a path is placing b below a below it. */
  lemma BelowTwice(root: string, a: string, b: string)
    requires IsCleanAbs(root) && a != []
    ensures Below(root, a + [Sep] + b) == Below(Below(root, a), b)
  {
    assert Below(root, a) != [Sep] by { assert |Below(root, a)| > 1; }
  }

  /** As a string, that join is `a` and `b` with one separator between them. */
  lemma JoinCleanRelText(a: string, b: string)
    requires IsCleanAbs(a) && IsCleanRel(b)
    ensures Join(a, b) == Below(a, b)
  {
    var j := Join(a, b);
    var sa, sb := Segs(a), Split(b);
    assert j == [Sep] + JoinSegs(sa + sb) by {
      JoinCleanRel(a, b);
    }
    assert JoinSegs(sb) == b by {
      JoinSplit(b);
    }
    if a != [Sep] {
      assert JoinSegs(sa + sb) == JoinSegs(sa) + [Sep] + b by {
        assert sa != [];
        JoinConcat(sa, sb);
      }
      PrependJoined(j, a, JoinSegs(sa), b);
    } else {
      assert sa == [];
      assert sa + sb == sb;
    }
  }

  /** A rooted path whose text is `x`, a separator and `b` extends the rooted `x`. */
  lemma PrependJoined(j: string, a: string, x: string, b: string)
    requires a == [Sep] + x && j == [Sep] + (x + [Sep] + b)
    ensures j == a + [Sep] + b
  {
  }

  /** Joining two non-empty element lists puts one separator between them. */
  lemma {:induction false} JoinConcat(a: seq<string>, b: seq<string>)
    requires |a| >= 1 && |b| >= 1
    ensures JoinSegs(a + b) == JoinSegs(a) + [Sep] + JoinSegs(b)
    decreases |a|
  {
    if |a| == 1 {
      assert (a + b)[1..] == b;
    } else {
      assert (a + b)[1..] == a[1..] + b;
      JoinConcat(a[1..], b);
    }
  }

  /** Index of the last separator in `p`, or -1 when there is none. */
  function LastSep(p: string): (i: int)
    ensures -1 <= i < |p|
    ensures i >= 0 ==> p[i] == Sep
    ensures forall k :: i < k < |p| ==> p[k] != Sep
    decreases |p|
  {
    if p == [] then -1
    else if p[|p| - 1] == Sep then |p| - 1
    else LastSep(p[..|p| - 1])
  }

  /** `filepath.Dir`: everything up to the last separator, cleaned. */
  function Dir(p: string): (d: string)
    ensures d != []
    ensures IsAbs(p) ==> IsAbs(d)
    ensures Sep !in p ==> d == "."
  {
    Clean(p[..LastSep(p) + 1])
  }

  /** The last separator of `d + "/" + x`, when `x` has none, is the one added. */
  lemma {:induction false} LastSepAppend(d: string, x: string)
    requires Sep !in x
    ensures LastSep(d + [Sep] + x) == |d|
    decreases |x|
  {
    var p := d + [Sep] + x;
    if x != [] {
      var y := x[..|x| - 1];
      assert x[|x| - 1] in x && p[|p| - 1] == x[|x| - 1];
      assert p[..|p| - 1] == d + [Sep] + y;
      LastSepAppend(d, y);
    }
  }

  /** A trailing separator adds an empty element. */
  lemma SplitSnocSep(x: string)
    ensures Split(x + [Sep]) == Split(x) + [[]]
  {
    assert x + [Sep] == x + [Sep] + [];
    SplitConcat(x, []);
    assert Split([]) == [[]];
  }

  /** The elements of a clean absolute path followed by a separator. */
  lemma SplitTrailingSep(init: seq<string>)
    requires AllPlain(init) && |init| >= 1
    ensures Split([Sep] + JoinSegs(init) + [Sep]) == [[]] + init + [[]]
  {
    var j := JoinSegs(init);
    assert [Sep] + j + [Sep] == [Sep] + (j + [Sep]);
    SplitConsSep(j + [Sep]);
    SplitSnocSep(j);
    assert NoSep(init);
    SplitJoin(init);
  }

  /** A trailing empty element vanishes. */
  lemma LexTrailingEmpty(init: seq<string>)
    requires AllPlain(init)
    ensures Lex([[]] + init + [[]], true) == init
  {
    var segs := [[]] + init + [[]];
    assert segs[..|init| + 1] == [[]] + init;
    LexAppendPlain([[]], init, true);
    assert Lex([[]], true) == [];
  }

  /** A trailing separator is dropped by `Clean`. */
  lemma CleanTrailingSep(init: seq<string>)
    requires AllPlain(init) && |init| >= 1
    ensures Clean([Sep] + JoinSegs(init) + [Sep]) == [Sep] + JoinSegs(init)
  {
    SplitTrailingSep(init);
    LexTrailingEmpty(init);
  }

  /** The directory of "/x" is "/". */
  lemma DirTop(last: string)
    requires Plain(last)
    ensures Dir([Sep] + last) == [Sep]
  {
    var p := [] + [Sep] + last;
    LastSepAppend([], last);
    assert p[..1] == [Sep];
    assert Split([Sep]) == [[], []];
    assert Lex([[], []], true) == Lex([[]], true) == [];
  }

  /** The directory of "/a/.../x" is "/a/...". */
  lemma DirNested(init: seq<string>, last: string)
    requires AllPlain(init) && |init| >= 1 && Plain(last)
    ensures Dir([Sep] + JoinSegs(init) + [Sep] + last) == [Sep] + JoinSegs(init)
  {
    var d := [Sep] + JoinSegs(init);
    var p := d + [Sep] + last;
    assert p[..LastSep(p) + 1] == d + [Sep] by {
      LastSepAppend(d, last);
    }
    CleanTrailingSep(init);
  }

  /** The directory of a clean absolute path other than "/" is the path without its last element. */
  lemma DirCleanAbs(p: string)
    requires IsCleanAbs(p) && p != [Sep]
    ensures IsCleanAbs(Dir(p))
    ensures Segs(Dir(p)) == Segs(p)[..|Segs(p)| - 1]
  {
    var segs := Segs(p);
    var n := |segs|;
    var last, init := segs[n - 1], segs[..n - 1];
    assert Plain(last) by { assert last in segs; }
    assert AllPlain(init) by { assert forall e :: e in init ==> e in segs; }
    assert segs == init + [last];
    DirSnoc(init, last);
    FromSegs(init);
  }

  /** `DirNested` and `DirTop` stated on element lists. */
  lemma DirSnoc(init: seq<string>, last: string)
    requires AllPlain(init) && Plain(last)
    ensures Dir([Sep] + JoinSegs(init + [last])) == [Sep] + JoinSegs(init)
  {
    if init == [] {
      assert JoinSegs(init + [last]) == last;
      DirTop(last);
    } else {
      JoinSegsSnoc(init, last);
      assert [Sep] + JoinSegs(init + [last]) == [Sep] + JoinSegs(init) + [Sep] + last;
      DirNested(init, last);
    }
  }

  /**
    `filepath.Ext`: the suffix of `p` from the last '.' in its final element,
    or "" when the final element has no '.'.
  */
  function Ext(p: string): (e: string)
    ensures e == [] || (e[0] == '.' && '.' !in e[1..] && Sep !in e && |e| <= |p| && p[|p| - |e|..] == e)
    decreases |p|
  {
    if p == [] then []
    else
      var c := p[|p| - 1];
      if c == Sep then []
      else if c == '.' then [c]
      else
        var e := Ext(p[..|p| - 1]);
        if e == [] then [] else e + [c]
  }

  /** Dropping the last character of a slice that runs to the end. */
  lemma SliceSnoc(p: string, i: int)
    requires |p| > 0 && -1 <= i < |p| - 1
    ensures p[i + 1..] == p[..|p| - 1][i + 1..] + [p[|p| - 1]]
  {
  }

  /** `Ext` is empty exactly when the final element of the path has no '.'. */
  lemma {:induction false} ExtEmpty(p: string)
    ensures Ext(p) == [] <==> '.' !in p[LastSep(p) + 1..]
    decreases |p|
  {
    if p != [] && p[|p| - 1] != Sep && p[|p| - 1] != '.' {
      var q := p[..|p| - 1];
      ExtEmpty(q);
      SliceSnoc(p, LastSep(q));
    }
  }

  /** `Lex` takes one more element by one more `Step`. */
  lemma LexSnoc(segs: seq<string>, e: string, rooted: bool)
    requires NoSep(segs) && Sep !in e
    ensures Lex(segs + [e], rooted) == Step(Lex(segs, rooted), e, rooted)
  {
    assert (segs + [e])[..|segs|] == segs;
  }

  /** `Clean` of an absolute path, given the elements `Lex` keeps. */
  lemma CleanVia(p: string, segs: seq<string>, kept: seq<string>)
    requires IsAbs(p) && Split(p) == segs && Lex(segs, true) == kept
    ensures Clean(p) == [Sep] + JoinSegs(kept)
  {
  }

  /** A clean absolute path other than "/" never ends in a separator. */
  lemma {:induction false} JoinSegsLast(segs: seq<string>)
    requires |segs| >= 1 && AllPlain(segs)
    ensures |JoinSegs(segs)| > 0 && JoinSegs(segs)[|JoinSegs(segs)| - 1] != Sep
    decreases |segs|
  {
    var e := segs[|segs| - 1];
    assert e in segs;
    assert e[|e| - 1] in e;
    if |segs| > 1 {
      assert segs[1..][|segs| - 2] == e;
      assert forall x :: x in segs[1..] ==> x in segs;
      JoinSegsLast(segs[1..]);
    } else {
      assert segs[0] in segs;
    }
  }

  /** A clean absolute path other than "/" has no trailing separator. */
  lemma CleanAbsNoTrailingSep(p: string)
    requires IsCleanAbs(p) && p != [Sep]
    ensures p[|p| - 1] != Sep
  {
    var segs := Segs(p);
    JoinSegsLast(segs);
  }

  /** Joining an element in front of a non-empty list. */
  lemma JoinSegsCons(x: string, rest: seq<string>)
    requires |rest| >= 1
    ensures JoinSegs([x] + rest) == x + [Sep] + JoinSegs(rest)
  {
    assert ([x] + rest)[1..] == rest;
  }

  /** Joining a plain element onto a clean relative path appends it with one separator. */
  lemma JoinRelPlain(a: string, n: string)
    requires IsCleanRel(a) && Plain(n)
    ensures Join(a, n) == a + [Sep] + n
    ensures IsCleanRel(Join(a, n)) && Split(Join(a, n)) == Split(a) + [n]
  {
    var p := a + [Sep] + n;
    var segs := Split(a) + [n];
    assert a[0] != Sep by { assert Split(a)[0] in Split(a); }
    assert Split(p) == segs by {
      SplitConcat(a, n);
      SplitSingle(n);
    }
    assert Lex(segs, false) == segs by {
      LexAppendPlain([], segs, false);
      assert [] + segs == segs;
    }
    assert JoinSegs(segs) == p by {
      JoinSegsSnoc(Split(a), n);
      JoinSplit(a);
    }
  }

  /** `Ext` looks only at the final element of a path. */
  lemma {:induction false} ExtLast(d: string, x: string)
    requires Sep !in x
    ensures Ext(d + [Sep] + x) == Ext(x)
    decreases |x|
  {
    if x == [] {
      assert d + [Sep] + x == d + [Sep];
      ExtSnoc(d, Sep);
    } else {
      var init, c := x[..|x| - 1], x[|x| - 1];
      assert x == init + [c];
      assert d + [Sep] + x == (d + [Sep] + init) + [c];
      ExtLast(d, init);
      ExtSnoc(d + [Sep] + init, c);
      ExtSnoc(init, c);
    }
  }

  /** `Ext` after one more character. */
  lemma ExtSnoc(q: string, c: char)
    ensures Ext(q + [c]) == if c == Sep then [] else if c == '.' then [c]
                            else if Ext(q) == [] then [] else Ext(q) + [c]
  {
    assert (q + [c])[..|q|] == q && (q + [c])[|q|] == c;
  }

  /** The directory of "/" is "/". */
  lemma DirOfRoot()
    ensures Dir([Sep]) == [Sep]
  {
    assert LastSep([Sep]) == 0;
    assert [Sep][..1] == [Sep];
    CleanFixesCleanAbs([Sep]);
  }

  /** A plain element below a clean absolute path: clean, one element longer, and its `Dir` is the parent. */
  lemma Child(p: string, a: string)
    requires IsCleanAbs(p) && Plain(a)
    ensures IsCleanAbs(Below(p, a)) && Segs(Below(p, a)) == Segs(p) + [a]
    ensures Dir(Below(p, a)) == p
  {
    var sp := Segs(p);
    if p == [Sep] {
      assert Below(p, a) == [Sep] + JoinSegs([a]);
      FromSegs([a]);
      DirTop(a);
    } else {
      assert sp != [];
      assert Below(p, a) == p + [Sep] + a;
      assert p + [Sep] + a == [Sep] + JoinSegs(sp + [a]) by { JoinSegsSnoc(sp, a); }
      FromSegs(sp + [a]);
      DirNested(sp, a);
    }
  }

  /** A ".." after a kept plain element of a rooted path removes it. */
  lemma LexDropLast(segs: seq<string>, kept: seq<string>, x: string)
    requires NoSep(segs) && Lex(segs, true) == kept + [x]
    ensures Lex(segs + [".."], true) == kept
  {
    LexSnoc(segs, "..", true);
    assert x in Lex(segs, true);
    assert (kept + [x])[..|kept|] == kept;
  }
  /** An empty or "." element vanishes: it changes nothing that `Clean` keeps. */
  lemma LexSkip(segs: seq<string>, e: string, rooted: bool)
    requires NoSep(segs) && (e == "" || e == ".")
    ensures Lex(segs + [e], rooted) == Lex(segs, rooted)
  {
    LexSnoc(segs, e, rooted);
  }

  /** A ".." with nothing left to remove vanishes at the start of a rooted path: the parent of "/" is "/". */
  lemma LexRootUp(segs: seq<string>)
    requires NoSep(segs) && Lex(segs, true) == []
    ensures Lex(segs + [".."], true) == []
  {
    LexSnoc(segs, "..", true);
  }

  /** In a relative path a ".." with nothing left to remove is kept, after any kept "..". */
  lemma LexRelUp(segs: seq<string>)
    requires NoSep(segs)
    requires Lex(segs, false) == [] || Lex(segs, false)[|Lex(segs, false)| - 1] == ".."
    ensures Lex(segs + [".."], false) == Lex(segs, false) + [".."]
  {
    LexSnoc(segs, "..", false);
  }

}
