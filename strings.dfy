/**
  The few functions of Go's `strings` package that the request path sandbox
  uses, over `string` (a sequence of characters).
*/
module Strings {

  /** `strings.HasPrefix`: `p` is a prefix of `s`, so `s` is `p` followed by the rest of `s`. */
  function HasPrefix(s: string, p: string): (b: bool)
    ensures b <==> |p| <= |s| && s == p + s[|p|..]
  {
    |p| <= |s| && s[..|p|] == p
  }

  /** `strings.TrimPrefix`: `s` without the leading `p`, or `s` unchanged. */
  function TrimPrefix(s: string, p: string): (r: string)
    ensures HasPrefix(s, p) ==> p + r == s
    ensures !HasPrefix(s, p) ==> r == s
    ensures |r| <= |s|
  {
    if HasPrefix(s, p) then s[|p|..] else s
  }

  /** `strings.Contains`: `p` occurs in `s` at some position. */
  predicate Contains(s: string, p: string)
    decreases |s|
  {
    HasPrefix(s, p) || (|s| > 0 && Contains(s[1..], p))
  }

  /** No character of `a` occurs in `b`. */
  predicate NoCommonChar(a: string, b: string)
  {
    forall c :: c in a ==> c !in b
  }

  /**
    `strings.ReplaceAll` for a non-empty pattern: replaces the
    non-overlapping occurrences of `pat`, scanning from the left. A string
    in which `pat` never occurs is left unchanged.
  */
  function ReplaceAll(s: string, pat: string, rep: string): (r: string)
    requires |pat| > 0
    ensures !Contains(s, pat) ==> r == s
    decreases |s|
  {
    if HasPrefix(s, pat) then rep + ReplaceAll(s[|pat|..], pat, rep)
    else if s == [] then []
    else
      var rest := ReplaceAll(s[1..], pat, rep);
      assert !Contains(s, pat) ==> [s[0]] + rest == [s[0]] + s[1..] == s;
      [s[0]] + rest
  }

  /** An occurrence of `p` in `a + b` that cannot start inside `a` lies in `b`. */
  lemma {:induction false} ContainsSkip(a: string, b: string, p: string)
    requires |p| > 0 && p[0] !in a && Contains(a + b, p)
    ensures Contains(b, p)
    decreases |a|
  {
    if a == [] {
      assert a + b == b;
    } else {
      if HasPrefix(a + b, p) {
        assert false;
      }
      assert (a + b)[1..] == a[1..] + b;
      ContainsSkip(a[1..], b, p);
    }
  }

  /** An occurrence in a suffix is an occurrence in the whole string. */
  lemma {:induction false} ContainsExtend(a: string, b: string, p: string)
    requires Contains(b, p)
    ensures Contains(a + b, p)
    decreases |a|
  {
    if a == [] {
      assert a + b == b;
    } else {
      assert (a + b)[1..] == a[1..] + b;
      ContainsExtend(a[1..], b, p);
    }
  }

  /**
    A prefix of the replaced string that shares no character with the
    replacement was already a prefix of the original string.
  */
  lemma {:induction false} ReplaceAllPrefix(s: string, pat: string, rep: string, w: string)
    requires |pat| > 0 && |rep| > 0 && NoCommonChar(rep, w)
    requires HasPrefix(ReplaceAll(s, pat, rep), w)
    ensures HasPrefix(s, w)
    decreases |w|
  {
    var r := ReplaceAll(s, pat, rep);
    if w != [] {
      assert w[0] in w && w[0] == r[0];
      assert s != [] && !HasPrefix(s, pat);
      var t := ReplaceAll(s[1..], pat, rep);
      assert r == [s[0]] + t;
      assert HasPrefix(t, w[1..]) by {
        assert t[..|w| - 1] == r[1..|w|];
      }
      ReplaceAllPrefix(s[1..], pat, rep, w[1..]);
      assert s[..|w|] == [s[0]] + s[1..][..|w| - 1];
    }
  }

  /**
    After `ReplaceAll`, the pattern no longer occurs, provided the
    replacement is non-empty and shares no character with the pattern.
  */
  lemma {:induction false} ReplaceAllRemoves(s: string, pat: string, rep: string)
    requires |pat| > 0 && |rep| > 0 && NoCommonChar(rep, pat)
    ensures !Contains(ReplaceAll(s, pat, rep), pat)
    decreases |s|
  {
    var r := ReplaceAll(s, pat, rep);
    if HasPrefix(s, pat) {
      var t := ReplaceAll(s[|pat|..], pat, rep);
      ReplaceAllRemoves(s[|pat|..], pat, rep);
      if Contains(r, pat) {
        ContainsSkip(rep, t, pat);
      }
    } else if s != [] {
      var t := ReplaceAll(s[1..], pat, rep);
      ReplaceAllRemoves(s[1..], pat, rep);
      assert r == [s[0]] + t && r[1..] == t;
      if HasPrefix(r, pat) {
        assert HasPrefix(t, pat[1..]) by {
          assert t[..|pat| - 1] == r[1..|pat|];
        }
        ReplaceAllPrefix(s[1..], pat, rep, pat[1..]);
        assert false;
      }
    }
  }

  /**
    `ReplaceAll` introduces no new occurrence of a pattern `p` that shares
    no character with the (non-empty) replacement.
  */
  lemma {:induction false} ReplaceAllKeepsAbsent(s: string, pat: string, rep: string, p: string)
    requires |pat| > 0 && |rep| > 0 && |p| > 0 && NoCommonChar(rep, p)
    requires !Contains(s, p)
    ensures !Contains(ReplaceAll(s, pat, rep), p)
    decreases |s|
  {
    var r := ReplaceAll(s, pat, rep);
    if HasPrefix(s, pat) {
      var t := ReplaceAll(s[|pat|..], pat, rep);
      if Contains(s[|pat|..], p) {
        assert s[..|pat|] + s[|pat|..] == s;
        ContainsExtend(s[..|pat|], s[|pat|..], p);
        assert false;
      }
      ReplaceAllKeepsAbsent(s[|pat|..], pat, rep, p);
      if Contains(r, p) {
        ContainsSkip(rep, t, p);
      }
    } else if s != [] {
      var t := ReplaceAll(s[1..], pat, rep);
      ReplaceAllKeepsAbsent(s[1..], pat, rep, p);
      assert r == [s[0]] + t && r[1..] == t;
      if HasPrefix(r, p) {
        ReplaceAllPrefix(s, pat, rep, p);
        assert false;
      }
    }
  }

  /**
    Text in which the pattern cannot start is copied unchanged, and
    replacing continues after it.
  */
  lemma {:induction false} ReplaceAllKeep(a: string, b: string, pat: string, rep: string)
    requires |pat| > 0 && pat[0] !in a
    ensures ReplaceAll(a + b, pat, rep) == a + ReplaceAll(b, pat, rep)
    decreases |a|
  {
    if a != [] {
      var c, w := a[0], a[1..];
      assert a == [c] + w && c in a;
      assert a + b == [c] + (w + b);
      assert !HasPrefix([c] + (w + b), pat);
      ReplaceAllStep(c, w + b, pat, rep);
      ReplaceAllKeep(w, b, pat, rep);
      var r := ReplaceAll(b, pat, rep);
      assert [c] + (w + r) == ([c] + w) + r;
    } else {
      assert a + b == b;
    }
  }

  /**
    Each occurrence of the pattern becomes the replacement and the text
    around it is kept: a text in which the pattern cannot start is left
    alone, and the first occurrence after it is replaced before the rest
    is scanned.
  */
  lemma ReplaceAllSplice(a: string, b: string, pat: string, rep: string)
    requires |pat| > 0 && pat[0] !in a
    ensures ReplaceAll(a, pat, rep) == a
    ensures ReplaceAll(a + pat + b, pat, rep) == a + rep + ReplaceAll(b, pat, rep)
  {
    ReplaceAllKeep(a, [], pat, rep);
    assert a + [] == a;
    ReplaceAllKeep(a, pat + b, pat, rep);
    assert a + pat + b == a + (pat + b);
    assert (pat + b)[|pat|..] == b;
  }

  /**
    A piece that starts like the pattern but is not an occurrence of it,
    and in which the pattern cannot start again, is copied unchanged.
  */
  lemma ReplaceAllSkip(c: char, w: string, b: string, pat: string, rep: string)
    requires 0 < |pat| <= 1 + |w| && ([c] + w)[..|pat|] != pat && pat[0] !in w
    ensures ReplaceAll([c] + w + b, pat, rep) == [c] + w + ReplaceAll(b, pat, rep)
  {
    NotPrefixHead(c, w, b, pat);
    ReplaceAllStep(c, w + b, pat, rep);
    ReplaceAllKeep(w, b, pat, rep);
    var r := ReplaceAll(b, pat, rep);
    assert [c] + (w + r) == [c] + w + r;
  }



  /** A string whose first |pat| characters differ from `pat` does not start with it. */
  lemma NotPrefixHead(c: char, w: string, b: string, pat: string)
    requires 0 < |pat| <= 1 + |w| && ([c] + w)[..|pat|] != pat
    ensures [c] + w + b == [c] + (w + b)
    ensures !HasPrefix([c] + (w + b), pat)
  {
    assert ([c] + (w + b))[..|pat|] == ([c] + w)[..|pat|];
  }

  /** A string that does not start with the pattern keeps its first character. */
  lemma ReplaceAllStep(c: char, w: string, pat: string, rep: string)
    requires |pat| > 0 && !HasPrefix([c] + w, pat)
    ensures ReplaceAll([c] + w, pat, rep) == [c] + ReplaceAll(w, pat, rep)
  {
    assert ([c] + w)[1..] == w;
  }




  /** An occurrence of a non-empty pattern contains its first character. */
  lemma {:induction false} ContainsFirstChar(s: string, p: string)
    requires |p| > 0 && Contains(s, p)
    ensures p[0] in s
    decreases |s|
  {
    if HasPrefix(s, p) {
      assert s[0] == p[0];
    } else {
      ContainsFirstChar(s[1..], p);
      assert forall c :: c in s[1..] ==> c in s;
    }
  }
}
