/**
 * Whitespace handling of the reconciliation pipeline: `str.strip()` as used by
 * `clean_data`, and `clean_string`, which replaces every run of whitespace by one
 * space (`re.sub(r'\s+', ' ', value)`) and then strips the ends.
 */
module Whitespace {

  /**
   * The characters Python's `str.isspace()` accepts (`\s` in a `str` pattern matches the
   * same set): the ASCII controls 9-13 and 28-31, the space, U+0085, U+00A0, U+1680,
   * U+2000-U+200A, U+2028, U+2029, U+202F, U+205F and U+3000.
   */
  predicate IsSpace(c: char) {
    || c == ' '
    || ('\t' <= c <= '\r')
    || ('\U{1c}' <= c <= '\U{1f}')
    || c == '\U{85}' || c == '\U{a0}' || c == '\U{1680}'
    || ('\U{2000}' <= c <= '\U{200a}')
    || c == '\U{2028}' || c == '\U{2029}' || c == '\U{202f}' || c == '\U{205f}' || c == '\U{3000}'
  }

  /** Every character of `s` is whitespace. */
  predicate AllSpace(s: string) {
    forall i :: 0 <= i < |s| ==> IsSpace(s[i])
  }

  /** Neither end of `s` is whitespace. */
  predicate NoEdgeSpace(s: string) {
    s == [] || (!IsSpace(s[0]) && !IsSpace(s[|s| - 1]))
  }

  /** Every whitespace character of `s` is a plain space and none is followed by another. */
  predicate SingleSpaced(s: string) {
    forall i :: 0 <= i < |s| && IsSpace(s[i]) ==> s[i] == ' ' && (i + 1 < |s| ==> !IsSpace(s[i + 1]))
  }

  /** The form `clean_string` produces. */
  predicate IsClean(s: string) {
    NoEdgeSpace(s) && SingleSpaced(s)
  }

  /** The characters of `s` that are not whitespace, in order. */
  function NonSpace(s: string): string {
    if s == [] then []
    else (if IsSpace(s[0]) then [] else [s[0]]) + NonSpace(s[1..])
  }

  /** `s` with its leading whitespace removed. */
  function TrimLeft(s: string): (r: string)
    ensures |r| <= |s|
  {
    if s != [] && IsSpace(s[0]) then TrimLeft(s[1..]) else s
  }

  /** `s` with its trailing whitespace removed. */
  function TrimRight(s: string): (r: string)
    ensures |r| <= |s|
  {
    if s != [] && IsSpace(s[|s| - 1]) then TrimRight(s[..|s| - 1]) else s
  }

  /** Python's `str.strip()` with no argument. */
  function Strip(s: string): string {
    TrimRight(TrimLeft(s))
  }

  /** `re.sub(r'\s+', ' ', s)`: each maximal run of whitespace becomes one space. */
  function Collapse(s: string): string
    decreases |s|
  {
    if s == [] then []
    else if IsSpace(s[0]) then [' '] + Collapse(TrimLeft(s[1..]))
    else [s[0]] + Collapse(s[1..])
  }

  /** `clean_string` on a string value. */
  function CleanString(s: string): string {
    Strip(Collapse(s))
  }

  // ---------------------------------------------------------------------------
  // The shape of TrimLeft, TrimRight and Collapse

  /** TrimLeft removes the leading whitespace run and nothing else. */
  lemma {:induction false} TrimLeftShape(s: string)
    ensures var r := TrimLeft(s);
      && r == s[|s| - |r|..]
      && AllSpace(s[..|s| - |r|])
      && (r == [] || !IsSpace(r[0]))
    decreases |s|
  {
    if s != [] && IsSpace(s[0]) {
      TrimLeftShape(s[1..]);
      var r := TrimLeft(s);
      var k := |s| - |r|;
      assert s[1..][|s| - 1 - |r|..] == s[k..];
      assert s[..k] == [s[0]] + s[1..][..k - 1];
    } else {
      assert s[..0] == [];
    }
  }

  /** TrimRight removes the trailing whitespace run and nothing else. */
  lemma {:induction false} TrimRightShape(s: string)
    ensures var r := TrimRight(s);
      && r == s[..|r|]
      && AllSpace(s[|r|..])
      && (r == [] || !IsSpace(r[|r| - 1]))
    decreases |s|
  {
    if s != [] && IsSpace(s[|s| - 1]) {
      var u := s[..|s| - 1];
      TrimRightShape(u);
      var r := TrimRight(s);
      assert u[..|r|] == s[..|r|];
      assert s[|r|..] == u[|r|..] + [s[|s| - 1]];
    } else {
      assert s[|s|..] == [];
    }
  }

  /** Collapse is empty exactly on the empty string and starts with whitespace exactly when its input does. */
  lemma CollapseHead(s: string)
    ensures Collapse(s) == [] <==> s == []
    ensures s != [] ==> (IsSpace(Collapse(s)[0]) <==> IsSpace(s[0]))
  {
  }

  /** Collapse of a string that starts with whitespace depends only on what follows the leading run. */
  lemma CollapseSpaceHead(s: string)
    requires s != [] && IsSpace(s[0])
    ensures Collapse(s) == [' '] + Collapse(TrimLeft(s))
  {
  }

  /** Collapse leaves no run of two whitespace characters and no whitespace but the plain space. */
  lemma {:induction false} CollapseSingleSpaced(s: string)
    ensures SingleSpaced(Collapse(s))
    decreases |s|
  {
    if s != [] {
      var t := if IsSpace(s[0]) then TrimLeft(s[1..]) else s[1..];
      TrimLeftShape(s[1..]);
      CollapseSingleSpaced(t);
      CollapseHead(t);
      var c := Collapse(t);
      var r := Collapse(s);
      assert r == [if IsSpace(s[0]) then ' ' else s[0]] + c;
      forall i | 0 <= i < |r| && IsSpace(r[i])
        ensures r[i] == ' ' && (i + 1 < |r| ==> !IsSpace(r[i + 1]))
      {
        if i > 0 {
          assert r[i] == c[i - 1];
          if i + 1 < |r| { assert r[i + 1] == c[i]; }
        } else if i + 1 < |r| {
          assert r[1] == c[0];
        }
      }
    }
  }

  // ---------------------------------------------------------------------------
  // Strip

  /** Strip removes whitespace from the two ends of `s` and nothing else. */
  lemma StripBounds(s: string) returns (a: nat, b: nat)
    ensures a <= b <= |s| && Strip(s) == s[a..b]
    ensures AllSpace(s[..a]) && AllSpace(s[b..])
    ensures NoEdgeSpace(Strip(s))
  {
    var t := TrimLeft(s);
    TrimLeftShape(s);
    var r := TrimRight(t);
    TrimRightShape(t);
    a := |s| - |t|;
    b := a + |r|;
    assert s[a..b] == t[..|r|];
    assert s[b..] == t[|r|..];
    if r != [] {
      assert r[0] == t[0];
    }
  }

  lemma StripOfNoEdgeSpace(s: string)
    requires NoEdgeSpace(s)
    ensures Strip(s) == s
  {
  }

  /** Stripping twice is stripping once. */
  lemma StripIdempotent(s: string)
    ensures Strip(Strip(s)) == Strip(s)
  {
    var _, _ := StripBounds(s);
    StripOfNoEdgeSpace(Strip(s));
  }

  lemma SingleSpacedSlice(s: string, a: nat, b: nat)
    requires a <= b <= |s| && SingleSpaced(s)
    ensures SingleSpaced(s[a..b])
  {
    var t := s[a..b];
    forall i | 0 <= i < |t| && IsSpace(t[i])
      ensures t[i] == ' ' && (i + 1 < |t| ==> !IsSpace(t[i + 1]))
    {
      assert t[i] == s[a + i];
      if i + 1 < |t| {
        assert t[i + 1] == s[a + i + 1];
      }
    }
  }

  // ---------------------------------------------------------------------------
  // What clean_string produces

  /** The result of `clean_string` has no whitespace at its ends and no two whitespace characters in a row. */
  lemma CleanStringIsClean(s: string)
    ensures IsClean(CleanString(s))
  {
    var c := Collapse(s);
    CollapseSingleSpaced(s);
    var a, b := StripBounds(c);
    SingleSpacedSlice(c, a, b);
  }

  lemma {:induction false} CollapseOfSingleSpaced(s: string)
    requires SingleSpaced(s)
    ensures Collapse(s) == s
    decreases |s|
  {
    if s != [] {
      assert SingleSpaced(s[1..]) by { SingleSpacedSlice(s, 1, |s|); }
      if IsSpace(s[0]) {
        assert s[1..] == [] || !IsSpace(s[1..][0]);
        assert TrimLeft(s[1..]) == s[1..];
      }
      CollapseOfSingleSpaced(s[1..]);
      assert s == [s[0]] + s[1..];
    }
  }

  /** A string already in clean form is returned unchanged. */
  lemma CleanStringOfClean(s: string)
    requires IsClean(s)
    ensures CleanString(s) == s
  {
    CollapseOfSingleSpaced(s);
    StripOfNoEdgeSpace(s);
  }

  /** `clean_string` is idempotent. */
  lemma CleanStringIdempotent(s: string)
    ensures CleanString(CleanString(s)) == CleanString(s)
  {
    CleanStringIsClean(s);
    CleanStringOfClean(CleanString(s));
  }

  // ---------------------------------------------------------------------------
  // clean_string keeps every other character, in order

  lemma {:induction false} NonSpaceAppend(a: string, b: string)
    ensures NonSpace(a + b) == NonSpace(a) + NonSpace(b)
    decreases |a|
  {
    if a == [] {
      assert a + b == b;
    } else {
      assert (a + b)[1..] == a[1..] + b;
      NonSpaceAppend(a[1..], b);
    }
  }

  lemma {:induction false} NonSpaceOfAllSpace(s: string)
    requires AllSpace(s)
    ensures NonSpace(s) == []
    decreases |s|
  {
    if s != [] {
      NonSpaceOfAllSpace(s[1..]);
    }
  }

  lemma NonSpaceBetweenSpaces(p: string, q: string, r: string)
    requires AllSpace(p) && AllSpace(r)
    ensures NonSpace(p + q + r) == NonSpace(q)
  {
    NonSpaceAppend(p + q, r);
    NonSpaceAppend(p, q);
    NonSpaceOfAllSpace(p);
    NonSpaceOfAllSpace(r);
  }

  lemma NonSpaceStrip(s: string)
    ensures NonSpace(Strip(s)) == NonSpace(s)
  {
    var a, b := StripBounds(s);
    assert s == s[..a] + s[a..b] + s[b..];
    NonSpaceBetweenSpaces(s[..a], s[a..b], s[b..]);
  }

  lemma NonSpaceTrimLeft(s: string)
    ensures NonSpace(TrimLeft(s)) == NonSpace(s)
  {
    TrimLeftShape(s);
    var k := |s| - |TrimLeft(s)|;
    assert s == s[..k] + TrimLeft(s) + [];
    NonSpaceBetweenSpaces(s[..k], TrimLeft(s), []);
  }

  lemma {:induction false} NonSpaceCollapse(s: string)
    ensures NonSpace(Collapse(s)) == NonSpace(s)
    decreases |s|
  {
    if s != [] {
      if IsSpace(s[0]) {
        var t := TrimLeft(s[1..]);
        NonSpaceCollapse(t);
        NonSpaceTrimLeft(s[1..]);
        NonSpaceAppend([' '], Collapse(t));
      } else {
        NonSpaceCollapse(s[1..]);
        NonSpaceAppend([s[0]], Collapse(s[1..]));
      }
    }
  }

  /** `clean_string` only touches whitespace: the other characters survive, in order. */
  lemma CleanStringKeepsNonSpace(s: string)
    ensures NonSpace(CleanString(s)) == NonSpace(s)
  {
    NonSpaceCollapse(s);
    NonSpaceStrip(Collapse(s));
  }

  // ---------------------------------------------------------------------------
  // clean_string ignores the length of whitespace runs and whitespace at the ends

  lemma {:induction false} TrimLeftAllSpacePrefix(u: string, y: string)
    requires AllSpace(u)
    ensures TrimLeft(u + y) == TrimLeft(y)
    decreases |u|
  {
    if u == [] {
      assert u + y == y;
    } else {
      assert (u + y)[1..] == u[1..] + y;
      TrimLeftAllSpacePrefix(u[1..], y);
    }
  }

  lemma {:induction false} TrimLeftAppend(u: string, z: string)
    requires !AllSpace(u)
    ensures TrimLeft(u + z) == TrimLeft(u) + z
    decreases |u|
  {
    if IsSpace(u[0]) {
      assert (u + z)[1..] == u[1..] + z;
      assert !AllSpace(u[1..]) by {
        var i :| 0 <= i < |u| && !IsSpace(u[i]);
        assert u[1..][i - 1] == u[i];
      }
      TrimLeftAppend(u[1..], z);
    }
  }

  /** A string whose TrimLeft is not empty has a character that is not whitespace. */
  lemma NotAllSpace(x: string)
    requires TrimLeft(x) != []
    ensures !AllSpace(x)
  {
    TrimLeftShape(x);
    var t := TrimLeft(x);
    assert t[0] == x[|x| - |t|];
  }

  lemma AllSpaceOfEmptyTrim(x: string)
    requires TrimLeft(x) == []
    ensures AllSpace(x)
  {
    TrimLeftShape(x);
    assert x[..|x|] == x;
  }

  lemma TrimLeftShorter(x: string)
    requires x != [] && IsSpace(x[0])
    ensures |TrimLeft(x)| < |x|
  {
  }

  lemma CollapseNonSpaceHead(x: string, w: string, y: string)
    requires x != [] && !IsSpace(x[0])
    ensures Collapse(x + w + y) == [x[0]] + Collapse(x[1..] + w + y)
  {
    var a := x + w + y;
    assert a[0] == x[0];
    assert a[1..] == x[1..] + w + y;
  }

  lemma CollapseAllSpaceHead(x: string, w: string, y: string)
    requires AllSpace(x) && AllSpace(w) && w != []
    ensures Collapse(x + w + y) == [' '] + Collapse(TrimLeft(y))
  {
    var a := x + w + y;
    assert IsSpace(a[0]) by {
      if x == [] { assert a[0] == w[0]; } else { assert a[0] == x[0]; }
    }
    CollapseSpaceHead(a);
    assert AllSpace(x + w);
    TrimLeftAllSpacePrefix(x + w, y);
    assert a == (x + w) + y;
  }

  lemma ConcatAssoc(x: string, w: string, y: string)
    ensures x + w + y == x + (w + y)
  {
  }

  lemma CollapseSpaceThenText(x: string, w: string, y: string)
    requires x != [] && IsSpace(x[0]) && !AllSpace(x)
    ensures Collapse(x + w + y) == [' '] + Collapse(TrimLeft(x) + w + y)
  {
    ConcatAssoc(x, w, y);
    ConcatAssoc(TrimLeft(x), w, y);
    assert (x + w + y)[0] == x[0];
    CollapseSpaceHead(x + w + y);
    TrimLeftAppend(x, w + y);
  }

  /** Collapse only sees whether a whitespace run is there, not how long it is. */
  lemma {:induction false} CollapseRunLength(x: string, w: string, y: string)
    requires AllSpace(w) && w != []
    ensures Collapse(x + w + y) == Collapse(x + [' '] + y)
    decreases |x|
  {
    if x != [] && !IsSpace(x[0]) {
      CollapseRunLength(x[1..], w, y);
      RunLengthNonSpaceStep(x, w, y);
    } else {
      var t := TrimLeft(x);
      if t != [] {
        TrimLeftShorter(x);
        CollapseRunLength(t, w, y);
      }
      RunLengthSpaceStep(x, w, y);
    }
  }

  lemma RunLengthNonSpaceStep(x: string, w: string, y: string)
    requires x != [] && !IsSpace(x[0])
    requires Collapse(x[1..] + w + y) == Collapse(x[1..] + [' '] + y)
    ensures Collapse(x + w + y) == Collapse(x + [' '] + y)
  {
    CollapseNonSpaceHead(x, w, y);
    CollapseNonSpaceHead(x, [' '], y);
  }

  lemma RunLengthSpaceStep(x: string, w: string, y: string)
    requires AllSpace(w) && w != []
    requires x == [] || IsSpace(x[0])
    requires TrimLeft(x) != [] ==> Collapse(TrimLeft(x) + w + y) == Collapse(TrimLeft(x) + [' '] + y)
    ensures Collapse(x + w + y) == Collapse(x + [' '] + y)
  {
    if TrimLeft(x) == [] {
      AllSpaceOfEmptyTrim(x);
      CollapseAllSpaceHead(x, w, y);
      CollapseAllSpaceHead(x, [' '], y);
    } else {
      NotAllSpace(x);
      CollapseSpaceThenText(x, w, y);
      CollapseSpaceThenText(x, [' '], y);
    }
  }

  /** Any run of whitespace counts as one space for `clean_string`. */
  lemma CleanStringRunLength(x: string, w: string, y: string)
    requires AllSpace(w) && w != []
    ensures CleanString(x + w + y) == CleanString(x + [' '] + y)
  {
    CollapseRunLength(x, w, y);
  }

  lemma StripLeadingSpace(z: string)
    ensures Strip([' '] + z) == Strip(z)
  {
    assert ([' '] + z)[1..] == z;
  }

  /** Leading whitespace does not change what `clean_string` returns. */
  lemma CleanStringLeadingSpace(w: string, s: string)
    requires AllSpace(w)
    ensures CleanString(w + s) == CleanString(s)
  {
    if w == [] {
      assert w + s == s;
    } else {
      CollapseAllSpaceHead([], w, s);
      assert [] + w + s == w + s;
      StripLeadingSpace(Collapse(TrimLeft(s)));
      if s != [] && IsSpace(s[0]) {
        CollapseSpaceHead(s);
      }
    }
  }

  predicate EndsInSpace(s: string) {
    s != [] && IsSpace(s[|s| - 1])
  }

  lemma {:induction false} CollapseTrailingSpace(s: string, w: string)
    requires AllSpace(w) && w != []
    ensures Collapse(s + w) == Collapse(s) + (if EndsInSpace(s) then [] else [' '])
    decreases |s|
  {
    if s != [] && !IsSpace(s[0]) {
      CollapseTrailingSpace(s[1..], w);
      TrailingNonSpaceStep(s, w);
    } else {
      var t := TrimLeft(s);
      if t != [] {
        TrimLeftShorter(s);
        CollapseTrailingSpace(t, w);
      }
      TrailingSpaceStep(s, w);
    }
  }

  lemma TrailingNonSpaceStep(s: string, w: string)
    requires AllSpace(w) && w != []
    requires s != [] && !IsSpace(s[0])
    requires Collapse(s[1..] + w) == Collapse(s[1..]) + (if EndsInSpace(s[1..]) then [] else [' '])
    ensures Collapse(s + w) == Collapse(s) + (if EndsInSpace(s) then [] else [' '])
  {
    CollapseNonSpaceHead(s, w, []);
    assert s + w + [] == s + w;
    assert s[1..] + w + [] == s[1..] + w;
    if |s| > 1 {
      assert s[1..][|s| - 2] == s[|s| - 1];
    }
  }

  lemma TrailingSpaceStep(s: string, w: string)
    requires AllSpace(w) && w != []
    requires s == [] || IsSpace(s[0])
    requires TrimLeft(s) != [] ==>
      Collapse(TrimLeft(s) + w) == Collapse(TrimLeft(s)) + (if EndsInSpace(TrimLeft(s)) then [] else [' '])
    ensures Collapse(s + w) == Collapse(s) + (if EndsInSpace(s) then [] else [' '])
  {
    if s == [] {
      CollapseAllSpaceHead(s, w, []);
      assert s + w + [] == s + w;
      assert Collapse(s + w) == [' '];
      assert !EndsInSpace(s);
    } else if TrimLeft(s) == [] {
      TrailingAllSpace(s, w);
    } else {
      TrailingSpaceThenText(s, w);
    }
  }

  lemma TrailingAllSpace(s: string, w: string)
    requires AllSpace(w) && w != []
    requires s != [] && IsSpace(s[0]) && TrimLeft(s) == []
    ensures Collapse(s + w) == Collapse(s) + [] && EndsInSpace(s)
  {
    AllSpaceOfEmptyTrim(s);
    CollapseAllSpaceHead(s, w, []);
    assert s + w + [] == s + w;
    CollapseSpaceHead(s);
  }

  lemma TrailingSpaceThenText(s: string, w: string)
    requires AllSpace(w) && w != []
    requires s != [] && IsSpace(s[0]) && TrimLeft(s) != []
    requires Collapse(TrimLeft(s) + w) == Collapse(TrimLeft(s)) + (if EndsInSpace(TrimLeft(s)) then [] else [' '])
    ensures Collapse(s + w) == Collapse(s) + (if EndsInSpace(s) then [] else [' '])
  {
    var t := TrimLeft(s);
    NotAllSpace(s);
    TrimLeftShape(s);
    CollapseSpaceThenText(s, w, []);
    CollapseSpaceHead(s);
    assert s + w + [] == s + w;
    assert t + w + [] == t + w;
    assert t[|t| - 1] == s[|s| - 1];
  }

  lemma TrimRightSpace(u: string)
    ensures TrimRight(u + [' ']) == TrimRight(u)
  {
    assert (u + [' '])[..|u + [' ']| - 1] == u;
  }

  lemma StripTrailingSpace(z: string)
    ensures Strip(z + [' ']) == Strip(z)
  {
    if AllSpace(z) {
      StripAllSpaceTrailing(z);
    } else {
      TrimLeftAppend(z, [' ']);
      TrimRightSpace(TrimLeft(z));
    }
  }

  lemma StripAllSpaceTrailing(z: string)
    requires AllSpace(z)
    ensures Strip(z + [' ']) == [] && Strip(z) == []
  {
    assert AllSpace(z + [' ']);
    TrimLeftAllSpacePrefix(z + [' '], []);
    TrimLeftAllSpacePrefix(z, []);
    assert z + [' '] + [] == z + [' '] && z + [] == z;
  }

  /** Trailing whitespace does not change what `clean_string` returns. */
  lemma CleanStringTrailingSpace(s: string, w: string)
    requires AllSpace(w)
    ensures CleanString(s + w) == CleanString(s)
  {
    if w == [] {
      assert s + w == s;
    } else {
      CollapseTrailingSpace(s, w);
      if !EndsInSpace(s) {
        StripTrailingSpace(Collapse(s));
      } else {
        assert Collapse(s) + [] == Collapse(s);
      }
    }
  }
}
