/**
  String.prototype.trim of ECMAScript (section 22.1.3.32 of ECMA-262): strip the
  WhiteSpace and LineTerminator code points from both ends of a string.
*/
module JsTrim {

  /** ECMAScript WhiteSpace (TAB, VT, FF, SP, NBSP, ZWNBSP and the Zs category:
      U+1680, U+2000 to U+200A, U+202F, U+205F, U+3000) and LineTerminator
      (LF, CR, LS, PS). */
  const JsWhiteSpace: set<char> := {
    '\t', '\n', '\U{000B}', '\U{000C}', '\r', ' ', '\U{00A0}', '\U{FEFF}',
    '\U{1680}', '\U{2000}', '\U{2001}', '\U{2002}', '\U{2003}', '\U{2004}', '\U{2005}',
    '\U{2006}', '\U{2007}', '\U{2008}', '\U{2009}', '\U{200A}', '\U{202F}', '\U{205F}',
    '\U{3000}', '\U{2028}', '\U{2029}'
  }

  predicate IsJsWhiteSpace(c: char) {
    c in JsWhiteSpace
  }

  predicate AllWhiteSpace(s: string) {
    forall i | 0 <= i < |s| :: IsJsWhiteSpace(s[i])
  }

  /** The string without its leading white space: a suffix of `s`. */
  function TrimStart(s: string): (r: string)
    ensures |r| <= |s| && r == s[|s| - |r|..]
    ensures AllWhiteSpace(s[..|s| - |r|])
    ensures r == [] || !IsJsWhiteSpace(r[0])
  {
    if s != [] && IsJsWhiteSpace(s[0]) then
      var r := TrimStart(s[1..]);
      assert s[..|s| - |r|] == [s[0]] + s[1..][..|s| - 1 - |r|];
      AllWhiteSpaceConcat([s[0]], s[1..][..|s| - 1 - |r|]);
      r
    else
      assert s[..0] == [];
      s
  }

  /** The string without its trailing white space: a prefix of `s`. */
  function TrimEnd(s: string): (r: string)
    ensures |r| <= |s| && r == s[..|r|]
    ensures AllWhiteSpace(s[|r|..])
    ensures r == [] || !IsJsWhiteSpace(r[|r| - 1])
  {
    if s != [] && IsJsWhiteSpace(s[|s| - 1]) then
      var front := s[..|s| - 1];
      var r := TrimEnd(front);
      assert s[|r|..] == front[|r|..] + [s[|s| - 1]];
      AllWhiteSpaceConcat(front[|r|..], [s[|s| - 1]]);
      r
    else
      assert s[|s|..] == [];
      s
  }

  /** `term.trim()`: no longer than the input, empty exactly for an
      all-white-space input, and otherwise neither starting nor ending with
      white space. `TrimCharacterization` shows which part of the input it is. */
  function Trim(s: string): (r: string)
    ensures |r| <= |s|
    ensures r == [] <==> AllWhiteSpace(s)
    ensures r == [] || (!IsJsWhiteSpace(r[0]) && !IsJsWhiteSpace(r[|r| - 1]))
  {
    var t := TrimStart(s);
    TrimStartEmpty(s);
    TrimEndEmpty(t);
    TrimEndKeepsFirst(t);
    TrimEnd(t)
  }

  lemma TrimStartEmpty(s: string)
    ensures TrimStart(s) == [] <==> AllWhiteSpace(s)
  {
    var t := TrimStart(s);
    if t == [] {
      assert s == s[..|s| - |t|];
    } else {
      assert s[|s| - |t|] == t[0];
    }
  }

  lemma TrimEndEmpty(t: string)
    ensures TrimEnd(t) == [] <==> AllWhiteSpace(t)
  {
    var r := TrimEnd(t);
    if r == [] {
      assert t == t[|r|..];
    } else {
      assert t[|r| - 1] == r[|r| - 1];
    }
  }

  lemma TrimEndKeepsFirst(t: string)
    requires t == [] || !IsJsWhiteSpace(t[0])
    ensures TrimEnd(t) == [] || !IsJsWhiteSpace(TrimEnd(t)[0])
  {
    var r := TrimEnd(t);
    if r != [] {
      assert r[0] == t[0];
    }
  }

  lemma AllWhiteSpaceConcat(a: string, b: string)
    ensures AllWhiteSpace(a + b) <==> AllWhiteSpace(a) && AllWhiteSpace(b)
  {
    if AllWhiteSpace(a) && AllWhiteSpace(b) {
      forall i | 0 <= i < |a + b| ensures IsJsWhiteSpace((a + b)[i]) {
        if i >= |a| { assert (a + b)[i] == b[i - |a|]; }
      }
    }
    if AllWhiteSpace(a + b) {
      forall i | 0 <= i < |b| ensures IsJsWhiteSpace(b[i]) { assert b[i] == (a + b)[|a| + i]; }
      forall i | 0 <= i < |a| ensures IsJsWhiteSpace(a[i]) { assert a[i] == (a + b)[i]; }
    }
  }

  lemma {:induction false} TrimStartOfAllWhiteSpace(w: string)
    requires AllWhiteSpace(w)
    ensures TrimStart(w) == []
  {
    if w != [] {
      TrimStartOfAllWhiteSpace(w[1..]);
    }
  }

  lemma {:induction false} TrimStartSkips(w: string, x: string)
    requires AllWhiteSpace(w)
    ensures TrimStart(w + x) == TrimStart(x)
  {
    if w != [] {
      assert (w + x)[0] == w[0] && IsJsWhiteSpace(w[0]);
      assert (w + x)[1..] == w[1..] + x;
      assert AllWhiteSpace(w[1..]) by {
        forall i | 0 <= i < |w| - 1 ensures IsJsWhiteSpace(w[1..][i]) {
          assert w[1..][i] == w[i + 1];
        }
      }
      TrimStartSkips(w[1..], x);
    } else {
      assert w + x == x;
    }
  }

  lemma {:induction false} TrimEndSkips(x: string, w: string)
    requires AllWhiteSpace(w)
    ensures TrimEnd(x + w) == TrimEnd(x)
  {
    if w != [] {
      var w' := w[..|w| - 1];
      assert (x + w)[|x + w| - 1] == w[|w| - 1] && IsJsWhiteSpace(w[|w| - 1]);
      assert (x + w)[..|x + w| - 1] == x + w';
      assert AllWhiteSpace(w') by {
        forall i | 0 <= i < |w'| ensures IsJsWhiteSpace(w'[i]) {
          assert w'[i] == w[i];
        }
      }
      TrimEndSkips(x, w');
    } else {
      assert x + w == x;
    }
  }

  /** Trailing white space does not survive `TrimEnd(TrimStart(_))`. */
  lemma {:induction false} TrimIgnoresTrailing(x: string, w: string)
    requires AllWhiteSpace(w)
    ensures TrimEnd(TrimStart(x + w)) == TrimEnd(TrimStart(x))
  {
    if x == [] {
      assert x + w == w;
      TrimStartOfAllWhiteSpace(w);
    } else if IsJsWhiteSpace(x[0]) {
      assert (x + w)[1..] == x[1..] + w;
      TrimIgnoresTrailing(x[1..], w);
    } else {
      TrimEndSkips(x, w);
    }
  }

  /** Surrounding white space is irrelevant to `trim`. */
  lemma TrimIgnoresPadding(w1: string, s: string, w2: string)
    requires AllWhiteSpace(w1) && AllWhiteSpace(w2)
    ensures Trim(w1 + s + w2) == Trim(s)
  {
    assert w1 + s + w2 == w1 + (s + w2);
    TrimStartSkips(w1, s + w2);
    TrimIgnoresTrailing(s, w2);
  }

  /** `trim` is determined by its two defining facts: whatever is removed is
      white space, and what remains has no white space at either end. */
  lemma TrimCharacterization(w1: string, r: string, w2: string)
    requires AllWhiteSpace(w1) && AllWhiteSpace(w2)
    requires r == [] || (!IsJsWhiteSpace(r[0]) && !IsJsWhiteSpace(r[|r| - 1]))
    ensures Trim(w1 + r + w2) == r
  {
    TrimIgnoresPadding(w1, r, w2);
  }

  lemma TrimIdempotent(s: string)
    ensures Trim(Trim(s)) == Trim(s)
  {
  }
}
