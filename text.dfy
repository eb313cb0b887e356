/**
 * Word normalisation applied by every trie operation before it walks the
 * tree: `word.toLowerCase().trim()` in JavaScript.
 *
 * Strings are sequences of Unicode scalar values, which is what a `for...of`
 * loop over a JavaScript string visits. Lower-casing is modelled for the
 * ASCII letters only; trimming removes exactly the characters that
 * ECMAScript's `String.prototype.trim` removes (WhiteSpace and
 * LineTerminator).
 */
module Text {

  /** ECMAScript WhiteSpace (TAB, VT, FF, SP, NBSP, ZWNBSP, category Zs) and LineTerminator (LF, CR, LS, PS). */
  predicate IsSpace(c: char)
  {
    || c == '\t' || c == '\n' || c == '\U{B}' || c == '\U{C}' || c == '\r' || c == ' '
    || c == '\U{A0}' || c == '\U{1680}' || ('\U{2000}' <= c <= '\U{200A}')
    || c == '\U{2028}' || c == '\U{2029}' || c == '\U{202F}' || c == '\U{205F}'
    || c == '\U{3000}' || c == '\U{FEFF}'
  }

  predicate AllSpace(s: string)
  {
    forall i :: 0 <= i < |s| ==> IsSpace(s[i])
  }

  /** No leading and no trailing white space. */
  predicate Unpadded(s: string)
  {
    s == [] || (!IsSpace(s[0]) && !IsSpace(s[|s| - 1]))
  }

  predicate IsUpper(c: char)
  {
    'A' <= c <= 'Z'
  }

  function ToLower(c: char): (d: char)
    ensures !IsUpper(d)
    ensures IsSpace(d) <==> IsSpace(c)
  {
    if IsUpper(c) then (c as int + 32) as char else c
  }

  function ToUpper(c: char): (d: char)
    ensures 'a' <= c <= 'z' ==> IsUpper(d)
  {
    if 'a' <= c <= 'z' then (c as int - 32) as char else c
  }

  function Lower(s: string): string
  {
    seq(|s|, i requires 0 <= i < |s| => ToLower(s[i]))
  }

  function Upper(s: string): string
  {
    seq(|s|, i requires 0 <= i < |s| => ToUpper(s[i]))
  }

  function TrimStart(s: string): string
  {
    if s != [] && IsSpace(s[0]) then TrimStart(s[1..]) else s
  }

  function TrimEnd(s: string): string
  {
    if s != [] && IsSpace(s[|s| - 1]) then TrimEnd(s[..|s| - 1]) else s
  }

  function Trim(s: string): string
  {
    TrimEnd(TrimStart(s))
  }

  /** The key under which the trie stores `s`. */
  function Normalize(s: string): string
  {
    Trim(Lower(s))
  }

  /** A normalised word has no upper-case ASCII letter. */
  predicate IsLower(s: string)
  {
    forall i :: 0 <= i < |s| ==> !IsUpper(s[i])
  }

  // ---------------------------------------------------------------------
  // Trimming
  // ---------------------------------------------------------------------

  lemma {:induction false} TrimStartSkipsPadding(a: string, x: string)
    requires AllSpace(a)
    ensures TrimStart(a + x) == TrimStart(x)
  {
    if a != [] {
      assert (a + x)[1..] == a[1..] + x;
      TrimStartSkipsPadding(a[1..], x);
    } else {
      assert a + x == x;
    }
  }

  lemma {:induction false} TrimEndSkipsPadding(x: string, b: string)
    requires AllSpace(b)
    ensures TrimEnd(x + b) == TrimEnd(x)
  {
    if b != [] {
      assert (x + b)[..|x + b| - 1] == x + b[..|b| - 1];
      TrimEndSkipsPadding(x, b[..|b| - 1]);
    } else {
      assert x + b == x;
    }
  }

  /** Trailing padding passes through `TrimStart` untouched unless everything is white space. */
  lemma {:induction false} TrimStartKeepsTail(x: string, b: string)
    requires AllSpace(b)
    ensures AllSpace(x) ==> TrimStart(x + b) == [] && TrimStart(x) == []
    ensures !AllSpace(x) ==> TrimStart(x + b) == TrimStart(x) + b
  {
    if x == [] {
      assert x + b == b;
      TrimStartSkipsPadding(b, []);
      assert b + [] == b;
    } else {
      assert (x + b)[1..] == x[1..] + b;
      if IsSpace(x[0]) {
        TrimStartKeepsTail(x[1..], b);
        if !AllSpace(x) {
          var i :| 0 <= i < |x| && !IsSpace(x[i]);
          assert !IsSpace(x[1..][i - 1]);
        }
      } else {
        assert !IsSpace(x[0]);
      }
    }
  }

  lemma {:induction false} TrimStartUnpadded(s: string)
    ensures TrimStart(s) == [] || !IsSpace(TrimStart(s)[0])
    ensures TrimStart(s) == [] <==> AllSpace(s)
    ensures |TrimStart(s)| <= |s| && TrimStart(s) == s[|s| - |TrimStart(s)|..]
  {
    if s != [] && IsSpace(s[0]) {
      TrimStartUnpadded(s[1..]);
      if !AllSpace(s[1..]) {
        var i :| 0 <= i < |s[1..]| && !IsSpace(s[1..][i]);
        assert !IsSpace(s[i + 1]);
      }
    } else if s != [] {
      assert !IsSpace(s[0]);
    }
  }

  lemma {:induction false} TrimEndUnpadded(s: string)
    ensures TrimEnd(s) == [] || !IsSpace(TrimEnd(s)[|TrimEnd(s)| - 1])
    ensures TrimEnd(s) == [] <==> AllSpace(s)
    ensures |TrimEnd(s)| <= |s| && TrimEnd(s) == s[..|TrimEnd(s)|]
    ensures TrimEnd(s) != [] && s != [] ==> TrimEnd(s)[0] == s[0]
  {
    if s != [] && IsSpace(s[|s| - 1]) {
      var t := s[..|s| - 1];
      TrimEndUnpadded(t);
      if !AllSpace(t) {
        var i :| 0 <= i < |t| && !IsSpace(t[i]);
        assert !IsSpace(s[i]);
      }
    } else if s != [] {
      assert !IsSpace(s[|s| - 1]);
    }
  }

  /** `Trim` removes white space from both ends and nothing else. */
  lemma TrimShape(s: string)
    ensures Unpadded(Trim(s))
    ensures Trim(s) == [] <==> AllSpace(s)
  {
    var t := TrimStart(s);
    TrimStartUnpadded(s);
    TrimEndUnpadded(t);
  }

  /** White space around a word never changes what it trims to. */
  lemma TrimIgnoresPadding(a: string, x: string, b: string)
    requires AllSpace(a) && AllSpace(b)
    ensures Trim(a + x + b) == Trim(x)
  {
    assert a + x + b == a + (x + b);
    TrimStartSkipsPadding(a, x + b);
    TrimStartKeepsTail(x, b);
    if !AllSpace(x) {
      TrimEndSkipsPadding(TrimStart(x), b);
    }
  }

  /** An unpadded string is its own trim: with `TrimIgnoresPadding`, `Trim` is pinned down completely. */
  lemma TrimOfUnpadded(s: string)
    requires Unpadded(s)
    ensures Trim(s) == s
  {
    if s != [] {
      assert TrimStart(s) == s;
      assert TrimEnd(s) == s;
    }
  }

  // ---------------------------------------------------------------------
  // Case
  // ---------------------------------------------------------------------

  lemma LowerIsLower(s: string)
    ensures |Lower(s)| == |s| && IsLower(Lower(s))
    ensures AllSpace(s) ==> AllSpace(Lower(s))
  {
  }

  lemma LowerConcat(a: string, b: string)
    ensures Lower(a + b) == Lower(a) + Lower(b)
  {
  }

  /** Upper-casing a word first does not change its lower-case form. */
  lemma LowerOfUpper(s: string)
    ensures Lower(Upper(s)) == Lower(s)
  {
    forall i | 0 <= i < |s|
      ensures Lower(Upper(s))[i] == Lower(s)[i]
    {
      var c := s[i];
      assert Upper(s)[i] == ToUpper(c);
    }
  }

  lemma LowerOfLower(s: string)
    requires IsLower(s)
    ensures Lower(s) == s
  {
  }

  lemma {:induction false} TrimStartOfLower(s: string)
    requires IsLower(s)
    ensures IsLower(TrimStart(s))
  {
    TrimStartUnpadded(s);
  }

  // ---------------------------------------------------------------------
  // Normalisation
  // ---------------------------------------------------------------------

  /** A normalised word is lower-case and carries no surrounding white space. */
  lemma NormalizeShape(s: string)
    ensures IsLower(Normalize(s)) && Unpadded(Normalize(s))
    ensures |Normalize(s)| <= |s|
    ensures Normalize(s) == [] <==> AllSpace(s)
  {
    var l := Lower(s);
    LowerIsLower(s);
    TrimShape(l);
    TrimStartUnpadded(l);
    TrimEndUnpadded(TrimStart(l));
    forall i | 0 <= i < |s| && IsSpace(s[i]) ensures IsSpace(l[i]) { }
    forall i | 0 <= i < |s| && IsSpace(l[i]) ensures IsSpace(s[i]) { }
    assert AllSpace(s) <==> AllSpace(l);
  }

  /** Normalising twice is normalising once, so stored words are fixed points. */
  lemma NormalizeIdempotent(s: string)
    ensures Normalize(Normalize(s)) == Normalize(s)
  {
    NormalizeShape(s);
    var n := Normalize(s);
    LowerOfLower(n);
    TrimOfUnpadded(n);
  }

  /**
   * Any variant of `s` that differs only in the case of its letters and in
   * surrounding white space normalises to the same word.
   */
  lemma NormalizeIgnoresCaseAndPadding(s: string, a: string, t: string, b: string)
    requires AllSpace(a) && AllSpace(b)
    requires Lower(t) == Lower(s)
    ensures Normalize(a + t + b) == Normalize(s)
  {
    LowerConcat(a + t, b);
    LowerConcat(a, t);
    LowerIsLower(a);
    LowerIsLower(b);
    TrimIgnoresPadding(Lower(a), Lower(t), Lower(b));
  }
}
