/** `String.prototype.trim`, as the draft guard and the user message use it. */
module Text {

  /** The ECMAScript WhiteSpace and LineTerminator code points that `trim` removes:
      TAB, VT, FF, ZWNBSP, the space separators (category Zs), LF, CR, LS and PS. */
  predicate IsSpace(c: char) {
    c == '\t' || c == '\U{000B}' || c == '\U{000C}' || c == ' ' || c == '\U{00A0}'
    || c == '\U{FEFF}' || c == '\U{1680}' || ('\U{2000}' <= c <= '\U{200A}')
    || c == '\U{202F}' || c == '\U{205F}' || c == '\U{3000}'
    || c == '\n' || c == '\r' || c == '\U{2028}' || c == '\U{2029}'
  }

  predicate AllSpace(s: string) {
    forall k :: 0 <= k < |s| ==> IsSpace(s[k])
  }

  /** Drops the leading white space. */
  function TrimStart(s: string): (r: string)
    ensures |r| <= |s|
    ensures r == [] || !IsSpace(r[0])
  {
    if s != [] && IsSpace(s[0]) then TrimStart(s[1..]) else s
  }

  /** Drops the trailing white space. */
  function TrimEnd(s: string): (r: string)
    ensures |r| <= |s|
    ensures r == [] || !IsSpace(r[|r| - 1])
  {
    if s != [] && IsSpace(s[|s| - 1]) then TrimEnd(s[..|s| - 1]) else s
  }

  /** `TrimStart` keeps the suffix of `s` that starts at its first non-space character. */
  lemma {:induction false} TrimStartSuffix(s: string)
    ensures TrimStart(s) == s[|s| - |TrimStart(s)|..]
    ensures AllSpace(s[..|s| - |TrimStart(s)|])
  {
    if s != [] && IsSpace(s[0]) {
      TrimStartSuffix(s[1..]);
      var n := |s| - |TrimStart(s)|;
      assert s[1..][n - 1..] == s[n..];
      assert forall k :: 1 <= k < n ==> s[k] == s[1..][..n - 1][k - 1];
    }
  }

  /** `TrimEnd` keeps the prefix of `s` that ends at its last non-space character. */
  lemma {:induction false} TrimEndPrefix(s: string)
    ensures TrimEnd(s) == s[..|TrimEnd(s)|]
    ensures AllSpace(s[|TrimEnd(s)|..])
  {
    if s != [] && IsSpace(s[|s| - 1]) {
      var t := s[..|s| - 1];
      TrimEndPrefix(t);
      var n := |TrimEnd(s)|;
      assert t[..n] == s[..n];
      assert forall k :: n <= k < |s| - 1 ==> s[k] == t[n..][k - n];
    }
  }

  /** `s.trim()`: white space removed at both ends. */
  function Trim(s: string): (r: string)
    ensures |r| <= |s|
    ensures r == [] || (!IsSpace(r[0]) && !IsSpace(r[|r| - 1]))
  {
    TrimEndPrefix(TrimStart(s));
    TrimEnd(TrimStart(s))
  }

  /** What `trim` leaves is a slice of its input, and all it removes is white space. */
  lemma TrimSlice(s: string) returns (i: nat)
    ensures i + |Trim(s)| <= |s| && Trim(s) == s[i..i + |Trim(s)|]
    ensures AllSpace(s[..i]) && AllSpace(s[i + |Trim(s)|..])
  {
    var t := TrimStart(s);
    var r := TrimEnd(t);
    TrimStartSuffix(s);
    TrimEndPrefix(t);
    i := |s| - |t|;
    assert r == s[i..i + |r|] by { assert t == s[i..]; }
    assert AllSpace(s[i + |r|..]) by { assert s[i + |r|..] == t[|r|..]; }
  }

  /** `!s.trim()` holds exactly when `s` consists of white space only (or is empty). */
  lemma TrimEmptyIff(s: string)
    ensures Trim(s) == [] <==> AllSpace(s)
  {
    var r := Trim(s);
    var i := TrimSlice(s);
    if r == [] {
      forall k | 0 <= k < |s| ensures IsSpace(s[k]) {
        if k < i { assert s[..i][k] == s[k]; } else { assert s[i..][k - i] == s[k]; }
      }
    } else {
      assert r[0] == s[i];
    }
  }

  /** Trimming twice is trimming once. */
  lemma TrimIdempotent(s: string)
    ensures Trim(Trim(s)) == Trim(s)
  {
    var r := Trim(s);
    if r != [] {
      assert TrimStart(r) == r;
      assert TrimEnd(r) == r;
    }
  }

  lemma {:induction false} TrimStartPadded(w: string, t: string)
    requires AllSpace(w) && (t == [] || !IsSpace(t[0]))
    ensures TrimStart(w + t) == t
  {
    if w == [] {
      assert w + t == t;
    } else {
      assert (w + t)[0] == w[0] && (w + t)[1..] == w[1..] + t;
      TrimStartPadded(w[1..], t);
    }
  }

  lemma {:induction false} TrimEndPadded(t: string, w: string)
    requires AllSpace(w) && (t == [] || !IsSpace(t[|t| - 1]))
    ensures TrimEnd(t + w) == t
  {
    if w == [] {
      assert t + w == t;
    } else {
      var u := t + w;
      assert u[|u| - 1] == w[|w| - 1] && u[..|u| - 1] == t + w[..|w| - 1];
      TrimEndPadded(t, w[..|w| - 1]);
    }
  }

  /** Trimming a word padded with white space on both sides gives back the word. */
  lemma TrimPadded(left: string, word: string, right: string)
    requires AllSpace(left) && AllSpace(right)
    requires word != [] && !IsSpace(word[0]) && !IsSpace(word[|word| - 1])
    ensures Trim(left + word + right) == word
  {
    TrimStartPadded(left, word + right);
    assert left + word + right == left + (word + right);
    TrimEndPadded(word, right);
  }
}
