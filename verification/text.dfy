/**
  Whitespace trimming as ECMAScript's `String.prototype.trim` performs it:
  leading and trailing characters of the WhiteSpace and LineTerminator
  classes are removed, nothing else is touched.
 */
module Text {

  /** WhiteSpace and LineTerminator code points of ECMAScript (tab, vertical tab,
      form feed, space, no-break space, byte order mark, the Zs category, line
      feed, carriage return, line and paragraph separators). */
  predicate IsWhite(c: char) {
    || c == '\t' || c == '\n' || c == '\U{000B}' || c == '\U{000C}' || c == '\r'
    || c == ' ' || c == '\U{00A0}' || c == '\U{1680}'
    || ('\U{2000}' <= c <= '\U{200A}')
    || c == '\U{2028}' || c == '\U{2029}' || c == '\U{202F}' || c == '\U{205F}'
    || c == '\U{3000}' || c == '\U{FEFF}'
  }

  predicate AllWhite(s: string) {
    forall i :: 0 <= i < |s| ==> IsWhite(s[i])
  }

  /** Neither end of `s` is whitespace. */
  predicate IsTrimmed(s: string) {
    |s| == 0 || (!IsWhite(s[0]) && !IsWhite(s[|s| - 1]))
  }

  /** The end of the run of whitespace starting at `i`, looking no further
      than `end`. */
  function SkipWhite(s: string, i: nat, end: nat): (j: nat)
    requires i <= end <= |s|
    ensures i <= j <= end
    ensures forall k :: i <= k < j ==> IsWhite(s[k])
    ensures j < end ==> !IsWhite(s[j])
    decreases end - i
  {
    if i < end && IsWhite(s[i]) then SkipWhite(s, i + 1, end) else i
  }

  /** The start of the run of whitespace ending at `j`, looking no further
      back than `start`. */
  function SkipWhiteBack(s: string, start: nat, j: nat): (i: nat)
    requires start <= j <= |s|
    ensures start <= i <= j
    ensures forall k :: i <= k < j ==> IsWhite(s[k])
    ensures start < i ==> !IsWhite(s[i - 1])
    decreases j - start
  {
    if start < j && IsWhite(s[j - 1]) then SkipWhiteBack(s, start, j - 1) else j
  }

  /** `s.trim()`: the part of `s` between its leading and its trailing
      whitespace. Neither end of the result is whitespace; `TrimStripsWhite`
      and `TrimUnique` say which string it is. */
  function Trim(s: string): (r: string)
    ensures IsTrimmed(r) && |r| <= |s|
  {
    var e := SkipWhiteBack(s, 0, |s|);
    s[SkipWhite(s, 0, e)..e]
  }

  /** Trimming only cuts whitespace from the two ends: the result is the
      middle of `s` between two all-whitespace pieces. */
  lemma TrimStripsWhite(s: string)
    ensures exists a :: 0 <= a <= |s| - |Trim(s)| && s[a..a + |Trim(s)|] == Trim(s)
                        && AllWhite(s[..a]) && AllWhite(s[a + |Trim(s)|..])
  {
    var e := SkipWhiteBack(s, 0, |s|);
    var a := SkipWhite(s, 0, e);
    assert AllWhite(s[..a]) by {
      assert forall k :: 0 <= k < a ==> s[..a][k] == s[k];
    }
    assert AllWhite(s[e..]) by {
      assert forall k :: 0 <= k < |s| - e ==> s[e..][k] == s[e + k];
    }
    assert s[a..a + |Trim(s)|] == Trim(s);
  }

  /** The trimmed core of a string is unique: surrounding a trimmed `t` with
      whitespace on either side and trimming gives `t` back. Together with the
      postconditions of `Trim` this characterises it completely. */
  lemma TrimUnique(w1: string, t: string, w2: string)
    requires AllWhite(w1) && AllWhite(w2) && IsTrimmed(t)
    ensures Trim(w1 + t + w2) == t
  {
    var s := w1 + t + w2;
    var n := |w1| + |t|;
    assert forall k :: 0 <= k < |w1| ==> s[k] == w1[k];
    assert forall k :: n <= k < |s| ==> s[k] == w2[k - n];
    var e := SkipWhiteBack(s, 0, |s|);
    var a := SkipWhite(s, 0, e);
    if |t| == 0 {
      assert e <= |w1|;
    } else {
      assert s[n - 1] == t[|t| - 1] && s[|w1|] == t[0];
      assert e == n;
      assert a == |w1|;
      assert s[a..e] == t;
    }
  }

  /** Trimming leaves an already trimmed string unchanged. */
  lemma TrimmedIsFixed(t: string)
    requires IsTrimmed(t)
    ensures Trim(t) == t
  {
    assert "" + t + "" == t;
    TrimUnique("", t, "");
  }

  /** Trimming is idempotent. */
  lemma TrimIdempotent(s: string)
    ensures Trim(Trim(s)) == Trim(s)
  {
    TrimmedIsFixed(Trim(s));
  }
}
