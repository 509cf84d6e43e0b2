/**
  Extraction of the diagram script from a generative-AI reply: the application's
  `extractMermaidCode`, which applies the regular expression
  ```mermaid\n([\s\S]*?)\n``` to the reply, takes the first match and trims
  the captured interior.

  `IsRegexMatch` states what a backtracking regular-expression engine reports
  for that pattern (leftmost start, then the shortest lazy interior);
  `MatchSpan` computes it by two forward scans and is proved to agree.
 */
module Fence {
  import opened Wrappers
  import opened Text

  /** Three backticks, the language tag and a line feed (no `\r\n` tolerance). */
  const Open: string := "```mermaid\n"
  /** A line feed followed by three backticks. */
  const Close: string := "\n```"

  predicate OccursAt(s: string, pat: string, i: nat) {
    i + |pat| <= |s| && s[i..i + |pat|] == pat
  }

  ghost predicate Contains(s: string, pat: string) {
    exists i: nat :: OccursAt(s, pat, i)
  }

  /** The first occurrence of `pat` in `s` at or after `from`. */
  function FindFrom(s: string, pat: string, from: nat): (r: Option<nat>)
    ensures r.Some? ==> from <= r.value && OccursAt(s, pat, r.value)
    ensures forall j: nat :: from <= j && (r.None? || j < r.value) ==> !OccursAt(s, pat, j)
    decreases |s| - from
  {
    if from + |pat| > |s| then None
    else if s[from..from + |pat|] == pat then Some(from)
    else FindFrom(s, pat, from + 1)
  }

  /** An opening fence at `i` and a closing fence at `p` after it. */
  ghost predicate FencePair(s: string, i: nat, p: nat) {
    OccursAt(s, Open, i) && i + |Open| <= p && OccursAt(s, Close, p)
  }

  /** The pattern matches somewhere in `s`. */
  ghost predicate HasBlock(s: string) {
    exists i: nat, p: nat :: FencePair(s, i, p)
  }

  /** The match the regular expression reports: no match starts further left,
      and the lazy interior stops at the first closing fence. */
  ghost predicate IsRegexMatch(s: string, i: nat, p: nat) {
    && FencePair(s, i, p)
    && (forall i': nat, p': nat :: i' < i ==> !FencePair(s, i', p'))
    && (forall q: nat :: i + |Open| <= q < p ==> !OccursAt(s, Close, q))
  }

  /** The regular expression's match is unique. */
  lemma RegexMatchUnique(s: string, i: nat, p: nat, j: nat, q: nat)
    requires IsRegexMatch(s, i, p) && IsRegexMatch(s, j, q)
    ensures i == j && p == q
  {
  }

  /** Where the match lies: the first opening fence, then the first closing
      fence that starts after it. None exactly when the pattern has no match. */
  function MatchSpan(s: string): (r: Option<(nat, nat)>)
    ensures r.None? <==> !HasBlock(s)
    ensures r.Some? ==> IsRegexMatch(s, r.value.0, r.value.1)
  {
    match FindFrom(s, Open, 0)
    case None => None
    case Some(i) =>
      match FindFrom(s, Close, i + |Open|)
      case None =>
        assert forall i': nat, p': nat :: !FencePair(s, i', p');
        None
      case Some(p) =>
        assert FencePair(s, i, p);
        Some((i, p))
  }

  /** `extractMermaidCode`: the trimmed interior of the first fenced block, or
      None (TypeScript's `null`) when the reply holds no such block. */
  function ExtractMermaidCode(s: string): (r: Option<string>)
    ensures r.None? <==> !HasBlock(s)
    ensures r.Some? ==> IsTrimmed(r.value)
  {
    match MatchSpan(s)
    case None => None
    case Some((i, p)) => Some(Trim(s[i + |Open|..p]))
  }

  /** The raw interior of the match holds no closing fence. */
  lemma InteriorHasNoClose(s: string, i: nat, p: nat)
    requires IsRegexMatch(s, i, p)
    ensures !Contains(s[i + |Open|..p], Close)
  {
    var a := i + |Open|;
    var body := s[a..p];
    forall q: nat | q + |Close| <= |body| ensures !OccursAt(body, Close, q) {
      var k := a + q;
      assert a <= k && k + |Close| <= p <= |s|;
      var w, v := body[q..q + |Close|], s[k..k + |Close|];
      assert forall t :: 0 <= t < |Close| ==> w[t] == v[t];
      assert !OccursAt(s, Close, k);
    }
  }

  /** In `prefix + Open + rest`, when `prefix` holds no opening fence, the
      first opening fence is the one after `prefix`: a fence cannot begin
      inside `prefix` and run on into the next one, since no proper prefix of
      `Open` is also a suffix of it. */
  lemma {:induction false} FirstOpenAfter(prefix: string, rest: string)
    requires !Contains(prefix, Open)
    ensures OccursAt(prefix + Open + rest, Open, |prefix|)
    ensures forall j: nat :: j < |prefix| ==> !OccursAt(prefix + Open + rest, Open, j)
  {
    var s := prefix + Open + rest;
    var n := |prefix|;
    assert s[n..n + |Open|] == Open;
    forall j: nat | j < n ensures !OccursAt(s, Open, j) {
      if j + |Open| <= n {
        assert s[j..j + |Open|] == prefix[j..j + |Open|];
        assert !OccursAt(prefix, Open, j);
      } else {
        var m := n - j;
        if m == 1 {
          assert s[j + 3] == Open[2] != Open[3];
        } else if m == 2 {
          assert s[j + 3] == Open[1] != Open[3];
        } else {
          assert s[j + m] == Open[0] != Open[m];
        }
      }
    }
  }

  /** In `lead + c + Close + rest`, when `c` is trimmed and holds no closing
      fence, no closing fence starts within `c`: one starting inside `c`
      would either lie in `c` or overlap the closing fence after it. */
  lemma {:induction false} FirstCloseAfter(lead: string, c: string, rest: string)
    requires IsTrimmed(c) && !Contains(c, Close)
    ensures OccursAt(lead + c + Close + rest, Close, |lead| + |c|)
    ensures forall q: nat :: |lead| <= q < |lead| + |c| ==> !OccursAt(lead + c + Close + rest, Close, q)
  {
    var s := lead + c + Close + rest;
    var e := |lead| + |c|;
    assert s[e..e + |Close|] == Close;
    forall q: nat | |lead| <= q < e ensures !OccursAt(s, Close, q) {
      if q + |Close| <= e {
        assert s[q..q + |Close|] == c[q - |lead|..q - |lead| + |Close|];
        assert !OccursAt(c, Close, q - |lead|);
      } else if q == e - 1 {
        assert s[q] == c[|c| - 1] != Close[0];
      } else {
        assert s[e] == Close[0] != Close[e - q];
      }
    }
  }

  /** Extraction agrees with the regular expression: whenever the pattern's
      match lies at `i`..`p`, the result is the trimmed interior. */
  lemma ExtractAtMatch(s: string, i: nat, p: nat)
    requires IsRegexMatch(s, i, p)
    ensures ExtractMermaidCode(s) == Some(Trim(s[i + |Open|..p]))
  {
    var span := MatchSpan(s);
    assert HasBlock(s);
    RegexMatchUnique(s, i, p, span.value.0, span.value.1);
  }

  /** The block placed after a fence-free prefix is the regular
      expression's match. */
  lemma {:induction false} WrappedBlockIsMatch(prefix: string, c: string, suffix: string)
    requires !Contains(prefix, Open)
    requires IsTrimmed(c) && !Contains(c, Close)
    ensures IsRegexMatch(prefix + Open + c + Close + suffix, |prefix|, |prefix| + |Open| + |c|)
  {
    var s := prefix + Open + c + Close + suffix;
    var i := |prefix|;
    var p := i + |Open| + |c|;
    assert s == prefix + Open + (c + Close + suffix);
    FirstOpenAfter(prefix, c + Close + suffix);
    assert s == (prefix + Open) + c + Close + suffix;
    FirstCloseAfter(prefix + Open, c, suffix);
  }

  /** Wrapping a trimmed script in a fenced block and extracting gives it back,
      whatever follows the block (later blocks are ignored: first match wins),
      provided nothing before the block opens a fence. */
  lemma {:induction false} WrapThenExtract(prefix: string, c: string, suffix: string)
    requires !Contains(prefix, Open)
    requires IsTrimmed(c) && !Contains(c, Close)
    ensures ExtractMermaidCode(prefix + Open + c + Close + suffix) == Some(c)
  {
    var s := prefix + Open + c + Close + suffix;
    var i := |prefix|;
    var p := i + |Open| + |c|;
    WrappedBlockIsMatch(prefix, c, suffix);
    ExtractAtMatch(s, i, p);
    assert s == (prefix + Open) + c + (Close + suffix);
    assert s[i + |Open|..p] == c;
    TrimmedIsFixed(c);
  }

  /** An example: a reply that is exactly one block around
      `flowchart TD\nA-->B` yields that script. */
  lemma ExtractFlowchartExample()
    ensures ExtractMermaidCode("```mermaid\nflowchart TD\nA-->B\n```") == Some("flowchart TD\nA-->B")
  {
    var c := "flowchart TD\nA-->B";
    forall q: nat | q + |Close| <= |c| ensures !OccursAt(c, Close, q) {
      assert c[q..q + |Close|][0] == c[q] && c[q..q + |Close|][1] == c[q + 1];
      assert c[q] != '\n' || c[q + 1] != '`';
    }
    assert !Contains("", Open);
    assert "" + Open + c + Close + "" == "```mermaid\nflowchart TD\nA-->B\n```";
    WrapThenExtract("", c, "");
  }

  /** A block opened with a carriage return before the line feed is not
      recognised: the reply below yields nothing. */
  lemma CrLfFenceNotRecognised()
    ensures ExtractMermaidCode("```mermaid\r\nA\n```") == None
  {
    var s := "```mermaid\r\nA\n```";
    forall j: nat | j + |Open| <= |s| ensures !OccursAt(s, Open, j) {
      if j == 0 {
        assert s[10] != Open[10];
      } else {
        assert s[j + 2] != Open[2];
      }
    }
    assert !HasBlock(s);
  }
}
