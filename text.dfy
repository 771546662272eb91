/** Python's `str.strip()` with no argument, which the transcription applies
    to its accumulator before returning it (app.py:119): leading and
    trailing whitespace, as `str.isspace()` defines it, is removed.  As in
    CPython, the result is the slice between the first non-whitespace
    character and the one after the last. */
module Text {

  /** The characters `str.isspace()` accepts: tab to carriage return,
      the information separators 0x1C to 0x1F, space, NEL, NBSP and the
      Unicode space separators and line/paragraph separators. */
  predicate IsSpace(c: char)
  {
    ('\t' <= c <= '\r') || ('\U{1C}' <= c <= ' ') || c == '\U{85}' || c == '\U{A0}'
    || c == '\U{1680}' || ('\U{2000}' <= c <= '\U{200A}') || c == '\U{2028}' || c == '\U{2029}'
    || c == '\U{202F}' || c == '\U{205F}' || c == '\U{3000}'
  }

  predicate AllSpace(s: string)
  {
    forall i :: 0 <= i < |s| ==> IsSpace(s[i])
  }

  /** Neither starts nor ends with whitespace. */
  predicate Trimmed(s: string)
  {
    s == [] || (!IsSpace(s[0]) && !IsSpace(s[|s| - 1]))
  }

  /** The first index at or after i that holds no whitespace, or |s|. */
  function SpanStart(s: string, i: nat): (k: nat)
    requires i <= |s|
    ensures i <= k <= |s|
    ensures forall j :: i <= j < k ==> IsSpace(s[j])
    ensures k < |s| ==> !IsSpace(s[k])
    decreases |s| - i
  {
    if i < |s| && IsSpace(s[i]) then SpanStart(s, i + 1) else i
  }

  /** The end of s[lo..hi] once its trailing whitespace is cut off. */
  function SpanEnd(s: string, lo: nat, hi: nat): (k: nat)
    requires lo <= hi <= |s|
    ensures lo <= k <= hi
    ensures forall j :: k <= j < hi ==> IsSpace(s[j])
    ensures k > lo ==> !IsSpace(s[k - 1])
    decreases hi
  {
    if lo < hi && IsSpace(s[hi - 1]) then SpanEnd(s, lo, hi - 1) else hi
  }

  /** `s.strip()`: the infix of s left once the whitespace at both ends is
      removed; it neither starts nor ends with whitespace, everything cut
      off is whitespace, and it is empty exactly when s is all whitespace. */
  function Strip(s: string): (r: string)
    ensures Trimmed(r)
    ensures r == [] <==> AllSpace(s)
    ensures var lo := SpanStart(s, 0);
      lo + |r| <= |s| && r == s[lo..lo + |r|]
      && (forall j :: 0 <= j < lo ==> IsSpace(s[j]))
      && (forall j :: lo + |r| <= j < |s| ==> IsSpace(s[j]))
  {
    var lo := SpanStart(s, 0);
    var hi := SpanEnd(s, lo, |s|);
    s[lo..hi]
  }

  lemma {:induction false} SpanStartAppend(s: string, w: string, i: nat)
    requires i <= |s| && !AllSpace(s[i..])
    ensures SpanStart(s + w, i) == SpanStart(s, i)
    decreases |s| - i
  {
    assert (s + w)[i] == s[i];
    if IsSpace(s[i]) {
      assert s[i + 1..] == s[i..][1..];
      SpanStartAppend(s, w, i + 1);
    }
  }

  lemma {:induction false} SpanEndAppendSpace(s: string, w: string, lo: nat, n: nat)
    requires lo <= |s| && n <= |w| && AllSpace(w)
    ensures SpanEnd(s + w, lo, |s| + n) == SpanEnd(s, lo, |s|)
    decreases n
  {
    if n > 0 {
      assert (s + w)[|s| + n - 1] == w[n - 1];
      SpanEndAppendSpace(s, w, lo, n - 1);
    } else {
      SpanEndPrefix(s, w, lo, |s|);
    }
  }

  lemma {:induction false} SpanEndPrefix(s: string, w: string, lo: nat, hi: nat)
    requires lo <= hi <= |s|
    ensures SpanEnd(s + w, lo, hi) == SpanEnd(s, lo, hi)
    decreases hi
  {
    if lo < hi {
      assert (s + w)[hi - 1] == s[hi - 1];
      SpanEndPrefix(s, w, lo, hi - 1);
    }
  }

  /** Stripping ignores trailing whitespace: strip(s + w) == strip(s) when
      w is all whitespace. */
  lemma StripAppendSpace(s: string, w: string)
    requires AllSpace(w)
    ensures Strip(s + w) == Strip(s)
  {
    if AllSpace(s) {
      assert AllSpace(s + w) by {
        forall j | 0 <= j < |s + w| ensures IsSpace((s + w)[j]) {
          if j >= |s| { assert (s + w)[j] == w[j - |s|]; }
        }
      }
    } else {
      assert s[0..] == s;
      SpanStartAppend(s, w, 0);
      var lo := SpanStart(s, 0);
      SpanEndAppendSpace(s, w, lo, |w|);
      var hi := SpanEnd(s, lo, |s|);
      assert (s + w)[lo..hi] == s[lo..hi];
    }
  }

  /** Strip leaves a string that is already trimmed unchanged; since its
      result is always trimmed, it is idempotent. */
  lemma StripTrimmed(s: string)
    ensures Trimmed(s) ==> Strip(s) == s
    ensures Strip(Strip(s)) == Strip(s)
  {
    var r := Strip(s);
    assert r == [] || (SpanStart(r, 0) == 0 && SpanEnd(r, 0, |r|) == |r|);
    assert r[0..|r|] == r;
    if Trimmed(s) && s != [] {
      assert SpanStart(s, 0) == 0 && SpanEnd(s, 0, |s|) == |s|;
      assert s[0..|s|] == s;
    }
  }
}
