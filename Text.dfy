/** `String.prototype.trim` of ECMA-262: strips the code points of its WhiteSpace and
    LineTerminator productions from both ends of a string. */
module Text {

  /** WhiteSpace (tab, vertical tab, form feed, space, no-break space, byte order mark and the
      other space separators) or LineTerminator (line feed, carriage return, line and paragraph
      separators). */
  predicate IsSpace(c: char) {
    || c == '\t' || c == '\n' || c == '\U{000B}' || c == '\U{000C}' || c == '\r' || c == ' '
    || c == '\U{00A0}' || c == '\U{1680}' || '\U{2000}' <= c <= '\U{200A}' || c == '\U{2028}'
    || c == '\U{2029}' || c == '\U{202F}' || c == '\U{205F}' || c == '\U{3000}' || c == '\U{FEFF}'
  }

  /** The number of white-space characters `s` starts with. */
  function LeadingSpaces(s: string): (n: nat)
    ensures n <= |s|
    ensures forall k :: 0 <= k < n ==> IsSpace(s[k])
    ensures n == |s| || !IsSpace(s[n])
  {
    if s != [] && IsSpace(s[0]) then 1 + LeadingSpaces(s[1..]) else 0
  }

  /** Where the trailing white space of `s` begins, looking no further left than `lo`. */
  function TrailingFrom(s: string, lo: nat): (m: nat)
    requires lo <= |s|
    ensures lo <= m <= |s|
    ensures forall k :: m <= k < |s| ==> IsSpace(s[k])
    ensures m == lo || !IsSpace(s[m - 1])
    decreases |s|
  {
    if |s| > lo && IsSpace(s[|s| - 1]) then TrailingFrom(s[..|s| - 1], lo) else |s|
  }

  /** `s.trim()`: the middle of `s` left after removing white space at both ends. */
  function Trim(s: string): (r: string)
    ensures r == [] || (!IsSpace(r[0]) && !IsSpace(r[|r| - 1]))
    ensures |r| <= |s|
  {
    var i := LeadingSpaces(s);
    var j := TrailingFrom(s, i);
    s[i..j]
  }

  /** What a trim keeps is the one substring of `s` that has white space only outside it and
      none at its ends. */
  lemma {:induction false} TrimUnique(s: string, i: int, j: int)
    requires 0 <= i <= j <= |s|
    requires forall k :: 0 <= k < i ==> IsSpace(s[k])
    requires forall k :: j <= k < |s| ==> IsSpace(s[k])
    requires i == j || (!IsSpace(s[i]) && !IsSpace(s[j - 1]))
    ensures Trim(s) == s[i..j]
  {
    var n := LeadingSpaces(s);
    var m := TrailingFrom(s, n);
    if i == j {
      assert forall k :: 0 <= k < |s| ==> IsSpace(s[k]) by {
        forall k | 0 <= k < |s| ensures IsSpace(s[k]) {
          if k >= i { assert j <= k; }
        }
      }
      assert n == |s|;
    } else {
      assert n == i;
      assert m == j;
    }
  }

  /** A string trims to nothing exactly when it is all white space. */
  lemma {:induction false} TrimBlank(s: string)
    ensures Trim(s) == [] <==> forall k :: 0 <= k < |s| ==> IsSpace(s[k])
  {
    var n := LeadingSpaces(s);
    var m := TrailingFrom(s, n);
    if Trim(s) == [] {
      assert m == n;
      forall k | 0 <= k < |s| ensures IsSpace(s[k]) {
        if k >= n { assert m <= k; }
      }
    }
  }

  /** Trimming twice is trimming once. */
  lemma {:induction false} TrimIdempotent(s: string)
    ensures Trim(Trim(s)) == Trim(s)
  {
    var r := Trim(s);
    TrimUnique(r, 0, |r|);
    assert r[0..|r|] == r;
  }

  lemma {:induction false} PaddedShape(pre: string, s: string, post: string, i: int, j: int)
    requires forall k :: 0 <= k < |pre| ==> IsSpace(pre[k])
    requires forall k :: 0 <= k < |post| ==> IsSpace(post[k])
    requires 0 <= i <= j <= |s|
    requires forall k :: 0 <= k < i ==> IsSpace(s[k])
    requires forall k :: j <= k < |s| ==> IsSpace(s[k])
    ensures var t := pre + s + post;
            && (forall k :: 0 <= k < |pre| + i ==> IsSpace(t[k]))
            && (forall k :: |pre| + j <= k < |t| ==> IsSpace(t[k]))
            && t[|pre| + i..|pre| + j] == s[i..j]
  {
    var t := pre + s + post;
    var n := |pre|;
    forall k | 0 <= k < n + i ensures IsSpace(t[k]) {
      if k < n { assert t[k] == pre[k]; } else { assert t[k] == s[k - n]; }
    }
    forall k | n + j <= k < |t| ensures IsSpace(t[k]) {
      if k < n + |s| { assert t[k] == s[k - n]; } else { assert t[k] == post[k - n - |s|]; }
    }
  }

  /** White space added around a string is removed again. */
  lemma {:induction false} TrimIgnoresPadding(pre: string, s: string, post: string)
    requires forall k :: 0 <= k < |pre| ==> IsSpace(pre[k])
    requires forall k :: 0 <= k < |post| ==> IsSpace(post[k])
    ensures Trim(pre + s + post) == Trim(s)
  {
    var i := LeadingSpaces(s);
    var j := TrailingFrom(s, i);
    var t := pre + s + post;
    var n := |pre|;
    PaddedShape(pre, s, post, i, j);
    if i < j {
      assert t[n + i] == s[i] && t[n + j - 1] == s[j - 1];
    }
    TrimUnique(t, n + i, n + j);
  }
}
