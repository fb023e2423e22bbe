/**
 * The java.lang.String operations the menu builder relies on: trim,
 * equalsIgnoreCase, startsWith and replace, together with the facts about
 * them that the builder's properties need.
 */
module JavaText {

  /** String.trim() strips every character whose code is at most U+0020. */
  predicate IsBlank(c: char) {
    c <= ' '
  }

  predicate AllBlank(s: string) {
    forall k :: 0 <= k < |s| ==> IsBlank(s[k])
  }

  /** The index of the first character trim() keeps. */
  function TrimStart(s: string): (st: nat)
    ensures st <= |s|
    ensures forall k :: 0 <= k < st ==> IsBlank(s[k])
    ensures st < |s| ==> !IsBlank(s[st])
  {
    if s != [] && IsBlank(s[0]) then 1 + TrimStart(s[1..]) else 0
  }

  /** The end (exclusive) of what trim() keeps, never before st. */
  function TrimEnd(s: string, st: nat): (len: nat)
    requires st <= |s|
    ensures st <= len <= |s|
    ensures forall k :: len <= k < |s| ==> IsBlank(s[k])
    ensures st < len ==> !IsBlank(s[len - 1])
  {
    if st < |s| && IsBlank(s[|s| - 1]) then TrimEnd(s[..|s| - 1], st) else |s|
  }

  /** String.trim() */
  function Trim(s: string): string {
    var st := TrimStart(s);
    s[st..TrimEnd(s, st)]
  }

  /** trim() of a text that is blank padding around a core without blank ends gives back that core. */
  lemma TrimPadded(pre: string, w: string, post: string)
    requires AllBlank(pre) && AllBlank(post)
    requires w == [] || (!IsBlank(w[0]) && !IsBlank(w[|w| - 1]))
    ensures Trim(pre + w + post) == w
  {
    var s := pre + w + post;
    var i := |pre| + |w|;
    assert forall k :: 0 <= k < |pre| ==> IsBlank(s[k]) by {
      assert forall k :: 0 <= k < |pre| ==> s[k] == pre[k];
    }
    assert forall k :: i <= k < |s| ==> IsBlank(s[k]) by {
      assert forall k :: i <= k < |s| ==> s[k] == post[k - i];
    }
    var st := TrimStart(s);
    var len := TrimEnd(s, st);
    if w == [] {
      assert st == |s|;
    } else {
      assert !IsBlank(s[|pre|]) && !IsBlank(s[i - 1]) by {
        assert s[|pre|] == w[0] && s[i - 1] == w[|w| - 1];
      }
      assert st == |pre|;
      assert len == i;
      assert s[st..len] == w;
    }
  }

  /** Character.toUpperCase restricted to the ASCII letters. */
  function ToUpperAscii(c: char): char {
    if 'a' <= c <= 'z' then (c as int - 32) as char else c
  }

  predicate CharEqualsIgnoreCase(a: char, b: char) {
    a == b || ToUpperAscii(a) == ToUpperAscii(b)
  }

  /** String.equalsIgnoreCase: same length, and characters equal position by position up to case. */
  predicate EqualsIgnoreCase(a: string, b: string) {
    |a| == |b| && forall k :: 0 <= k < |a| ==> CharEqualsIgnoreCase(a[k], b[k])
  }

  /** s is a case variant of word with nothing but blanks around it. */
  ghost predicate PaddedCaseVariant(s: string, word: string) {
    exists i :: 0 <= i <= |s| - |word| && EqualsIgnoreCase(s[i..i + |word|], word)
                && AllBlank(s[..i]) && AllBlank(s[i + |word|..])
  }

  /**
   * For a word without blank ends, comparing trim() of s with it up to case
   * holds exactly when s is a case variant of it padded with blanks.
   */
  lemma TrimEqualsIgnoreCase(s: string, word: string)
    requires word != [] && !IsBlank(word[0]) && !IsBlank(word[|word| - 1])
    ensures EqualsIgnoreCase(Trim(s), word) <==> PaddedCaseVariant(s, word)
  {
    if EqualsIgnoreCase(Trim(s), word) {
      TrimmedIsPadded(s, word);
    }
    if PaddedCaseVariant(s, word) {
      PaddedIsTrimmed(s, word);
    }
  }

  lemma PaddedIsTrimmed(s: string, word: string)
    requires word != [] && !IsBlank(word[0]) && !IsBlank(word[|word| - 1])
    requires PaddedCaseVariant(s, word)
    ensures EqualsIgnoreCase(Trim(s), word)
  {
    var i :| 0 <= i <= |s| - |word| && EqualsIgnoreCase(s[i..i + |word|], word)
             && AllBlank(s[..i]) && AllBlank(s[i + |word|..]);
    var pre, w, post := s[..i], s[i..i + |word|], s[i + |word|..];
    assert s == pre + w + post;
    PaddedTrims(pre, w, post, word);
  }

  lemma TrimmedIsPadded(s: string, word: string)
    requires EqualsIgnoreCase(Trim(s), word)
    ensures PaddedCaseVariant(s, word)
  {
    var st := TrimStart(s);
    var len := TrimEnd(s, st);
    assert AllBlank(s[..st]) by { assert forall k :: 0 <= k < st ==> s[..st][k] == s[k]; }
    assert AllBlank(s[len..]) by { assert forall k :: 0 <= k < |s| - len ==> s[len..][k] == s[len + k]; }
    assert len == st + |word|;
    assert EqualsIgnoreCase(s[st..st + |word|], word);
  }

  /** A case variant of a word without blank ends, padded with blanks, trims back to itself. */
  lemma PaddedTrims(pre: string, w: string, post: string, word: string)
    requires word != [] && !IsBlank(word[0]) && !IsBlank(word[|word| - 1])
    requires AllBlank(pre) && AllBlank(post) && EqualsIgnoreCase(w, word)
    ensures EqualsIgnoreCase(Trim(pre + w + post), word)
  {
    assert CharEqualsIgnoreCase(w[0], word[0]);
    assert CharEqualsIgnoreCase(w[|w| - 1], word[|word| - 1]);
    TrimPadded(pre, w, post);
  }

  /** String.startsWith */
  predicate StartsWith(s: string, prefix: string) {
    |prefix| <= |s| && s[..|prefix|] == prefix
  }

  /** String.replace(CharSequence, CharSequence) for a one-character target: every occurrence is replaced. */
  function ReplaceChar(s: string, target: char, replacement: string): (r: string)
    ensures |r| == |s| + Occurrences(s, target) * (|replacement| - 1)
    ensures forall k :: 0 <= k < |s| ==> ReplacedAt(s, r, target, replacement, k)
    ensures target !in replacement ==> target !in r
    ensures target !in s ==> r == s
  {
    if s == [] then []
    else
      var head := if s[0] == target then replacement else [s[0]];
      var tail := ReplaceChar(s[1..], target, replacement);
      var o := Occurrences(s[1..], target);
      assert (o + 1) * (|replacement| - 1) == o * (|replacement| - 1) + |replacement| - 1;
      ReplacedAtShift(s, target, replacement, head, tail);
      head + tail
  }

  /** Where the k-th character of s starts in the text that replace gives. */
  function ReplacedIndex(s: string, target: char, replacement: string, k: nat): int
    requires k <= |s|
  {
    k + Occurrences(s[..k], target) * (|replacement| - 1)
  }

  /**
   * The k-th character of s, in r at its shifted index: the whole replacement
   * if it is the target, the character itself otherwise.
   */
  predicate ReplacedAt(s: string, r: string, target: char, replacement: string, k: nat)
    requires k < |s|
  {
    var p := ReplacedIndex(s, target, replacement, k);
    if s[k] == target then 0 <= p && p + |replacement| <= |r| && r[p..p + |replacement|] == replacement
    else 0 <= p < |r| && r[p] == s[k]
  }

  /** Putting the first character's replacement in front of the rest's keeps every character at its shifted index. */
  lemma ReplacedAtShift(s: string, target: char, replacement: string, head: string, tail: string)
    requires s != []
    requires head == if s[0] == target then replacement else [s[0]]
    requires forall k :: 0 <= k < |s| - 1 ==> ReplacedAt(s[1..], tail, target, replacement, k)
    ensures forall k :: 0 <= k < |s| ==> ReplacedAt(s, head + tail, target, replacement, k)
  {
    var m := |replacement|;
    forall k | 0 <= k < |s|
      ensures ReplacedAt(s, head + tail, target, replacement, k)
    {
      if k == 0 {
        assert s[..0] == [];
        assert (head + tail)[..|head|] == head;
      } else {
        var h := if s[0] == target then 1 else 0;
        var o := Occurrences(s[1..][..k - 1], target);
        assert s[..k][1..] == s[1..][..k - 1];
        assert Occurrences(s[..k], target) == h + o;
        assert (h + o) * (m - 1) == h * (m - 1) + o * (m - 1);
        assert |head| == 1 + h * (m - 1);
        var q := ReplacedIndex(s[1..], target, replacement, k - 1);
        assert ReplacedIndex(s, target, replacement, k) == |head| + q;
        assert ReplacedAt(s[1..], tail, target, replacement, k - 1);
        assert s[k] == s[1..][k - 1];
        if s[k] == target {
          assert (head + tail)[|head| + q..|head| + q + m] == tail[q..q + m];
        } else {
          assert (head + tail)[|head| + q] == tail[q];
        }
      }
    }
  }

  function Occurrences(s: string, c: char): nat {
    if s == [] then 0 else (if s[0] == c then 1 else 0) + Occurrences(s[1..], c)
  }

  /** Percent-decoding of "%20" back into a space, scanning left to right. */
  function UnescapeSpaces(s: string): string {
    if |s| >= 3 && s[..3] == "%20" then " " + UnescapeSpaces(s[3..])
    else if s == [] then []
    else [s[0]] + UnescapeSpaces(s[1..])
  }

  /** Escaping spaces as "%20" loses nothing on a text that holds no '%'. */
  lemma {:induction false} UnescapeEscapedSpaces(s: string)
    requires '%' !in s
    ensures UnescapeSpaces(ReplaceChar(s, ' ', "%20")) == s
  {
    if s != [] {
      var tail := ReplaceChar(s[1..], ' ', "%20");
      assert '%' !in s[1..] by { assert forall k :: 0 <= k < |s| - 1 ==> s[1..][k] == s[k + 1]; }
      UnescapeEscapedSpaces(s[1..]);
      if s[0] == ' ' {
        assert ReplaceChar(s, ' ', "%20") == "%20" + tail;
        assert ("%20" + tail)[..3] == "%20";
        assert ("%20" + tail)[3..] == tail;
      } else {
        var e := [s[0]] + tail;
        assert ReplaceChar(s, ' ', "%20") == e;
        assert s[0] != '%';
        assert |e| >= 3 ==> e[..3][0] == s[0];
        assert e[1..] == tail;
        assert s == [s[0]] + s[1..];
      }
    }
  }
}
