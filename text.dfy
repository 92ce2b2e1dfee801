/**
 * The Python string operations the outage checker and the bot are built from:
 * `str.isspace`, `str.strip()`, `str.split()`, `str.lower()`, the substring
 * test `t in s`, `s.replace(t, '')` and `' '.join(...)`, each stated on
 * `seq<char>`.
 */
module Text {

  /** Python's `str.isspace` on one character: the separators of `split()` and `strip()`. */
  predicate IsSpace(c: char) {
    || ('\t' <= c <= '\r')
    || ('\U{1C}' <= c <= '\U{1F}')
    || c == ' '
    || c == '\U{85}'
    || c == '\U{A0}'
    || c == '\U{1680}'
    || ('\U{2000}' <= c <= '\U{200A}')
    || c == '\U{2028}'
    || c == '\U{2029}'
    || c == '\U{202F}'
    || c == '\U{205F}'
    || c == '\U{3000}'
  }

  predicate NoSpace(s: string) {
    forall i | 0 <= i < |s| :: !IsSpace(s[i])
  }

  predicate AllSpace(s: string) {
    forall i | 0 <= i < |s| :: IsSpace(s[i])
  }

  // ---------------------------------------------------------------------------
  // str.strip()
  // ---------------------------------------------------------------------------

  /** Drops leading whitespace: what is left is a suffix of `s` that does not start with a space. */
  function TrimLeft(s: string): (r: string)
    ensures |r| <= |s| && r == s[|s| - |r|..]
    ensures AllSpace(s[..|s| - |r|])
    ensures r == [] || !IsSpace(r[0])
  {
    if s != [] && IsSpace(s[0]) then
      var r := TrimLeft(s[1..]);
      assert s[..|s| - |r|] == [s[0]] + s[1..][..|s| - 1 - |r|];
      r
    else s
  }

  /** Drops trailing whitespace: what is left is a prefix of `s` that does not end with a space. */
  function TrimRight(s: string): (r: string)
    ensures |r| <= |s| && r == s[..|r|]
    ensures AllSpace(s[|r|..])
    ensures r == [] || !IsSpace(r[|r| - 1])
  {
    if s != [] && IsSpace(s[|s| - 1]) then
      var r := TrimRight(s[..|s| - 1]);
      assert s[|r|..] == s[..|s| - 1][|r|..] + [s[|s| - 1]];
      r
    else s
  }

  /** Python's `s.strip()`: what is left neither starts nor ends with whitespace. */
  function Strip(s: string): (r: string)
    ensures r == [] || (!IsSpace(r[0]) && !IsSpace(r[|r| - 1]))
  {
    TrimRight(TrimLeft(s))
  }

  /** Where `strip()` starts: after the leading whitespace. */
  function StripStart(s: string): nat {
    |s| - |TrimLeft(s)|
  }

  /** A slice of a suffix is a slice of the whole string, shifted. */
  lemma SliceOfSuffix(s: string, lo: nat, i: nat, j: nat)
    requires i <= j && lo + j <= |s|
    ensures s[lo..][i..j] == s[lo + i..lo + j]
  {
    var x, y := s[lo..][i..j], s[lo + i..lo + j];
    assert |x| == |y|;
    forall k | 0 <= k < |x|
      ensures x[k] == y[k]
    {
      assert x[k] == s[lo..][i + k] == s[lo + i + k];
    }
  }

  /** A prefix `r` of a suffix `l` of `s`, each cut from whitespace, sits in `s` surrounded by whitespace. */
  lemma SurroundedSlice(s: string, l: string, r: string)
    requires |l| <= |s| && l == s[|s| - |l|..] && AllSpace(s[..|s| - |l|])
    requires |r| <= |l| && r == l[..|r|] && AllSpace(l[|r|..])
    ensures SurroundedBySpace(s, |s| - |l|, r)
  {
    var lo := |s| - |l|;
    SliceOfSuffix(s, lo, 0, |r|);
    SliceOfSuffix(s, lo, |r|, |l|);
    assert l[..|r|] == l[0..|r|] && l[|r|..] == l[|r|..|l|];
    assert s[lo + |r|..] == s[lo + |r|..lo + |l|];
  }

  /** `strip()` is the slice of `s` at StripStart, with only whitespace around it. */
  lemma StripAt(s: string)
    ensures StripStart(s) + |Strip(s)| <= |s|
    ensures SurroundedBySpace(s, StripStart(s), Strip(s))
  {
    SurroundedSlice(s, TrimLeft(s), TrimRight(TrimLeft(s)));
  }

  /**
   * `strip()` keeps a slice of `s` with only whitespace around it, and keeps
   * nothing exactly when `s` is all whitespace.
   */
  lemma StripSlice(s: string)
    ensures Strip(s) == [] <==> AllSpace(s)
    ensures exists lo: nat | lo + |Strip(s)| <= |s| :: SurroundedBySpace(s, lo, Strip(s))
  {
    StripAt(s);
    var lo := StripStart(s);
    var l := TrimLeft(s);
    assert l[0..] == l;
    assert l != [] ==> l[0] == s[lo];
    assert Strip(s) == [] ==> l == [] && s[..lo] == s;
  }

  /** `r` sits at `lo` in `s`, with only whitespace before and after it. */
  predicate SurroundedBySpace(s: string, lo: nat, r: string)
    requires lo + |r| <= |s|
  {
    s[lo..lo + |r|] == r && AllSpace(s[..lo]) && AllSpace(s[lo + |r|..])
  }

  /** A string that neither starts nor ends with whitespace is its own `strip()`. */
  lemma StripUnchanged(s: string)
    requires s == [] || (!IsSpace(s[0]) && !IsSpace(s[|s| - 1]))
    ensures Strip(s) == s
  {
  }

  // ---------------------------------------------------------------------------
  // str.split() with no separator
  // ---------------------------------------------------------------------------

  /** The length of the run of non-whitespace characters that starts `s`. */
  function WordLength(s: string): (n: nat)
    ensures n <= |s|
    ensures NoSpace(s[..n])
    ensures n < |s| ==> IsSpace(s[n])
  {
    if s == [] || IsSpace(s[0]) then 0 else 1 + WordLength(s[1..])
  }

  /** The run of non-whitespace characters is determined by where the first space is. */
  lemma {:induction false} WordLengthIs(s: string, n: nat)
    requires n <= |s| && NoSpace(s[..n]) && (n == |s| || IsSpace(s[n]))
    ensures WordLength(s) == n
  {
    if n > 0 {
      assert s[1..][..n - 1] == s[1..n];
      assert forall i | 0 <= i < n - 1 :: s[1..n][i] == s[..n][i + 1];
      WordLengthIs(s[1..], n - 1);
    }
  }

  /**
   * Python's `s.split()`: the maximal runs of non-whitespace characters, in
   * order. No word is empty or holds whitespace, and there is no word at all
   * exactly when `s` is whitespace only.
   */
  function Words(s: string): (ws: seq<string>)
    ensures forall k | 0 <= k < |ws| :: ws[k] != [] && NoSpace(ws[k])
    ensures ws == [] <==> AllSpace(s)
    decreases |s|
  {
    if s == [] then []
    else if IsSpace(s[0]) then Words(s[1..])
    else
      var n := WordLength(s);
      [s[..n]] + Words(s[n..])
  }

  /** A run of non-whitespace characters is one word. */
  lemma WordsOfWord(w: string)
    requires w != [] && NoSpace(w)
    ensures Words(w) == [w]
  {
    WordLengthIs(w, |w|);
    assert w[..|w|] == w && w[|w|..] == [];
  }

  /** A whitespace character ends the first word of whatever comes before it. */
  lemma WordLengthBeforeSpace(a: string, c: char, b: string)
    requires IsSpace(c)
    ensures WordLength(a + [c] + b) == WordLength(a)
  {
    var s := a + [c] + b;
    var n := WordLength(a);
    assert s[..n] == a[..n];
    assert s[n] == if n < |a| then a[n] else c;
    WordLengthIs(s, n);
  }

  /** `split()` of a string that starts with a word: that word, then the words after it. */
  lemma WordsAfterWord(s: string, n: nat)
    requires s != [] && !IsSpace(s[0]) && n == WordLength(s)
    ensures Words(s) == [s[..n]] + Words(s[n..])
  {
  }

  /** Cutting `a + t` inside `a`. */
  lemma SplitConcat(a: string, t: string, n: nat)
    requires n <= |a|
    ensures (a + t)[..n] == a[..n] && (a + t)[n..] == a[n..] + t
  {
  }

  /** The step of WordsSplitAtSpace when `a` starts with a word. */
  lemma WordsSplitAfterWord(a: string, c: char, b: string)
    requires IsSpace(c) && a != [] && !IsSpace(a[0])
    requires Words(a[WordLength(a)..] + [c] + b) == Words(a[WordLength(a)..]) + Words(b)
    ensures Words(a + [c] + b) == Words(a) + Words(b)
  {
    var t := [c] + b;
    var n := WordLength(a);
    assert a + [c] + b == a + t;
    assert a[n..] + [c] + b == a[n..] + t;
    WordLengthBeforeSpace(a, c, b);
    SplitConcat(a, t, n);
    WordsAfterWord(a + t, n);
    WordsAfterWord(a, n);
  }

  /** A whitespace character separates: the words on either side of it, in order. */
  lemma {:induction false} WordsSplitAtSpace(a: string, c: char, b: string)
    requires IsSpace(c)
    ensures Words(a + [c] + b) == Words(a) + Words(b)
    decreases |a|
  {
    var s := a + [c] + b;
    if a == [] {
      assert s[0] == c && s[1..] == b;
    } else if IsSpace(a[0]) {
      assert s[0] == a[0] && s[1..] == a[1..] + [c] + b;
      WordsSplitAtSpace(a[1..], c, b);
    } else {
      WordsSplitAtSpace(a[WordLength(a)..], c, b);
      WordsSplitAfterWord(a, c, b);
    }
  }

  lemma WordLengthAppendSpace(s: string, c: char)
    requires IsSpace(c)
    ensures WordLength(s + [c]) == WordLength(s)
  {
    if s != [] && !IsSpace(s[0]) {
      assert (s + [c])[1..] == s[1..] + [c];
      WordLengthAppendSpace(s[1..], c);
    }
  }

  /** A trailing whitespace character adds no word. */
  lemma {:induction false} WordsAppendSpace(s: string, c: char)
    requires IsSpace(c)
    ensures Words(s + [c]) == Words(s)
    decreases |s|
  {
    if s == [] {
      assert Words([c]) == Words([]);
    } else if IsSpace(s[0]) {
      assert (s + [c])[1..] == s[1..] + [c];
      WordsAppendSpace(s[1..], c);
    } else {
      var n := WordLength(s);
      WordLengthAppendSpace(s, c);
      assert (s + [c])[..n] == s[..n];
      assert (s + [c])[n..] == s[n..] + [c];
      WordsAppendSpace(s[n..], c);
    }
  }

  lemma {:induction false} WordsTrimLeft(s: string)
    ensures Words(TrimLeft(s)) == Words(s)
  {
    if s != [] && IsSpace(s[0]) {
      WordsTrimLeft(s[1..]);
    }
  }

  lemma {:induction false} WordsTrimRight(s: string)
    ensures Words(TrimRight(s)) == Words(s)
  {
    if s != [] && IsSpace(s[|s| - 1]) {
      var p := s[..|s| - 1];
      assert s == p + [s[|s| - 1]];
      WordsAppendSpace(p, s[|s| - 1]);
      WordsTrimRight(p);
    }
  }

  /** `s.strip().split() == s.split()`. */
  lemma WordsStrip(s: string)
    ensures Words(Strip(s)) == Words(s)
  {
    WordsTrimLeft(s);
    WordsTrimRight(TrimLeft(s));
  }

  // ---------------------------------------------------------------------------
  // The substring test `t in s` and `s.replace(t, '')`
  // ---------------------------------------------------------------------------

  predicate OccursAt(s: string, t: string, i: nat) {
    i + |t| <= |s| && s[i..i + |t|] == t
  }

  /** Python's `t in s` on strings (case-sensitive; the empty string occurs in every string). */
  predicate Contains(s: string, t: string)
    ensures Contains(s, t) ==> |t| <= |s|
    ensures t == [] ==> Contains(s, t)
    ensures OccursAt(s, t, 0) ==> Contains(s, t)
  {
    assert t == [] ==> OccursAt(s, t, 0);
    exists i: nat | i <= |s| :: OccursAt(s, t, i)
  }

  /** An occurrence in a slice is an occurrence in the whole string. */
  lemma ContainsSlice(s: string, lo: nat, hi: nat, t: string)
    requires lo <= hi <= |s|
    requires Contains(s[lo..hi], t)
    ensures Contains(s, t)
  {
    var i: nat :| i <= hi - lo && OccursAt(s[lo..hi], t, i);
    var whole, part := s[lo + i..lo + i + |t|], s[lo..hi][i..i + |t|];
    assert forall k | 0 <= k < |t| :: whole[k] == part[k];
    assert OccursAt(s, t, lo + i);
  }

  /** What occurs in a suffix of `s` occurs in `s`. */
  lemma ContainsInSuffix(s: string, lo: nat, ts: seq<string>)
    requires lo <= |s|
    requires forall k | 0 <= k < |ts| :: Contains(s[lo..], ts[k])
    ensures forall k | 0 <= k < |ts| :: Contains(s, ts[k])
  {
    forall k | 0 <= k < |ts|
      ensures Contains(s, ts[k])
    {
      assert s[lo..] == s[lo..|s|];
      ContainsSlice(s, lo, |s|, ts[k]);
    }
  }

  /**
   * Python's `s.replace(t, '')`: deletes the non-overlapping occurrences of
   * `t` found scanning left to right; an empty `t` leaves `s` as it is.
   */
  function RemoveAll(s: string, t: string): (r: string)
    ensures |r| <= |s|
    ensures t == [] || |s| < |t| ==> r == s
    ensures t != [] && OccursAt(s, t, 0) ==> r == RemoveAll(s[|t|..], t)
    decreases |s|
  {
    if t == [] || |s| < |t| then s
    else if s[..|t|] == t then RemoveAll(s[|t|..], t)
    else [s[0]] + RemoveAll(s[1..], t)
  }

  /** An occurrence anywhere is removed: the result is at least one copy of `t` shorter. */
  lemma {:induction false} RemoveAllShrinks(s: string, t: string)
    requires t != [] && Contains(s, t)
    ensures |RemoveAll(s, t)| <= |s| - |t|
    decreases |s|
  {
    if s[..|t|] != t {
      var i: nat :| i <= |s| && OccursAt(s, t, i);
      assert i != 0 by {
        assert s[0..|t|] == s[..|t|];
      }
      assert s[1..][i - 1..i - 1 + |t|] == s[i..i + |t|];
      assert OccursAt(s[1..], t, i - 1);
      RemoveAllShrinks(s[1..], t);
    }
  }

  /** Removing a string that does not occur changes nothing. */
  lemma {:induction false} RemoveAllAbsent(s: string, t: string)
    requires !Contains(s, t)
    ensures RemoveAll(s, t) == s
    decreases |s|
  {
    if t == [] || |s| < |t| {
    } else if s[..|t|] == t {
    } else {
      if Contains(s[1..], t) {
        assert s[1..] == s[1..|s|];
        ContainsSlice(s, 1, |s|, t);
      }
      RemoveAllAbsent(s[1..], t);
    }
  }

  // ---------------------------------------------------------------------------
  // str.lower() and ' '.join(...)
  // ---------------------------------------------------------------------------

  /** Case mapping of one character, restricted to the ASCII letters. */
  function LowerChar(c: char): char {
    if 'A' <= c <= 'Z' then (c as int + 32) as char else c
  }

  /**
   * Python's `s.lower()`, applied character by character: no capital is left,
   * and every other character stays where it is.
   */
  function Lower(s: string): (r: string)
    ensures |r| == |s|
    ensures forall i | 0 <= i < |s| && 'A' <= s[i] <= 'Z' :: r[i] == (s[i] as int + 32) as char
    ensures forall i | 0 <= i < |r| :: !('A' <= r[i] <= 'Z')
    ensures forall i | 0 <= i < |s| && !('A' <= s[i] <= 'Z') :: r[i] == s[i]
  {
    seq(|s|, i requires 0 <= i < |s| => LowerChar(s[i]))
  }

  /** Text without ASCII capitals is its own lower case. */
  lemma LowerUnchanged(s: string)
    requires forall i | 0 <= i < |s| :: !('A' <= s[i] <= 'Z')
    ensures Lower(s) == s
  {
  }

  /** Joining two non-empty lists puts one space between their joins. */
  lemma {:induction false} JoinSpaceAppend(a: seq<string>, b: seq<string>)
    requires a != [] && b != []
    ensures JoinSpace(a + b) == JoinSpace(a) + " " + JoinSpace(b)
  {
    assert (a + b)[0] == a[0] && (a + b)[1..] == a[1..] + b;
    if |a| > 1 {
      JoinSpaceAppend(a[1..], b);
    }
  }

  /** Python's `' '.join(vs)`: every value occurs in the joined text. */
  function JoinSpace(vs: seq<string>): (r: string)
    ensures vs == [] ==> r == ""
    ensures |vs| == 1 ==> r == vs[0]
    ensures forall k | 0 <= k < |vs| :: Contains(r, vs[k])
  {
    if vs == [] then ""
    else if |vs| == 1 then vs[0]
    else
      var rest := JoinSpace(vs[1..]);
      var r := vs[0] + " " + rest;
      var lo := |vs[0]| + 1;
      assert r[..|vs[0]|] == vs[0] && r[lo..] == rest;
      ContainsInSuffix(r, lo, vs[1..]);
      r
  }

}
