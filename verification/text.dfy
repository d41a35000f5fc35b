/** String primitives behind the assistant's text handling: Python's `str.strip()`,
    character deletion, `str.replace(pat, "")`, `re.sub(r'\s+', ' ', s)`, substring
    search and (ASCII) lower-casing. Strings are sequences of Unicode scalar values,
    which matches Python's code-point indexing and `len`. */
module Text {

  /** The code points for which Python's `str.isspace()` holds; `\s` in a `str`
      regular expression matches exactly the same set. */
  predicate IsWs(c: char) {
    var n := c as int;
    (0x09 <= n <= 0x0D) || (0x1C <= n <= 0x1F) || n == 0x20 || n == 0x85 || n == 0xA0
    || n == 0x1680 || (0x2000 <= n <= 0x200A) || n == 0x2028 || n == 0x2029
    || n == 0x202F || n == 0x205F || n == 0x3000
  }

  predicate NotWs(c: char) {
    !IsWs(c)
  }

  ghost predicate AllWs(s: string) {
    forall i :: 0 <= i < |s| ==> IsWs(s[i])
  }

  /** No whitespace at either end: what `strip()` leaves. */
  predicate Trimmed(s: string) {
    s == [] || (!IsWs(s[0]) && !IsWs(s[|s| - 1]))
  }

  /** Every whitespace character is a plain space and no two whitespace characters
      are adjacent: what `re.sub(r'\s+', ' ', s)` leaves. */
  ghost predicate Normalized(s: string) {
    && (forall i :: 0 <= i < |s| && IsWs(s[i]) ==> s[i] == ' ')
    && (forall i :: 0 <= i < |s| - 1 ==> !WsPairAt(s, i))
  }

  /** Positions `i` and `i + 1` both hold whitespace. */
  ghost predicate WsPairAt(s: string, i: int)
    requires 0 <= i < |s| - 1
  {
    IsWs(s[i]) && IsWs(s[i + 1])
  }

  /** `r` is `s` with only whitespace removed before position `i` and after `r`. */
  ghost predicate PaddedAt(s: string, r: string, i: int) {
    && 0 <= i <= |s| - |r|
    && r == s[i..i + |r|]
    && (forall k :: 0 <= k < i ==> IsWs(s[k]))
    && (forall k :: i + |r| <= k < |s| ==> IsWs(s[k]))
  }

  ghost predicate WsPadding(s: string, r: string) {
    exists i :: PaddedAt(s, r, i)
  }

  /** `s.lstrip()` */
  function TrimStart(s: string): (r: string)
    ensures |r| <= |s| && r == s[|s| - |r|..]
    ensures r == [] || !IsWs(r[0])
  {
    if |s| > 0 && IsWs(s[0]) then TrimStart(s[1..]) else s
  }

  /** The first position at or after `i` that does not hold whitespace, or `|s|`. */
  function SkipWs(s: string, i: nat): (j: nat)
    requires i <= |s|
    ensures i <= j <= |s|
    ensures forall k :: i <= k < j ==> IsWs(s[k])
    ensures j < |s| ==> !IsWs(s[j])
    decreases |s| - i
  {
    if i < |s| && IsWs(s[i]) then SkipWs(s, i + 1) else i
  }

  /** The position just after the last non-whitespace character in `s[lo..hi]`, or
      `lo`. */
  function SkipWsBack(s: string, lo: nat, hi: nat): (j: nat)
    requires lo <= hi <= |s|
    ensures lo <= j <= hi
    ensures forall k :: j <= k < hi ==> IsWs(s[k])
    ensures lo < j ==> !IsWs(s[j - 1])
    decreases hi
  {
    if lo < hi && IsWs(s[hi - 1]) then SkipWsBack(s, lo, hi - 1) else hi
  }

  /** `s.strip()`: the trimmed core of `s`, surrounded in `s` by whitespace only. */
  function Trim(s: string): (r: string)
    ensures Trimmed(r)
    ensures WsPadding(s, r)
    ensures forall c :: c in r ==> c in s
    ensures Trimmed(s) ==> r == s
  {
    var i := SkipWs(s, 0);
    var j := SkipWsBack(s, i, |s|);
    TrimFacts(s, i, j);
    s[i..j]
  }

  lemma TrimFacts(s: string, i: nat, j: nat)
    requires i == SkipWs(s, 0) && j == SkipWsBack(s, i, |s|)
    ensures Trimmed(s[i..j])
    ensures PaddedAt(s, s[i..j], i)
    ensures forall c :: c in s[i..j] ==> c in s
    ensures Trimmed(s) ==> i == 0 && j == |s|
  {
    var r := s[i..j];
    assert |r| == j - i;
    forall c | c in r
      ensures c in s
    {
      var k :| 0 <= k < |r| && r[k] == c;
      assert s[i + k] == c;
    }
  }

  /** Where `Trim` finds the core of `s`. */
  lemma TrimAt(s: string)
    ensures PaddedAt(s, Trim(s), SkipWs(s, 0))
  {
  }

  /** One leading space in front of stripped text is all that `strip()` removes. */
  lemma SpaceThenTrimmed(w: string)
    requires w != [] && Trimmed(w)
    ensures Trim(" " + w) == w
  {
    var s := " " + w;
    assert s[1] == w[0] && s[|s| - 1] == w[|w| - 1];
    assert SkipWs(s, 0) == 1;
    assert SkipWsBack(s, 1, |s|) == |s|;
    assert s[1..|s|] == w;
  }

  /** Where the padding of a trimmed core lies in `s`. */
  lemma PaddingBounds(s: string, r: string, i: int)
    requires PaddedAt(s, r, i) && Trimmed(r)
    ensures r == [] <==> AllWs(s)
    ensures r != [] ==> !IsWs(s[i]) && !IsWs(s[i + |r| - 1])
  {
    if r != [] {
      assert r[0] == s[i] && r[|r| - 1] == s[i + |r| - 1];
    }
  }

  /** Only one string is both trimmed and obtained from `s` by removing surrounding
      whitespace, so `Trim` is characterised by its contract. */
  lemma TrimUnique(s: string, r: string)
    requires Trimmed(r) && WsPadding(s, r)
    ensures r == Trim(s)
  {
    var t := Trim(s);
    var i :| PaddedAt(s, r, i);
    var j := SkipWs(s, 0);
    TrimAt(s);
    PaddingBounds(s, r, i);
    PaddingBounds(s, t, j);
  }

  /** The characters of `s` that satisfy `p`, in order (deleting the others). */
  function Keep(s: string, p: char -> bool): (r: string)
    ensures |r| <= |s|
    ensures forall c :: c in r <==> c in s && p(c)
    ensures forall i :: 0 <= i < |r| ==> p(r[i])
    ensures (forall i :: 0 <= i < |s| ==> p(s[i])) ==> r == s
  {
    if s == [] then []
    else if p(s[0]) then [s[0]] + Keep(s[1..], p)
    else Keep(s[1..], p)
  }

  /** Filtering distributes over concatenation, so `Keep` is determined by what it
      does to single characters: a character is kept exactly when it satisfies `p`. */
  lemma {:induction false} KeepAppend(a: string, b: string, p: char -> bool)
    ensures Keep(a + b, p) == Keep(a, p) + Keep(b, p)
    decreases |a|
  {
    if a == [] {
      assert a + b == b;
    } else {
      var ab := a + b;
      assert ab[0] == a[0];
      assert ab[1..] == a[1..] + b;
      KeepAppend(a[1..], b, p);
      if p(a[0]) {
        calc {
          Keep(ab, p);
          [a[0]] + Keep(a[1..] + b, p);
          [a[0]] + (Keep(a[1..], p) + Keep(b, p));
          ([a[0]] + Keep(a[1..], p)) + Keep(b, p);
        }
      }
    }
  }

  /** A filter that rejects every character keeps nothing. */
  lemma KeepNone(s: string, p: char -> bool)
    requires forall i :: 0 <= i < |s| ==> !p(s[i])
    ensures Keep(s, p) == []
  {
  }

  lemma KeepSingle(c: char, p: char -> bool)
    ensures Keep([c], p) == if p(c) then [c] else []
  {
    assert [c][1..] == [];
  }

  /** Filtering by `p` and then by `q` is filtering once by their conjunction. */
  lemma {:induction false} KeepBoth(s: string, p: char -> bool, q: char -> bool, pq: char -> bool)
    requires forall c :: pq(c) == (p(c) && q(c))
    ensures Keep(Keep(s, p), q) == Keep(s, pq)
    decreases |s|
  {
    if s != [] {
      KeepBoth(s[1..], p, q, pq);
      if p(s[0]) {
        var k := Keep(s, p);
        assert k == [s[0]] + Keep(s[1..], p);
        assert k[0] == s[0] && k[1..] == Keep(s[1..], p);
      }
    }
  }

  /** Every character of `strip()`'s result comes from its input, so a property held by
      every input character is held by every result character. */
  lemma TrimKeepsAll(s: string, p: char -> bool)
    requires forall i :: 0 <= i < |s| ==> p(s[i])
    ensures forall i :: 0 <= i < |Trim(s)| ==> p(Trim(s)[i])
  {
    var r := Trim(s);
    forall i | 0 <= i < |r| ensures p(r[i]) {
      assert r[i] in s;
    }
  }

  /** Removing surrounding whitespace keeps every character a whitespace-rejecting
      filter keeps, in order. */
  lemma KeepTrim(s: string, p: char -> bool)
    requires forall c :: IsWs(c) ==> !p(c)
    ensures Keep(Trim(s), p) == Keep(s, p)
  {
    TrimAt(s);
    KeepPadded(s, Trim(s), SkipWs(s, 0), p);
  }

  lemma KeepPadded(s: string, r: string, i: int, p: char -> bool)
    requires forall c :: IsWs(c) ==> !p(c)
    requires PaddedAt(s, r, i)
    ensures Keep(r, p) == Keep(s, p)
  {
    var pre, post := s[..i], s[i + |r|..];
    assert s == pre + r + post;
    assert forall k :: 0 <= k < |pre| ==> pre[k] == s[k];
    KeepNone(pre, p);
    assert forall k :: 0 <= k < |post| ==> post[k] == s[i + |r| + k];
    KeepNone(post, p);
    KeepAround(pre, r, post, p);
  }

  lemma KeepAround(pre: string, r: string, post: string, p: char -> bool)
    requires Keep(pre, p) == [] && Keep(post, p) == []
    ensures Keep(pre + r + post, p) == Keep(r, p)
  {
    KeepAppend(pre + r, post, p);
    KeepAppend(pre, r, p);
  }

  /** `r` is what remains of `s` after cutting some prefix off. */
  predicate IsSuffix(r: string, s: string) {
    |r| <= |s| && r == s[|s| - |r|..]
  }

  /** With no whitespace at its end, a string keeps its end under `strip()`: what is
      removed is a leading whitespace run only. */
  lemma TrimSuffix(s: string)
    ensures s == [] || !IsWs(s[|s| - 1]) ==> IsSuffix(Trim(s), s)
  {
    TrimAt(s);
  }

  /** A suffix of a suffix of `s` is a suffix of `s`. */
  lemma SuffixOfSuffix(s: string, m: string, r: string)
    requires IsSuffix(m, s) && IsSuffix(r, m)
    ensures IsSuffix(r, s)
  {
    assert m[|m| - |r|..] == s[|s| - |r|..];
  }

  /** Filtering `m + n + x` when `p` rejects all of `m` and accepts all of `n`. */
  lemma KeepAfterDropped(m: string, n: string, x: string, p: char -> bool)
    requires forall i :: 0 <= i < |m| ==> !p(m[i])
    requires forall i :: 0 <= i < |n| ==> p(n[i])
    ensures Keep(m + n + x, p) == n + Keep(x, p)
  {
    assert Keep(n, p) == n;
    KeepNone(m, p);
    KeepAppend(m + n, x, p);
    KeepAppend(m, n, p);
    assert Keep(m, p) + Keep(n, p) == n;
  }

  /** A rejected front part contributes nothing to the filter. */
  lemma KeepDropFront(s: string, k: nat, p: char -> bool)
    requires k <= |s| && forall i :: 0 <= i < k ==> !p(s[i])
    ensures Keep(s, p) == Keep(s[k..], p)
  {
    assert s == s[..k] + s[k..];
    KeepAppend(s[..k], s[k..], p);
    KeepNone(s[..k], p);
  }

  /** Filtering a suffix gives a suffix of the filtered string. */
  lemma KeepSuffix(r: string, s: string, p: char -> bool)
    requires IsSuffix(r, s)
    ensures IsSuffix(Keep(r, p), Keep(s, p))
  {
    var pre := s[..|s| - |r|];
    assert s == pre + r;
    KeepAppend(pre, r, p);
  }

  /** `s.replace(pat, "")`: occurrences are found left to right without overlap. */
  function RemoveAll(s: string, pat: string): (r: string)
    requires |pat| > 0
    ensures |r| <= |s|
    ensures forall c :: c in r ==> c in s
    ensures forall c :: c in s && c !in pat ==> c in r
    ensures !Contains(s, pat) ==> r == s
    decreases |s|
  {
    if |s| < |pat| then s
    else if s[..|pat|] == pat then
      assert forall c :: c in s && c !in pat ==> c in s[|pat|..] by {
        assert s == s[..|pat|] + s[|pat|..];
      }
      RemoveAll(s[|pat|..], pat)
    else
      assert forall c :: c in s && c != s[0] ==> c in s[1..] by {
        assert s == [s[0]] + s[1..];
      }
      [s[0]] + RemoveAll(s[1..], pat)
  }

  predicate NotStar(c: char) {
    c != '*'
  }

  lemma {:induction false} RemoveStarIsKeep(s: string)
    ensures RemoveAll(s, "*") == Keep(s, NotStar)
    decreases |s|
  {
    if |s| >= 1 {
      RemoveStarIsKeep(s[1..]);
      if s[..1] == "*" {
        assert s[0] == '*';
      } else {
        assert s[..1] == [s[0]];
      }
    }
  }

  /** Deleting occurrences of a pattern whose every character a filter rejects does not
      change what the filter keeps. */
  lemma {:induction false} RemoveAllKeeps(s: string, pat: string, p: char -> bool)
    requires |pat| > 0 && forall i :: 0 <= i < |pat| ==> !p(pat[i])
    ensures Keep(RemoveAll(s, pat), p) == Keep(s, p)
    decreases |s|
  {
    if |s| >= |pat| {
      if s[..|pat|] == pat {
        RemoveAllKeeps(s[|pat|..], pat, p);
        assert forall i :: 0 <= i < |pat| ==> s[i] == s[..|pat|][i];
        KeepDropFront(s, |pat|, p);
      } else {
        RemoveAllKeeps(s[1..], pat, p);
        var x := RemoveAll(s[1..], pat);
        assert ([s[0]] + x)[1..] == x;
      }
    }
  }

  lemma RemoveDoubleStarKeepsNonStars(s: string)
    ensures Keep(RemoveAll(s, "**"), NotStar) == Keep(s, NotStar)
  {
    var pat := "**";
    assert !NotStar(pat[0]) && !NotStar(pat[1]);
    RemoveAllKeeps(s, pat, NotStar);
  }

  /** `s.replace("**", "").replace("*", "")` deletes exactly the asterisks of `s`. */
  lemma DeleteStarsIsKeep(s: string)
    ensures RemoveAll(RemoveAll(s, "**"), "*") == Keep(s, NotStar)
  {
    RemoveStarIsKeep(RemoveAll(s, "**"));
    RemoveDoubleStarKeepsNonStars(s);
  }

  lemma {:induction false} KeepSkipsLeadingWs(s: string)
    ensures Keep(TrimStart(s), NotWs) == Keep(s, NotWs)
  {
    if |s| > 0 && IsWs(s[0]) {
      KeepSkipsLeadingWs(s[1..]);
    }
  }

  /** `re.sub(r'\s+', ' ', s)`: every maximal run of whitespace becomes one space. */
  function Collapse(s: string): (r: string)
    ensures |r| <= |s|
    ensures r == [] <==> s == []
    ensures s != [] ==> (IsWs(r[0]) <==> IsWs(s[0]))
    ensures Normalized(r)
    ensures Keep(r, NotWs) == Keep(s, NotWs)
    decreases |s|
  {
    if s == [] then []
    else if IsWs(s[0]) then
      var t := TrimStart(s);
      KeepSkipsLeadingWs(s);
      NormalizedCons(' ', Collapse(t));
      assert ([' '] + Collapse(t))[1..] == Collapse(t);
      [' '] + Collapse(t)
    else
      NormalizedCons(s[0], Collapse(s[1..]));
      assert ([s[0]] + Collapse(s[1..]))[1..] == Collapse(s[1..]);
      [s[0]] + Collapse(s[1..])
  }

  lemma NormalizedTail(s: string)
    requires Normalized(s) && s != []
    ensures Normalized(s[1..])
  {
    forall i | 0 <= i < |s| - 2
      ensures !WsPairAt(s[1..], i)
    {
      assert !WsPairAt(s, i + 1);
    }
  }

  /** Putting one character in front keeps a string collapsed when the character is
      a plain space followed by a non-space, or not whitespace at all. */
  lemma NormalizedCons(c: char, s: string)
    requires Normalized(s)
    requires IsWs(c) ==> c == ' ' && (s == [] || !IsWs(s[0]))
    ensures Normalized([c] + s)
  {
    var r := [c] + s;
    forall i | 0 < i < |r| - 1
      ensures !WsPairAt(r, i)
    {
      assert !WsPairAt(s, i - 1);
    }
  }

  /** A string already in collapsed form is a fixed point of the collapse. */
  lemma {:induction false} CollapseNormalized(s: string)
    requires Normalized(s)
    ensures Collapse(s) == s
    decreases |s|
  {
    if s != [] {
      var tail := s[1..];
      NormalizedTail(s);
      CollapseNormalized(tail);
      if IsWs(s[0]) {
        LeadingSpace(s);
        assert Collapse(s) == [' '] + Collapse(tail);
      } else {
        assert Collapse(s) == [s[0]] + Collapse(tail);
      }
      assert s == [s[0]] + tail;
    }
  }

  lemma LeadingSpace(s: string)
    requires Normalized(s) && s != [] && IsWs(s[0])
    ensures s[0] == ' ' && TrimStart(s) == s[1..]
  {
    if |s| > 1 {
      assert !WsPairAt(s, 0);
      assert s[1..][0] == s[1];
    }
  }

  /** Removing surrounding whitespace keeps a string collapsed. */
  lemma TrimKeepsNormalized(s: string)
    requires Normalized(s)
    ensures Normalized(Trim(s))
  {
    var r := Trim(s);
    var i := SkipWs(s, 0);
    TrimAt(s);
    forall k | 0 <= k < |r|
      ensures IsWs(r[k]) ==> r[k] == ' '
    {
      assert r[k] == s[i + k];
    }
    forall k | 0 <= k < |r| - 1
      ensures !WsPairAt(r, k)
    {
      assert r[k] == s[i + k] && r[k + 1] == s[i + k + 1];
      assert !WsPairAt(s, i + k);
    }
  }

  function LowerChar(c: char): char {
    if 'A' <= c <= 'Z' then (c as int + 32) as char else c
  }

  /** `s.lower()` restricted to ASCII letters. */
  function AsciiLower(s: string): (r: string)
    ensures |r| == |s|
    ensures forall i :: 0 <= i < |s| ==> r[i] == LowerChar(s[i])
  {
    if s == [] then [] else [LowerChar(s[0])] + AsciiLower(s[1..])
  }

  predicate StartsWith(s: string, p: string) {
    |p| <= |s| && s[..|p|] == p
  }

  /** Different first characters rule the prefix out. */
  lemma HeadMismatch(s: string, p: string)
    requires s != [] && p != [] && s[0] != p[0]
    ensures !StartsWith(s, p)
  {
    if |p| <= |s| { assert s[..|p|][0] == s[0]; }
  }

  ghost predicate OccursAt(s: string, sub: string, i: int) {
    0 <= i <= |s| - |sub| && s[i..i + |sub|] == sub
  }

  /** `sub in s` */
  predicate Contains(s: string, sub: string)
    decreases |s|
  {
    StartsWith(s, sub) || (|s| > 0 && Contains(s[1..], sub))
  }

  /** The scanning definition of `Contains` agrees with "occurs at some index". */
  lemma {:induction false} ContainsIffOccurs(s: string, sub: string)
    ensures Contains(s, sub) <==> exists i :: OccursAt(s, sub, i)
    decreases |s|
  {
    if StartsWith(s, sub) {
      assert OccursAt(s, sub, 0);
    } else if |s| > 0 {
      ContainsIffOccurs(s[1..], sub);
      if Contains(s[1..], sub) {
        var i :| OccursAt(s[1..], sub, i);
        assert s[1..][i..i + |sub|] == s[i + 1..i + 1 + |sub|];
        assert OccursAt(s, sub, i + 1);
      } else {
        forall i | OccursAt(s, sub, i)
          ensures false
        {
          if i > 0 {
            assert s[1..][i - 1..i - 1 + |sub|] == s[i..i + |sub|];
            assert OccursAt(s[1..], sub, i - 1);
          }
        }
      }
    } else {
      assert forall i :: !OccursAt(s, sub, i);
    }
  }
}
