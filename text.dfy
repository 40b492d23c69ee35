/**
 * Character classes and the small scanners that stand in for the regular
 * expressions and string methods of the monitor: `[\d.]+`, `\s*`,
 * `str.replace`, `str.strip` and the substring test `in`.
 */
module Text {

  /** `\d`, restricted to the ASCII digits. */
  predicate IsDigit(c: char) {
    '0' <= c <= '9'
  }

  /** A character of the class `[\d.]`. */
  predicate IsRunChar(c: char) {
    IsDigit(c) || c == '.'
  }

  /** The characters Python's `str.isspace` accepts; `\s` and `str.strip()` use the same set. */
  predicate IsSpace(c: char) {
    || '\t' <= c <= '\r'
    || '\U{1C}' <= c <= ' '
    || c == '\U{85}' || c == '\U{A0}' || c == '\U{1680}'
    || '\U{2000}' <= c <= '\U{200A}'
    || c == '\U{2028}' || c == '\U{2029}' || c == '\U{202F}' || c == '\U{205F}' || c == '\U{3000}'
  }

  lemma RunCharNotSpace(c: char)
    requires IsRunChar(c)
    ensures !IsSpace(c) && c != '$' && c != ','
  {
  }

  lemma SpaceNotRunChar(c: char)
    requires IsSpace(c)
    ensures !IsRunChar(c) && c != '$'
  {
  }

  predicate AllRunChars(s: string) {
    forall k :: 0 <= k < |s| ==> IsRunChar(s[k])
  }

  predicate AllDigits(s: string) {
    forall k :: 0 <= k < |s| ==> IsDigit(s[k])
  }

  /** End of the longest run of `[\d.]` starting at `i`: a greedy `[\d.]*` from `i`. */
  function RunEnd(s: string, i: nat): (e: nat)
    requires i <= |s|
    ensures i <= e <= |s|
    ensures forall k :: i <= k < e ==> IsRunChar(s[k])
    ensures e == |s| || !IsRunChar(s[e])
    decreases |s| - i
  {
    if i < |s| && IsRunChar(s[i]) then RunEnd(s, i + 1) else i
  }

  /** End of the longest run of white space starting at `i`: a greedy `\s*` from `i`. */
  function SpaceEnd(s: string, i: nat): (e: nat)
    requires i <= |s|
    ensures i <= e <= |s|
    ensures forall k :: i <= k < e ==> IsSpace(s[k])
    ensures e == |s| || !IsSpace(s[e])
    decreases |s| - i
  {
    if i < |s| && IsSpace(s[i]) then SpaceEnd(s, i + 1) else i
  }

  /** A maximal run is the one `RunEnd` finds. */
  lemma RunEndUnique(s: string, i: nat, e: nat)
    requires i <= e <= |s|
    requires forall k :: i <= k < e ==> IsRunChar(s[k])
    requires e == |s| || !IsRunChar(s[e])
    ensures RunEnd(s, i) == e
  {
  }

  /** A maximal stretch of white space is the one `SpaceEnd` finds. */
  lemma SpaceEndUnique(s: string, i: nat, e: nat)
    requires i <= e <= |s|
    requires forall k :: i <= k < e ==> IsSpace(s[k])
    requires e == |s| || !IsSpace(s[e])
    ensures SpaceEnd(s, i) == e
  {
  }

  /** Index of the first `[\d.]` character at or after `i`, or `|s|` when there is none. */
  function FirstRunStart(s: string, i: nat): (p: nat)
    requires i <= |s|
    ensures i <= p <= |s|
    ensures forall k :: i <= k < p ==> !IsRunChar(s[k])
    ensures p < |s| ==> IsRunChar(s[p])
    decreases |s| - i
  {
    if i == |s| || IsRunChar(s[i]) then i else FirstRunStart(s, i + 1)
  }

  /** `s.replace(c, '')`: every `c` removed, everything else kept in order. */
  function RemoveAll(s: string, c: char): (r: string)
    ensures c !in r
    ensures forall x :: x in r ==> x in s
  {
    if s == [] then [] else (if s[0] == c then [] else [s[0]]) + RemoveAll(s[1..], c)
  }

  /** Every other character keeps its number of occurrences. */
  lemma {:induction false} RemoveAllKeepsOthers(s: string, c: char, x: char)
    requires x != c
    ensures multiset(RemoveAll(s, c))[x] == multiset(s)[x]
  {
    if s != [] {
      assert s == [s[0]] + s[1..];
      RemoveAllKeepsOthers(s[1..], c, x);
    }
  }

  /** Removing a character distributes over concatenation, so it keeps the order of what remains. */
  lemma {:induction false} RemoveAllAppend(a: string, b: string, c: char)
    ensures RemoveAll(a + b, c) == RemoveAll(a, c) + RemoveAll(b, c)
  {
    if a != [] {
      assert (a + b)[0] == a[0] && (a + b)[1..] == a[1..] + b;
      RemoveAllAppend(a[1..], b, c);
    } else {
      assert a + b == b;
    }
  }

  /** One occurrence of `c` between `a` and `b` is dropped. */
  lemma RemoveAllSkip(a: string, b: string, c: char)
    ensures RemoveAll(a + [c] + b, c) == RemoveAll(a + b, c)
  {
    assert RemoveAll([c], c) == [] by {
      assert [c][1..] == [];
    }
    calc {
      RemoveAll(a + [c] + b, c);
      { RemoveAllAppend(a + [c], b, c); }
      RemoveAll(a + [c], c) + RemoveAll(b, c);
      { RemoveAllAppend(a, [c], c); }
      RemoveAll(a, c) + [] + RemoveAll(b, c);
      { assert RemoveAll(a, c) + [] == RemoveAll(a, c); }
      RemoveAll(a, c) + RemoveAll(b, c);
      { RemoveAllAppend(a, b, c); }
      RemoveAll(a + b, c);
    }
  }

  /** A character other than `c` between `a` and `b` stays where it is. */
  lemma RemoveAllKeep(a: string, b: string, x: char, c: char)
    requires x != c
    ensures RemoveAll(a + [x] + b, c) == RemoveAll(a, c) + [x] + RemoveAll(b, c)
  {
    assert RemoveAll([x], c) == [x] by {
      assert [x][1..] == [];
    }
    RemoveAllAppend(a + [x], b, c);
    RemoveAllAppend(a, [x], c);
  }

  /** Removing a character that does not occur changes nothing. */
  lemma {:induction false} RemoveAllAbsent(s: string, c: char)
    requires c !in s
    ensures RemoveAll(s, c) == s
  {
    if s != [] {
      RemoveAllAbsent(s[1..], c);
    }
  }

  /** End of `s[lo..hi]` once trailing white space is dropped. */
  function TrimEnd(s: string, lo: nat, hi: nat): (e: nat)
    requires lo <= hi <= |s|
    ensures lo <= e <= hi
    ensures forall k :: e <= k < hi ==> IsSpace(s[k])
    ensures e == lo || !IsSpace(s[e - 1])
    decreases hi
  {
    if lo < hi && IsSpace(s[hi - 1]) then TrimEnd(s, lo, hi - 1) else hi
  }

  /** Where `s.strip()` starts: after the leading white space. */
  function StripStart(s: string): nat {
    SpaceEnd(s, 0)
  }

  /** `s.strip()`: white space removed at both ends, nothing else. */
  function Strip(s: string): (r: string)
    ensures r == [] || (!IsSpace(r[0]) && !IsSpace(r[|r| - 1]))
    ensures StripStart(s) + |r| <= |s| && s[StripStart(s)..StripStart(s) + |r|] == r
    ensures forall k :: 0 <= k < StripStart(s) ==> IsSpace(s[k])
    ensures forall k :: StripStart(s) + |r| <= k < |s| ==> IsSpace(s[k])
    ensures forall x :: x in r ==> x in s
  {
    var lo := SpaceEnd(s, 0);
    var hi := TrimEnd(s, lo, |s|);
    s[lo..hi]
  }

  /** Stripping drops white space only: every other character keeps its number of occurrences. */
  lemma StripKeeps(s: string, x: char)
    requires !IsSpace(x)
    ensures multiset(Strip(s))[x] == multiset(s)[x]
  {
    var r, lo := Strip(s), StripStart(s);
    var hi := lo + |r|;
    assert s == s[..lo] + r + s[hi..];
    assert x !in s[..lo] && x !in s[hi..];
    assert multiset(s) == multiset(s[..lo]) + multiset(r) + multiset(s[hi..]);
  }

  /** Stripping a string that neither starts nor ends with white space changes nothing. */
  lemma StripUnpadded(s: string)
    requires s == [] || (!IsSpace(s[0]) && !IsSpace(s[|s| - 1]))
    ensures Strip(s) == s
  {
    var r, lo := Strip(s), StripStart(s);
    if s != [] {
      assert lo == 0;
      assert lo + |r| == |s|;
    }
  }

  /** `pat` occurs in `s` starting at index `i`. */
  predicate OccursAt(s: string, pat: string, i: nat) {
    i + |pat| <= |s| && s[i..i + |pat|] == pat
  }

  /** Python's `pat in s`. */
  predicate Contains(s: string, pat: string) {
    exists i: nat :: i <= |s| && OccursAt(s, pat, i)
  }
}
