/**
 * The Python string built-ins the crawler leans on (`str.find`, slicing,
 * `str.split`, `str.replace`, `str * int`, `str.strip`, `str.endswith`),
 * with CPython's semantics for negative and out-of-range indices.
 * A Python `str` is a sequence of code points; here it is `string`.
 */
module PyStr {

  /** `sub` occurs in `s` starting at index `i`. */
  predicate OccursAt(s: string, sub: string, i: int) {
    0 <= i && i + |sub| <= |s| && s[i..i + |sub|] == sub
  }

  predicate Contains(s: string, sub: string) {
    exists i | 0 <= i <= |s| :: OccursAt(s, sub, i)
  }

  /** Where `str.find` starts looking: a negative start counts from the end and is clamped at 0. */
  function FindStart(n: nat, start: int): nat {
    if start >= 0 then start
    else if start + n >= 0 then start + n
    else 0
  }

  /** The lowest occurrence of `sub` at or after `i`, or -1. */
  function FindFrom(s: string, sub: string, i: nat): (r: int)
    ensures r == -1 || (i <= r && OccursAt(s, sub, r))
    ensures r != -1 ==> forall j :: i <= j < r ==> !OccursAt(s, sub, j)
    ensures r == -1 <==> forall j :: i <= j ==> !OccursAt(s, sub, j)
    decreases |s| - i
  {
    if i + |sub| > |s| then -1
    else if s[i..i + |sub|] == sub then i
    else FindFrom(s, sub, i + 1)
  }

  /** Python's `s.find(sub, start)`. */
  function Find(s: string, sub: string, start: int): (r: int)
    ensures r == -1 || (FindStart(|s|, start) <= r && OccursAt(s, sub, r))
    ensures r != -1 ==> forall j :: FindStart(|s|, start) <= j < r ==> !OccursAt(s, sub, j)
  {
    FindFrom(s, sub, FindStart(|s|, start))
  }

  /** The first occurrence at or after `i` is the one at `p` when nothing occurs in between. */
  lemma FindFromIs(s: string, sub: string, i: nat, p: nat)
    requires i <= p && OccursAt(s, sub, p)
    requires forall j :: i <= j < p ==> !OccursAt(s, sub, j)
    ensures FindFrom(s, sub, i) == p
  {
  }

  /** A one-character pattern occurs exactly where that character stands. */
  lemma OccursAtChar(s: string, c: char, j: int)
    ensures OccursAt(s, [c], j) <==> 0 <= j < |s| && s[j] == c
  {
    if 0 <= j < |s| {
      assert s[j..j + 1] == [s[j]];
    }
  }

  /** Python's normalisation of a slice bound: negative counts from the end, then clamp to `[0, n]`. */
  function SliceBound(n: nat, i: int): (r: nat)
    ensures r <= n
  {
    if i < 0 then (if i + n < 0 then 0 else i + n)
    else if i > n then n
    else i
  }

  /** Python's `s[i:j]`. */
  function Slice(s: string, i: int, j: int): (r: string)
    ensures |r| <= |s|
    ensures OccursAt(s, r, SliceBound(|s|, i))
    ensures |r| == if SliceBound(|s|, i) < SliceBound(|s|, j) then SliceBound(|s|, j) - SliceBound(|s|, i) else 0
  {
    var lo, hi := SliceBound(|s|, i), SliceBound(|s|, j);
    if lo < hi then s[lo..hi] else ""
  }

  /**
   * Character `k` of `s[i:j]`, for a start within the string: it is `s[i + k]`,
   * lying before `j`, or before the last character when `j` is -1.
   */
  lemma SliceAt(s: string, i: int, j: int, k: nat)
    requires 0 <= i <= |s| && j >= -1 && k < |Slice(s, i, j)|
    ensures Slice(s, i, j)[k] == s[i + k]
    ensures j >= 0 ==> i + k < j
    ensures j == -1 ==> i + k < |s| - 1
  {
  }

  /** Inverse of `Split`: the parts with `sep` between each pair. */
  function Join(parts: seq<string>, sep: string): string {
    if |parts| == 0 then ""
    else if |parts| == 1 then parts[0]
    else parts[0] + sep + Join(parts[1..], sep)
  }

  /**
   * Python's `s.split(sep)` for a non-empty separator (an empty one raises
   * `ValueError`): cut at each leftmost, non-overlapping occurrence. The
   * round trip and `SplitPartsFree` alone would not fix where the cuts fall
   * for a separator that overlaps itself, such as `"aa"` in `"aaa"`; the
   * body's leftmost search does.
   */
  function Split(s: string, sep: string): (parts: seq<string>)
    requires sep != ""
    ensures |parts| >= 1
    ensures Join(parts, sep) == s
    decreases |s|
  {
    var i := FindFrom(s, sep, 0);
    if i == -1 then [s]
    else
      var rest := Split(s[i + |sep|..], sep);
      assert s == s[..i] + sep + s[i + |sep|..];
      [s[..i]] + rest
  }

  lemma OccursInPrefix(s: string, sub: string, k: nat, j: int)
    requires k <= |s|
    requires OccursAt(s[..k], sub, j)
    ensures OccursAt(s, sub, j)
  {
    assert s[..k][j..j + |sub|] == s[j..j + |sub|];
  }

  /** No part of a split contains the separator. */
  lemma {:induction false} SplitPartsFree(s: string, sep: string)
    requires sep != ""
    ensures forall k :: 0 <= k < |Split(s, sep)| ==> !Contains(Split(s, sep)[k], sep)
    decreases |s|
  {
    var i := FindFrom(s, sep, 0);
    if i == -1 {
      assert Split(s, sep) == [s];
    } else {
      SplitPartsFree(s[i + |sep|..], sep);
      assert Split(s, sep) == [s[..i]] + Split(s[i + |sep|..], sep);
      if Contains(s[..i], sep) {
        var j :| OccursAt(s[..i], sep, j);
        OccursInPrefix(s, sep, i, j);
        assert false;
      }
    }
  }

  /** Python's `s.replace("", rep)`: `rep` before every character and at the end. */
  function Interleave(s: string, rep: string): (r: string)
    ensures rep == "" ==> r == s
  {
    if s == "" then rep else rep + [s[0]] + Interleave(s[1..], rep)
  }

  /**
   * Python's `s.replace(pat, rep)`: every leftmost, non-overlapping occurrence.
   * Replacing a pattern by itself changes nothing.
   */
  function Replace(s: string, pat: string, rep: string): (r: string)
    ensures rep == pat ==> r == s
  {
    if pat == "" then Interleave(s, rep) else Join(Split(s, pat), rep)
  }

  /** Split cuts at the first occurrence and recurses on what follows it. */
  lemma SplitAt(s: string, sep: string, i: nat)
    requires sep != "" && FindFrom(s, sep, 0) == i
    ensures Split(s, sep) == [s[..i]] + Split(s[i + |sep|..], sep)
  {
  }

  lemma JoinCons(p: string, tail: seq<string>, sep: string)
    requires |tail| >= 1
    ensures Join([p] + tail, sep) == p + sep + Join(tail, sep)
  {
    assert ([p] + tail)[1..] == tail;
  }

  /** A string without the separator splits into itself alone. */
  lemma SplitAbsent(s: string, sep: string)
    requires sep != "" && !Contains(s, sep)
    ensures Split(s, sep) == [s]
  {
    forall j | 0 <= j
      ensures !OccursAt(s, sep, j)
    {
      if j <= |s| {
        assert !OccursAt(s, sep, j);
      }
    }
  }

  /** A pattern that does not occur leaves the string unchanged. */
  lemma ReplaceAbsent(s: string, pat: string, rep: string)
    requires pat != "" && !Contains(s, pat)
    ensures Replace(s, pat, rep) == s
  {
    SplitAbsent(s, pat);
  }

  /** A leading separator yields an empty first part. */
  lemma SplitLeading(pat: string, rest: string)
    requires pat != ""
    ensures Split(pat + rest, pat) == [""] + Split(rest, pat)
  {
    var s := pat + rest;
    assert OccursAt(s, pat, 0) by { assert s[0..|pat|] == pat; }
    FindFromIs(s, pat, 0, 0);
    SplitAt(s, pat, 0);
    assert s[..0] == "" && s[|pat|..] == rest;
  }

  /** A leading occurrence is replaced and the scan carries on after it. */
  lemma ReplaceLeading(pat: string, rest: string, rep: string)
    requires pat != ""
    ensures Replace(pat + rest, pat, rep) == rep + Replace(rest, pat, rep)
  {
    var tail := Split(rest, pat);
    calc {
      Replace(pat + rest, pat, rep);
      Join(Split(pat + rest, pat), rep);
      { SplitLeading(pat, rest); }
      Join([""] + tail, rep);
      { JoinCons("", tail, rep); }
      "" + rep + Join(tail, rep);
      { assert "" + rep == rep; }
      rep + Replace(rest, pat, rep);
    }
  }

  /**
   * A placeholder that occurs once, with nothing of it before `a + pat` ends
   * and none in `b`, is replaced by exactly `v` in place.
   */
  lemma ReplaceOnce(a: string, pat: string, b: string, v: string)
    requires pat != ""
    requires forall j :: 0 <= j < |a| ==> !OccursAt(a + pat + b, pat, j)
    requires !Contains(b, pat)
    ensures Replace(a + pat + b, pat, v) == a + v + b
  {
    var s := a + pat + b;
    assert OccursAt(s, pat, |a|) by { assert s[|a|..|a| + |pat|] == pat; }
    FindFromIs(s, pat, 0, |a|);
    SplitAt(s, pat, |a|);
    assert s[..|a|] == a;
    assert s[|a| + |pat|..] == b;
    SplitAbsent(b, pat);
    assert Split(s, pat) == [a] + [b];
    JoinCons(a, [b], v);
  }

  /** Python's `s * n`: empty for `n <= 0`, otherwise starting with a copy of `s`. */
  function Repeat(s: string, n: int): (r: string)
    ensures n <= 0 ==> r == ""
    ensures n > 0 ==> s <= r
    decreases if n <= 0 then 0 else n
  {
    if n <= 0 then "" else s + Repeat(s, n - 1)
  }

  /** `s * n` is `n` copies of `s` end to end: its length is `n * |s|`, and nothing for `n <= 0`. */
  lemma {:induction false} RepeatLength(s: string, n: int)
    ensures |Repeat(s, n)| == if n <= 0 then 0 else n * |s|
    decreases if n <= 0 then 0 else n
  {
    if n > 0 {
      RepeatLength(s, n - 1);
    }
  }

  /** Python's `str.isspace` for one code point. */
  predicate IsSpace(c: char) {
    c == ' ' || c == '\t' || c == '\n' || c == '\r' || c == '\U{0b}' || c == '\U{0c}'
    || ('\U{1c}' <= c <= '\U{1f}') || c == '\U{85}' || c == '\U{a0}' || c == '\U{1680}'
    || ('\U{2000}' <= c <= '\U{200a}') || c == '\U{2028}' || c == '\U{2029}'
    || c == '\U{202f}' || c == '\U{205f}' || c == '\U{3000}'
  }

  /** `s.lstrip()`: drop leading whitespace. */
  function StripLeft(s: string): string {
    if s != [] && IsSpace(s[0]) then StripLeft(s[1..]) else s
  }

  /** `s.rstrip()`: drop trailing whitespace. */
  function StripRight(s: string): string {
    if s != [] && IsSpace(s[|s| - 1]) then StripRight(s[..|s| - 1]) else s
  }

  /** `lstrip` leaves the suffix that starts at the first non-whitespace character. */
  lemma {:induction false} StripLeftSpec(s: string)
    ensures var r := StripLeft(s);
      |r| <= |s| && r == s[|s| - |r|..]
      && (forall i :: 0 <= i < |s| - |r| ==> IsSpace(s[i]))
      && (r == [] || !IsSpace(r[0]))
  {
    if s != [] && IsSpace(s[0]) {
      var t := s[1..];
      StripLeftSpec(t);
      var r := StripLeft(t);
      assert StripLeft(s) == r;
      assert t[|t| - |r|..] == s[|s| - |r|..];
      forall i | 0 <= i < |s| - |r|
        ensures IsSpace(s[i])
      {
        if i > 0 {
          assert s[i] == t[i - 1];
        }
      }
    }
  }

  /** `rstrip` leaves the prefix that ends at the last non-whitespace character. */
  lemma {:induction false} StripRightSpec(s: string)
    ensures var r := StripRight(s);
      |r| <= |s| && r == s[..|r|]
      && (forall i :: |r| <= i < |s| ==> IsSpace(s[i]))
      && (r == [] || !IsSpace(r[|r| - 1]))
  {
    if s != [] && IsSpace(s[|s| - 1]) {
      StripRightSpec(s[..|s| - 1]);
    }
  }

  /**
   * Python's `s.strip()`: the part of `s` after its leading and before its
   * trailing whitespace, beginning and ending with a non-whitespace character.
   */
  function Strip(s: string): (r: string)
    ensures OccursAt(s, r, |s| - |StripLeft(s)|)
    ensures r == [] || (!IsSpace(r[0]) && !IsSpace(r[|r| - 1]))
    ensures forall i :: 0 <= i < |s| - |StripLeft(s)| ==> IsSpace(s[i])
    ensures forall i :: |s| - |StripLeft(s)| + |r| <= i < |s| ==> IsSpace(s[i])
  {
    var left := StripLeft(s);
    var r := StripRight(left);
    var lo := |s| - |left|;
    assert lo <= |s| && left == s[lo..] && forall i :: 0 <= i < lo ==> IsSpace(s[i]) by {
      StripLeftSpec(s);
    }
    assert OccursAt(s, r, lo) && (r == [] || (!IsSpace(r[0]) && !IsSpace(r[|r| - 1]))) by {
      StripLeftSpec(s);
      StripRightSpec(left);
      assert r == [] || r[0] == left[0];
      assert s[lo..][..|r|] == r;
    }
    assert forall i :: lo + |r| <= i < |s| ==> IsSpace(s[i]) by {
      StripRightSpec(left);
      forall i | lo + |r| <= i < |s|
        ensures IsSpace(s[i])
      {
        assert s[i] == left[i - lo];
      }
    }
    r
  }

  /** Python's `s.endswith(suffix)`. */
  predicate EndsWith(s: string, suffix: string) {
    |suffix| <= |s| && s[|s| - |suffix|..] == suffix
  }

  /** A string ends with whatever was appended to it last. */
  lemma EndsWithAppended(s: string, suffix: string)
    ensures EndsWith(s + suffix, suffix)
  {
    assert (s + suffix)[|s|..] == suffix;
  }

  /** A suffix of `t` stays a suffix when something is put in front of `t`. */
  lemma EndsWithExtended(s: string, t: string, suffix: string)
    requires EndsWith(t, suffix)
    ensures EndsWith(s + t, suffix)
  {
    assert (s + t)[|s + t| - |suffix|..] == t[|t| - |suffix|..];
  }
}
