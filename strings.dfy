/**
 * The Python string builtins the core relies on (`in`, `find`, `replace`,
 * `strip`, `lower`), written out on `seq<char>`.
 */
module Strings {

  /** `p` occurs in `s` starting at index `i`. */
  predicate OccursAt(s: string, p: string, i: nat) {
    i + |p| <= |s| && s[i..i + |p|] == p
  }

  /** Python's `p in s`. */
  predicate Contains(s: string, p: string) {
    exists i: nat :: i <= |s| && OccursAt(s, p, i)
  }

  /** An occurrence in the tail of `s` is an occurrence in `s`, one place further on. */
  lemma {:induction false} OccursInTail(s: string, p: string, j: nat)
    requires |s| > 0 && OccursAt(s[1..], p, j)
    ensures OccursAt(s, p, j + 1)
  {
    assert s[1..][j..j + |p|] == s[j + 1..j + 1 + |p|];
  }

  /** `p` cannot occur where the text does not hold its first character. */
  lemma {:induction false} MissesWithoutHead(s: string, p: string, m: nat)
    requires p != [] && m < |s| && s[m] != p[0]
    ensures !OccursAt(s, p, m)
  {
  }

  /** Python's `s.find(p)`: the first index at which `p` occurs, or -1. */
  function Find(s: string, p: string): (r: int)
    ensures r >= -1
    ensures r == -1 <==> !Contains(s, p)
    ensures r >= 0 ==> OccursAt(s, p, r) && forall j: nat :: j < r ==> !OccursAt(s, p, j)
  {
    var r := FindFrom(s, p, 0);
    assert r >= 0 ==> r <= |s| && OccursAt(s, p, r);
    r
  }

  /** The search of `Find`, resumed at `i` after every earlier index failed. */
  function FindFrom(s: string, p: string, i: nat): (r: int)
    requires forall j: nat :: j < i ==> !OccursAt(s, p, j)
    ensures r >= -1
    ensures r == -1 ==> forall j: nat :: !OccursAt(s, p, j)
    ensures r >= 0 ==> i <= r && OccursAt(s, p, r) && forall j: nat :: j < r ==> !OccursAt(s, p, j)
    decreases |s| - i
  {
    if i + |p| > |s| then -1
    else if s[i..i + |p|] == p then i
    else FindFrom(s, p, i + 1)
  }

  /**
   * Python's `s.replace(target, replacement)` for a non-empty `target`:
   * occurrences are found left to right and do not overlap.
   */
  function ReplaceAll(s: string, target: string, replacement: string): (r: string)
    requires |target| > 0
    ensures |replacement| == |target| ==> |r| == |s|
    ensures |replacement| <= |target| ==> |r| <= |s|
    decreases |s|
  {
    if |s| < |target| then s
    else if s[..|target|] == target then replacement + ReplaceAll(s[|target|..], target, replacement)
    else [s[0]] + ReplaceAll(s[1..], target, replacement)
  }

  /** Replacing a substring by itself changes nothing. */
  lemma {:induction false} ReplaceBySelf(s: string, target: string)
    requires |target| > 0
    ensures ReplaceAll(s, target, target) == s
    decreases |s|
  {
    if |s| < |target| {
    } else if s[..|target|] == target {
      ReplaceBySelf(s[|target|..], target);
      assert s == s[..|target|] + s[|target|..];
    } else {
      ReplaceBySelf(s[1..], target);
      assert s == [s[0]] + s[1..];
    }
  }

  /** Replacing a substring that does not occur changes nothing. */
  lemma {:induction false} ReplaceAbsent(s: string, target: string, replacement: string)
    requires |target| > 0 && !Contains(s, target)
    ensures ReplaceAll(s, target, replacement) == s
    decreases |s|
  {
    if |s| < |target| {
    } else {
      assert !OccursAt(s, target, 0);
      assert s[..|target|] != target;
      if Contains(s[1..], target) {
        var j: nat :| j <= |s[1..]| && OccursAt(s[1..], target, j);
        OccursInTail(s, target, j);
        assert false;
      }
      ReplaceAbsent(s[1..], target, replacement);
      assert s == [s[0]] + s[1..];
    }
  }

  /** Characters before the first occurrence of `target` are copied unchanged. */
  lemma {:induction false} ReplaceSkips(s: string, target: string, replacement: string, i: nat)
    requires |target| > 0 && i <= |s|
    requires forall j: nat :: j < i ==> !OccursAt(s, target, j)
    ensures ReplaceAll(s, target, replacement) == s[..i] + ReplaceAll(s[i..], target, replacement)
    decreases i
  {
    if i > 0 {
      var u := s[i - 1..];
      assert u[1..] == s[i..];
      assert s[..i - 1] + [s[i - 1]] == s[..i];
      assert s[..i - 1] + u == s[..i] + s[i..];
      assert !OccursAt(s, target, i - 1);
      if |u| >= |target| {
        assert u[..|target|] == s[i - 1..i - 1 + |target|];
      }
      ReplaceSkips(s, target, replacement, i - 1);
    }
  }

  /**
   * `str.replace` rewrites the first occurrence of `target` and carries on
   * after it: the text before it is kept, the occurrence becomes
   * `replacement`, and the rest is replaced in turn.
   */
  lemma {:induction false} ReplaceAtFirst(s: string, target: string, replacement: string)
    requires |target| > 0
    ensures var i := Find(s, target);
            i >= 0 ==> ReplaceAll(s, target, replacement)
                       == s[..i] + replacement + ReplaceAll(s[i + |target|..], target, replacement)
  {
    var i := Find(s, target);
    if i >= 0 {
      var u := s[i..];
      assert u[..|target|] == target;
      assert u[|target|..] == s[i + |target|..];
      ReplaceSkips(s, target, replacement, i);
    }
  }

  /** The middle piece of a three-part concatenation. */
  lemma {:induction false} MiddleOf(a: string, b: string, c: string)
    ensures (a + b + c)[..|a|] == a
    ensures (a + b + c)[|a|..|a| + |b|] == b
    ensures (a + b + c)[|a| + |b|..] == c
  {
  }

  /** A character put in front of a concatenation belongs to its first part. */
  lemma {:induction false} ConsAppend(c: char, a: string, b: string)
    ensures [c] + (a + b) == [c] + a + b
  {
  }

  /** Regrouping a four-part concatenation. */
  lemma {:induction false} Regroup(a: string, b: string, c: string, d: string)
    ensures a + b + (c + d) == a + (b + c + d)
  {
  }

  /** The middle piece of a three-part concatenation occurs in it. */
  lemma {:induction false} ContainsMiddle(a: string, b: string, c: string)
    ensures Contains(a + b + c, b)
  {
    MiddleOf(a, b, c);
    assert OccursAt(a + b + c, b, |a|);
  }

  /** What occurs in `b` still occurs once something is put in front of it. */
  lemma {:induction false} ContainsAfter(a: string, b: string, p: string)
    requires Contains(b, p)
    ensures Contains(a + b, p)
  {
    var j: nat :| j <= |b| && OccursAt(b, p, j);
    assert (a + b)[|a| + j..|a| + j + |p|] == b[j..j + |p|];
    assert OccursAt(a + b, p, |a| + j);
  }

  /** Python's `str.isspace()` on one character: the Unicode whitespace set. */
  predicate IsSpace(c: char) {
    c == ' ' || ('\t' <= c <= '\r') || ('\U{1C}' <= c <= '\U{1F}') || c == '\U{85}' || c == '\U{A0}'
    || c == '\U{1680}' || ('\U{2000}' <= c <= '\U{200A}') || c == '\U{2028}' || c == '\U{2029}'
    || c == '\U{202F}' || c == '\U{205F}' || c == '\U{3000}'
  }

  /** The number of leading characters of `s` that `drop` accepts. */
  function LeadingRun(s: string, drop: char -> bool): (k: nat)
    ensures k <= |s| && (k == |s| || !drop(s[k]))
    ensures forall i :: 0 <= i < k ==> drop(s[i])
    decreases |s|
  {
    if s != [] && drop(s[0]) then 1 + LeadingRun(s[1..], drop) else 0
  }

  /** The index where the trailing run of characters that `drop` accepts begins. */
  function TrailingStart(s: string, drop: char -> bool): (k: nat)
    ensures k <= |s| && (k == 0 || !drop(s[k - 1]))
    ensures forall i :: k <= i < |s| ==> drop(s[i])
    decreases |s|
  {
    if s != [] && drop(s[|s| - 1]) then TrailingStart(s[..|s| - 1], drop) else |s|
  }

  /**
   * `r` is the slice of `s` starting at `i`, and every character of `s`
   * before or after that slice is one that `drop` accepts.
   */
  predicate TrimmedAt(s: string, drop: char -> bool, r: string, i: nat) {
    && i + |r| <= |s| && r == s[i..i + |r|]
    && (forall k :: 0 <= k < i ==> drop(s[k]))
    && (forall k :: i + |r| <= k < |s| ==> drop(s[k]))
  }

  /**
   * Python's `s.strip(chars)`: the leading and the trailing run of characters
   * that `drop` accepts are cut off, and what lies between is kept as it is.
   */
  function Strip(s: string, drop: char -> bool): (r: string)
    ensures r == [] || (!drop(r[0]) && !drop(r[|r| - 1]))
    ensures exists i: nat :: TrimmedAt(s, drop, r, i)
  {
    var i := LeadingRun(s, drop);
    var t := s[i..];
    var r := t[..TrailingStart(t, drop)];
    assert TrimmedAt(s, drop, r, i);
    r
  }

  /** Stripping deletes only characters that `drop` accepts. */
  lemma {:induction false} StripDeletesOnly(s: string, drop: char -> bool)
    ensures DeletesOnly(s, Strip(s, drop), drop)
  {
    var r := Strip(s, drop);
    var i: nat :| TrimmedAt(s, drop, r, i);
    TrimmedDeletesOnly(s, drop, r, i);
  }

  lemma {:induction false} TrimmedDeletesOnly(s: string, drop: char -> bool, r: string, i: nat)
    requires TrimmedAt(s, drop, r, i)
    ensures DeletesOnly(s, r, drop)
  {
    var j := i + |r|;
    SliceIsSubsequence(s, i, j);
    assert s == s[..i] + r + s[j..];
    KeepBetweenDropped(s[..i], r, s[j..], drop);
  }

  // ---------------------------------------------------------------------------
  // Deleting characters

  /** `s` with the characters that `drop` accepts removed and the others kept in order. */
  function Keep(s: string, drop: char -> bool): (r: string)
    ensures |r| <= |s|
    decreases |s|
  {
    if s == [] then [] else (if drop(s[0]) then [] else [s[0]]) + Keep(s[1..], drop)
  }

  lemma {:induction false} KeepAppend(a: string, b: string, drop: char -> bool)
    ensures Keep(a + b, drop) == Keep(a, drop) + Keep(b, drop)
    decreases |a|
  {
    if a == [] {
      assert a + b == b;
    } else {
      assert (a + b)[1..] == a[1..] + b;
      KeepAppend(a[1..], b, drop);
      var head := if drop(a[0]) then [] else [a[0]];
      assert head + (Keep(a[1..], drop) + Keep(b, drop)) == (head + Keep(a[1..], drop)) + Keep(b, drop);
    }
  }

  lemma {:induction false} KeepDropped(s: string, drop: char -> bool)
    requires forall k :: 0 <= k < |s| ==> drop(s[k])
    ensures Keep(s, drop) == []
    decreases |s|
  {
    if s != [] {
      KeepDropped(s[1..], drop);
    }
  }

  /** Keeping what a coarser filter keeps, after a finer one, is the coarser filter alone. */
  lemma {:induction false} KeepFiner(s: string, fine: char -> bool, coarse: char -> bool)
    requires forall c :: fine(c) ==> coarse(c)
    ensures Keep(Keep(s, fine), coarse) == Keep(s, coarse)
    decreases |s|
  {
    if s != [] {
      KeepFiner(s[1..], fine, coarse);
      var head := if fine(s[0]) then [] else [s[0]];
      KeepAppend(head, Keep(s[1..], fine), coarse);
    }
  }

  /** `idx` picks `r` out of `s`: strictly increasing indices of `s` holding the characters of `r`. */
  predicate EmbedsAt(r: string, s: string, idx: seq<nat>) {
    && |idx| == |r|
    && (forall k :: 0 <= k < |idx| ==> idx[k] < |s| && r[k] == s[idx[k]])
    && (forall j, k :: 0 <= j < k < |idx| ==> idx[j] < idx[k])
  }

  /** `r` is `s` with some characters deleted. */
  ghost predicate IsSubsequence(r: string, s: string) {
    exists idx: seq<nat> :: EmbedsAt(r, s, idx)
  }

  /** A suffix of a concatenation that starts inside its first part. */
  lemma {:induction false} SliceOfAppend(a: string, b: string, k: nat)
    requires k <= |a|
    ensures (a + b)[k..] == a[k..] + b
  {
  }

  /**
   * `r` is `s` with some of the characters that `drop` accepts deleted: it is
   * a subsequence of `s`, and the characters `drop` rejects are all still
   * there, in the same order.
   */
  ghost predicate DeletesOnly(s: string, r: string, drop: char -> bool) {
    IsSubsequence(r, s) && Keep(r, drop) == Keep(s, drop)
  }

  lemma {:induction false} SliceIsSubsequence(s: string, i: nat, j: nat)
    requires i <= j <= |s|
    ensures IsSubsequence(s[i..j], s)
  {
    var idx := seq(j - i, k requires 0 <= k < j - i => i + k);
    assert EmbedsAt(s[i..j], s, idx);
  }

  /** Cutting out `s[i..j]` leaves a subsequence. */
  lemma {:induction false} CutIsSubsequence(s: string, i: nat, j: nat)
    requires i <= j <= |s|
    ensures IsSubsequence(s[..i] + s[j..], s)
  {
    var r := s[..i] + s[j..];
    var idx := seq(|r|, k requires 0 <= k < |r| => if k < i then k else k + (j - i));
    assert EmbedsAt(r, s, idx);
  }

  lemma {:induction false} SubsequenceTrans(a: string, b: string, c: string)
    requires IsSubsequence(a, b) && IsSubsequence(b, c)
    ensures IsSubsequence(a, c)
  {
    var ia :| EmbedsAt(a, b, ia);
    var ib :| EmbedsAt(b, c, ib);
    var idx := seq(|a|, k requires 0 <= k < |a| => ib[ia[k]]);
    assert EmbedsAt(a, c, idx);
  }

  lemma {:induction false} ConsSubsequence(x: char, r: string, t: string)
    requires IsSubsequence(r, t)
    ensures IsSubsequence([x] + r, [x] + t)
  {
    var ir :| EmbedsAt(r, t, ir);
    var idx := seq(|r| + 1, k requires 0 <= k <= |r| => if k == 0 then 0 else ir[k - 1] + 1);
    assert EmbedsAt([x] + r, [x] + t, idx);
  }

  lemma {:induction false} DeletesNothing(s: string, drop: char -> bool)
    ensures DeletesOnly(s, s, drop)
  {
    SliceIsSubsequence(s, 0, |s|);
    assert s[0..|s|] == s;
  }

  lemma {:induction false} DeletesOnlyTrans(s: string, t: string, r: string, drop: char -> bool)
    requires DeletesOnly(s, t, drop) && DeletesOnly(t, r, drop)
    ensures DeletesOnly(s, r, drop)
  {
    SubsequenceTrans(r, t, s);
  }

  /** A deletion of characters a finer filter accepts is one of characters a coarser filter accepts. */
  lemma {:induction false} DeletesOnlyCoarser(s: string, r: string, fine: char -> bool, coarse: char -> bool)
    requires DeletesOnly(s, r, fine)
    requires forall c :: fine(c) ==> coarse(c)
    ensures DeletesOnly(s, r, coarse)
  {
    KeepFiner(r, fine, coarse);
    KeepFiner(s, fine, coarse);
  }

  /** Deleting the first `n` characters, all of which `drop` accepts, then deleting in the rest. */
  lemma {:induction false} DeletesDroppedPrefix(s: string, n: nat, r: string, drop: char -> bool)
    requires n <= |s|
    requires forall j :: 0 <= j < n ==> drop(s[j])
    requires DeletesOnly(s[n..], r, drop)
    ensures DeletesOnly(s, r, drop)
  {
    var before, rest := s[..n], s[n..];
    assert s == before + rest;
    var idx := seq(|rest|, k requires 0 <= k < |rest| => n + k);
    assert EmbedsAt(rest, s, idx);
    SubsequenceTrans(r, rest, s);
    KeepDropped(before, drop);
    KeepAppend(before, rest, drop);
  }

  /** Text that `drop` accepts in full, on either side, leaves nothing behind. */
  lemma {:induction false} KeepBetweenDropped(before: string, r: string, after: string, drop: char -> bool)
    requires forall k :: 0 <= k < |before| ==> drop(before[k])
    requires forall k :: 0 <= k < |after| ==> drop(after[k])
    ensures Keep(before + r + after, drop) == Keep(r, drop)
  {
    KeepAppend(before + r, after, drop);
    KeepAppend(before, r, drop);
    KeepDropped(before, drop);
    KeepDropped(after, drop);
  }

  /** Keeping the first character, then deleting in the rest. */
  lemma {:induction false} DeletesAfterHead(s: string, r: string, drop: char -> bool)
    requires s != [] && DeletesOnly(s[1..], r, drop)
    ensures DeletesOnly(s, [s[0]] + r, drop)
  {
    ConsSubsequence(s[0], r, s[1..]);
    assert s == [s[0]] + s[1..];
    assert ([s[0]] + r)[1..] == r;
  }

  /**
   * Python's `str.lower()` on one character, for the Latin (ASCII and
   * Latin-1) and Cyrillic capitals; every other character is left as it is.
   */
  function LowerChar(c: char): (lowered: char) {
    if ('A' <= c <= 'Z') || ('\U{C0}' <= c <= '\U{DE}' && c != '\U{D7}') || ('\U{410}' <= c <= '\U{42F}') then
      (c as int + 32) as char
    else if '\U{400}' <= c <= '\U{40F}' then
      (c as int + 80) as char
    else
      c
  }

  /** `str.lower()`: a character-by-character map, so it keeps the length. */
  function Lower(s: string): (lowered: string) {
    seq(|s|, i requires 0 <= i < |s| => LowerChar(s[i]))
  }

  /** Lower-casing twice is lower-casing once. */
  lemma {:induction false} LowerTwice(s: string)
    ensures Lower(Lower(s)) == Lower(s)
  {
    forall i | 0 <= i < |s| ensures LowerChar(LowerChar(s[i])) == LowerChar(s[i]) {
    }
  }

}
