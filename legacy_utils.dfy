/**
 * Text preparation of the older bridge (src/utils.py): before the links are
 * expanded, a fixed disclaimer is removed wherever it occurs, compared
 * without regard to case, and the whitespace left behind is tidied.
 */
module LegacyUtils {
  import opened Strings
  import opened Tweets
  import opened TootbridgeUtils

  /** The disclaimer that `_remove_warnings` strips, as the source spells it. */
  const WARNING_TEXT: string := "ДАННОЕ СООБЩЕНИЕ (МАТЕРИАЛ) СОЗДАНО И (ИЛИ) РАСПРОСТРАНЕНО ИНОСТРАННЫМ СРЕДСТВОМ МАССОВОЙ ИНФОРМАЦИИ, ВЫПОЛНЯЮЩИМ ФУНКЦИИ ИНОСТРАННОГО АГЕНТА, И (ИЛИ) РОССИЙСКИМ ЮРИДИЧЕСКИМ ЛИЦОМ, ВЫПОЛНЯЮЩИМ ФУНКЦИИ ИНОСТРАННОГО АГЕНТА."

  /** The host alternatives of the older link pattern `https://t.co/[a-zA-Z0-9]+`. */
  const LEGACY_SHORTENERS: seq<string> := ["t.co"]

  /** The text carries the disclaimer in some mix of upper and lower case. */
  predicate HasWarning(s: string) {
    Contains(Lower(s), Lower(WARNING_TEXT))
  }

  /** `i` is the first index at which `w` occurs in `s`, ignoring case. */
  predicate FirstOccurrenceAt(s: string, w: string, i: nat) {
    OccursAt(Lower(s), Lower(w), i) && forall j: nat :: j < i ==> !OccursAt(Lower(s), Lower(w), j)
  }

  /**
   * One removal step of `_remove_warnings`, for a disclaimer `w`: the first
   * case-insensitive occurrence of `w` is cut out, and what came before and
   * after it is kept.
   */
  function CutFirst(s: string, w: string): (r: string)
    requires Contains(Lower(s), Lower(w))
    ensures |r| == |s| - |w|
    ensures exists i: nat :: FirstOccurrenceAt(s, w, i) && i + |w| <= |s| && r == s[..i] + s[i + |w|..]
  {
    var text := Lower(s);
    LowerTwice(w);
    var start := Find(text, Lower(Lower(w)));
    var end := start + |Lower(w)|;
    s[..start] + s[end..]
  }

  /** The removal step for the disclaimer of the source. */
  function CutWarning(s: string): (r: string)
    requires HasWarning(s)
    ensures |r| < |s|
  {
    WarningLength();
    CutFirst(s, WARNING_TEXT)
  }

  lemma {:induction false} WarningLength()
    ensures |Lower(WARNING_TEXT)| == |WARNING_TEXT| > 0
  {
  }

  // ---------------------------------------------------------------------------
  // Tidying the whitespace

  predicate IsNewline(c: char) {
    c == '\n'
  }

  /** The characters of the class `[\n ]`. */
  predicate IsBlank(c: char) {
    c == '\n' || c == ' '
  }

  /** The length of the run of spaces and newlines that opens `s`. */
  function BlankRun(s: string): (k: nat)
    ensures k <= |s| && (k == |s| || !IsBlank(s[k]))
    ensures forall i :: 0 <= i < k ==> IsBlank(s[i])
    decreases |s|
  {
    if s != [] && IsBlank(s[0]) then 1 + BlankRun(s[1..]) else 0
  }

  /** A run that ends inside `a` is not lengthened by what follows `a`. */
  lemma {:induction false} BlankRunAppend(a: string, b: string)
    requires BlankRun(a) < |a|
    ensures BlankRun(a + b) == BlankRun(a)
    decreases |a|
  {
    if IsBlank(a[0]) {
      assert (a + b)[1..] == a[1..] + b;
      BlankRunAppend(a[1..], b);
    }
  }

  /**
   * `re.sub(r"[\n ]{2,}", "", s)`: every maximal run of two or more spaces
   * and newlines is deleted outright; a lone space or newline stays.
   */
  function DeleteBlankRuns(s: string): (r: string)
    ensures |r| <= |s|
    decreases |s|
  {
    if |s| < 2 then s
    else if IsBlank(s[0]) && IsBlank(s[1]) then DeleteBlankRuns(s[BlankRun(s)..])
    else [s[0]] + DeleteBlankRuns(s[1..])
  }

  /**
   * The deletion removes spaces and newlines only: every other character of
   * the text is still there, in the same order.
   */
  lemma {:induction false} DeleteRemovesOnlyBlanks(s: string)
    ensures DeletesOnly(s, DeleteBlankRuns(s), IsBlank)
    decreases |s|
  {
    if |s| < 2 {
      DeletesNothing(s, IsBlank);
    } else if IsBlank(s[0]) && IsBlank(s[1]) {
      var k := BlankRun(s);
      assert DeleteBlankRuns(s) == DeleteBlankRuns(s[k..]);
      DeleteRemovesOnlyBlanks(s[k..]);
      DeletesDroppedPrefix(s, k, DeleteBlankRuns(s[k..]), IsBlank);
    } else {
      assert DeleteBlankRuns(s) == [s[0]] + DeleteBlankRuns(s[1..]);
      DeleteRemovesOnlyBlanks(s[1..]);
      DeletesAfterHead(s, DeleteBlankRuns(s[1..]), IsBlank);
    }
  }

  /** No two neighbouring characters are both spaces or newlines. */
  predicate NoBlankPairs(r: string) {
    forall i :: 0 < i < |r| ==> !(IsBlank(r[i - 1]) && IsBlank(r[i]))
  }

  /** What `_remove_warnings` promises of the text it tidied. */
  predicate Tidy(r: string) {
    (r == [] || (!IsSpace(r[0]) && !IsSpace(r[|r| - 1]))) && NoBlankPairs(r)
  }

  /** A text that starts with a non-blank character keeps it first. */
  lemma {:induction false} DeleteKeepsFirst(s: string)
    requires s != [] && !IsBlank(s[0])
    ensures DeleteBlankRuns(s) != [] && DeleteBlankRuns(s)[0] == s[0]
  {
  }

  /** A text that ends with a non-blank character keeps it last. */
  lemma {:induction false} DeleteKeepsLast(s: string)
    requires s != [] && !IsBlank(s[|s| - 1])
    ensures DeleteBlankRuns(s) != [] && DeleteBlankRuns(s)[|DeleteBlankRuns(s)| - 1] == s[|s| - 1]
    decreases |s|
  {
    if |s| >= 2 {
      if IsBlank(s[0]) && IsBlank(s[1]) {
        var k := BlankRun(s);
        DeleteKeepsLast(s[k..]);
      } else {
        DeleteKeepsLast(s[1..]);
      }
    }
  }

  /** A text that neither starts nor ends with a space or newline keeps its first and last character. */
  lemma {:induction false} DeleteKeepsEnds(s: string)
    requires s == [] || (!IsBlank(s[0]) && !IsBlank(s[|s| - 1]))
    ensures var r := DeleteBlankRuns(s);
            r == [] || (r[0] == s[0] && r[|r| - 1] == s[|s| - 1])
  {
    if s != [] {
      DeleteKeepsFirst(s);
      DeleteKeepsLast(s);
    }
  }

  /** After the deletion, no space or newline has another one beside it. */
  lemma {:induction false} DeleteLeavesNoBlankPairs(s: string)
    ensures NoBlankPairs(DeleteBlankRuns(s))
    decreases |s|
  {
    if |s| < 2 {
    } else if IsBlank(s[0]) && IsBlank(s[1]) {
      DeleteLeavesNoBlankPairs(s[BlankRun(s)..]);
    } else {
      var rest := DeleteBlankRuns(s[1..]);
      DeleteLeavesNoBlankPairs(s[1..]);
      if IsBlank(s[0]) {
        DeleteKeepsFirst(s[1..]);
      }
      var r := [s[0]] + rest;
      forall i | 0 < i < |r| ensures !(IsBlank(r[i - 1]) && IsBlank(r[i])) {
        if i > 1 {
          assert r[i - 1] == rest[i - 2] && r[i] == rest[i - 1];
        }
      }
    }
  }

  /**
   * A text that splits after a character other than a space or newline is
   * tidied piece by piece: no run of blanks reaches across the split.
   */
  lemma {:induction false} DeleteSplits(a: string, b: string)
    requires a != [] && !IsBlank(a[|a| - 1])
    ensures DeleteBlankRuns(a + b) == DeleteBlankRuns(a) + DeleteBlankRuns(b)
    decreases |a|
  {
    if |a| == 1 {
      assert a == [a[0]];
      DeleteKeepsHead(a[0], b);
    } else if IsBlank(a[0]) && IsBlank(a[1]) {
      var k := BlankRun(a);
      assert !IsBlank(a[|a| - 1]);
      assert k < |a|;
      DeleteSplits(a[k..], b);
      SplitAfterRun(a, b);
    } else {
      DeleteSplits(a[1..], b);
      SplitAfterHead(a, b);
    }
  }

  /** A run of blanks followed by the end of the text or by something else is all of the opening run. */
  lemma {:induction false} BlankRunOfRun(run: string, b: string)
    requires forall k :: 0 <= k < |run| ==> IsBlank(run[k])
    requires b == [] || !IsBlank(b[0])
    ensures BlankRun(run + b) == |run|
    decreases |run|
  {
    if run != [] {
      assert (run + b)[1..] == run[1..] + b;
      BlankRunOfRun(run[1..], b);
    }
  }

  /**
   * A run of two or more spaces and newlines between two other characters is
   * deleted outright, not collapsed to one: the text on either side is all
   * that remains.
   */
  lemma {:induction false} DeleteDropsRun(a: string, run: string, b: string)
    requires a != [] && !IsBlank(a[|a| - 1])
    requires |run| >= 2 && forall k :: 0 <= k < |run| ==> IsBlank(run[k])
    requires b == [] || !IsBlank(b[0])
    ensures DeleteBlankRuns(a + run + b) == DeleteBlankRuns(a) + DeleteBlankRuns(b)
  {
    var t := run + b;
    assert a + run + b == a + t;
    assert t[|run|..] == b;
    BlankRunOfRun(run, b);
    assert IsBlank(t[0]) && IsBlank(t[1]);
    assert DeleteBlankRuns(t) == DeleteBlankRuns(b);
    DeleteSplits(a, t);
  }

  /** The step of `DeleteSplits` where `a` opens with a run of blanks that ends inside `a`. */
  lemma {:induction false} SplitAfterRun(a: string, b: string)
    requires |a| >= 2 && IsBlank(a[0]) && IsBlank(a[1]) && BlankRun(a) < |a|
    requires var k := BlankRun(a);
             DeleteBlankRuns(a[k..] + b) == DeleteBlankRuns(a[k..]) + DeleteBlankRuns(b)
    ensures DeleteBlankRuns(a + b) == DeleteBlankRuns(a) + DeleteBlankRuns(b)
  {
    SliceOfAppend(a, b, BlankRun(a));
    BlankRunAppend(a, b);
  }

  /** The step of `DeleteSplits` where the first character of `a` is kept. */
  lemma {:induction false} SplitAfterHead(a: string, b: string)
    requires |a| >= 2 && !(IsBlank(a[0]) && IsBlank(a[1]))
    requires DeleteBlankRuns(a[1..] + b) == DeleteBlankRuns(a[1..]) + DeleteBlankRuns(b)
    ensures DeleteBlankRuns(a + b) == DeleteBlankRuns(a) + DeleteBlankRuns(b)
  {
    SliceOfAppend(a, b, 1);
  }

  /** A lone space or newline between two other characters survives the deletion. */
  lemma {:induction false} DeleteKeepsLoneBlank(a: string, c: char, b: string)
    requires a != [] && !IsBlank(a[|a| - 1])
    requires IsBlank(c)
    requires b != [] && !IsBlank(b[0])
    ensures DeleteBlankRuns(a + [c] + b) == DeleteBlankRuns(a) + [c] + DeleteBlankRuns(b)
  {
    var t := [c] + b;
    assert a + [c] + b == a + t;
    DeleteKeepsHead(c, b);
    DeleteSplits(a, t);
  }

  /** A character that does not open a run of two blanks is kept. */
  lemma {:induction false} DeleteKeepsHead(c: char, b: string)
    requires !(IsBlank(c) && b != [] && IsBlank(b[0]))
    ensures DeleteBlankRuns([c] + b) == [c] + DeleteBlankRuns(b)
  {
    SliceOfAppend([c], b, 1);
    assert [c][1..] + b == b;
  }

  /**
   * `new_text.strip("\n").strip()` followed by the blank-run deletion: only
   * whitespace is deleted, and what is left is tidy.
   */
  function TidyUp(s: string): (r: string)
    ensures |r| <= |s|
    ensures Tidy(r)
  {
    var stripped := Strip(Strip(s, IsNewline), IsSpace);
    DeleteLeavesNoBlankPairs(stripped);
    DeleteKeepsEnds(stripped);
    DeleteBlankRuns(stripped)
  }

  /** Tidying deletes whitespace only: the other characters are kept, in order. */
  lemma {:induction false} TidyRemovesOnlySpace(s: string)
    ensures DeletesOnly(s, TidyUp(s), IsSpace)
  {
    var once := Strip(s, IsNewline);
    var stripped := Strip(once, IsSpace);
    var r := DeleteBlankRuns(stripped);
    assert TidyUp(s) == r;
    StripDeletesOnly(s, IsNewline);
    StripDeletesOnly(once, IsSpace);
    DeleteRemovesOnlyBlanks(stripped);
    DeletesOnlyCoarser(s, once, IsNewline, IsSpace);
    DeletesOnlyTrans(s, once, stripped, IsSpace);
    DeletesOnlyCoarser(stripped, r, IsBlank, IsSpace);
    DeletesOnlyTrans(s, stripped, r, IsSpace);
  }

  // ---------------------------------------------------------------------------
  // Removing the warnings

  /**
   * `_remove_warnings`: while the disclaimer occurs, ignoring case, cut out
   * its first occurrence and tidy the whitespace. Each round is shorter by
   * at least the length of the disclaimer, so the recursion ends.
   */
  function RemoveWarnings(s: string): (r: string)
    ensures !HasWarning(r)
    ensures !HasWarning(s) ==> r == s
    ensures HasWarning(s) ==> Tidy(r) && |r| <= |s| - |WARNING_TEXT|
    decreases |s|
  {
    if !HasWarning(s) then s
    else RemoveWarnings(TidyUp(CutWarning(s)))
  }

  /** What `_remove_warnings` returns is the tweet with characters deleted, never rewritten or reordered. */
  lemma {:induction false} RemoveWarningsDeletesOnly(s: string)
    ensures IsSubsequence(RemoveWarnings(s), s)
    decreases |s|
  {
    if !HasWarning(s) {
      DeletesNothing(s, IsSpace);
    } else {
      var t := TidyUp(CutWarning(s));
      CutThenTidy(s, WARNING_TEXT);
      RemoveWarningsDeletesOnly(t);
      SubsequenceTrans(RemoveWarnings(t), t, s);
    }
  }

  /**
   * One round of `_remove_warnings`, for a disclaimer `w`: the first
   * case-insensitive occurrence of `w` is cut out, and tidying what is left
   * deletes nothing but whitespace, so the round keeps every other
   * character of the text around the disclaimer, in order.
   */
  lemma {:induction false} CutThenTidy(s: string, w: string)
    requires Contains(Lower(s), Lower(w))
    ensures exists i: nat :: && FirstOccurrenceAt(s, w, i) && i + |w| <= |s|
                             && CutFirst(s, w) == s[..i] + s[i + |w|..]
    ensures DeletesOnly(CutFirst(s, w), TidyUp(CutFirst(s, w)), IsSpace)
    ensures IsSubsequence(TidyUp(CutFirst(s, w)), s)
  {
    var i := CutIndex(s, w);
    TidyAfterCut(s, i, i + |w|, CutFirst(s, w));
  }

  /** Where the removal step cuts. */
  lemma {:induction false} CutIndex(s: string, w: string) returns (i: nat)
    requires Contains(Lower(s), Lower(w))
    ensures i + |w| <= |s| && CutFirst(s, w) == s[..i] + s[i + |w|..]
  {
    var cut := CutFirst(s, w);
    i :| i + |w| <= |s| && cut == s[..i] + s[i + |w|..];
  }

  /** Tidying a text with a slice cut out of it only deletes characters of the original. */
  lemma {:induction false} TidyAfterCut(s: string, i: nat, j: nat, cut: string)
    requires i <= j <= |s| && cut == s[..i] + s[j..]
    ensures DeletesOnly(cut, TidyUp(cut), IsSpace)
    ensures IsSubsequence(TidyUp(cut), s)
  {
    TidyRemovesOnlySpace(cut);
    CutIsSubsequence(s, i, j);
    SubsequenceTrans(TidyUp(cut), cut, s);
  }

  // ---------------------------------------------------------------------------
  // The status text

  /**
   * `prepare_text` of the older bridge: the warnings are removed, then the
   * `t.co` links are expanded, then the footer is appended.
   */
  function LegacyPrepareText(tweet: Tweet, probe: string -> LinkProbe): (statusText: string)
    ensures |statusText| >= |Footer(tweet.sourceUrl)|
    ensures statusText[|statusText| - |Footer(tweet.sourceUrl)|..] == Footer(tweet.sourceUrl)
  {
    var body := RemoveWarnings(tweet.text);
    ExpandLinks(body, FindLinks(body, LEGACY_SHORTENERS), probe) + Footer(tweet.sourceUrl)
  }

  /**
   * With every probe failing, the post is the text without its warnings,
   * then the footer; the disclaimer is nowhere in the part before the footer.
   */
  lemma {:induction false} LegacyPreparedTextUnresolved(tweet: Tweet, probe: string -> LinkProbe)
    requires forall l :: !Resolves(probe(l))
    ensures LegacyPrepareText(tweet, probe) == RemoveWarnings(tweet.text) + FOOTER_LABEL + tweet.sourceUrl
    ensures !HasWarning(RemoveWarnings(tweet.text))
  {
    var body := RemoveWarnings(tweet.text);
    ExpandUnresolved(body, FindLinks(body, LEGACY_SHORTENERS), probe);
  }

  /** A tweet without the disclaimer and without `t.co` links is posted as it is, with the footer. */
  lemma {:induction false} LegacyPreparedTextPlain(tweet: Tweet, probe: string -> LinkProbe)
    requires !HasWarning(tweet.text)
    requires forall m :: 0 <= m <= |tweet.text| ==> !PatternAt(tweet.text, m, LEGACY_SHORTENERS)
    ensures LegacyPrepareText(tweet, probe) == tweet.text + FOOTER_LABEL + tweet.sourceUrl
  {
    FindLinksEmpty(tweet.text, LEGACY_SHORTENERS);
  }
}
