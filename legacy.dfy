/**
 * The older one-step segmenters of termun/utils.py and
 * UNDOC_aligner/src/utils/find_paragraphs.py. Both share one loop: the
 * paragraphs of `text.split('\n\n')` that contain the search string
 * (case-sensitively) are collected in order, and a match gains at most one
 * continuation, taken only when a page number or document-job footer
 * follows it. They differ only in what they return.
 */
module LegacySegmenter {
  import opened Opt
  import opened Strings
  import opened Classify
  import Segmenter

  /** Paragraph `j` is a bold page number or a document-job footer. */
  predicate MarkerAt(paras: seq<string>, j: nat)
    requires j < |paras|
  {
    PageNumberPrefix(paras[j]) || FootnotePrefix(paras[j])
  }

  /**
   * The text collected for a match at paragraph `i`: when a marker follows
   * and paragraph `i + 2` exists, the paragraph after the marker (or after
   * one more dash rule) is glued on with a space unless it opens a list item.
   * Whether the match is already a complete sentence plays no part.
   */
  function OneStepMerge(paras: seq<string>, i: nat): string
    requires i < |paras|
  {
    if i < |paras| - 2 && MarkerAt(paras, i + 1) then
      var s := if DashPrefix(paras[i + 2]) then i + 3 else i + 2;
      if s < |paras| && !IsListMarker(paras[s]) then paras[i] + " " + paras[s] else paras[i]
    else paras[i]
  }

  /**
   * Paragraph `s` is the continuation of a match at `i`: a marker sits at
   * `i + 1`, `s` is the next paragraph after it that is not a dash rule
   * (looking at `i + 2` only), and `s` does not open a list item.
   */
  predicate ContinuesAt(paras: seq<string>, i: nat, s: nat) {
    i + 2 < |paras| && s < |paras| && MarkerAt(paras, i + 1)
    && ((s == i + 2 && !DashPrefix(paras[i + 2])) || (s == i + 3 && DashPrefix(paras[i + 2])))
    && !IsListMarker(paras[s])
  }

  /** A match has at most one continuation. */
  lemma ContinuationUnique(paras: seq<string>, i: nat, s: nat, t: nat)
    requires ContinuesAt(paras, i, s) && ContinuesAt(paras, i, t)
    ensures s == t
  {
  }

  /**
   * The one-step merge either keeps the match as it is, exactly when it has
   * no continuation, or glues on its one continuation after a space.
   */
  lemma OneStepCases(paras: seq<string>, i: nat)
    requires i < |paras|
    ensures forall s: nat :: ContinuesAt(paras, i, s) ==> OneStepMerge(paras, i) == paras[i] + " " + paras[s]
    ensures OneStepMerge(paras, i) == paras[i] <==> forall s: nat :: !ContinuesAt(paras, i, s)
  {
    hide PageNumberPrefix, FootnotePrefix, DashPrefix, IsListMarker;
    if i < |paras| - 2 && MarkerAt(paras, i + 1) {
      var s := if DashPrefix(paras[i + 2]) then i + 3 else i + 2;
      if s < |paras| && !IsListMarker(paras[s]) {
        assert ContinuesAt(paras, i, s);
        assert |OneStepMerge(paras, i)| > |paras[i]|;
      }
    }
  }

  /** The collected text begins with the matched paragraph, so it still contains the term. */
  lemma OneStepExtends(paras: seq<string>, i: nat, term: string)
    requires i < |paras| && Contains(paras[i], term)
    ensures paras[i] <= OneStepMerge(paras, i)
    ensures Contains(OneStepMerge(paras, i), term)
  {
    hide PageNumberPrefix, FootnotePrefix, DashPrefix, IsListMarker;
    var r := OneStepMerge(paras, i);
    if r != paras[i] {
      var tail := r[|paras[i]|..];
      assert r == paras[i] + tail;
      ContainsExtend(paras[i], tail, term);
    }
  }

  /** The indices below `n` of the paragraphs that contain `term` (`search_string in paragraph`). */
  function MatchesBelow(paras: seq<string>, term: string, n: nat): (idx: seq<nat>)
    requires n <= |paras|
  {
    if n == 0 then []
    else MatchesBelow(paras, term, n - 1) + (if Contains(paras[n - 1], term) then [n - 1] else [])
  }

  lemma {:induction false} MatchesBelowBound(paras: seq<string>, term: string, n: nat)
    requires n <= |paras|
    ensures Segmenter.AllBelow(MatchesBelow(paras, term, n), n)
    ensures |MatchesBelow(paras, term, n)| <= n
  {
    if n > 0 {
      MatchesBelowBound(paras, term, n - 1);
    }
  }

  /** The collected indices are exactly the paragraphs below `n` containing the term, in increasing order. */
  lemma {:induction false} MatchesBelowSpec(paras: seq<string>, term: string, n: nat)
    requires n <= |paras|
    ensures Segmenter.Increasing(MatchesBelow(paras, term, n))
    ensures forall j :: 0 <= j < n ==> (j in MatchesBelow(paras, term, n) <==> Contains(paras[j], term))
  {
    hide Contains;
    if n > 0 {
      MatchesBelowSpec(paras, term, n - 1);
      MatchesBelowBound(paras, term, n - 1);
    }
  }

  lemma {:induction false} MatchesBelowEmptyIff(paras: seq<string>, term: string, n: nat)
    requires n <= |paras|
    ensures MatchesBelow(paras, term, n) == [] <==> forall j :: 0 <= j < n ==> !Contains(paras[j], term)
  {
    hide Contains;
    if n > 0 {
      MatchesBelowEmptyIff(paras, term, n - 1);
    }
  }

  lemma {:induction false} MatchesBelowPrefix(paras: seq<string>, term: string, a: nat, b: nat)
    requires a <= b <= |paras|
    ensures MatchesBelow(paras, term, a) <= MatchesBelow(paras, term, b)
    decreases b - a
  {
    if a < b {
      MatchesBelowPrefix(paras, term, a, b - 1);
    }
  }

  function MergeAll(paras: seq<string>, idx: seq<nat>): (r: seq<string>)
    requires Segmenter.AllBelow(idx, |paras|)
    ensures |r| == |idx|
  {
    seq(|idx|, k requires 0 <= k < |idx| => OneStepMerge(paras, idx[k]))
  }

  lemma MergeAllPrefix(paras: seq<string>, a: seq<nat>, b: seq<nat>)
    requires a <= b && Segmenter.AllBelow(b, |paras|)
    ensures MergeAll(paras, a) == MergeAll(paras, b)[..|a|]
  {
  }

  /** The indices of the paragraphs of `text` that contain `term`. */
  function Matches(text: string, term: string): seq<nat> {
    MatchesBelow(Segmenter.Paragraphs(text), term, |Segmenter.Paragraphs(text)|)
  }

  /**
   * What the shared loop collects before `found_count >= max_paragraphs`
   * breaks it: the merged matches, in source order, at most `max(1, m)`.
   */
  function Selected(text: string, term: string, maxParagraphs: int): (sel: seq<string>)
    ensures |sel| == Segmenter.Cap(Some(maxParagraphs), |Matches(text, term)|)
  {
    MatchesBelowBound(Segmenter.Paragraphs(text), term, |Segmenter.Paragraphs(text)|);
    var all := MergeAll(Segmenter.Paragraphs(text), Matches(text, term));
    all[..Segmenter.Cap(Some(maxParagraphs), |all|)]
  }

  /** termun's result: the collected list, or None when it is empty. */
  function TermunSpec(text: string, term: string, maxParagraphs: int): Option<seq<string>> {
    var sel := Selected(text, term, maxParagraphs);
    if sel == [] then None else Some(sel)
  }

  /** The three shapes UNDOC_aligner's variant returns: None, a bare string, or a list. */
  datatype Found = Missing | Bare(text: string) | Listed(items: seq<string>)

  /** UNDOC_aligner's result: with a limit of exactly one, the single text or None; otherwise the list. */
  function UndocSpec(text: string, term: string, maxParagraphs: int): Found {
    var sel := Selected(text, term, maxParagraphs);
    if maxParagraphs == 1 then (if sel == [] then Missing else Bare(sel[0]))
    else Listed(sel)
  }

  /** The loop both older segmenters share, up to the return statement. */
  method CollectMatches(text: string, searchString: string, maxParagraphs: int)
    returns (matched: seq<string>)
    ensures matched == Selected(text, searchString, maxParagraphs)
  {
    hide PageNumberPrefix, FootnotePrefix, DashPrefix, IsListMarker, Contains, Split, Selected;
    var paragraphs := Split(text, Segmenter.ParagraphBreak);
    matched := [];
    var foundCount := 0;
    var i := 0;
    while i < |paragraphs|
      invariant i <= |paragraphs|
      invariant Segmenter.AllBelow(MatchesBelow(paragraphs, searchString, i), |paragraphs|)
      invariant matched == MergeAll(paragraphs, MatchesBelow(paragraphs, searchString, i))
      invariant foundCount == |matched| < Segmenter.Limit(maxParagraphs)
      decreases |paragraphs| - i
    {
      var paragraph := paragraphs[i];
      if Contains(paragraph, searchString) {
        var matchedParagraph := paragraph;
        if i < |paragraphs| - 1 {
          var nextParagraph := paragraphs[i + 1];
          var isPageNumber := PageNumberPrefix(nextParagraph);
          var isFootnote := FootnotePrefix(nextParagraph);
          if (isPageNumber || isFootnote) && i < |paragraphs| - 2 {
            var separatorIndex := i + 2;
            if separatorIndex < |paragraphs| && DashPrefix(paragraphs[separatorIndex]) {
              separatorIndex := separatorIndex + 1;
            }
            if separatorIndex < |paragraphs| {
              var continuation := paragraphs[separatorIndex];
              if !IsListMarker(continuation) {
                matchedParagraph := matchedParagraph + " " + continuation;
              }
            }
          }
        }
        assert matchedParagraph == OneStepMerge(paragraphs, i);
        assert MatchesBelow(paragraphs, searchString, i + 1) == MatchesBelow(paragraphs, searchString, i) + [i];
        matched := matched + [matchedParagraph];
        foundCount := foundCount + 1;
        if foundCount >= maxParagraphs {
          SelectedAtLimit(text, searchString, maxParagraphs, i + 1);
          return;
        }
      }
      i := i + 1;
    }
    SelectedAll(text, searchString, maxParagraphs);
  }

  /** Once the matches collected reach the limit, they are what the loop returns. */
  lemma SelectedAtLimit(text: string, term: string, maxParagraphs: int, n: nat)
    requires n <= |Segmenter.Paragraphs(text)|
    requires |MatchesBelow(Segmenter.Paragraphs(text), term, n)| == Segmenter.Limit(maxParagraphs)
    ensures Segmenter.AllBelow(MatchesBelow(Segmenter.Paragraphs(text), term, n), |Segmenter.Paragraphs(text)|)
    ensures Selected(text, term, maxParagraphs) ==
      MergeAll(Segmenter.Paragraphs(text), MatchesBelow(Segmenter.Paragraphs(text), term, n))
  {
    var paras := Segmenter.Paragraphs(text);
    MatchesBelowBound(paras, term, |paras|);
    MatchesBelowPrefix(paras, term, n, |paras|);
    MergeAllPrefix(paras, MatchesBelow(paras, term, n), MatchesBelow(paras, term, |paras|));
  }

  /** When fewer than the limit match in all, the loop returns every merged match. */
  lemma SelectedAll(text: string, term: string, maxParagraphs: int)
    requires |Matches(text, term)| < Segmenter.Limit(maxParagraphs)
    ensures Segmenter.AllBelow(Matches(text, term), |Segmenter.Paragraphs(text)|)
    ensures Selected(text, term, maxParagraphs) == MergeAll(Segmenter.Paragraphs(text), Matches(text, term))
  {
    var paras := Segmenter.Paragraphs(text);
    MatchesBelowBound(paras, term, |paras|);
  }

  /** termun/utils.py `find_paragraphs_with_merge`. */
  method TermunFindParagraphsWithMerge(text: string, searchString: string, maxParagraphs: int)
    returns (result: Option<seq<string>>)
    ensures result == TermunSpec(text, searchString, maxParagraphs)
  {
    var matched := CollectMatches(text, searchString, maxParagraphs);
    if matched == [] {
      result := None;
    } else {
      result := Some(matched);
    }
  }

  /** UNDOC_aligner/src/utils/find_paragraphs.py `find_paragraphs_with_merge`. */
  method UndocFindParagraphsWithMerge(text: string, searchString: string, maxParagraphs: int)
    returns (result: Found)
    ensures result == UndocSpec(text, searchString, maxParagraphs)
  {
    var matched := CollectMatches(text, searchString, maxParagraphs);
    if maxParagraphs == 1 {
      if matched == [] {
        result := Missing;
      } else {
        result := Bare(matched[0]);
      }
    } else {
      result := Listed(matched);
    }
  }

  // ---------------------------------------------------------------------
  // What the older segmenters return
  // ---------------------------------------------------------------------

  /** Nothing is collected exactly when no paragraph contains the term. */
  lemma SelectedEmptyIff(text: string, term: string, maxParagraphs: int)
    ensures Selected(text, term, maxParagraphs) == [] <==>
      forall j :: 0 <= j < |Segmenter.Paragraphs(text)| ==> !Contains(Segmenter.Paragraphs(text)[j], term)
  {
    hide Contains, Split, Selected, MatchesBelow;
    MatchesBelowEmptyIff(Segmenter.Paragraphs(text), term, |Segmenter.Paragraphs(text)|);
  }

  /**
   * The `k`-th collected text is the one-step merge of the `k`-th paragraph
   * containing the term, in source order, and begins with that paragraph.
   */
  lemma SelectedOrder(text: string, term: string, maxParagraphs: int, k: nat)
    requires k < |Selected(text, term, maxParagraphs)|
    ensures k < |Matches(text, term)| && Matches(text, term)[k] < |Segmenter.Paragraphs(text)|
    ensures Selected(text, term, maxParagraphs)[k] == OneStepMerge(Segmenter.Paragraphs(text), Matches(text, term)[k])
    ensures Segmenter.Paragraphs(text)[Matches(text, term)[k]] <= Selected(text, term, maxParagraphs)[k]
    ensures Contains(Selected(text, term, maxParagraphs)[k], term)
  {
    hide Contains, Split, OneStepMerge;
    var paras := Segmenter.Paragraphs(text);
    MatchesBelowBound(paras, term, |paras|);
    MatchesBelowSpec(paras, term, |paras|);
    var idx := Matches(text, term);
    assert idx[k] in idx;
    OneStepExtends(paras, idx[k], term);
  }

  /** termun returns None exactly when no paragraph contains the term (case-sensitively). */
  lemma TermunNoneIff(text: string, term: string, maxParagraphs: int)
    ensures TermunSpec(text, term, maxParagraphs).None? <==>
      forall j :: 0 <= j < |Segmenter.Paragraphs(text)| ==> !Contains(Segmenter.Paragraphs(text)[j], term)
  {
    hide Contains, Split, Selected;
    SelectedEmptyIff(text, term, maxParagraphs);
  }

  /** A list from termun holds between one and `max(1, max_paragraphs)` texts. */
  lemma TermunCount(text: string, term: string, maxParagraphs: int)
    requires TermunSpec(text, term, maxParagraphs).Some?
    ensures 1 <= |TermunSpec(text, term, maxParagraphs).value| <= Segmenter.Limit(maxParagraphs)
  {
    hide Contains, Split, Selected;
  }

  /**
   * With a limit of one, UNDOC_aligner returns no list: the first merged
   * match as a bare string, or None exactly when no paragraph contains the term.
   */
  lemma UndocSingle(text: string, term: string)
    ensures !UndocSpec(text, term, 1).Listed?
    ensures UndocSpec(text, term, 1).Missing? <==>
      forall j :: 0 <= j < |Segmenter.Paragraphs(text)| ==> !Contains(Segmenter.Paragraphs(text)[j], term)
    ensures UndocSpec(text, term, 1).Bare? ==>
      0 < |Matches(text, term)| && Matches(text, term)[0] < |Segmenter.Paragraphs(text)| &&
      UndocSpec(text, term, 1).text == OneStepMerge(Segmenter.Paragraphs(text), Matches(text, term)[0])
  {
    hide Contains, Split;
    SelectedEmptyIff(text, term, 1);
    if Selected(text, term, 1) != [] {
      SelectedOrder(text, term, 1, 0);
    }
  }

  /**
   * With any other limit, UNDOC_aligner always returns a list, never None:
   * empty exactly when nothing matches, and at most `max(1, max_paragraphs)` long.
   */
  lemma UndocList(text: string, term: string, maxParagraphs: int)
    requires maxParagraphs != 1
    ensures UndocSpec(text, term, maxParagraphs).Listed?
    ensures |UndocSpec(text, term, maxParagraphs).items| <= Segmenter.Limit(maxParagraphs)
    ensures UndocSpec(text, term, maxParagraphs).items == [] <==>
      forall j :: 0 <= j < |Segmenter.Paragraphs(text)| ==> !Contains(Segmenter.Paragraphs(text)[j], term)
  {
    hide Contains, Split;
    SelectedEmptyIff(text, term, maxParagraphs);
  }

  /**
   * A match followed by a bold page number and an ordinary paragraph `b` is
   * glued to `b`, whatever the match is and whatever follows the page number
   * in its own paragraph.
   */
  lemma PageNumberMerged(a: string, ws: string, digits: string, rest: string, b: string)
    requires IsBlank(ws) && |digits| > 0 && AllDigits(digits)
    requires !DashPrefix(b) && !IsListMarker(b)
    ensures OneStepMerge([a, ws + "**" + digits + "**" + rest, b], 0) == a + " " + b
  {
    PageNumberOpens(ws, digits, rest);
  }

  /**
   * The one-step merge never looks at the matched paragraph itself, so in
   * particular not at whether it is a complete sentence: putting any text
   * `x` in its place leaves the continuations as they were, and the
   * collected text is `x` followed by the same continuation.
   */
  lemma MergeIgnoresCompleteness(paras: seq<string>, i: nat, x: string)
    requires i < |paras|
    ensures forall s: nat :: ContinuesAt(paras[i := x], i, s) <==> ContinuesAt(paras, i, s)
    ensures paras[i] <= OneStepMerge(paras, i)
    ensures OneStepMerge(paras[i := x], i) == x + OneStepMerge(paras, i)[|paras[i]|..]
  {
    hide PageNumberPrefix, FootnotePrefix, DashPrefix, IsListMarker;
    var q := paras[i := x];
    if i + 2 < |paras| {
      assert q[i + 1] == paras[i + 1] && q[i + 2] == paras[i + 2];
      if i + 3 < |paras| {
        assert q[i + 3] == paras[i + 3];
      }
    }
    var r := OneStepMerge(paras, i);
    assert r[..|paras[i]|] == paras[i];
  }
}
