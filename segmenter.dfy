/**
 * The segmenter of termseeker/utils.py: `find_paragraphs_with_merge`, which
 * returns the paragraphs mentioning a term glued to the paragraphs that
 * continue them, and the target-side normalisation at the top of
 * `find_similar_paragraph_in_target`, which turns a whole text into merged
 * units by the same continuation rule.
 */
module Segmenter {
  import opened Opt
  import opened Strings
  import opened Classify

  /** The paragraph boundary of the rendered documents. */
  const ParagraphBreak: string := "\n\n"

  /** The merge stops once an append has moved the scan more than this many paragraphs past the start. */
  const MaxLookahead: nat := 5

  /**
   * What the continuation rule makes of a paragraph once it is stripped:
   * page furniture it passes over, a numbered item that stops it, or body
   * text it appends.
   */
  datatype Kind = Furniture | Item | Body

  /** A paragraph as the continuation rule sees it: its kind and its stripped text. */
  datatype Para = Para(kind: Kind, text: string)

  function KindOf(stripped: string): Kind {
    if IsSeparatorOrNote(stripped) then Furniture
    else if IsListMarker(stripped) then Item
    else Body
  }

  /** The kinds, spelled out as the two tests decide them. */
  lemma KindOfCases(stripped: string)
    ensures KindOf(stripped) == Furniture <==> IsSeparatorOrNote(stripped)
    ensures KindOf(stripped) == Item <==> !IsSeparatorOrNote(stripped) && IsListMarker(stripped)
  {
  }

  function Prepare(paras: seq<string>): (ps: seq<Para>)
    ensures |ps| == |paras|
  {
    if paras == [] then []
    else Prepare(paras[..|paras| - 1]) + [Para(KindOf(Strip(paras[|paras| - 1])), Strip(paras[|paras| - 1]))]
  }

  lemma {:induction false} PrepareAt(paras: seq<string>, j: nat)
    requires j < |paras|
    ensures Prepare(paras)[j] == Para(KindOf(Strip(paras[j])), Strip(paras[j]))
  {
    if j < |paras| - 1 {
      PrepareAt(paras[..|paras| - 1], j);
      assert paras[..|paras| - 1][j] == paras[j];
    }
  }

  /**
   * Where a continuation merge ends: the merged text, the indices of the
   * paragraphs appended to it, and the index the scan stopped at (the next
   * paragraph a caller looks at).
   */
  datatype Merge = Merge(text: string, taken: seq<nat>, stop: nat)

  /**
   * The continuation rule, from index `next` on, for a merge that began at
   * paragraph `i` and has accumulated `acc`. Page furniture is skipped
   * without looking at the lookahead limit (the `continue` in the source);
   * a numbered item ends the merge without being appended; a complete
   * sentence ends it; so does an append that leaves the scan past `i + 5`.
   */
  function Continue(ps: seq<Para>, complete: string -> bool, i: nat, acc: string, next: nat): (m: Merge)
    requires i < next <= |ps|
    ensures next <= m.stop <= |ps|
    decreases |ps| - next
  {
    if next == |ps| || complete(acc) then Merge(acc, [], next)
    else match ps[next].kind
      case Furniture => Continue(ps, complete, i, acc, next + 1)
      case Item => Merge(acc, [], next)
      case Body =>
        var acc' := acc + " " + ps[next].text;
        if next + 1 > i + MaxLookahead then Merge(acc', [next], next + 1)
        else
          var m := Continue(ps, complete, i, acc', next + 1);
          Merge(m.text, [next] + m.taken, m.stop)
  }

  /** The text the merge appends for the paragraphs `taken`: each stripped, after one space. */
  function Appended(ps: seq<Para>, taken: seq<nat>): string
    requires forall k :: 0 <= k < |taken| ==> taken[k] < |ps|
  {
    if taken == [] then "" else " " + ps[taken[0]].text + Appended(ps, taken[1..])
  }

  /** The `k`-th of `taken` lies in `[lo + k, hi)`. */
  predicate InRange(taken: seq<nat>, lo: nat, hi: nat) {
    forall k :: 0 <= k < |taken| ==> lo + k <= taken[k] < hi
  }

  predicate Increasing(taken: seq<nat>) {
    forall a, b :: 0 <= a < b < |taken| ==> taken[a] < taken[b]
  }

  /** The indices and the text of a merge: appended paragraphs in source order, after `acc`. */
  predicate WellFormed(ps: seq<Para>, next: nat, acc: string, m: Merge) {
    InRange(m.taken, next, m.stop) && Increasing(m.taken) && m.stop <= |ps|
    && m.text == acc + Appended(ps, m.taken)
  }

  /** One append at `next` in front of a well-formed rest keeps the merge well-formed. */
  lemma WellFormedCons(ps: seq<Para>, next: nat, acc: string, r: Merge)
    requires next < |ps|
    requires next < r.stop && WellFormed(ps, next + 1, acc + " " + ps[next].text, r)
    ensures WellFormed(ps, next, acc, Merge(r.text, [next] + r.taken, r.stop))
  {
    var taken := [next] + r.taken;
    assert InRange(taken, next, r.stop) by {
      forall k | 0 <= k < |taken| ensures next + k <= taken[k] < r.stop {
        if k > 0 { assert taken[k] == r.taken[k - 1]; }
      }
    }
    assert Increasing(taken) by {
      forall a, b | 0 <= a < b < |taken| ensures taken[a] < taken[b] {
        assert taken[b] == r.taken[b - 1];
        if a > 0 { assert taken[a] == r.taken[a - 1]; }
      }
    }
    assert taken[1..] == r.taken;
    assert Appended(ps, taken) == " " + ps[next].text + Appended(ps, r.taken);
  }

  /** The merged text is the accumulated text followed by the appended paragraphs, in source order. */
  lemma {:induction false} ContinueText(ps: seq<Para>, complete: string -> bool, i: nat, acc: string, next: nat)
    requires i < next <= |ps|
    ensures WellFormed(ps, next, acc, Continue(ps, complete, i, acc, next))
    decreases |ps| - next
  {
    if next == |ps| || complete(acc) {
      assert Continue(ps, complete, i, acc, next) == Merge(acc, [], next);
    } else if ps[next].kind == Furniture {
      ContinueText(ps, complete, i, acc, next + 1);
      assert Continue(ps, complete, i, acc, next) == Continue(ps, complete, i, acc, next + 1);
    } else if ps[next].kind == Item {
      assert Continue(ps, complete, i, acc, next) == Merge(acc, [], next);
    } else {
      var acc' := acc + " " + ps[next].text;
      if next + 1 > i + MaxLookahead {
        assert Continue(ps, complete, i, acc, next) == Merge(acc', [next], next + 1);
        WellFormedCons(ps, next, acc, Merge(acc', [], next + 1));
      } else {
        ContinueText(ps, complete, i, acc', next + 1);
        var r := Continue(ps, complete, i, acc', next + 1);
        assert Continue(ps, complete, i, acc, next) == Merge(r.text, [next] + r.taken, r.stop);
        WellFormedCons(ps, next, acc, r);
      }
    }
  }

  /** What the merge passes over: appended paragraphs are body text, the rest of `[next, stop)` is furniture. */
  predicate SkipsOnlyFurniture(ps: seq<Para>, next: nat, m: Merge) {
    (forall k :: 0 <= k < |m.taken| ==> m.taken[k] < |ps| && ps[m.taken[k]].kind == Body)
    && (forall j :: next <= j < m.stop && j !in m.taken ==> j < |ps| && ps[j].kind == Furniture)
  }

  /** Only body paragraphs are appended, and every paragraph passed over is page furniture. */
  lemma {:induction false} ContinueSkipsOnlyFurniture(ps: seq<Para>, complete: string -> bool, i: nat, acc: string, next: nat)
    requires i < next <= |ps|
    ensures SkipsOnlyFurniture(ps, next, Continue(ps, complete, i, acc, next))
    decreases |ps| - next
  {
    if next == |ps| || complete(acc) {
    } else if ps[next].kind == Furniture {
      ContinueSkipsOnlyFurniture(ps, complete, i, acc, next + 1);
    } else if ps[next].kind == Body {
      var acc' := acc + " " + ps[next].text;
      if next + 1 <= i + MaxLookahead {
        ContinueSkipsOnlyFurniture(ps, complete, i, acc', next + 1);
        var r := Continue(ps, complete, i, acc', next + 1);
        assert Continue(ps, complete, i, acc, next) == Merge(r.text, [next] + r.taken, r.stop);
      }
    }
  }

  /** Every appended paragraph but the last lies within the lookahead limit of the start. */
  predicate WithinLookahead(i: nat, m: Merge) {
    forall k :: 0 <= k < |m.taken| - 1 ==> m.taken[k] < i + MaxLookahead
  }

  lemma {:induction false} ContinueLookahead(ps: seq<Para>, complete: string -> bool, i: nat, acc: string, next: nat)
    requires i < next <= |ps|
    ensures WithinLookahead(i, Continue(ps, complete, i, acc, next))
    decreases |ps| - next
  {
    if next == |ps| || complete(acc) {
    } else if ps[next].kind == Furniture {
      ContinueLookahead(ps, complete, i, acc, next + 1);
    } else if ps[next].kind == Body {
      var acc' := acc + " " + ps[next].text;
      if next + 1 <= i + MaxLookahead {
        ContinueLookahead(ps, complete, i, acc', next + 1);
        var r := Continue(ps, complete, i, acc', next + 1);
        var m := Continue(ps, complete, i, acc, next);
        assert m == Merge(r.text, [next] + r.taken, r.stop);
        forall k | 0 <= k < |m.taken| - 1 ensures m.taken[k] < i + MaxLookahead {
          if k > 0 {
            assert m.taken[k] == r.taken[k - 1];
          }
        }
      }
    }
  }

  /** A merge appends at most five paragraphs. */
  lemma AppendCount(ps: seq<Para>, complete: string -> bool, i: nat, acc: string, next: nat)
    requires i < next <= |ps|
    ensures |Continue(ps, complete, i, acc, next).taken| <= MaxLookahead
  {
    var m := Continue(ps, complete, i, acc, next);
    ContinueText(ps, complete, i, acc, next);
    ContinueLookahead(ps, complete, i, acc, next);
    if |m.taken| >= 2 {
      assert next + (|m.taken| - 2) <= m.taken[|m.taken| - 2] < i + MaxLookahead;
    }
  }

  /** The merge appends only while the text so far is still an incomplete sentence. */
  predicate AppendsOnlyWhileIncomplete(ps: seq<Para>, complete: string -> bool, acc: string, m: Merge)
    requires forall k :: 0 <= k < |m.taken| ==> m.taken[k] < |ps|
  {
    forall k :: 0 <= k < |m.taken| ==> !complete(acc + Appended(ps, m.taken[..k]))
  }

  /** An append made while `acc` was incomplete, in front of a rest that keeps the rule. */
  lemma AppendsCons(ps: seq<Para>, complete: string -> bool, next: nat, acc: string, r: Merge)
    requires next < |ps| && !complete(acc)
    requires forall k :: 0 <= k < |r.taken| ==> r.taken[k] < |ps|
    requires AppendsOnlyWhileIncomplete(ps, complete, acc + " " + ps[next].text, r)
    ensures AppendsOnlyWhileIncomplete(ps, complete, acc, Merge(r.text, [next] + r.taken, r.stop))
  {
    var acc' := acc + " " + ps[next].text;
    var taken := [next] + r.taken;
    forall k | 0 <= k < |taken| ensures !complete(acc + Appended(ps, taken[..k])) {
      if k == 0 {
        assert taken[..0] == [];
        assert acc + Appended(ps, taken[..0]) == acc;
      } else {
        assert taken[..k] == [next] + r.taken[..k - 1];
        assert taken[..k][1..] == r.taken[..k - 1];
        assert acc + Appended(ps, taken[..k]) == acc' + Appended(ps, r.taken[..k - 1]);
      }
    }
  }

  lemma {:induction false} ContinueStopsWhenComplete(ps: seq<Para>, complete: string -> bool, i: nat, acc: string, next: nat)
    requires i < next <= |ps|
    ensures WellFormed(ps, next, acc, Continue(ps, complete, i, acc, next))
    ensures AppendsOnlyWhileIncomplete(ps, complete, acc, Continue(ps, complete, i, acc, next))
    decreases |ps| - next
  {
    ContinueText(ps, complete, i, acc, next);
    if next == |ps| || complete(acc) {
      assert Continue(ps, complete, i, acc, next) == Merge(acc, [], next);
    } else if ps[next].kind == Furniture {
      ContinueStopsWhenComplete(ps, complete, i, acc, next + 1);
      assert Continue(ps, complete, i, acc, next) == Continue(ps, complete, i, acc, next + 1);
    } else if ps[next].kind == Item {
      assert Continue(ps, complete, i, acc, next) == Merge(acc, [], next);
    } else {
      var acc' := acc + " " + ps[next].text;
      if next + 1 > i + MaxLookahead {
        assert Continue(ps, complete, i, acc, next) == Merge(acc', [next], next + 1);
        AppendsCons(ps, complete, next, acc, Merge(acc', [], next + 1));
        assert [next] + [] == [next];
      } else {
        ContinueStopsWhenComplete(ps, complete, i, acc', next + 1);
        var r := Continue(ps, complete, i, acc', next + 1);
        assert Continue(ps, complete, i, acc, next) == Merge(r.text, [next] + r.taken, r.stop);
        AppendsCons(ps, complete, next, acc, r);
      }
    }
  }

  /**
   * Why a merge ended before the last paragraph: its text is a complete
   * sentence, or it reached a numbered item, or its last append moved the
   * scan past the lookahead limit.
   */
  predicate StoppedFor(ps: seq<Para>, complete: string -> bool, i: nat, m: Merge) {
    m.stop < |ps| ==>
      complete(m.text)
      || ps[m.stop].kind == Item
      || (m.taken != [] && m.taken[|m.taken| - 1] + 1 == m.stop && m.stop > i + MaxLookahead)
  }

  lemma StoppedForCons(ps: seq<Para>, complete: string -> bool, i: nat, next: nat, r: Merge)
    requires StoppedFor(ps, complete, i, r)
    ensures StoppedFor(ps, complete, i, Merge(r.text, [next] + r.taken, r.stop))
  {
    if r.taken != [] {
      assert ([next] + r.taken)[|r.taken|] == r.taken[|r.taken| - 1];
    }
  }

  lemma {:induction false} ContinueStopReason(ps: seq<Para>, complete: string -> bool, i: nat, acc: string, next: nat)
    requires i < next <= |ps|
    ensures StoppedFor(ps, complete, i, Continue(ps, complete, i, acc, next))
    decreases |ps| - next
  {
    if next == |ps| || complete(acc) {
      assert Continue(ps, complete, i, acc, next) == Merge(acc, [], next);
    } else if ps[next].kind == Furniture {
      ContinueStopReason(ps, complete, i, acc, next + 1);
      assert Continue(ps, complete, i, acc, next) == Continue(ps, complete, i, acc, next + 1);
    } else if ps[next].kind == Item {
      assert Continue(ps, complete, i, acc, next) == Merge(acc, [], next);
    } else {
      var acc' := acc + " " + ps[next].text;
      if next + 1 > i + MaxLookahead {
        assert Continue(ps, complete, i, acc, next) == Merge(acc', [next], next + 1);
      } else {
        ContinueStopReason(ps, complete, i, acc', next + 1);
        var r := Continue(ps, complete, i, acc', next + 1);
        assert Continue(ps, complete, i, acc, next) == Merge(r.text, [next] + r.taken, r.stop);
        StoppedForCons(ps, complete, i, next, r);
      }
    }
  }

  // ---------------------------------------------------------------------
  // find_paragraphs_with_merge
  // ---------------------------------------------------------------------

  /** `search_string.lower() in paragraph.lower()`. */
  predicate IsMatch(paragraph: string, term: string) {
    Contains(Lower(paragraph), Lower(term))
  }

  /** The indices below `n` of the paragraphs that mention `term`, in order. */
  function MatchesBelow(paras: seq<string>, term: string, n: nat): (idx: seq<nat>)
    requires n <= |paras|
  {
    if n == 0 then []
    else MatchesBelow(paras, term, n - 1) + (if IsMatch(paras[n - 1], term) then [n - 1] else [])
  }

  /** The merged text for a match at paragraph `i`: the raw paragraph, continued from `i + 1`. */
  function MergeMatch(paras: seq<string>, i: nat): string
    requires i < |paras|
  {
    Continue(Prepare(paras), IsComplete, i, paras[i], i + 1).text
  }

  predicate AllBelow(idx: seq<nat>, n: nat) {
    forall k :: 0 <= k < |idx| ==> idx[k] < n
  }

  function MergeAll(paras: seq<string>, idx: seq<nat>): (r: seq<string>)
    requires AllBelow(idx, |paras|)
    ensures |r| == |idx|
  {
    seq(|idx|, k requires 0 <= k < |idx| => MergeMatch(paras, idx[k]))
  }

  /**
   * The count at which `found_count >= max_paragraphs` breaks the scan: the
   * check follows an append, so a limit below one still lets one result through.
   */
  function Limit(m: int): nat {
    if m < 1 then 1 else m
  }

  /** How many of `n` merged matches `max_paragraphs` lets through: all of them for None. */
  function Cap(maxParagraphs: Option<int>, n: nat): nat {
    match maxParagraphs
      case None => n
      case Some(m) => if Limit(m) < n then Limit(m) else n
  }

  /** The paragraphs of a text, as `text.split('\n\n')` cuts them. */
  function Paragraphs(text: string): seq<string> {
    Split(text, ParagraphBreak)
  }

  /** The indices of the paragraphs of `text` that mention `term`. */
  function Matches(text: string, term: string): seq<nat> {
    MatchesBelow(Paragraphs(text), term, |Paragraphs(text)|)
  }

  /** The merged matches `max_paragraphs` lets through: the first `Cap` of them, in source order. */
  function Selected(text: string, term: string, maxParagraphs: Option<int>): (sel: seq<string>)
    ensures |sel| == Cap(maxParagraphs, |Matches(text, term)|)
  {
    MatchesBelowBound(Paragraphs(text), term, |Paragraphs(text)|);
    var all := MergeAll(Paragraphs(text), Matches(text, term));
    all[..Cap(maxParagraphs, |all|)]
  }

  /** `find_paragraphs_with_merge`: the selected merged matches, or None when there is none. */
  function FindSpec(text: string, term: string, maxParagraphs: Option<int>): Option<seq<string>> {
    var sel := Selected(text, term, maxParagraphs);
    if sel == [] then None else Some(sel)
  }

  lemma {:induction false} MatchesBelowBound(paras: seq<string>, term: string, n: nat)
    requires n <= |paras|
    ensures AllBelow(MatchesBelow(paras, term, n), n)
    ensures |MatchesBelow(paras, term, n)| <= n
  {
    if n > 0 {
      MatchesBelowBound(paras, term, n - 1);
    }
  }

  /** The matched indices are exactly the matching paragraphs below `n`, in increasing order. */
  lemma {:induction false} MatchesBelowSpec(paras: seq<string>, term: string, n: nat)
    requires n <= |paras|
    ensures Increasing(MatchesBelow(paras, term, n))
    ensures forall j :: 0 <= j < n ==> (j in MatchesBelow(paras, term, n) <==> IsMatch(paras[j], term))
  {
    hide IsMatch;
    if n > 0 {
      MatchesBelowSpec(paras, term, n - 1);
      MatchesBelowBound(paras, term, n - 1);
    }
  }

  /** No index is collected exactly when no paragraph below `n` mentions the term. */
  lemma {:induction false} MatchesBelowEmptyIff(paras: seq<string>, term: string, n: nat)
    requires n <= |paras|
    ensures MatchesBelow(paras, term, n) == [] <==> forall j :: 0 <= j < n ==> !IsMatch(paras[j], term)
  {
    hide IsMatch;
    if n > 0 {
      MatchesBelowEmptyIff(paras, term, n - 1);
    }
  }

  /** Earlier match lists are prefixes of later ones: the loop's break keeps a prefix. */
  lemma {:induction false} MatchesBelowPrefix(paras: seq<string>, term: string, a: nat, b: nat)
    requires a <= b <= |paras|
    ensures MatchesBelow(paras, term, a) <= MatchesBelow(paras, term, b)
    decreases b - a
  {
    if a < b {
      MatchesBelowPrefix(paras, term, a, b - 1);
    }
  }

  lemma MergeAllPrefix(paras: seq<string>, a: seq<nat>, b: seq<nat>)
    requires a <= b && AllBelow(b, |paras|)
    ensures MergeAll(paras, a) == MergeAll(paras, b)[..|a|]
  {
  }

  /** The two tests the continuation loops apply to a stripped paragraph, in the source's order. */
  method ClassifyParagraph(nextPara: string) returns (kind: Kind)
    ensures kind == KindOf(nextPara)
  {
    if IsSeparatorOrNote(nextPara) {
      kind := Furniture;
    } else if IsListMarker(nextPara) {
      kind := Item;
    } else {
      kind := Body;
    }
  }

  // One step of the continuation rule, case by case, for the loops below.

  lemma StepDone(ps: seq<Para>, complete: string -> bool, i: nat, acc: string, next: nat)
    requires i < next <= |ps| && (next == |ps| || complete(acc))
    ensures Continue(ps, complete, i, acc, next) == Merge(acc, [], next)
  {
  }

  lemma StepSkip(ps: seq<Para>, complete: string -> bool, i: nat, acc: string, next: nat)
    requires i < next < |ps| && !complete(acc) && ps[next].kind == Furniture
    ensures Continue(ps, complete, i, acc, next) == Continue(ps, complete, i, acc, next + 1)
  {
  }

  lemma StepItem(ps: seq<Para>, complete: string -> bool, i: nat, acc: string, next: nat)
    requires i < next < |ps| && !complete(acc) && ps[next].kind == Item
    ensures Continue(ps, complete, i, acc, next) == Merge(acc, [], next)
  {
  }

  lemma StepCap(ps: seq<Para>, complete: string -> bool, i: nat, acc: string, next: nat)
    requires i < next < |ps| && !complete(acc) && ps[next].kind == Body && next + 1 > i + MaxLookahead
    ensures Continue(ps, complete, i, acc, next) == Merge(acc + " " + ps[next].text, [next], next + 1)
  {
  }

  /** Two merges that end alike: the same text, stopped at the same index. */
  predicate SameEnd(m: Merge, n: Merge) {
    m.text == n.text && m.stop == n.stop
  }

  lemma StepAppend(ps: seq<Para>, complete: string -> bool, i: nat, acc: string, next: nat)
    requires i < next < |ps| && !complete(acc) && ps[next].kind == Body && next + 1 <= i + MaxLookahead
    ensures SameEnd(Continue(ps, complete, i, acc, next), Continue(ps, complete, i, acc + " " + ps[next].text, next + 1))
  {
  }

  /**
   * The state of the continuation loop for the match at `i` whose merged
   * text is `target`: while the loop still needs continuation, finishing the
   * rule from `next` yields `target`; once it stops, it holds `target`.
   */
  predicate Pending(ps: seq<Para>, i: nat, merged: string, next: nat, needs: bool, target: string) {
    i < next <= |ps|
    && (needs ==> !IsComplete(merged) && Continue(ps, IsComplete, i, merged, next).text == target)
    && (!needs ==> merged == target)
  }

  /** The loop passes over page furniture and stays on course. */
  lemma PendingSkip(ps: seq<Para>, i: nat, merged: string, next: nat, target: string)
    requires Pending(ps, i, merged, next, true, target) && next < |ps| && ps[next].kind == Furniture
    ensures Pending(ps, i, merged, next + 1, true, target)
  {
    StepSkip(ps, IsComplete, i, merged, next);
  }

  /** A numbered item ends the loop with the text it has. */
  lemma PendingItem(ps: seq<Para>, i: nat, merged: string, next: nat, target: string)
    requires Pending(ps, i, merged, next, true, target) && next < |ps| && ps[next].kind == Item
    ensures Pending(ps, i, merged, next, false, target)
  {
    StepItem(ps, IsComplete, i, merged, next);
  }

  /** An append that completes the sentence ends the loop. */
  lemma PendingComplete(ps: seq<Para>, i: nat, merged: string, next: nat, target: string)
    requires Pending(ps, i, merged, next, true, target) && next < |ps| && ps[next].kind == Body
    requires IsComplete(merged + " " + ps[next].text)
    ensures Pending(ps, i, merged + " " + ps[next].text, next, false, target)
  {
    if next + 1 <= i + MaxLookahead {
      StepAppend(ps, IsComplete, i, merged, next);
      StepDone(ps, IsComplete, i, merged + " " + ps[next].text, next + 1);
    } else {
      StepCap(ps, IsComplete, i, merged, next);
    }
  }

  /** An append that leaves the sentence open goes on, unless it has moved past the lookahead limit. */
  lemma PendingIncomplete(ps: seq<Para>, i: nat, merged: string, next: nat, target: string)
    requires Pending(ps, i, merged, next, true, target) && next < |ps| && ps[next].kind == Body
    requires !IsComplete(merged + " " + ps[next].text)
    ensures Pending(ps, i, merged + " " + ps[next].text, next + 1, next + 1 <= i + MaxLookahead, target)
  {
    if next + 1 <= i + MaxLookahead {
      StepAppend(ps, IsComplete, i, merged, next);
    } else {
      StepCap(ps, IsComplete, i, merged, next);
    }
  }

  /** Strips and classifies paragraph `j`, as the loop does before looking at it. */
  method NextParagraph(paragraphs: seq<string>, j: nat) returns (nextPara: string, kind: Kind)
    requires j < |paragraphs|
    ensures Prepare(paragraphs)[j] == Para(kind, nextPara)
  {
    nextPara := Strip(paragraphs[j]);
    PrepareAt(paragraphs, j);
    kind := ClassifyParagraph(nextPara);
  }

  method MergeContinuation(paragraphs: seq<string>, i: nat) returns (matchedParagraph: string)
    requires i < |paragraphs|
    ensures matchedParagraph == MergeMatch(paragraphs, i)
  {
    hide KindOf, IsComplete, Strip, EndsWithAny;
    ghost var ps := Prepare(paragraphs);
    ghost var target := MergeMatch(paragraphs, i);
    matchedParagraph := paragraphs[i];
    var needsContinuation := !IsComplete(matchedParagraph);
    var nextIndex := i + 1;
    while needsContinuation && nextIndex < |paragraphs|
      invariant Pending(ps, i, matchedParagraph, nextIndex, needsContinuation, target)
      decreases |paragraphs| - nextIndex + (if needsContinuation then 1 else 0)
    {
      var nextPara, kind := NextParagraph(paragraphs, nextIndex);
      if kind == Furniture {
        PendingSkip(ps, i, matchedParagraph, nextIndex, target);
        nextIndex := nextIndex + 1;
        continue;
      }
      if kind == Body {
        ghost var before := matchedParagraph;
        matchedParagraph := matchedParagraph + " " + nextPara;
        if IsComplete(matchedParagraph) {
          PendingComplete(ps, i, before, nextIndex, target);
          needsContinuation := false;
        } else {
          PendingIncomplete(ps, i, before, nextIndex, target);
          nextIndex := nextIndex + 1;
        }
      } else {
        PendingItem(ps, i, matchedParagraph, nextIndex, target);
        needsContinuation := false;
      }
      if nextIndex > i + MaxLookahead {
        needsContinuation := false;
      }
    }
    if needsContinuation {
      StepDone(ps, IsComplete, i, matchedParagraph, nextIndex);
    }
  }

  /**
   * `find_paragraphs_with_merge`: the scan over the paragraphs, and the
   * break once enough merged matches are collected.
   */
  method FindParagraphsWithMerge(text: string, searchString: string, maxParagraphs: Option<int>)
    returns (result: Option<seq<string>>)
    ensures result == FindSpec(text, searchString, maxParagraphs)
  {
    hide KindOf, IsComplete, Strip, EndsWithAny, Continue, Prepare, Lower, Contains, IndexOf, Split;
    var paragraphs := Split(text, ParagraphBreak);
    var matched: seq<string> := [];
    var foundCount := 0;
    MatchesBelowBound(paragraphs, searchString, |paragraphs|);
    ghost var all := MergeAll(paragraphs, MatchesBelow(paragraphs, searchString, |paragraphs|));
    var i := 0;
    while i < |paragraphs|
      invariant i <= |paragraphs|
      invariant AllBelow(MatchesBelow(paragraphs, searchString, i), |paragraphs|)
      invariant matched == MergeAll(paragraphs, MatchesBelow(paragraphs, searchString, i))
      invariant foundCount == |matched|
      invariant maxParagraphs.Some? ==> foundCount < Limit(maxParagraphs.value)
      decreases |paragraphs| - i
    {
      var paragraph := paragraphs[i];
      if Contains(Lower(paragraph), Lower(searchString)) {
        var matchedParagraph := MergeContinuation(paragraphs, i);
        assert MatchesBelow(paragraphs, searchString, i + 1) == MatchesBelow(paragraphs, searchString, i) + [i];
        matched := matched + [matchedParagraph];
        foundCount := foundCount + 1;
        if maxParagraphs.Some? && foundCount >= maxParagraphs.value {
          MatchesBelowPrefix(paragraphs, searchString, i + 1, |paragraphs|);
          MergeAllPrefix(paragraphs, MatchesBelow(paragraphs, searchString, i + 1),
            MatchesBelow(paragraphs, searchString, |paragraphs|));
          break;
        }
      }
      i := i + 1;
    }
    assert matched == Selected(text, searchString, maxParagraphs);
    if matched == [] {
      result := None;
    } else {
      result := Some(matched);
    }
  }
  // ---------------------------------------------------------------------
  // What find_paragraphs_with_merge returns
  // ---------------------------------------------------------------------

  /** A merged match begins with its raw paragraph, so it still mentions the term. */
  lemma MergeMatchExtends(paras: seq<string>, term: string, i: nat)
    requires i < |paras| && IsMatch(paras[i], term)
    ensures paras[i] <= MergeMatch(paras, i)
    ensures IsMatch(MergeMatch(paras, i), term)
  {
    hide KindOf, IsComplete, Strip, Prepare;
    var ps := Prepare(paras);
    ContinueText(ps, IsComplete, i, paras[i], i + 1);
    var m := Continue(ps, IsComplete, i, paras[i], i + 1);
    var tail := Appended(ps, m.taken);
    assert m.text == paras[i] + tail;
    LowerAppend(paras[i], tail);
    ContainsExtend(Lower(paras[i]), Lower(tail), Lower(term));
  }

  /** The search finds nothing exactly when no paragraph mentions the term. */
  lemma FindNoneIff(text: string, term: string, maxParagraphs: Option<int>)
    ensures FindSpec(text, term, maxParagraphs).None? <==>
      forall j :: 0 <= j < |Paragraphs(text)| ==> !IsMatch(Paragraphs(text)[j], term)
  {
    hide IsMatch, Split, Selected, MatchesBelow;
    MatchesBelowEmptyIff(Paragraphs(text), term, |Paragraphs(text)|);
  }

  /** With a limit `m`, at least one and at most `max(1, m)` merged matches come back; with none, all of them. */
  lemma FindCount(text: string, term: string, maxParagraphs: Option<int>)
    requires FindSpec(text, term, maxParagraphs).Some?
    ensures 1 <= |FindSpec(text, term, maxParagraphs).value|
    ensures maxParagraphs.Some? ==> |FindSpec(text, term, maxParagraphs).value| <= Limit(maxParagraphs.value)
    ensures maxParagraphs.None? ==> |FindSpec(text, term, maxParagraphs).value| == |Matches(text, term)|
  {
    hide IsMatch, Split, Selected;
  }

  /**
   * The results follow the matching paragraphs in source order: the `k`-th
   * is the merge of the `k`-th match, begins with that raw paragraph and
   * still mentions the term.
   */
  lemma FindOrder(text: string, term: string, maxParagraphs: Option<int>, k: nat)
    requires FindSpec(text, term, maxParagraphs).Some? && k < |FindSpec(text, term, maxParagraphs).value|
    ensures k < |Matches(text, term)| && Matches(text, term)[k] < |Paragraphs(text)|
    ensures FindSpec(text, term, maxParagraphs).value[k] == MergeMatch(Paragraphs(text), Matches(text, term)[k])
    ensures Paragraphs(text)[Matches(text, term)[k]] <= FindSpec(text, term, maxParagraphs).value[k]
    ensures IsMatch(FindSpec(text, term, maxParagraphs).value[k], term)
  {
    hide IsMatch, Split, MergeMatch;
    var paras := Paragraphs(text);
    MatchesBelowBound(paras, term, |paras|);
    MatchesBelowSpec(paras, term, |paras|);
    var idx := Matches(text, term);
    assert idx[k] in idx;
    MergeMatchExtends(paras, term, idx[k]);
  }

  // ---------------------------------------------------------------------
  // The target-side normalisation of find_similar_paragraph_in_target
  // ---------------------------------------------------------------------

  /** A unit of the normalised target: the paragraph it starts at and the merge that grows from it. */
  datatype Unit = Unit(start: nat, merge: Merge)

  /**
   * The normalisation rule from paragraph `i` on: furniture is dropped, and
   * every other paragraph opens a unit that the continuation rule extends;
   * the scan resumes where that merge stopped.
   */
  function Units(ps: seq<Para>, complete: string -> bool, i: nat): (us: seq<Unit>)
    requires i <= |ps|
    ensures |us| <= |ps| - i
    decreases |ps| - i
  {
    if i == |ps| then []
    else if ps[i].kind == Furniture then Units(ps, complete, i + 1)
    else
      var m := Continue(ps, complete, i, ps[i].text, i + 1);
      [Unit(i, m)] + Units(ps, complete, m.stop)
  }

  function Texts(us: seq<Unit>): (ts: seq<string>)
    ensures |ts| == |us|
  {
    if us == [] then [] else [us[0].merge.text] + Texts(us[1..])
  }

  lemma {:induction false} TextsAt(us: seq<Unit>, k: nat)
    requires k < |us|
    ensures Texts(us)[k] == us[k].merge.text
  {
    if k > 0 {
      TextsAt(us[1..], k - 1);
    }
  }

  /** The normalised units of a target text, as the loop at the top of `find_similar_paragraph_in_target` builds them. */
  function NormalizeSpec(targetText: string): seq<string> {
    Texts(Units(Prepare(Paragraphs(targetText)), IsComplete, 0))
  }

  /** No unit at all exactly when everything from `i` on is page furniture. */
  lemma {:induction false} UnitsEmptyIff(ps: seq<Para>, complete: string -> bool, i: nat)
    requires i <= |ps|
    ensures Units(ps, complete, i) == [] <==> forall j :: i <= j < |ps| ==> ps[j].kind == Furniture
    decreases |ps| - i
  {
    if i < |ps| && ps[i].kind == Furniture {
      UnitsEmptyIff(ps, complete, i + 1);
    }
  }

  /** A unit opens at a paragraph that is not furniture, and its merge is the continuation rule applied there. */
  predicate GoodUnit(ps: seq<Para>, complete: string -> bool, u: Unit) {
    u.start < |ps| && ps[u.start].kind != Furniture
    && u.merge == Continue(ps, complete, u.start, ps[u.start].text, u.start + 1)
  }

  /** Units from `i` on, each one opening after the previous merge stopped. */
  predicate Ordered(ps: seq<Para>, complete: string -> bool, i: nat, us: seq<Unit>) {
    (forall k :: 0 <= k < |us| ==> i <= us[k].start && GoodUnit(ps, complete, us[k]))
    && (forall k :: 0 <= k < |us| - 1 ==> us[k].merge.stop <= us[k + 1].start)
  }

  lemma {:induction false} UnitsOrdered(ps: seq<Para>, complete: string -> bool, i: nat)
    requires i <= |ps|
    ensures Ordered(ps, complete, i, Units(ps, complete, i))
    decreases |ps| - i
  {
    if i < |ps| {
      if ps[i].kind == Furniture {
        UnitsOrdered(ps, complete, i + 1);
        assert Units(ps, complete, i) == Units(ps, complete, i + 1);
      } else {
        var m := Continue(ps, complete, i, ps[i].text, i + 1);
        UnitsOrdered(ps, complete, m.stop);
        assert Units(ps, complete, i) == [Unit(i, m)] + Units(ps, complete, m.stop);
      }
    }
  }

  /** Paragraph `j` opens unit `k` or is appended to it. */
  predicate InUnit(us: seq<Unit>, j: nat, k: int) {
    0 <= k < |us| && (us[k].start == j || j in us[k].merge.taken)
  }

  /** No paragraph that is not furniture is lost: each opens a unit or is appended to one. */
  lemma {:induction false} UnitsCover(ps: seq<Para>, complete: string -> bool, i: nat, j: nat)
    requires i <= j < |ps| && ps[j].kind != Furniture
    ensures exists k :: InUnit(Units(ps, complete, i), j, k)
    decreases |ps| - i
  {
    if ps[i].kind == Furniture {
      UnitsCover(ps, complete, i + 1, j);
      assert Units(ps, complete, i) == Units(ps, complete, i + 1);
    } else if j == i {
      assert InUnit(Units(ps, complete, i), j, 0);
    } else {
      var m := Continue(ps, complete, i, ps[i].text, i + 1);
      var rest := Units(ps, complete, m.stop);
      assert Units(ps, complete, i) == [Unit(i, m)] + rest;
      if j < m.stop {
        ContinueSkipsOnlyFurniture(ps, complete, i, ps[i].text, i + 1);
        assert InUnit(Units(ps, complete, i), j, 0);
      } else {
        UnitsCover(ps, complete, m.stop, j);
        var k :| InUnit(rest, j, k);
        assert InUnit(Units(ps, complete, i), j, k + 1);
      }
    }
  }

  /** A numbered item is never appended to an earlier unit: it opens a unit of its own. */
  lemma ItemsOpenUnits(ps: seq<Para>, complete: string -> bool, i: nat, j: nat)
    requires i <= j < |ps| && ps[j].kind == Item
    ensures exists k :: 0 <= k < |Units(ps, complete, i)| && Units(ps, complete, i)[k].start == j
  {
    var us := Units(ps, complete, i);
    UnitsCover(ps, complete, i, j);
    var k :| InUnit(us, j, k);
    UnitsOrdered(ps, complete, i);
    var u := us[k];
    assert GoodUnit(ps, complete, u);
    ContinueSkipsOnlyFurniture(ps, complete, u.start, ps[u.start].text, u.start + 1);
    assert forall t :: 0 <= t < |u.merge.taken| ==> u.merge.taken[t] != j;
  }
  lemma UnitsSkip(ps: seq<Para>, complete: string -> bool, i: nat)
    requires i < |ps| && ps[i].kind == Furniture
    ensures Units(ps, complete, i) == Units(ps, complete, i + 1)
  {
  }

  lemma UnitsOpen(ps: seq<Para>, complete: string -> bool, i: nat)
    requires i < |ps| && ps[i].kind != Furniture
    ensures Units(ps, complete, i)
      == [Unit(i, Continue(ps, complete, i, ps[i].text, i + 1))]
        + Units(ps, complete, Continue(ps, complete, i, ps[i].text, i + 1).stop)
  {
  }

  lemma TextsCons(u: Unit, us: seq<Unit>)
    ensures Texts([u] + us) == [u.merge.text] + Texts(us)
  {
    assert ([u] + us)[1..] == us;
  }

  /**
   * The inner loop of the normalisation: extends the incomplete paragraph
   * `i` and reports where the outer scan resumes.
   */
  method ExtendUnit(rawParagraphs: seq<string>, i: nat, paragraph: string)
    returns (mergedParagraph: string, nextIndex: nat)
    requires i < |rawParagraphs| && paragraph == Prepare(rawParagraphs)[i].text
    ensures mergedParagraph == Continue(Prepare(rawParagraphs), IsComplete, i, paragraph, i + 1).text
    ensures nextIndex == Continue(Prepare(rawParagraphs), IsComplete, i, paragraph, i + 1).stop
  {
    hide KindOf, IsComplete, Strip, EndsWithAny, Continue, Prepare;
    ghost var ps := Prepare(rawParagraphs);
    ghost var target := Continue(ps, IsComplete, i, paragraph, i + 1);
    mergedParagraph := paragraph;
    nextIndex := i + 1;
    while nextIndex < |rawParagraphs| && !IsComplete(mergedParagraph)
      invariant i < nextIndex <= |rawParagraphs|
      invariant SameEnd(Continue(ps, IsComplete, i, mergedParagraph, nextIndex), target)
      decreases |rawParagraphs| - nextIndex
    {
      var nextPara, nextKind := NextParagraph(rawParagraphs, nextIndex);
      if nextKind == Furniture {
        StepSkip(ps, IsComplete, i, mergedParagraph, nextIndex);
        nextIndex := nextIndex + 1;
        continue;
      }
      if nextKind == Body {
        if nextIndex + 1 > i + MaxLookahead {
          StepCap(ps, IsComplete, i, mergedParagraph, nextIndex);
        } else {
          StepAppend(ps, IsComplete, i, mergedParagraph, nextIndex);
        }
        mergedParagraph := mergedParagraph + " " + nextPara;
        nextIndex := nextIndex + 1;
      } else {
        StepItem(ps, IsComplete, i, mergedParagraph, nextIndex);
        return;
      }
      if nextIndex > i + MaxLookahead {
        return;
      }
    }
    StepDone(ps, IsComplete, i, mergedParagraph, nextIndex);
  }

  /**
   * The normalisation loop of `find_similar_paragraph_in_target`: drop
   * furniture, keep a complete paragraph as it is, and extend an incomplete
   * one with the paragraphs that continue it, resuming after them.
   */
  method NormalizeTarget(targetText: string) returns (processedParagraphs: seq<string>)
    ensures processedParagraphs == NormalizeSpec(targetText)
  {
    hide KindOf, IsComplete, Strip, EndsWithAny, Continue, Prepare, Split, Units, Texts;
    var rawParagraphs := Split(targetText, ParagraphBreak);
    ghost var ps := Prepare(rawParagraphs);
    processedParagraphs := [];
    var i := 0;
    while i < |rawParagraphs|
      invariant i <= |rawParagraphs|
      invariant processedParagraphs + Texts(Units(ps, IsComplete, i)) == NormalizeSpec(targetText)
      decreases |rawParagraphs| - i
    {
      var paragraph, kind := NextParagraph(rawParagraphs, i);
      if kind == Furniture {
        UnitsSkip(ps, IsComplete, i);
        i := i + 1;
        continue;
      }
      ghost var target := Continue(ps, IsComplete, i, paragraph, i + 1);
      ghost var rest := Texts(Units(ps, IsComplete, target.stop));
      UnitsOpen(ps, IsComplete, i);
      TextsCons(Unit(i, target), Units(ps, IsComplete, target.stop));
      assert processedParagraphs + ([target.text] + rest) == NormalizeSpec(targetText);
      if !IsComplete(paragraph) {
        var mergedParagraph, nextIndex := ExtendUnit(rawParagraphs, i, paragraph);
        processedParagraphs := processedParagraphs + [mergedParagraph];
        i := nextIndex;
      } else {
        StepDone(ps, IsComplete, i, paragraph, i + 1);
        processedParagraphs := processedParagraphs + [paragraph];
        i := i + 1;
      }
      assert processedParagraphs + rest == NormalizeSpec(targetText);
    }
    UnitsEmptyIff(ps, IsComplete, i);
  }
  /** `text` begins with the stripped paragraph `s`, which is not furniture. */
  predicate OpenedBy(paras: seq<string>, s: int, text: string) {
    0 <= s < |paras| && !IsSeparatorOrNote(Strip(paras[s])) && Strip(paras[s]) <= text
  }

  /** Every unit's text begins with the stripped paragraph that opens it, and that paragraph is not furniture. */
  lemma NormalizeUnitOpens(targetText: string, k: nat)
    requires k < |NormalizeSpec(targetText)|
    ensures exists s :: OpenedBy(Paragraphs(targetText), s, NormalizeSpec(targetText)[k])
  {
    hide KindOf, IsSeparatorOrNote, IsComplete, Strip, Continue, Prepare, Split, Units, Texts;
    var paras := Paragraphs(targetText);
    var ps := Prepare(paras);
    var us := Units(ps, IsComplete, 0);
    UnitsOrdered(ps, IsComplete, 0);
    var u := us[k];
    assert GoodUnit(ps, IsComplete, u);
    PrepareAt(paras, u.start);
    ContinueText(ps, IsComplete, u.start, ps[u.start].text, u.start + 1);
    TextsAt(us, k);
    KindOfCases(Strip(paras[u.start]));
    assert OpenedBy(paras, u.start, NormalizeSpec(targetText)[k]);
  }

  /** The normalisation yields nothing exactly when every paragraph is furniture. */
  lemma NormalizeEmptyIff(targetText: string)
    ensures NormalizeSpec(targetText) == [] <==>
      forall j :: 0 <= j < |Paragraphs(targetText)| ==> IsSeparatorOrNote(Strip(Paragraphs(targetText)[j]))
  {
    hide KindOf, IsSeparatorOrNote, IsComplete, Strip, Continue, Prepare, Split, Units, Texts;
    var paras := Paragraphs(targetText);
    var ps := Prepare(paras);
    UnitsEmptyIff(ps, IsComplete, 0);
    forall j | 0 <= j < |paras|
      ensures ps[j].kind == Furniture <==> IsSeparatorOrNote(Strip(paras[j]))
    {
      PrepareAt(paras, j);
      KindOfCases(Strip(paras[j]));
    }
  }

  /** A numbered item opens a unit of its own: some unit's text begins with it. */
  lemma NormalizeItemOpens(targetText: string, j: nat)
    requires j < |Paragraphs(targetText)|
    requires !IsSeparatorOrNote(Strip(Paragraphs(targetText)[j])) && IsListMarker(Strip(Paragraphs(targetText)[j]))
    ensures exists k :: 0 <= k < |NormalizeSpec(targetText)|
                        && Strip(Paragraphs(targetText)[j]) <= NormalizeSpec(targetText)[k]
  {
    hide KindOf, IsSeparatorOrNote, IsListMarker, IsComplete, Strip, Continue, Prepare, Split, Units, Texts;
    var paras := Paragraphs(targetText);
    var ps := Prepare(paras);
    var us := Units(ps, IsComplete, 0);
    PrepareAt(paras, j);
    KindOfCases(Strip(paras[j]));
    ItemsOpenUnits(ps, IsComplete, 0, j);
    var k :| 0 <= k < |us| && us[k].start == j;
    UnitsOrdered(ps, IsComplete, 0);
    assert GoodUnit(ps, IsComplete, us[k]);
    ContinueText(ps, IsComplete, j, ps[j].text, j + 1);
    TextsAt(us, k);
    assert Strip(paras[j]) <= NormalizeSpec(targetText)[k];
  }
}
