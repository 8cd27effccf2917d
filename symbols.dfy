/**
 * `cleanSymbols`: filters a list of UN document records and rewrites each
 * kept record's `docSymbol` in place. termseeker/utils.py filters on the
 * document type and title (when drafts are removed) and on whether the
 * document is available in several languages; termun/utils.py and
 * UNDOC_aligner/src/utils/clean_symbols.py filter on the document type only.
 */
module Symbols {
  import opened Opt
  import opened Strings
  import Segmenter

  /**
   * One record of the search results. Only `docSymbol` is ever written;
   * the fields the filters read never change, so they are constants.
   */
  class DocItem {
    const docType: string
    const docTitle: string
    /** `isMultiple`: True, False, or None (a missing value). */
    const isMultiple: Option<bool>
    var docSymbol: string

    constructor(docType: string, docTitle: string, isMultiple: Option<bool>, docSymbol: string)
      ensures this.docType == docType && this.docTitle == docTitle
      ensures this.isMultiple == isMultiple && this.docSymbol == docSymbol
    {
      this.docType := docType;
      this.docTitle := docTitle;
      this.isMultiple := isMultiple;
      this.docSymbol := docSymbol;
    }
  }

  /** Which copy of `cleanSymbols` runs. termun and UNDOC_aligner share one filter. */
  datatype Variant = TermSeeker | TermUn

  /** Whether the loop keeps a record (rather than reaching a `continue`). */
  predicate Keep(v: Variant, removeDrafts: bool, d: DocItem) {
    match v
    case TermUn =>
      !(removeDrafts && Contains(Lower(d.docType), "draft"))
    case TermSeeker =>
      !(removeDrafts && Contains(Lower(d.docType), "draft"))
      && !(removeDrafts && (Contains(Lower(d.docTitle), "draft") || Contains(Lower(d.docTitle), "letter")))
      && d.isMultiple == Some(true)
  }

  const HyphenSeparator: string := " - "

  /** The last piece of the left-to-right split of a symbol on `' - '`, or the whole symbol when there is none. */
  function LastSegment(sym: string): string {
    if Contains(sym, HyphenSeparator) then Last(Split(sym, HyphenSeparator)) else sym
  }

  /** The space removal: `' ('` becomes `'('`, then `') '` becomes `')'`, each in one pass. */
  function TightenParentheses(sym: string): string {
    if Contains(sym, " (") || Contains(sym, ") ") then Replace(Replace(sym, " (", "("), ") ", ")") else sym
  }

  /** The new `docSymbol` of a kept record. */
  function Rewrite(sym: string): string {
    TightenParentheses(LastSegment(sym))
  }

  /** `Rewrite` applied `n` times: what a record listed `n` times among the kept ones ends with. */
  function Repeat(sym: string, n: nat): string {
    if n == 0 then sym else Rewrite(Repeat(sym, n - 1))
  }

  lemma RepeatStep(sym: string, n: nat)
    ensures Repeat(sym, 0) == sym
    ensures Repeat(sym, n + 1) == Rewrite(Repeat(sym, n))
  {
  }

  /** The `maxResults` the loop compares against, counted the way the break after an append counts: `max(1, min(m, 50))`. */
  function ResultLimit(maxResults: int): nat {
    if maxResults > 50 then 50 else Segmenter.Limit(maxResults)
  }

  /** The positions below `n` of the records the filter keeps, in order. */
  function KeptBelow(items: seq<DocItem>, v: Variant, removeDrafts: bool, n: nat): (idx: seq<nat>)
    requires n <= |items|
  {
    if n == 0 then []
    else KeptBelow(items, v, removeDrafts, n - 1) + (if Keep(v, removeDrafts, items[n - 1]) then [n - 1] else [])
  }

  lemma {:induction false} KeptBelowBound(items: seq<DocItem>, v: Variant, removeDrafts: bool, n: nat)
    requires n <= |items|
    ensures Segmenter.AllBelow(KeptBelow(items, v, removeDrafts, n), n)
    ensures |KeptBelow(items, v, removeDrafts, n)| <= n
  {
    if n > 0 {
      KeptBelowBound(items, v, removeDrafts, n - 1);
    }
  }

  /** The kept positions are exactly those below `n` whose record passes the filter, in increasing order. */
  lemma {:induction false} KeptBelowSpec(items: seq<DocItem>, v: Variant, removeDrafts: bool, n: nat)
    requires n <= |items|
    ensures Segmenter.Increasing(KeptBelow(items, v, removeDrafts, n))
    ensures forall j :: 0 <= j < n ==> (j in KeptBelow(items, v, removeDrafts, n) <==> Keep(v, removeDrafts, items[j]))
  {
    hide Keep;
    if n > 0 {
      KeptBelowSpec(items, v, removeDrafts, n - 1);
      KeptBelowBound(items, v, removeDrafts, n - 1);
    }
  }

  lemma {:induction false} KeptBelowPrefix(items: seq<DocItem>, v: Variant, removeDrafts: bool, a: nat, b: nat)
    requires a <= b <= |items|
    ensures KeptBelow(items, v, removeDrafts, a) <= KeptBelow(items, v, removeDrafts, b)
    decreases b - a
  {
    if a < b {
      KeptBelowPrefix(items, v, removeDrafts, a, b - 1);
    }
  }

  /** The records at the given positions. */
  function Pick(items: seq<DocItem>, idx: seq<nat>): (r: seq<DocItem>)
    requires Segmenter.AllBelow(idx, |items|)
    ensures |r| == |idx|
  {
    seq(|idx|, k requires 0 <= k < |idx| => items[idx[k]])
  }

  /** One more position: the kept positions grow by it exactly when its record passes the filter. */
  lemma KeptBelowStep(items: seq<DocItem>, v: Variant, removeDrafts: bool, t: nat)
    requires t < |items|
    ensures KeptBelow(items, v, removeDrafts, t + 1) ==
      KeptBelow(items, v, removeDrafts, t) + (if Keep(v, removeDrafts, items[t]) then [t] else [])
  {
  }

  lemma KeptBelowNone(items: seq<DocItem>, v: Variant, removeDrafts: bool)
    ensures KeptBelow(items, v, removeDrafts, 0) == []
  {
  }

  lemma PickAppend(items: seq<DocItem>, idx: seq<nat>, t: nat)
    requires Segmenter.AllBelow(idx, |items|) && t < |items|
    ensures Segmenter.AllBelow(idx + [t], |items|)
    ensures Pick(items, idx + [t]) == Pick(items, idx) + [items[t]]
  {
  }

  /** The positions of the records `cleanSymbols` returns: the first `ResultLimit` kept ones. */
  function Chosen(items: seq<DocItem>, v: Variant, removeDrafts: bool, maxResults: int): (idx: seq<nat>)
    ensures Segmenter.AllBelow(idx, |items|)
  {
    KeptBelowBound(items, v, removeDrafts, |items|);
    var kept := KeptBelow(items, v, removeDrafts, |items|);
    if |kept| <= ResultLimit(maxResults) then kept else kept[..ResultLimit(maxResults)]
  }

  /** The list `cleanSymbols` returns: the chosen records themselves, not copies. */
  function CleanSpec(items: seq<DocItem>, v: Variant, removeDrafts: bool, maxResults: int): seq<DocItem> {
    Pick(items, Chosen(items, v, removeDrafts, maxResults))
  }

  /**
   * `cleanSymbols`. The returned list is `CleanSpec`; each record's new
   * symbol is its old one rewritten once per time the record occurs in the
   * returned list (once, when the input lists each record once).
   * The counters feed only a log line and are left out.
   */
  method CleanSymbols(inputDict: seq<DocItem>, v: Variant, removeDrafts: bool, maxResults: int)
    returns (cleanedDict: seq<DocItem>)
    modifies set o | o in inputDict
    ensures cleanedDict == CleanSpec(inputDict, v, removeDrafts, maxResults)
    ensures forall o :: o in inputDict ==> o.docSymbol == Repeat(old(o.docSymbol), multiset(cleanedDict)[o])
    ensures forall o :: o in inputDict && o !in cleanedDict ==> o.docSymbol == old(o.docSymbol)
    ensures Distinct(inputDict) ==> forall o :: o in cleanedDict ==> o.docSymbol == Rewrite(old(o.docSymbol))
  {
    hide Keep, Rewrite, Repeat, KeptBelow, Pick, Chosen;
    var limit := maxResults;
    if limit > 50 {
      limit := 50;
    }
    cleanedDict := [];
    KeptBelowBound(inputDict, v, removeDrafts, |inputDict|);
    KeptBelowNone(inputDict, v, removeDrafts);
    forall o | o in inputDict ensures o.docSymbol == Repeat(o.docSymbol, 0) {
      RepeatStep(o.docSymbol, 0);
    }
    var t := 0;
    ghost var stopped := false;
    while t < |inputDict|
      invariant t <= |inputDict|
      invariant Segmenter.AllBelow(KeptBelow(inputDict, v, removeDrafts, t), |inputDict|)
      invariant cleanedDict == Pick(inputDict, KeptBelow(inputDict, v, removeDrafts, t))
      invariant |cleanedDict| < ResultLimit(maxResults)
      invariant forall o :: o in inputDict ==> o.docSymbol == Repeat(old(o.docSymbol), multiset(cleanedDict)[o])
      decreases |inputDict| - t
    {
      var item := inputDict[t];
      KeptBelowStep(inputDict, v, removeDrafts, t);
      if !Keep(v, removeDrafts, item) {
        assert KeptBelow(inputDict, v, removeDrafts, t + 1) == KeptBelow(inputDict, v, removeDrafts, t);
        t := t + 1;
        continue;
      }
      var docSymbol := Rewrite(item.docSymbol);
      RepeatStep(old(item.docSymbol), multiset(cleanedDict)[item]);
      item.docSymbol := docSymbol;
      PickAppend(inputDict, KeptBelow(inputDict, v, removeDrafts, t), t);
      cleanedDict := cleanedDict + [item];
      if |cleanedDict| >= limit {
        ChosenAtLimit(inputDict, v, removeDrafts, maxResults, t + 1);
        stopped := true;
        break;
      }
      t := t + 1;
    }
    if !stopped {
      ChosenAll(inputDict, v, removeDrafts, maxResults);
    }
    assert cleanedDict == CleanSpec(inputDict, v, removeDrafts, maxResults);
    CleanFromInput(inputDict, v, removeDrafts, maxResults);
    hide *;
    forall o | o in inputDict
      ensures o !in cleanedDict ==> o.docSymbol == old(o.docSymbol)
      ensures Distinct(inputDict) && o in cleanedDict ==> o.docSymbol == Rewrite(old(o.docSymbol))
    {
      CleanRewrites(inputDict, v, removeDrafts, maxResults, o, old(o.docSymbol), o.docSymbol);
    }
  }

  /** Once the kept positions reach the limit, they are the chosen ones. */
  lemma ChosenAtLimit(items: seq<DocItem>, v: Variant, removeDrafts: bool, maxResults: int, n: nat)
    requires n <= |items| && |KeptBelow(items, v, removeDrafts, n)| == ResultLimit(maxResults)
    ensures Chosen(items, v, removeDrafts, maxResults) == KeptBelow(items, v, removeDrafts, n)
  {
    KeptBelowPrefix(items, v, removeDrafts, n, |items|);
  }

  /** When fewer than the limit are kept in all, every kept position is chosen. */
  lemma ChosenAll(items: seq<DocItem>, v: Variant, removeDrafts: bool, maxResults: int)
    requires |KeptBelow(items, v, removeDrafts, |items|)| < ResultLimit(maxResults)
    ensures Chosen(items, v, removeDrafts, maxResults) == KeptBelow(items, v, removeDrafts, |items|)
  {
  }

  // ---------------------------------------------------------------------
  // What cleanSymbols returns
  // ---------------------------------------------------------------------

  /** At most `max(1, min(maxResults, 50))` records come back, and fewer only when fewer pass the filter. */
  lemma CleanCount(items: seq<DocItem>, v: Variant, removeDrafts: bool, maxResults: int)
    ensures |CleanSpec(items, v, removeDrafts, maxResults)| <= ResultLimit(maxResults)
    ensures |CleanSpec(items, v, removeDrafts, maxResults)| < ResultLimit(maxResults) ==>
      |CleanSpec(items, v, removeDrafts, maxResults)| == |KeptBelow(items, v, removeDrafts, |items|)|
    ensures 1 <= ResultLimit(maxResults) <= 50
  {
  }

  /** The chosen positions are the first kept ones, in increasing order; they stop short of all kept ones only at the limit. */
  lemma ChosenSpec(items: seq<DocItem>, v: Variant, removeDrafts: bool, maxResults: int)
    ensures Chosen(items, v, removeDrafts, maxResults) <= KeptBelow(items, v, removeDrafts, |items|)
    ensures Segmenter.Increasing(Chosen(items, v, removeDrafts, maxResults))
    ensures |Chosen(items, v, removeDrafts, maxResults)| < |KeptBelow(items, v, removeDrafts, |items|)| ==>
      |Chosen(items, v, removeDrafts, maxResults)| == ResultLimit(maxResults)
  {
    hide Keep;
    KeptBelowSpec(items, v, removeDrafts, |items|);
  }

  /** The returned records pass the filter and keep their input order. */
  lemma CleanOrder(items: seq<DocItem>, v: Variant, removeDrafts: bool, maxResults: int)
    ensures Segmenter.Increasing(Chosen(items, v, removeDrafts, maxResults))
    ensures forall k :: 0 <= k < |Chosen(items, v, removeDrafts, maxResults)| ==>
      CleanSpec(items, v, removeDrafts, maxResults)[k] == items[Chosen(items, v, removeDrafts, maxResults)[k]]
      && Keep(v, removeDrafts, CleanSpec(items, v, removeDrafts, maxResults)[k])
  {
    hide Keep, Chosen;
    var kept := KeptBelow(items, v, removeDrafts, |items|);
    KeptBelowBound(items, v, removeDrafts, |items|);
    KeptBelowSpec(items, v, removeDrafts, |items|);
    ChosenSpec(items, v, removeDrafts, maxResults);
    var idx := Chosen(items, v, removeDrafts, maxResults);
    forall k | 0 <= k < |idx| ensures Keep(v, removeDrafts, items[idx[k]]) {
      assert idx[k] == kept[k];
      assert kept[k] in kept;
    }
  }

  /** No record that passes the filter is skipped, except after the limit is reached. */
  lemma CleanNoSkip(items: seq<DocItem>, v: Variant, removeDrafts: bool, maxResults: int, j: nat)
    requires j < |items| && Keep(v, removeDrafts, items[j])
    requires |Chosen(items, v, removeDrafts, maxResults)| < ResultLimit(maxResults)
      || j <= Last(Chosen(items, v, removeDrafts, maxResults))
    ensures j in Chosen(items, v, removeDrafts, maxResults)
  {
    hide Keep, Chosen;
    var kept := KeptBelow(items, v, removeDrafts, |items|);
    KeptBelowSpec(items, v, removeDrafts, |items|);
    ChosenSpec(items, v, removeDrafts, maxResults);
    var idx := Chosen(items, v, removeDrafts, maxResults);
    assert j in kept;
    var a :| 0 <= a < |kept| && kept[a] == j;
    if |idx| < |kept| {
      assert idx[a] == j;
    }
  }

  /**
   * Every returned record passes the filter, and when the limit is not
   * reached every record that passes it is returned.
   */
  lemma CleanFilters(items: seq<DocItem>, v: Variant, removeDrafts: bool, maxResults: int)
    ensures forall d :: d in CleanSpec(items, v, removeDrafts, maxResults) ==> Keep(v, removeDrafts, d)
    ensures |CleanSpec(items, v, removeDrafts, maxResults)| < ResultLimit(maxResults) ==>
      forall j :: 0 <= j < |items| && Keep(v, removeDrafts, items[j]) ==> items[j] in CleanSpec(items, v, removeDrafts, maxResults)
  {
    hide Keep;
    var idx := Chosen(items, v, removeDrafts, maxResults);
    var out := CleanSpec(items, v, removeDrafts, maxResults);
    CleanOrder(items, v, removeDrafts, maxResults);
    forall d | d in out ensures Keep(v, removeDrafts, d) {
      var k :| 0 <= k < |out| && out[k] == d;
    }
    if |out| < ResultLimit(maxResults) {
      forall j | 0 <= j < |items| && Keep(v, removeDrafts, items[j]) ensures items[j] in out {
        CleanNoSkip(items, v, removeDrafts, maxResults, j);
        var k :| 0 <= k < |idx| && idx[k] == j;
        assert out[k] == items[j];
      }
    }
  }

  /**
   * termun and UNDOC_aligner with `removeDrafts` return no record whose
   * lowercased type mentions drafts, and, short of the limit, every record
   * whose type does not.
   */
  lemma TermUnNoDrafts(items: seq<DocItem>, maxResults: int)
    ensures forall d :: d in CleanSpec(items, TermUn, true, maxResults) ==> !Contains(Lower(d.docType), "draft")
    ensures |CleanSpec(items, TermUn, true, maxResults)| < ResultLimit(maxResults) ==>
      forall j :: 0 <= j < |items| && !Contains(Lower(items[j].docType), "draft") ==>
        items[j] in CleanSpec(items, TermUn, true, maxResults)
  {
    CleanFilters(items, TermUn, true, maxResults);
    forall d: DocItem ensures Keep(TermUn, true, d) <==> !Contains(Lower(d.docType), "draft") {
      TermUnDrops(d);
    }
  }

  /**
   * termseeker returns only records available in several languages, and with
   * `removeDrafts` none whose type mentions drafts or whose title mentions
   * drafts or letters; short of the limit, every record that meets those tests is returned.
   */
  lemma TermSeekerReturns(items: seq<DocItem>, removeDrafts: bool, maxResults: int)
    ensures forall d :: d in CleanSpec(items, TermSeeker, removeDrafts, maxResults) ==> d.isMultiple == Some(true)
    ensures forall d :: d in CleanSpec(items, TermSeeker, true, maxResults) ==>
      !Contains(Lower(d.docType), "draft") && !Contains(Lower(d.docTitle), "draft") && !Contains(Lower(d.docTitle), "letter")
    ensures |CleanSpec(items, TermSeeker, true, maxResults)| < ResultLimit(maxResults) ==>
      forall j :: (0 <= j < |items| && items[j].isMultiple == Some(true) && !Contains(Lower(items[j].docType), "draft")
                   && !Contains(Lower(items[j].docTitle), "draft") && !Contains(Lower(items[j].docTitle), "letter")) ==>
        items[j] in CleanSpec(items, TermSeeker, true, maxResults)
  {
    CleanFilters(items, TermSeeker, removeDrafts, maxResults);
    CleanFilters(items, TermSeeker, true, maxResults);
    forall d: DocItem
      ensures Keep(TermSeeker, removeDrafts, d) ==> d.isMultiple == Some(true)
      ensures Keep(TermSeeker, true, d) <==>
        (d.isMultiple == Some(true) && !Contains(Lower(d.docType), "draft")
         && !Contains(Lower(d.docTitle), "draft") && !Contains(Lower(d.docTitle), "letter"))
    {
      TermSeekerDrops(d, removeDrafts);
    }
  }

  /** termun and UNDOC_aligner with `removeDrafts` return exactly the records whose type does not mention drafts. */
  lemma TermUnDrops(d: DocItem)
    ensures Keep(TermUn, true, d) <==> !Contains(Lower(d.docType), "draft")
  {
  }

  /**
   * termseeker never returns a record whose translations are missing, and
   * with `removeDrafts` none whose type mentions drafts or whose title mentions drafts or letters.
   */
  lemma TermSeekerDrops(d: DocItem, removeDrafts: bool)
    ensures Keep(TermSeeker, removeDrafts, d) ==> d.isMultiple == Some(true)
    ensures Keep(TermSeeker, true, d) <==>
      d.isMultiple == Some(true) && !Contains(Lower(d.docType), "draft")
      && !Contains(Lower(d.docTitle), "draft") && !Contains(Lower(d.docTitle), "letter")
    ensures Keep(TermSeeker, removeDrafts, d) ==> Keep(TermUn, removeDrafts, d)
  {
  }

  /** Positions strictly increasing and records pairwise distinct give pairwise distinct picks. */
  predicate Distinct(xs: seq<DocItem>) {
    forall a, b :: 0 <= a < b < |xs| ==> xs[a] != xs[b]
  }

  lemma {:induction false} DistinctCount(xs: seq<DocItem>, o: DocItem)
    requires Distinct(xs) && o in xs
    ensures multiset(xs)[o] == 1
  {
    var last := xs[|xs| - 1];
    var init := xs[..|xs| - 1];
    assert xs == init + [last];
    if o == last {
      assert o !in init;
    } else {
      DistinctCount(init, o);
    }
  }

  /** When the input lists each record once, each returned record's symbol is rewritten exactly once. */
  lemma CleanOnce(items: seq<DocItem>, v: Variant, removeDrafts: bool, maxResults: int, o: DocItem)
    requires Distinct(items) && o in CleanSpec(items, v, removeDrafts, maxResults)
    ensures multiset(CleanSpec(items, v, removeDrafts, maxResults))[o] == 1
  {
    hide Keep;
    var idx := Chosen(items, v, removeDrafts, maxResults);
    KeptBelowSpec(items, v, removeDrafts, |items|);
    assert idx <= KeptBelow(items, v, removeDrafts, |items|);
    var out := CleanSpec(items, v, removeDrafts, maxResults);
    forall a, b | 0 <= a < b < |out| ensures out[a] != out[b] {
      assert idx[a] < idx[b];
    }
    DistinctCount(out, o);
  }

  /** The returned records are records of the input. */
  lemma CleanFromInput(items: seq<DocItem>, v: Variant, removeDrafts: bool, maxResults: int)
    ensures forall d :: d in CleanSpec(items, v, removeDrafts, maxResults) ==> d in items
  {
    var out := CleanSpec(items, v, removeDrafts, maxResults);
    forall d | d in out ensures d in items {
      var k :| 0 <= k < |out| && out[k] == d;
    }
  }

  /**
   * What a record ends with, given that it is rewritten once per time it is
   * returned: a record not returned keeps its symbol, and when the input
   * lists each record once, a returned record has its symbol rewritten
   * exactly once.
   */
  lemma CleanRewrites(items: seq<DocItem>, v: Variant, removeDrafts: bool, maxResults: int,
                      o: DocItem, before: string, after: string)
    requires after == Repeat(before, multiset(CleanSpec(items, v, removeDrafts, maxResults))[o])
    ensures o !in CleanSpec(items, v, removeDrafts, maxResults) ==> after == before
    ensures Distinct(items) && o in CleanSpec(items, v, removeDrafts, maxResults) ==> after == Rewrite(before)
  {
    hide CleanSpec, Rewrite;
    if Distinct(items) && o in CleanSpec(items, v, removeDrafts, maxResults) {
      CleanOnce(items, v, removeDrafts, maxResults, o);
      RepeatOnce(before);
    }
  }

  /** Rewriting once is `Repeat` with a count of one. */
  lemma RepeatOnce(sym: string)
    ensures Repeat(sym, 1) == Rewrite(sym)
  {
  }

  // ---------------------------------------------------------------------
  // The symbol rewrite
  // ---------------------------------------------------------------------

  /** A symbol with neither `' - '`, `' ('` nor `') '` is left as it is. */
  lemma RewriteUnchanged(sym: string)
    requires !Contains(sym, HyphenSeparator) && !Contains(sym, " (") && !Contains(sym, ") ")
    ensures Rewrite(sym) == sym
  {
  }

  /** The last piece of a join of two or more pieces follows the last separator. */
  lemma {:induction false} JoinLast(xs: seq<string>, sep: string)
    requires |xs| >= 2
    ensures Join(xs, sep) == Join(xs[..|xs| - 1], sep) + sep + Last(xs)
    decreases |xs|
  {
    if |xs| > 2 {
      JoinLast(xs[1..], sep);
      assert xs[1..][..|xs| - 2] == xs[..|xs| - 1][1..];
    }
  }

  /** The last piece of a split follows the last separator and holds none. */
  lemma LastPiece(s: string, sep: string)
    requires |sep| > 0 && Contains(s, sep)
    ensures |Split(s, sep)| >= 2
    ensures EndsWith(s, sep + Last(Split(s, sep)))
    ensures !Contains(Last(Split(s, sep)), sep)
  {
    hide Split, Join, IndexOf, Contains;
    var pieces := Split(s, sep);
    SplitSeveral(s, sep);
    SplitJoin(s, sep);
    SplitPieces(s, sep);
    JoinLast(pieces, sep);
    assert !Contains(pieces[|pieces| - 1], sep);
    var head := Join(pieces[..|pieces| - 1], sep);
    var tail := sep + Last(pieces);
    assert s == head + tail;
    assert s[|s| - |tail|..] == tail;
  }

  /**
   * With a `' - '` in the symbol, what is kept is the last piece of its
   * left-to-right split on `' - '`: the symbol ends with `' - '` and that
   * piece, which holds no `' - '`. With overlapping separators this is not the
   * text after the last occurrence: `"X - - Y"` keeps `"- Y"`.
   */
  lemma LastSegmentSpec(sym: string)
    requires Contains(sym, HyphenSeparator)
    ensures EndsWith(sym, HyphenSeparator + LastSegment(sym))
    ensures !Contains(LastSegment(sym), HyphenSeparator)
  {
    LastPiece(sym, HyphenSeparator);
  }

  /** Without a `' - '` the whole symbol goes on to the space removal. */
  lemma LastSegmentAbsent(sym: string)
    requires !Contains(sym, HyphenSeparator)
    ensures LastSegment(sym) == sym
  {
  }

  /** Each space removal is Python's `replace`, a join of the pieces around the pattern. */
  lemma TightenIsJoin(sym: string)
    requires Contains(sym, " (") || Contains(sym, ") ")
    ensures TightenParentheses(sym) == Join(Split(Join(Split(sym, " ("), "("), ") "), ")")
  {
    ReplaceIsJoinOfSplit(sym, " (", "(");
    ReplaceIsJoinOfSplit(Replace(sym, " (", "("), ") ", ")");
  }
}
