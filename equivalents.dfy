/**
 * `getEquivalents_from_response`: the inner texts of the tagged spans in a
 * language-model answer, as `re.findall(r'<tag>(.*?)</tag>', response,
 * re.DOTALL)` returns them. termseeker looks for `<equivalent>` spans,
 * termun for `<EQUIVALENTTERM>` spans.
 */
module Equivalents {
  import opened Opt
  import opened Strings

  const EquivalentOpen: string := "<equivalent>"
  const EquivalentClose: string := "</equivalent>"
  const EquivalentTermOpen: string := "<EQUIVALENTTERM>"
  const EquivalentTermClose: string := "</EQUIVALENTTERM>"

  /**
   * Non-overlapping, shortest-first scrape of the spans between `open` and
   * `close`, scanning from position `from`. The leftmost span opens at the
   * first `open`; the lazy `.*?` (which also crosses newlines under DOTALL)
   * ends it at the first `close` after that, and the scan resumes behind the
   * `close`. When no `close` follows the first `open`, no later `open` has
   * one either, so nothing more is found.
   */
  function FindAllFrom(s: string, open: string, close: string, from: nat): seq<string>
    requires |open| > 0 && |close| > 0
    decreases |s| - from
  {
    var p := IndexOf(s, open, from);
    if p.None? then [] else
    var q := IndexOf(s, close, p.value + |open|);
    if q.None? then [] else
    [s[p.value + |open|..q.value]] + FindAllFrom(s, open, close, q.value + |close|)
  }

  /** `re.findall` over the whole response. */
  function FindAll(s: string, open: string, close: string): seq<string>
    requires |open| > 0 && |close| > 0
  {
    FindAllFrom(s, open, close, 0)
  }

  /** termseeker/utils.py `getEquivalents_from_response`. */
  function GetEquivalents(response: string): seq<string> {
    FindAll(response, EquivalentOpen, EquivalentClose)
  }

  /** termun/utils.py `getEquivalents_from_response`. */
  function GetEquivalentTerms(response: string): seq<string> {
    FindAll(response, EquivalentTermOpen, EquivalentTermClose)
  }

  /** One step of the scrape: the span found first, then the scrape behind it. */
  lemma FindAllStep(s: string, open: string, close: string, from: nat, p: nat, q: nat)
    requires |open| > 0 && |close| > 0
    requires IndexOf(s, open, from) == Some(p) && IndexOf(s, close, p + |open|) == Some(q)
    ensures from <= p && p + |open| <= q && q + |close| <= |s|
    ensures FindAllFrom(s, open, close, from) == [s[p + |open|..q]] + FindAllFrom(s, open, close, q + |close|)
  {
    hide IndexOf;
  }

  /** The scrape ends when no opening tag, or no closing tag after it, is left. */
  lemma FindAllEnd(s: string, open: string, close: string, from: nat)
    requires |open| > 0 && |close| > 0
    requires IndexOf(s, open, from).None? || IndexOf(s, close, IndexOf(s, open, from).value + |open|).None?
    ensures FindAllFrom(s, open, close, from) == []
  {
    hide IndexOf;
  }

  /** A response without an opening tag yields no terms. */
  lemma FindAllNoOpen(s: string, open: string, close: string)
    requires |open| > 0 && |close| > 0 && !Contains(s, open)
    ensures FindAll(s, open, close) == []
  {
    hide IndexOf;
  }

  /** An occurrence inside a slice is an occurrence in the whole text. */
  lemma AtSlice(s: string, a: nat, b: nat, t: string, j: nat)
    requires a <= b <= |s| && At(s[a..b], t, j)
    ensures At(s, t, a + j)
  {
    forall i | 0 <= i < |t| ensures s[a + j..a + j + |t|][i] == t[i] {
      assert t[i] == s[a..b][j..j + |t|][i] == s[a..b][j + i] == s[a + j + i];
    }
  }

  /** A term found is as short as possible: it never contains the closing tag. */
  lemma {:induction false} FindAllShortest(s: string, open: string, close: string, from: nat)
    requires |open| > 0 && |close| > 0
    ensures forall k :: 0 <= k < |FindAllFrom(s, open, close, from)| ==>
      !Contains(FindAllFrom(s, open, close, from)[k], close)
    decreases |s| - from
  {
    hide IndexOf, FindAllFrom;
    var p := IndexOf(s, open, from);
    if p.Some? {
      var q := IndexOf(s, close, p.value + |open|);
      if q.Some? {
        FindAllStep(s, open, close, from, p.value, q.value);
        var inner := s[p.value + |open|..q.value];
        FindAllShortest(s, open, close, q.value + |close|);
        forall j: nat | At(inner, close, j) ensures false {
          AtSlice(s, p.value + |open|, q.value, close, j);
        }
        ContainsIff(inner, close);
      } else {
        FindAllEnd(s, open, close, from);
      }
    } else {
      FindAllEnd(s, open, close, from);
    }
  }

  /** Every term found sits in the response between an opening and a closing tag. */
  lemma {:induction false} FindAllSound(s: string, open: string, close: string, from: nat)
    requires |open| > 0 && |close| > 0
    ensures forall k :: 0 <= k < |FindAllFrom(s, open, close, from)| ==>
      Contains(s, open + FindAllFrom(s, open, close, from)[k] + close)
    decreases |s| - from
  {
    hide IndexOf, FindAllFrom;
    var p := IndexOf(s, open, from);
    if p.Some? {
      var q := IndexOf(s, close, p.value + |open|);
      if q.Some? {
        FindAllStep(s, open, close, from, p.value, q.value);
        var inner := s[p.value + |open|..q.value];
        FindAllSound(s, open, close, q.value + |close|);
        assert s[p.value..q.value + |close|] == open + inner + close;
        assert At(s, open + inner + close, p.value);
        ContainsIff(s, open + inner + close);
      } else {
        FindAllEnd(s, open, close, from);
      }
    } else {
      FindAllEnd(s, open, close, from);
    }
  }

  /** A response written as one tagged span per term, back to back. */
  function Tagged(xs: seq<string>, open: string, close: string): string {
    if xs == [] then "" else open + xs[0] + close + Tagged(xs[1..], open, close)
  }

  /**
   * Scraping a response built from terms gives the terms back, provided no
   * term contains the first character of the closing tag (for both tags
   * used here, that is `<`); whatever comes before the scan position is ignored.
   */
  lemma {:induction false} FindAllTagged(pre: string, xs: seq<string>, open: string, close: string)
    requires |open| > 0 && |close| > 0
    requires forall k :: 0 <= k < |xs| ==> close[0] !in xs[k]
    ensures FindAllFrom(pre + Tagged(xs, open, close), open, close, |pre|) == xs
    decreases |xs|
  {
    hide IndexOf, FindAllFrom;
    var s := pre + Tagged(xs, open, close);
    if xs == [] {
      assert !At(s, open, |pre|);
      FindAllEnd(s, open, close, |pre|);
    } else {
      var x := xs[0];
      var rest := Tagged(xs[1..], open, close);
      var pre' := pre + open + x + close;
      assert s == pre' + rest;
      hide Tagged;
      var p := |pre|;
      var q := p + |open| + |x|;
      assert s[p..p + |open|] == open;
      assert s[p + |open|..q] == x;
      assert s[q..q + |close|] == close;
      TaggedSpan(s, p, open, x, close);
      FindAllStep(s, open, close, p, p, q);
      FindAllTagged(pre', xs[1..], open, close);
    }
  }


  /**
   * The scan from `p` finds the span `open + x + close` written at `p`,
   * since the first character of `close` does not occur in `x`.
   */
  lemma TaggedSpan(s: string, p: nat, open: string, x: string, close: string)
    requires |open| > 0 && |close| > 0 && close[0] !in x
    requires p + |open| + |x| + |close| <= |s|
    requires s[p..p + |open|] == open && s[p + |open|..p + |open| + |x|] == x
    requires s[p + |open| + |x|..p + |open| + |x| + |close|] == close
    ensures IndexOf(s, open, p) == Some(p)
    ensures IndexOf(s, close, p + |open|) == Some(p + |open| + |x|)
  {
    hide IndexOf;
    var a := p + |open|;
    var q := a + |x|;
    FirstAt(s, open, p, p);
    forall k | a <= k < q ensures !At(s, close, k) {
      assert s[k] == s[a..q][k - a];
    }
    FirstAt(s, close, a, q);
  }



  /** termseeker's scrape returns the terms of a response tagged with `<equivalent>`. */
  lemma GetEquivalentsRoundTrip(xs: seq<string>)
    requires forall k :: 0 <= k < |xs| ==> '<' !in xs[k]
    ensures GetEquivalents(Tagged(xs, EquivalentOpen, EquivalentClose)) == xs
  {
    FindAllTagged("", xs, EquivalentOpen, EquivalentClose);
    assert "" + Tagged(xs, EquivalentOpen, EquivalentClose) == Tagged(xs, EquivalentOpen, EquivalentClose);
  }

  /** termun's scrape returns the terms of a response tagged with `<EQUIVALENTTERM>`. */
  lemma GetEquivalentTermsRoundTrip(xs: seq<string>)
    requires forall k :: 0 <= k < |xs| ==> '<' !in xs[k]
    ensures GetEquivalentTerms(Tagged(xs, EquivalentTermOpen, EquivalentTermClose)) == xs
  {
    FindAllTagged("", xs, EquivalentTermOpen, EquivalentTermClose);
    assert "" + Tagged(xs, EquivalentTermOpen, EquivalentTermClose) == Tagged(xs, EquivalentTermOpen, EquivalentTermClose);
  }
}
