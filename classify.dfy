/**
 * The paragraph classifiers of the segmenter: which paragraphs are page
 * furniture (blank lines, page numbers, document-job footers, rules and
 * "other notes"), which texts end a sentence, and which paragraphs open a
 * numbered list item. Each Python regex is written out as a function over
 * the characters; `re.match` anchors at the start only, so the prefix
 * patterns accept any text after the matched part.
 */
module Classify {
  import opened Strings

  /** The length of the run of digits at the start of `s` (the greedy `\d+` or `\d*`). */
  function LeadingDigits(s: string): (n: nat)
    ensures n <= |s|
    ensures forall i :: 0 <= i < n ==> IsDigit(s[i])
    ensures n == |s| || !IsDigit(s[n])
  {
    if |s| > 0 && IsDigit(s[0]) then 1 + LeadingDigits(s[1..]) else 0
  }

  predicate AllDigits(s: string) {
    forall i :: 0 <= i < |s| ==> IsDigit(s[i])
  }

  /** `re.match(r'\s*\*\*\d+\*\*\s*', p)`: a bold page number such as `**12**`. */
  predicate PageNumberPrefix(p: string) {
    var t := TrimLeft(p);
    StartsWith(t, "**") && LeadingDigits(t[2..]) > 0 && StartsWith(t[2..][LeadingDigits(t[2..])..], "**")
  }

  /** `re.match(r'\s*K\d{7}\s\d{6}\s*', p)`: a document-job footer such as `K2101234 150321`. */
  predicate FootnotePrefix(p: string) {
    var t := TrimLeft(p);
    |t| >= 15 && t[0] == 'K' && AllDigits(t[1..8]) && IsSpace(t[8]) && AllDigits(t[9..15])
  }

  /** `re.match(r'\s*-+\s*', p)`: a horizontal rule, or any paragraph opening with a dash. */
  predicate DashPrefix(p: string) {
    var t := TrimLeft(p);
    |t| > 0 && t[0] == '-'
  }

  /** The line `$` can close on: the whole text, or the text before one final newline. */
  function LastLine(p: string): string {
    if |p| > 0 && p[|p| - 1] == '\n' then p[..|p| - 1] else p
  }

  /**
   * `re.match(r'^(?:\*\*.*\/.*\*\*|\*\*.*\/.*\d$|\d.*\/.*\*\*)$', p)`: a one-line
   * note with a slash, framed by `**` or by a digit (`**A/75/1**`, `1/2**`).
   * `.` does not match a newline, so the note must be a single line.
   */
  predicate OtherNote(p: string) {
    var l := LastLine(p);
    '\n' !in l &&
    ( (|l| >= 5 && l[..2] == "**" && l[|l| - 2..] == "**" && '/' in l[2..|l| - 2])
    || (|l| >= 4 && l[..2] == "**" && IsDigit(l[|l| - 1]) && '/' in l[2..|l| - 1])
    || (|l| >= 4 && IsDigit(l[0]) && l[|l| - 2..] == "**" && '/' in l[1..|l| - 2]) )
  }

  /** `is_separator_or_note`: a paragraph the continuation merge skips. */
  predicate IsSeparatorOrNote(p: string) {
    Strip(p) == "" || PageNumberPrefix(p) || FootnotePrefix(p) || OtherNote(p) || DashPrefix(p)
  }

  /** `re.match(r'\s*\d+\.\s', p)`: a paragraph that opens a numbered item such as `12. `. */
  predicate IsListMarker(p: string) {
    var t := TrimLeft(p);
    var d := LeadingDigits(t);
    d > 0 && d + 1 < |t| && t[d] == '.' && IsSpace(t[d + 1])
  }

  /** The sentence terminators of `is_complete_sentence`, in the order the source lists them. */
  const Terminators: seq<string> :=
    [".", "!", "?", ".)", ".", "».", ".\")", ":]", "؟", "।", "。", "．"]

  /** The loop over the terminator list: does `t` end with one of `ps`? */
  function EndsWithAny(t: string, ps: seq<string>): (r: bool)
    ensures r <==> exists p :: p in ps && EndsWith(t, p)
  {
    if ps == [] then false
    else EndsWith(t, ps[0]) || EndsWithAny(t, ps[1..])
  }

  /** `is_complete_sentence`: the stripped text is non-empty and ends with a terminator. */
  function IsComplete(text: string): (r: bool)
    ensures r <==> Strip(text) != "" && exists p :: p in Terminators && EndsWith(Strip(text), p)
  {
    var t := Strip(text);
    t != "" && EndsWithAny(t, Terminators)
  }

  /** Leading whitespace is exactly what `\s*` and `lstrip` consume. */
  lemma {:induction false} TrimLeftBlankPrefix(ws: string, x: string)
    requires IsBlank(ws)
    requires x == [] || !IsSpace(x[0])
    ensures TrimLeft(ws + x) == x
    decreases |ws|
  {
    if ws != [] {
      assert (ws + x)[1..] == ws[1..] + x;
      TrimLeftBlankPrefix(ws[1..], x);
    }
  }

  /** A run of digits followed by a non-digit is read whole by `\d+`. */
  lemma {:induction false} LeadingDigitsRun(d: string, x: string)
    requires AllDigits(d)
    requires x == [] || !IsDigit(x[0])
    ensures LeadingDigits(d + x) == |d|
    decreases |d|
  {
    if d != [] {
      assert (d + x)[1..] == d[1..] + x;
      LeadingDigitsRun(d[1..], x);
    }
  }

  /** Blank paragraphs are skipped. */
  lemma BlankIsSeparator(p: string)
    requires IsBlank(p)
    ensures IsSeparatorOrNote(p)
  {
    StripShape(p);
  }

  /** Any paragraph that opens with a bold page number is skipped, whatever follows it. */
  lemma PageNumberOpens(ws: string, digits: string, rest: string)
    requires IsBlank(ws) && |digits| > 0 && AllDigits(digits)
    ensures PageNumberPrefix(ws + "**" + digits + "**" + rest)
    ensures IsSeparatorOrNote(ws + "**" + digits + "**" + rest)
  {
    var tail := "**" + rest;
    var x := "**" + (digits + tail);
    assert ws + "**" + digits + "**" + rest == ws + x;
    TrimLeftBlankPrefix(ws, x);
    assert x[..2] == "**";
    assert x[2..] == digits + tail;
    LeadingDigitsRun(digits, tail);
    assert (digits + tail)[|digits|..] == tail;
    assert PageNumberPrefix(ws + x);
  }

  /** Any paragraph that opens with a document-job footer `K<7 digits> <6 digits>` is skipped. */
  lemma FootnoteOpens(ws: string, job: string, gap: char, date: string, rest: string)
    requires IsBlank(ws) && |job| == 7 && AllDigits(job) && IsSpace(gap)
    requires |date| == 6 && AllDigits(date)
    ensures FootnotePrefix(ws + "K" + job + [gap] + date + rest)
    ensures IsSeparatorOrNote(ws + "K" + job + [gap] + date + rest)
  {
    var x := "K" + job + [gap] + date + rest;
    assert ws + "K" + job + [gap] + date + rest == ws + x;
    TrimLeftBlankPrefix(ws, x);
    assert x[1..8] == job;
    assert x[9..15] == date;
  }

  /** Any paragraph that opens with a dash is skipped, even when text follows the dashes. */
  lemma DashOpens(ws: string, rest: string)
    requires IsBlank(ws)
    ensures DashPrefix(ws + "-" + rest)
    ensures IsSeparatorOrNote(ws + "-" + rest)
  {
    var x := "-" + rest;
    assert ws + "-" + rest == ws + x;
    TrimLeftBlankPrefix(ws, x);
  }

  /** A single line framed by `**` with a slash inside, such as `**A/75/1**`, is an "other note". */
  lemma SlashNoteIsNote(a: string, b: string)
    requires '\n' !in a && '\n' !in b
    ensures OtherNote("**" + a + "/" + b + "**")
    ensures IsSeparatorOrNote("**" + a + "/" + b + "**")
  {
    var inner := a + "/" + b;
    var p := "**" + inner + "**";
    assert "**" + a + "/" + b + "**" == p;
    assert p[|p| - 1] == '*';
    assert LastLine(p) == p;
    assert p[..2] == "**" && p[|p| - 2..] == "**";
    assert p[2..|p| - 2] == inner;
    assert inner[|a|] == '/';
    assert '\n' !in inner;
  }

  /** A paragraph opening with `<digits>.` and a whitespace character is a list item. */
  lemma ListMarkerOpens(ws: string, digits: string, gap: char, rest: string)
    requires IsBlank(ws) && |digits| > 0 && AllDigits(digits) && IsSpace(gap)
    ensures IsListMarker(ws + digits + "." + [gap] + rest)
  {
    var tail := "." + ([gap] + rest);
    var x := digits + tail;
    assert ws + digits + "." + [gap] + rest == ws + x;
    assert x[0] == digits[0];
    TrimLeftBlankPrefix(ws, x);
    LeadingDigitsRun(digits, tail);
    assert x[|digits|] == tail[0] == '.';
    assert x[|digits| + 1] == tail[1] == gap;
  }

  lemma EndsWithChar(t: string, c: char)
    requires t != []
    ensures EndsWith(t, [c]) <==> t[|t| - 1] == c
  {
    assert t[|t| - 1..] == [t[|t| - 1]];
  }

  /** The terminator list reduced to what it decides: the last one or two characters. */
  lemma CompleteByLastCharacters(text: string)
    ensures IsComplete(text) <==>
      var t := Strip(text);
      t != "" &&
      (t[|t| - 1] in {'.', '!', '?', '؟', '।', '。', '．'}
       || EndsWith(t, ".)") || EndsWith(t, ".\")") || EndsWith(t, ":]"))
  {
    hide Strip;
    var t := Strip(text);
    if t != "" {
      EndsWithChar(t, '.');
      EndsWithChar(t, '!');
      EndsWithChar(t, '?');
      EndsWithChar(t, '؟');
      EndsWithChar(t, '।');
      EndsWithChar(t, '。');
      EndsWithChar(t, '．');
      if EndsWith(t, "».") {
        assert t[|t| - 2..][1] == t[|t| - 1];
      }
      assert (exists p :: p in Terminators && EndsWith(t, p)) <==>
        EndsWith(t, ".") || EndsWith(t, "!") || EndsWith(t, "?") || EndsWith(t, ".)")
        || EndsWith(t, "».") || EndsWith(t, ".\")") || EndsWith(t, ":]") || EndsWith(t, "؟")
        || EndsWith(t, "।") || EndsWith(t, "。") || EndsWith(t, "．");
    }
  }
}
