/**
 * `get_un_document_urls`: the download address of a UN document in each
 * of the six official languages (src/utils/document_urls.py, with
 * identical copies in termseeker/utils.py and termun/utils.py).
 */
module Urls {
  import opened Opt
  import opened Strings

  /** The official languages and their one-letter codes, in the order the dictionary lists them. */
  const Languages: seq<(string, string)> :=
    [("Arabic", "A"), ("Chinese", "C"), ("English", "E"), ("French", "F"), ("Russian", "R"), ("Spanish", "S")]

  const LanguageNames: set<string> := {"Arabic", "Chinese", "English", "French", "Russian", "Spanish"}

  /** The template around its two placeholders. */
  const Host: string := "https://daccess-ods.un.org"
  const Agent: string := "/access.nsf/Get?OpenAgent&DS="
  const DsPrefix: string := Host + Agent
  const LangField: string := "&Lang="

  const Placeholder: string := "{}"

  /** `https://daccess-ods.un.org/access.nsf/Get?OpenAgent&DS={}&Lang={}` */
  const BaseUrl: string := DsPrefix + Placeholder + LangField + Placeholder

  /**
   * `template.format(*args)` for a template whose only braces are `{}`
   * placeholders: each is replaced by the next argument, extra arguments
   * are ignored, and too few arguments is the IndexError (None).
   */
  function Format(template: string, args: seq<string>): Option<string>
    decreases |template|
  {
    match IndexOf(template, Placeholder, 0)
    case None => Some(template)
    case Some(k) =>
      if args == [] then None
      else
        match Format(template[k + |Placeholder|..], args[1..])
        case None => None
        case Some(r) => Some(template[..k] + args[0] + r)
  }

  /** A text without braces formats to itself. */
  lemma FormatPlain(text: string, args: seq<string>)
    requires '{' !in text
    ensures Format(text, args) == Some(text)
  {
    hide IndexOf;
    NoneBefore(text, Placeholder, 0, |text|);
    assert text[0..|text|] == text;
    assert IndexOf(text, Placeholder, 0) == None;
  }

  /** The first placeholder, after a brace-free lead, takes the first argument. */
  lemma FormatFirst(lead: string, rest: string, arg: string, more: seq<string>)
    requires '{' !in lead
    ensures Format(lead + Placeholder + rest, [arg] + more) ==
      (match Format(rest, more) case None => None case Some(r) => Some(lead + arg + r))
  {
    hide IndexOf;
    var t := lead + Placeholder + rest;
    assert t[0..|lead|] == lead;
    NoneBefore(t, Placeholder, 0, |lead|);
    assert t[|lead|..|lead| + |Placeholder|] == Placeholder;
    FirstAt(t, Placeholder, 0, |lead|);
    assert t[..|lead|] == lead;
    assert t[|lead| + |Placeholder|..] == rest;
    assert ([arg] + more)[1..] == more;
  }

  /** Outside its two placeholders the template has no brace. */
  lemma BracesOnlyInPlaceholders()
    ensures '{' !in DsPrefix && '{' !in LangField
  {
    assert '{' !in Host;
    assert '{' !in Agent;
  }

  /** The template (which has no other brace) filled with a symbol and a code: the symbol goes in verbatim. */
  lemma FormatBaseUrl(symbol: string, code: string)
    ensures Format(BaseUrl, [symbol, code]) == Some(DsPrefix + symbol + LangField + code)
  {
    hide Format;
    BracesOnlyInPlaceholders();
    var tail := LangField + Placeholder;
    FormatPlain("", []);
    FormatFirst(LangField, "", code, []);
    assert LangField + Placeholder + "" == tail;
    assert [code] + [] == [code];
    assert Format(tail, [code]) == Some(LangField + code + "");
    FormatFirst(DsPrefix, tail, symbol, [code]);
    assert BaseUrl == DsPrefix + Placeholder + tail;
    assert [symbol] + [code] == [symbol, code];
    assert DsPrefix + symbol + (LangField + code + "") == DsPrefix + symbol + LangField + code;
  }

  /** The address of `symbol` in the language with code `code`. */
  function Url(symbol: string, code: string): (u: string)
    ensures Format(BaseUrl, [symbol, code]) == Some(u)
  {
    FormatBaseUrl(symbol, code);
    DsPrefix + symbol + LangField + code
  }

  /** The language names are distinct, and so are the codes, each a single letter. */
  lemma LanguagesDistinct()
    ensures forall i, j :: 0 <= i < j < |Languages| ==> Languages[i].0 != Languages[j].0
    ensures forall i, j :: 0 <= i < j < |Languages| ==> Languages[i].1 != Languages[j].1
    ensures forall i :: 0 <= i < |Languages| ==> |Languages[i].1| == 1
  {
    assert forall i :: 0 <= i < |Languages| ==> Languages[i].0[0] == Languages[i].1[0];
  }

  /** The names of the first `t` languages. */
  function NamesBelow(t: nat): set<string>
    requires t <= |Languages|
  {
    set i | 0 <= i < t :: Languages[i].0
  }

  /** A language's name is not among the names listed before it. */
  lemma NameIsNew(t: nat)
    requires t < |Languages|
    ensures Languages[t].0 !in NamesBelow(t)
  {
    LanguagesDistinct();
  }

  /** The dictionary of the first `t` languages, each under its name. */
  predicate FilledBelow(urls: map<string, string>, symbol: string, t: nat)
    requires t <= |Languages|
  {
    && urls.Keys == NamesBelow(t)
    && forall i :: 0 <= i < t ==> urls[Languages[i].0] == Url(symbol, Languages[i].1)
  }

  /** Entering the next language under its name fills one more. */
  lemma FillStep(urls: map<string, string>, symbol: string, t: nat)
    requires t < |Languages| && FilledBelow(urls, symbol, t)
    ensures FilledBelow(urls[Languages[t].0 := Url(symbol, Languages[t].1)], symbol, t + 1)
  {
    hide Url;
    NameIsNew(t);
    assert NamesBelow(t + 1) == NamesBelow(t) + {Languages[t].0};
  }

  /** A dictionary filled for all languages has the six names as its keys. */
  lemma FilledAll(urls: map<string, string>, symbol: string)
    requires FilledBelow(urls, symbol, |Languages|)
    ensures urls.Keys == LanguageNames
    ensures forall i :: 0 <= i < |Languages| ==> urls[Languages[i].0] == Url(symbol, Languages[i].1)
  {
    AllNames();
  }

  /** All six languages give exactly the six names. */
  lemma AllNames()
    ensures NamesBelow(|Languages|) == LanguageNames
  {
    assert Languages[0].0 in NamesBelow(|Languages|);
    assert Languages[1].0 in NamesBelow(|Languages|);
    assert Languages[2].0 in NamesBelow(|Languages|);
    assert Languages[3].0 in NamesBelow(|Languages|);
    assert Languages[4].0 in NamesBelow(|Languages|);
    assert Languages[5].0 in NamesBelow(|Languages|);
  }

  /**
   * `get_un_document_urls`: the dictionary is filled one language at a
   * time; it ends with exactly the six names, each mapped to the template
   * filled with the symbol and that language's code.
   */
  method GetUnDocumentUrls(documentSymbol: string) returns (urls: map<string, string>)
    ensures urls.Keys == LanguageNames
    ensures forall i :: 0 <= i < |Languages| ==> urls[Languages[i].0] == Url(documentSymbol, Languages[i].1)
  {
    urls := map[];
    var t := 0;
    assert FilledBelow(urls, documentSymbol, 0);
    hide Url, Format, FilledBelow;
    while t < |Languages|
      invariant t <= |Languages|
      invariant FilledBelow(urls, documentSymbol, t)
      decreases |Languages| - t
    {
      var (languageName, languageCode) := Languages[t];
      ghost var u := Url(documentSymbol, languageCode);
      FillStep(urls, documentSymbol, t);
      var url := Format(BaseUrl, [documentSymbol, languageCode]).value;
      urls := urls[languageName := url];
      t := t + 1;
    }
    FilledAll(urls, documentSymbol);
  }

  /** An address determines both the symbol and the language code it was built from. */
  lemma UrlInjective(s1: string, c1: string, s2: string, c2: string)
    requires |c1| == 1 && |c2| == 1
    requires Url(s1, c1) == Url(s2, c2)
    ensures s1 == s2 && c1 == c2
  {
    var u := Url(s1, c1);
    assert |s1| == |s2|;
    assert s1 == u[|DsPrefix|..|DsPrefix| + |s1|];
    assert s2 == Url(s2, c2)[|DsPrefix|..|DsPrefix| + |s2|];
    assert [c1[0]] == c1 && [c2[0]] == c2;
    assert c1[0] == u[|u| - 1] == c2[0];
  }

  /** The addresses of one document differ from language to language. */
  lemma UrlsDiffer(symbol: string, i: nat, j: nat)
    requires i < j < |Languages|
    ensures Url(symbol, Languages[i].1) != Url(symbol, Languages[j].1)
  {
    LanguagesDistinct();
    if Url(symbol, Languages[i].1) == Url(symbol, Languages[j].1) {
      UrlInjective(symbol, Languages[i].1, symbol, Languages[j].1);
    }
  }
}
