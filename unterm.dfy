/**
 * `consolidate_UNTermResults` and `report_missing_translations`
 * (termun/askTermBases.py): the rows of a UNTERM search are merged into one
 * main term per official language, the source entry those terms came from,
 * and, for each language other than English, the synonyms and the similar
 * terms met on the way; the report then lists what is still missing.
 */
module UNTerm {
  import opened Opt
  import opened Strings

  /** The six official languages, in the order the consolidator visits them. */
  const Languages: seq<string> := ["English", "French", "Spanish", "Russian", "Chinese", "Arabic"]

  /** The languages that get a `<Lang>Synonyms` group, in order. */
  const SynonymLanguages: seq<string> := ["French", "Spanish", "Russian", "Chinese", "Arabic"]

  /** The duty stations that priorities 2 and 4 accept besides UNHQ. */
  const StationSources: seq<string> := ["UNON", "UNEP", "UNOG"]

  /** The terms a row gives in one language; a missing `preferred` or `admitted` list is empty. */
  datatype TermEntry = TermEntry(preferred: seq<string>, admitted: seq<string>)

  /** A row's `UNTerm_Source`: its duty station and its subject tags. */
  datatype Source = Source(source: string, tags: seq<string>)

  /** One result row: the terms per language, and its source. */
  datatype Row = Row(terms: map<string, TermEntry>, source: Source)

  /** A `<Lang>Synonyms` entry: `{"Synonyms": [...], "Similar": [...]}`. */
  datatype SynGroup = SynGroup(synonyms: seq<string>, similar: seq<string>)

  /**
   * The consolidated dictionary: the main term per language, `UNTerm_Source`,
   * and the `<Lang>Synonyms` entries, keyed here by the language itself.
   */
  datatype Consolidated = Consolidated(main: map<string, string>, source: Option<Source>, groups: map<string, SynGroup>)

  /** The two lists of `missing_translations`. */
  datatype Report = Report(missingPreferred: seq<string>, missingSynonyms: seq<string>)

  lemma LanguagesDistinct()
    ensures forall i, j :: 0 <= i < j < |Languages| ==> Languages[i] != Languages[j]
    ensures forall i, j :: 0 <= i < j < |SynonymLanguages| ==> SynonymLanguages[i] != SynonymLanguages[j]
    ensures forall lang :: lang in SynonymLanguages ==> lang in Languages
  {
    assert forall i :: 0 <= i < |Languages| ==> Languages[i][0] == "EFSRCA"[i];
    assert forall i :: 0 <= i < |SynonymLanguages| ==> SynonymLanguages[i] == Languages[i + 1];
  }

  // ---------------------------------------------------------------------
  // The five priorities
  // ---------------------------------------------------------------------

  /** Some non-empty term equals `text`, ignoring case. */
  predicate ExactIn(terms: seq<string>, text: string) {
    exists i :: 0 <= i < |terms| && terms[i] != "" && Lower(terms[i]) == Lower(text)
  }

  /** Some non-empty term contains `text`, ignoring case. */
  predicate PartIn(terms: seq<string>, text: string) {
    exists i :: 0 <= i < |terms| && terms[i] != "" && Contains(Lower(terms[i]), Lower(text))
  }

  /** Some tag mentions `Environment` or `UNEP`. */
  predicate EnvironmentTag(tags: seq<string>) {
    exists i :: 0 <= i < |tags| && (Contains(tags[i], "Environment") || Contains(tags[i], "UNEP"))
  }

  /**
   * Priority 1: exact English preferred term from UNHQ; 2: the same from
   * UNON, UNEP or UNOG; 3: an English preferred term containing the text,
   * from UNHQ; 4: an English preferred or admitted term containing the text,
   * from those stations or with an environment tag; 5: an exact English
   * preferred or admitted term from anywhere.
   */
  predicate Matches(priority: nat, row: Row, text: string)
    requires 1 <= priority <= 5
  {
    && "English" in row.terms
    && var en := row.terms["English"];
       var station := row.source.source;
       if priority == 1 then ExactIn(en.preferred, text) && station == "UNHQ"
       else if priority == 2 then ExactIn(en.preferred, text) && station in StationSources
       else if priority == 3 then PartIn(en.preferred, text) && station == "UNHQ"
       else if priority == 4 then
         PartIn(en.preferred + en.admitted, text) && (station in StationSources || EnvironmentTag(row.source.tags))
       else ExactIn(en.preferred + en.admitted, text)
  }

  /** The rows meeting one priority, in data order. */
  function Select(data: seq<Row>, priority: nat, text: string): seq<Row>
    requires 1 <= priority <= 5
  {
    if data == [] then []
    else
      var last := data[|data| - 1];
      Select(data[..|data| - 1], priority, text) + (if Matches(priority, last, text) then [last] else [])
  }

  /** The rows of priorities `lo` up to `hi - 1`, priority by priority. */
  function Selected(data: seq<Row>, text: string, lo: nat, hi: nat): seq<Row>
    requires 1 <= lo && hi <= 6
    decreases hi
  {
    if hi <= lo then [] else Selected(data, text, lo, hi - 1) + Select(data, hi - 1, text)
  }

  lemma SelectedStep(data: seq<Row>, text: string, lo: nat, hi: nat)
    requires 1 <= lo <= hi <= 5
    ensures Selected(data, text, lo, hi + 1) == Selected(data, text, lo, hi) + Select(data, hi, text)
  {
  }

  /** The rows that fill main terms and synonyms: all priority-1 rows, then all priority-2 rows. */
  function MainRows(data: seq<Row>, text: string): seq<Row> {
    Select(data, 1, text) + Select(data, 2, text)
  }

  /** The rows that give similar terms: priorities 3, 4 and 5 in turn (a row may come more than once). */
  function SimilarRows(data: seq<Row>, text: string): seq<Row> {
    Select(data, 3, text) + Select(data, 4, text) + Select(data, 5, text)
  }

  /** A row is selected for a priority exactly when it is in the data and meets it. */
  lemma {:induction false} SelectMembers(data: seq<Row>, priority: nat, text: string)
    requires 1 <= priority <= 5
    ensures forall row :: row in Select(data, priority, text) <==> row in data && Matches(priority, row, text)
    decreases |data|
  {
    if data != [] {
      var init := data[..|data| - 1];
      SelectMembers(init, priority, text);
      assert data == init + [data[|data| - 1]];
    }
  }

  /** Priority 1 and priority 2 exclude each other, and every priority-1 or priority-2 row also meets priority 5. */
  lemma PrioritiesOverlap(row: Row, text: string)
    ensures !(Matches(1, row, text) && Matches(2, row, text))
    ensures Matches(1, row, text) || Matches(2, row, text) ==> Matches(5, row, text)
  {
    if "English" in row.terms && ExactIn(row.terms["English"].preferred, text) {
      var en := row.terms["English"];
      var i :| 0 <= i < |en.preferred| && en.preferred[i] != "" && Lower(en.preferred[i]) == Lower(text);
      assert (en.preferred + en.admitted)[i] == en.preferred[i];
    }
  }

  // ---------------------------------------------------------------------
  // Main terms and source
  // ---------------------------------------------------------------------

  /** A row's candidate main term in one language: its first preferred term, else its first admitted term. */
  function Pick(row: Row, lang: string): Option<string> {
    if lang !in row.terms then None
    else if row.terms[lang].preferred != [] then Some(row.terms[lang].preferred[0])
    else if row.terms[lang].admitted != [] then Some(row.terms[lang].admitted[0])
    else None
  }

  /** The candidate of the first row that has one. */
  function FirstPick(rows: seq<Row>, lang: string): Option<string> {
    if rows == [] then None
    else
      var earlier := FirstPick(rows[..|rows| - 1], lang);
      if earlier.Some? then earlier else Pick(rows[|rows| - 1], lang)
  }

  /** The row has a candidate in some official language. */
  predicate AnyPick(row: Row) {
    exists lang :: lang in Languages && Pick(row, lang).Some?
  }

  /** The source of the first row that has a candidate in some language. */
  function FirstSource(rows: seq<Row>): Option<Source> {
    if rows == [] then None
    else
      var earlier := FirstSource(rows[..|rows| - 1]);
      if earlier.Some? then earlier
      else if AnyPick(rows[|rows| - 1]) then Some(rows[|rows| - 1].source)
      else None
  }

  /** The main term: the first candidate of the priority-1 and priority-2 rows, or `""`. */
  function MainTerm(data: seq<Row>, text: string, lang: string): string {
    FirstPick(MainRows(data, text), lang).GetOr("")
  }

  /** The state of the main phase after `rows`: main terms, filled languages and source. */
  ghost predicate MainAfter(main: map<string, string>, filled: set<string>, source: Option<Source>, rows: seq<Row>) {
    && main.Keys == (set lang | lang in Languages)
    && (forall lang :: lang in Languages ==> main[lang] == FirstPick(rows, lang).GetOr(""))
    && (forall lang :: lang in filled <==> lang in Languages && FirstPick(rows, lang).Some?)
    && source == FirstSource(rows)
  }

  /** Before any row has a candidate, no language has one. */
  lemma {:induction false} NoSourceNoPick(rows: seq<Row>)
    ensures FirstSource(rows).None? ==> forall lang :: lang in Languages ==> FirstPick(rows, lang).None?
    decreases |rows|
  {
    if rows != [] {
      NoSourceNoPick(rows[..|rows| - 1]);
    }
  }

  /** A language of `langs` not yet filled takes the row's candidate, if any; every other entry stays. */
  function Filled(main: map<string, string>, filled: set<string>, row: Row, langs: seq<string>, lang: string): string
    requires lang in main
  {
    if lang in langs && lang !in filled && Pick(row, lang).Some? then Pick(row, lang).value else main[lang]
  }

  /**
   * One row of the main phase, for each language of `langs`: a language already filled
   * keeps its term; any other takes the row's candidate when there is one.
   */
  method FillMain(main: map<string, string>, filled: set<string>, row: Row, langs: seq<string>)
    returns (main': map<string, string>, filled': set<string>)
    requires forall lang :: lang in langs ==> lang in main
    ensures main'.Keys == main.Keys
    ensures forall lang :: lang in main ==> main'[lang] == Filled(main, filled, row, langs, lang)
    ensures forall lang :: lang in filled' <==> lang in filled || (lang in langs && Pick(row, lang).Some?)
  {
    main', filled' := main, filled;
    for k := 0 to |langs|
      invariant main'.Keys == main.Keys
      invariant forall lang :: lang in main ==> main'[lang] == Filled(main, filled, row, langs[..k], lang)
      invariant forall lang :: lang in filled' <==> lang in filled || (lang in langs[..k] && Pick(row, lang).Some?)
    {
      var lang := langs[k];
      assert langs[..k + 1] == langs[..k] + [lang];
      if lang in filled' {
        continue;
      }
      if lang in row.terms {
        if row.terms[lang].preferred != [] {
          main' := main'[lang := row.terms[lang].preferred[0]];
          filled' := filled' + {lang};
        } else if row.terms[lang].admitted != [] {
          main' := main'[lang := row.terms[lang].admitted[0]];
          filled' := filled' + {lang};
        }
      }
    }
    assert langs[..|langs|] == langs;
  }

  /** One matching row keeps the main-phase state in step with the first-candidate rules. */
  lemma MainStep(main: map<string, string>, filled: set<string>, source: Option<Source>, rows: seq<Row>, row: Row,
                 main': map<string, string>, filled': set<string>)
    requires MainAfter(main, filled, source, rows)
    requires main'.Keys == main.Keys
    requires forall lang :: lang in main ==> main'[lang] == Filled(main, filled, row, Languages, lang)
    requires forall lang :: lang in filled' <==> lang in filled || (lang in Languages && Pick(row, lang).Some?)
    ensures MainAfter(main', filled', if source.None? && filled' != {} then Some(row.source) else source, rows + [row])
  {
    var rows' := rows + [row];
    assert rows'[..|rows'| - 1] == rows;
    NoSourceNoPick(rows);
    if source.None? {
      if filled' != {} {
        var lang :| lang in filled';
        assert Pick(row, lang).Some?;
      } else {
        forall lang | lang in Languages ensures Pick(row, lang).None? {
          assert lang !in filled';
        }
      }
    }
  }

  /** The main phase for one priority, row by row (termun/askTermBases.py:243-262). */
  method MainPass(main: map<string, string>, filled: set<string>, source: Option<Source>,
                  data: seq<Row>, priority: nat, text: string, ghost rows: seq<Row>)
    returns (main': map<string, string>, filled': set<string>, source': Option<Source>)
    requires 1 <= priority <= 5
    requires MainAfter(main, filled, source, rows)
    ensures MainAfter(main', filled', source', rows + Select(data, priority, text))
  {
    main', filled', source' := main, filled, source;
    assert data[..0] == [];
    assert rows + [] == rows;
    for i := 0 to |data|
      invariant MainAfter(main', filled', source', rows + Select(data[..i], priority, text))
    {
      var row := data[i];
      ghost var before := rows + Select(data[..i], priority, text);
      assert data[..i + 1][..i] == data[..i];
      assert forall lang :: lang in Languages ==> lang in main';
      hide MainAfter, Filled, Pick, Languages;
      if Matches(priority, row, text) {
        var m, f := FillMain(main', filled', row, Languages);
        MainStep(main', filled', source', before, row, m, f);
        main', filled' := m, f;
        if source'.None? && filled' != {} {
          source' := Some(row.source);
        }
        assert rows + Select(data[..i + 1], priority, text) == before + [row];
      } else {
        assert rows + Select(data[..i + 1], priority, text) == before;
      }
    }
    assert data[..|data|] == data;
  }

  // ---------------------------------------------------------------------
  // Synonyms and similar terms
  // ---------------------------------------------------------------------

  /**
   * `terms` appended one by one to `acc`, skipping the empty term, the main
   * term, terms already collected and terms of `exclude`.
   */
  function AddNew(acc: seq<string>, terms: seq<string>, mainTerm: string, exclude: seq<string>): seq<string> {
    if terms == [] then acc
    else
      var before := AddNew(acc, terms[..|terms| - 1], mainTerm, exclude);
      var term := terms[|terms| - 1];
      if term != "" && term != mainTerm && term !in before && term !in exclude then before + [term] else before
  }

  /** A row's admitted terms in one language. */
  function AdmittedOf(row: Row, lang: string): seq<string> {
    if lang in row.terms then row.terms[lang].admitted else []
  }

  /** A row's preferred, then admitted, terms in one language. */
  function OfferedOf(row: Row, lang: string): seq<string> {
    if lang in row.terms then row.terms[lang].preferred + row.terms[lang].admitted else []
  }

  /** The admitted terms of `rows` in one language, row after row. */
  function Admitted(rows: seq<Row>, lang: string): seq<string> {
    if rows == [] then [] else Admitted(rows[..|rows| - 1], lang) + AdmittedOf(rows[|rows| - 1], lang)
  }

  /** The preferred and admitted terms of `rows` in one language, row after row. */
  function Offered(rows: seq<Row>, lang: string): seq<string> {
    if rows == [] then [] else Offered(rows[..|rows| - 1], lang) + OfferedOf(rows[|rows| - 1], lang)
  }

  /** The synonyms of one language: the admitted terms of the priority-1 and priority-2 rows. */
  function SynonymsOf(data: seq<Row>, text: string, lang: string): seq<string> {
    AddNew([], Admitted(MainRows(data, text), lang), MainTerm(data, text, lang), [])
  }

  /** The similar terms of one language: the terms of the priority-3, 4 and 5 rows that are not synonyms. */
  function SimilarOf(data: seq<Row>, text: string, lang: string): seq<string> {
    AddNew([], Offered(SimilarRows(data, text), lang), MainTerm(data, text, lang), SynonymsOf(data, text, lang))
  }

  /** What `consolidate_UNTermResults` returns, stated rule by rule. */
  function ConsolidateUNTerm(data: seq<Row>, text: string): Consolidated {
    Consolidated(
      map lang | lang in Languages :: MainTerm(data, text, lang),
      FirstSource(MainRows(data, text)),
      map lang | lang in SynonymLanguages :: SynGroup(SynonymsOf(data, text, lang), SimilarOf(data, text, lang)))
  }

  /** Collecting a concatenation is collecting one part after the other. */
  lemma {:induction false} AddNewConcat(acc: seq<string>, xs: seq<string>, ys: seq<string>, mainTerm: string, exclude: seq<string>)
    ensures AddNew(acc, xs + ys, mainTerm, exclude) == AddNew(AddNew(acc, xs, mainTerm, exclude), ys, mainTerm, exclude)
    decreases |ys|
  {
    if ys == [] {
      assert xs + ys == xs;
    } else {
      var ys' := ys[..|ys| - 1];
      AddNewConcat(acc, xs, ys', mainTerm, exclude);
      assert (xs + ys)[..|xs + ys| - 1] == xs + ys';
      assert (xs + ys)[|xs + ys| - 1] == ys[|ys| - 1];
    }
  }

  /**
   * A term is collected exactly when it was there already or it is offered,
   * non-empty, not the main term and not excluded; the collected terms stay
   * first, in order, and nothing is collected twice.
   */
  lemma {:induction false} AddNewMembers(acc: seq<string>, terms: seq<string>, mainTerm: string, exclude: seq<string>)
    ensures forall t :: t in AddNew(acc, terms, mainTerm, exclude) <==>
      t in acc || (t in terms && t != "" && t != mainTerm && t !in exclude)
    ensures |acc| <= |AddNew(acc, terms, mainTerm, exclude)| && AddNew(acc, terms, mainTerm, exclude)[..|acc|] == acc
    ensures Distinct(acc) ==> Distinct(AddNew(acc, terms, mainTerm, exclude))
    decreases |terms|
  {
    if terms != [] {
      var init := terms[..|terms| - 1];
      AddNewMembers(acc, init, mainTerm, exclude);
      assert terms == init + [terms[|terms| - 1]];
      var before := AddNew(acc, init, mainTerm, exclude);
      assert (before + [terms[|terms| - 1]])[..|acc|] == before[..|acc|];
    }
  }

  predicate Distinct(xs: seq<string>) {
    forall i, j :: 0 <= i < j < |xs| ==> xs[i] != xs[j]
  }

  /** A term is among the admitted terms of some rows exactly when one of those rows admits it. */
  lemma {:induction false} AdmittedMembers(rows: seq<Row>, lang: string)
    ensures forall t :: t in Admitted(rows, lang) <==> exists row :: row in rows && t in AdmittedOf(row, lang)
    decreases |rows|
  {
    if rows != [] {
      var init := rows[..|rows| - 1];
      var last := rows[|rows| - 1];
      AdmittedMembers(init, lang);
      assert rows == init + [last];
      assert Admitted(rows, lang) == Admitted(init, lang) + AdmittedOf(last, lang);
      hide Admitted, AdmittedOf;
      forall t | exists row :: row in rows && t in AdmittedOf(row, lang) ensures t in Admitted(rows, lang) {
        var row :| row in rows && t in AdmittedOf(row, lang);
        if row != last {
          assert row in init;
        }
      }
    }
  }

  /** A term is among the offered terms of some rows exactly when one of those rows offers it. */
  lemma {:induction false} OfferedMembers(rows: seq<Row>, lang: string)
    ensures forall t :: t in Offered(rows, lang) <==> exists row :: row in rows && t in OfferedOf(row, lang)
    decreases |rows|
  {
    if rows != [] {
      var init := rows[..|rows| - 1];
      var last := rows[|rows| - 1];
      OfferedMembers(init, lang);
      assert rows == init + [last];
      assert Offered(rows, lang) == Offered(init, lang) + OfferedOf(last, lang);
      hide Offered, OfferedOf;
      forall t | exists row :: row in rows && t in OfferedOf(row, lang) ensures t in Offered(rows, lang) {
        var row :| row in rows && t in OfferedOf(row, lang);
        if row != last {
          assert row in init;
        }
      }
    }
  }

  /** `for term in terms: if …: acc.append(term)` */
  method AppendNew(acc: seq<string>, terms: seq<string>, mainTerm: string, exclude: seq<string>) returns (r: seq<string>)
    ensures r == AddNew(acc, terms, mainTerm, exclude)
  {
    r := acc;
    for i := 0 to |terms|
      invariant r == AddNew(acc, terms[..i], mainTerm, exclude)
    {
      var term := terms[i];
      assert terms[..i + 1][..i] == terms[..i];
      if term != "" && term != mainTerm && term !in r && term !in exclude {
        r := r + [term];
      }
    }
    assert terms[..|terms|] == terms;
  }

  /** The synonym groups after the priority-1/2 rows `rows12` and the priority-3/4/5 rows `rows345`. */
  ghost predicate GroupsAfter(groups: map<string, SynGroup>, main: map<string, string>, rows12: seq<Row>, rows345: seq<Row>) {
    && groups.Keys == (set lang | lang in SynonymLanguages)
    && (forall lang :: lang in SynonymLanguages ==> lang in main)
    && forall lang :: lang in SynonymLanguages ==>
         groups[lang] == SynGroup(
           AddNew([], Admitted(rows12, lang), main[lang], []),
           AddNew([], Offered(rows345, lang), main[lang], AddNew([], Admitted(rows12, lang), main[lang], [])))
  }

  /** A group after one row's admitted terms were collected as synonyms. */
  function WithSynonyms(g: SynGroup, row: Row, lang: string, mainTerm: string): SynGroup {
    SynGroup(AddNew(g.synonyms, AdmittedOf(row, lang), mainTerm, []), g.similar)
  }

  /** A group after one row's offered terms were collected as similar terms. */
  function WithSimilar(g: SynGroup, row: Row, lang: string, mainTerm: string): SynGroup {
    SynGroup(g.synonyms, AddNew(g.similar, OfferedOf(row, lang), mainTerm, g.synonyms))
  }

  /** One priority-1/2 row: each non-English language collects the row's admitted terms as synonyms. */
  method RowSynonyms(groups: map<string, SynGroup>, row: Row, main: map<string, string>) returns (groups': map<string, SynGroup>)
    requires forall lang :: lang in SynonymLanguages ==> lang in groups && lang in main
    ensures groups'.Keys == groups.Keys
    ensures forall lang :: lang in groups ==>
      groups'[lang] == if lang in SynonymLanguages then WithSynonyms(groups[lang], row, lang, main[lang]) else groups[lang]
  {
    LanguagesDistinct();
    groups' := groups;
    for k := 0 to |SynonymLanguages|
      invariant groups'.Keys == groups.Keys
      invariant forall lang :: lang in groups ==>
        groups'[lang] == if lang in SynonymLanguages[..k] then WithSynonyms(groups[lang], row, lang, main[lang]) else groups[lang]
    {
      var lang := SynonymLanguages[k];
      assert SynonymLanguages[..k + 1] == SynonymLanguages[..k] + [lang];
      assert lang !in SynonymLanguages[..k];
      if lang in row.terms {
        var synonyms := AppendNew(groups'[lang].synonyms, row.terms[lang].admitted, main[lang], []);
        groups' := groups'[lang := SynGroup(synonyms, groups'[lang].similar)];
      }
    }
    assert SynonymLanguages[..|SynonymLanguages|] == SynonymLanguages;
  }

  /**
   * One priority-3/4/5 row: each non-English language collects the row's
   * preferred, then admitted, terms as similar terms, leaving out synonyms.
   */
  method RowSimilar(groups: map<string, SynGroup>, row: Row, main: map<string, string>) returns (groups': map<string, SynGroup>)
    requires forall lang :: lang in SynonymLanguages ==> lang in groups && lang in main
    ensures groups'.Keys == groups.Keys
    ensures forall lang :: lang in groups ==>
      groups'[lang] == if lang in SynonymLanguages then WithSimilar(groups[lang], row, lang, main[lang]) else groups[lang]
  {
    LanguagesDistinct();
    groups' := groups;
    for k := 0 to |SynonymLanguages|
      invariant groups'.Keys == groups.Keys
      invariant forall lang :: lang in groups ==>
        groups'[lang] == if lang in SynonymLanguages[..k] then WithSimilar(groups[lang], row, lang, main[lang]) else groups[lang]
    {
      var lang := SynonymLanguages[k];
      assert SynonymLanguages[..k + 1] == SynonymLanguages[..k] + [lang];
      assert lang !in SynonymLanguages[..k];
      if lang in row.terms {
        var g := groups'[lang];
        var similar := AppendNew(g.similar, row.terms[lang].preferred, main[lang], g.synonyms);
        similar := AppendNew(similar, row.terms[lang].admitted, main[lang], g.synonyms);
        AddNewConcat(g.similar, row.terms[lang].preferred, row.terms[lang].admitted, main[lang], g.synonyms);
        groups' := groups'[lang := SynGroup(g.synonyms, similar)];
      }
    }
    assert SynonymLanguages[..|SynonymLanguages|] == SynonymLanguages;
  }

  /** A priority-1/2 row extends every language's synonyms by its admitted terms. */
  lemma SynonymStep(groups: map<string, SynGroup>, groups': map<string, SynGroup>, main: map<string, string>,
                    rows12: seq<Row>, row: Row)
    requires GroupsAfter(groups, main, rows12, [])
    requires groups'.Keys == groups.Keys
    requires forall lang :: lang in groups ==>
      groups'[lang] == if lang in SynonymLanguages then WithSynonyms(groups[lang], row, lang, main[lang]) else groups[lang]
    ensures GroupsAfter(groups', main, rows12 + [row], [])
  {
    var rows' := rows12 + [row];
    assert rows'[..|rows'| - 1] == rows12;
    forall lang | lang in SynonymLanguages
      ensures AddNew([], Admitted(rows', lang), main[lang], []) ==
        AddNew(AddNew([], Admitted(rows12, lang), main[lang], []), AdmittedOf(row, lang), main[lang], [])
    {
      AddNewConcat([], Admitted(rows12, lang), AdmittedOf(row, lang), main[lang], []);
    }
  }

  /** A priority-3/4/5 row extends every language's similar terms by its offered terms. */
  lemma SimilarStep(groups: map<string, SynGroup>, groups': map<string, SynGroup>, main: map<string, string>,
                    rows12: seq<Row>, rows345: seq<Row>, row: Row)
    requires GroupsAfter(groups, main, rows12, rows345)
    requires groups'.Keys == groups.Keys
    requires forall lang :: lang in groups ==>
      groups'[lang] == if lang in SynonymLanguages then WithSimilar(groups[lang], row, lang, main[lang]) else groups[lang]
    ensures GroupsAfter(groups', main, rows12, rows345 + [row])
  {
    var rows' := rows345 + [row];
    assert rows'[..|rows'| - 1] == rows345;
    forall lang | lang in SynonymLanguages
      ensures AddNew([], Offered(rows', lang), main[lang], groups[lang].synonyms) ==
        AddNew(groups[lang].similar, OfferedOf(row, lang), main[lang], groups[lang].synonyms)
    {
      AddNewConcat([], Offered(rows345, lang), OfferedOf(row, lang), main[lang], groups[lang].synonyms);
    }
  }

  /** The synonym phase for priority 1 or 2, row by row (termun/askTermBases.py:299-308). */
  method SynonymPass(groups: map<string, SynGroup>, data: seq<Row>, priority: nat, text: string,
                     main: map<string, string>, ghost rows12: seq<Row>)
    returns (groups': map<string, SynGroup>)
    requires 1 <= priority <= 5
    requires GroupsAfter(groups, main, rows12, [])
    ensures GroupsAfter(groups', main, rows12 + Select(data, priority, text), [])
  {
    groups' := groups;
    assert data[..0] == [];
    assert rows12 + [] == rows12;
    for i := 0 to |data|
      invariant GroupsAfter(groups', main, rows12 + Select(data[..i], priority, text), [])
    {
      var row := data[i];
      ghost var before := rows12 + Select(data[..i], priority, text);
      assert data[..i + 1][..i] == data[..i];
      if Matches(priority, row, text) {
        var g := RowSynonyms(groups', row, main);
        SynonymStep(groups', g, main, before, row);
        groups' := g;
        assert rows12 + Select(data[..i + 1], priority, text) == before + [row];
      } else {
        assert rows12 + Select(data[..i + 1], priority, text) == before;
      }
    }
    assert data[..|data|] == data;
  }

  /** The similar-term phase for priority 3, 4 or 5, row by row (termun/askTermBases.py:299-320). */
  method SimilarPass(groups: map<string, SynGroup>, data: seq<Row>, priority: nat, text: string,
                     main: map<string, string>, ghost rows12: seq<Row>, ghost rows345: seq<Row>)
    returns (groups': map<string, SynGroup>)
    requires 1 <= priority <= 5
    requires GroupsAfter(groups, main, rows12, rows345)
    ensures GroupsAfter(groups', main, rows12, rows345 + Select(data, priority, text))
  {
    groups' := groups;
    assert data[..0] == [];
    assert rows345 + [] == rows345;
    for i := 0 to |data|
      invariant GroupsAfter(groups', main, rows12, rows345 + Select(data[..i], priority, text))
    {
      var row := data[i];
      ghost var before := rows345 + Select(data[..i], priority, text);
      assert data[..i + 1][..i] == data[..i];
      if Matches(priority, row, text) {
        var g := RowSimilar(groups', row, main);
        SimilarStep(groups', g, main, rows12, before, row);
        groups' := g;
        assert rows345 + Select(data[..i + 1], priority, text) == before + [row];
      } else {
        assert rows345 + Select(data[..i + 1], priority, text) == before;
      }
    }
    assert data[..|data|] == data;
  }

  /** The `<Lang>Synonyms` groups, each with two empty lists (termun/askTermBases.py:216-220). */
  method InitGroups() returns (groups: map<string, SynGroup>)
    ensures groups.Keys == (set lang | lang in SynonymLanguages)
    ensures forall lang :: lang in groups ==> groups[lang] == SynGroup([], [])
  {
    groups := map[];
    for k := 0 to |SynonymLanguages|
      invariant groups.Keys == (set lang | lang in SynonymLanguages[..k])
      invariant forall lang :: lang in groups ==> groups[lang] == SynGroup([], [])
    {
      assert SynonymLanguages[..k + 1] == SynonymLanguages[..k] + [SynonymLanguages[k]];
      groups := groups[SynonymLanguages[k] := SynGroup([], [])];
    }
    assert SynonymLanguages[..|SynonymLanguages|] == SynonymLanguages;
  }

  /** Empty groups are the groups before any row, whatever the main terms. */
  lemma EmptyGroups(groups: map<string, SynGroup>, main: map<string, string>, filled: set<string>,
                    source: Option<Source>, rows: seq<Row>)
    requires groups.Keys == (set lang | lang in SynonymLanguages)
    requires forall lang :: lang in groups ==> groups[lang] == SynGroup([], [])
    requires MainAfter(main, filled, source, rows)
    ensures GroupsAfter(groups, main, [], [])
  {
    LanguagesDistinct();
  }

  /** The state at the end of both phases is the result the rules describe. */
  lemma ConsolidatedIs(data: seq<Row>, text: string, main: map<string, string>, filled: set<string>,
                       source: Option<Source>, groups: map<string, SynGroup>)
    requires MainAfter(main, filled, source, MainRows(data, text))
    requires GroupsAfter(groups, main, MainRows(data, text), SimilarRows(data, text))
    ensures Consolidated(main, source, groups) == ConsolidateUNTerm(data, text)
  {
    LanguagesDistinct();
    var c := ConsolidateUNTerm(data, text);
    hide AddNew, Admitted, Offered, FirstPick, FirstSource;
    assert main == c.main;
    forall lang | lang in groups ensures groups[lang] == c.groups[lang] {
      assert main[lang] == MainTerm(data, text, lang);
    }
    assert groups == c.groups;
  }

  /** The main phase: all six main terms start empty, then priorities 1 and 2 in turn (termun/askTermBases.py:205-262). */
  method MainPhase(data: seq<Row>, text: string) returns (main: map<string, string>, filled: set<string>, source: Option<Source>)
    ensures MainAfter(main, filled, source, MainRows(data, text))
  {
    main := map lang | lang in Languages :: "";
    source := None;
    filled := {};
    assert Selected(data, text, 1, 1) == [];
    assert Selected(data, text, 1, 3) == MainRows(data, text);
    hide Selected, MainRows, MainAfter;
    for p := 1 to 3
      invariant MainAfter(main, filled, source, Selected(data, text, 1, p))
    {
      main, filled, source := MainPass(main, filled, source, data, p, text, Selected(data, text, 1, p));
      SelectedStep(data, text, 1, p);
    }
  }

  /**
   * The synonym phase: priorities 1 to 5 in turn; 1 and 2 collect synonyms,
   * 3 to 5 similar terms (termun/askTermBases.py:298-320).
   */
  method SynonymPhase(groups: map<string, SynGroup>, data: seq<Row>, text: string, main: map<string, string>)
    returns (groups': map<string, SynGroup>)
    requires GroupsAfter(groups, main, [], [])
    ensures GroupsAfter(groups', main, MainRows(data, text), SimilarRows(data, text))
  {
    groups' := groups;
    assert Selected(data, text, 1, 1) == [] && Selected(data, text, 3, 3) == [];
    assert Selected(data, text, 1, 3) == MainRows(data, text);
    assert Selected(data, text, 3, 6) == SimilarRows(data, text);
    ghost var rows12 := MainRows(data, text);
    hide Selected, MainRows, SimilarRows, GroupsAfter;
    for p := 1 to 6
      invariant p <= 3 ==> GroupsAfter(groups', main, Selected(data, text, 1, p), [])
      invariant p >= 3 ==> GroupsAfter(groups', main, rows12, Selected(data, text, 3, p))
    {
      if p <= 2 {
        groups' := SynonymPass(groups', data, p, text, main, Selected(data, text, 1, p));
        SelectedStep(data, text, 1, p);
      } else {
        groups' := SimilarPass(groups', data, p, text, main, rows12, Selected(data, text, 3, p));
        SelectedStep(data, text, 3, p);
      }
    }
  }

  /**
   * `consolidate_UNTermResults`: the main terms and source from the
   * priority-1/2 rows, then the synonym groups, which start empty.
   */
  method ConsolidateUNTermResults(data: seq<Row>, textToSearch: string) returns (result: Consolidated)
    ensures result == ConsolidateUNTerm(data, textToSearch)
  {
    var main, filled, source := MainPhase(data, textToSearch);
    var groups := InitGroups();
    EmptyGroups(groups, main, filled, source, MainRows(data, textToSearch));
    groups := SynonymPhase(groups, data, textToSearch, main);
    result := Consolidated(main, source, groups);
    ConsolidatedIs(data, textToSearch, main, filled, source, groups);
  }

  // ---------------------------------------------------------------------
  // Properties of the consolidated result
  // ---------------------------------------------------------------------

  /** The first candidate comes from a row whose predecessors have none; there is none exactly when no row has one. */
  lemma {:induction false} FirstPickSpec(rows: seq<Row>, lang: string)
    ensures FirstPick(rows, lang).None? <==> forall k :: 0 <= k < |rows| ==> Pick(rows[k], lang).None?
    ensures FirstPick(rows, lang).Some? ==>
      exists k :: 0 <= k < |rows| && Pick(rows[k], lang) == FirstPick(rows, lang)
        && forall j :: 0 <= j < k ==> Pick(rows[j], lang).None?
    decreases |rows|
  {
    if rows != [] {
      var init := rows[..|rows| - 1];
      FirstPickSpec(init, lang);
      assert forall k :: 0 <= k < |init| ==> init[k] == rows[k];
    }
  }

  /** The candidates of earlier rows win over those of later rows. */
  lemma {:induction false} FirstPickConcat(xs: seq<Row>, ys: seq<Row>, lang: string)
    ensures FirstPick(xs + ys, lang) == if FirstPick(xs, lang).Some? then FirstPick(xs, lang) else FirstPick(ys, lang)
    decreases |ys|
  {
    if ys == [] {
      assert xs + ys == xs;
    } else {
      var ys' := ys[..|ys| - 1];
      FirstPickConcat(xs, ys', lang);
      assert (xs + ys)[..|xs + ys| - 1] == xs + ys';
    }
  }

  /**
   * The main terms: a priority-1 row's candidate wins over any priority-2
   * row's, the first such row wins, a filled language is never overwritten
   * and a row offers its first preferred term before its first admitted one.
   */
  lemma MainTermPriority(data: seq<Row>, text: string, lang: string)
    ensures MainTerm(data, text, lang) ==
      if FirstPick(Select(data, 1, text), lang).Some? then FirstPick(Select(data, 1, text), lang).value
      else FirstPick(Select(data, 2, text), lang).GetOr("")
  {
    FirstPickConcat(Select(data, 1, text), Select(data, 2, text), lang);
  }

  /** A non-empty main term, and `""` only when no such row offers a candidate or the candidate is `""`. */
  lemma MainTermSource(data: seq<Row>, text: string, lang: string)
    ensures MainTerm(data, text, lang) != "" ==>
      exists row :: row in data && (Matches(1, row, text) || Matches(2, row, text))
        && Pick(row, lang) == Some(MainTerm(data, text, lang))
    ensures (forall row :: row in data && (Matches(1, row, text) || Matches(2, row, text)) ==> Pick(row, lang).None?)
      ==> MainTerm(data, text, lang) == ""
  {
    var rows := MainRows(data, text);
    FirstPickSpec(rows, lang);
    SelectMembers(data, 1, text);
    SelectMembers(data, 2, text);
    if FirstPick(rows, lang).Some? {
      var k :| 0 <= k < |rows| && Pick(rows[k], lang) == FirstPick(rows, lang)
        && forall j :: 0 <= j < k ==> Pick(rows[j], lang).None?;
      assert rows[k] in rows;
    }
  }

  /** `UNTerm_Source` is the source of the first priority-1/2 row that gives any language a candidate, or `None`. */
  lemma {:induction false} FirstSourceSpec(rows: seq<Row>)
    ensures FirstSource(rows).None? <==> forall k :: 0 <= k < |rows| ==> !AnyPick(rows[k])
    ensures FirstSource(rows).Some? ==>
      exists k :: 0 <= k < |rows| && AnyPick(rows[k])
        && FirstSource(rows) == Some(rows[k].source) && forall j :: 0 <= j < k ==> !AnyPick(rows[j])
    decreases |rows|
  {
    if rows != [] {
      var init := rows[..|rows| - 1];
      FirstSourceSpec(init);
      assert forall k :: 0 <= k < |init| ==> init[k] == rows[k];
    }
  }

  /** The result has the six main terms and the five synonym groups, whatever the rows. */
  lemma ConsolidateKeys(data: seq<Row>, text: string)
    ensures ConsolidateUNTerm(data, text).main.Keys == set lang | lang in Languages
    ensures ConsolidateUNTerm(data, text).groups.Keys == set lang | lang in SynonymLanguages
    ensures forall lang :: lang in SynonymLanguages ==> lang in ConsolidateUNTerm(data, text).main
  {
    LanguagesDistinct();
  }

  /**
   * The synonyms of a language: without repetition, exactly the non-empty
   * admitted terms of priority-1/2 rows other than the main term.
   */
  lemma SynonymsRule(data: seq<Row>, text: string, lang: string)
    ensures Distinct(SynonymsOf(data, text, lang))
    ensures forall t :: t in SynonymsOf(data, text, lang) <==>
      t != "" && t != MainTerm(data, text, lang) && exists row :: row in MainRows(data, text) && t in AdmittedOf(row, lang)
  {
    var rows := MainRows(data, text);
    AddNewMembers([], Admitted(rows, lang), MainTerm(data, text, lang), []);
    AdmittedMembers(rows, lang);
  }

  /**
   * The similar terms of a language: without repetition, exactly the
   * non-empty terms of priority-3/4/5 rows that are neither the main term
   * nor a synonym.
   */
  lemma SimilarRule(data: seq<Row>, text: string, lang: string)
    ensures Distinct(SimilarOf(data, text, lang))
    ensures forall t :: t in SimilarOf(data, text, lang) <==>
      t != "" && t != MainTerm(data, text, lang) && t !in SynonymsOf(data, text, lang)
      && exists row :: row in SimilarRows(data, text) && t in OfferedOf(row, lang)
    ensures forall t :: t in SimilarOf(data, text, lang) ==> t !in SynonymsOf(data, text, lang)
  {
    var rows := SimilarRows(data, text);
    AddNewMembers([], Offered(rows, lang), MainTerm(data, text, lang), SynonymsOf(data, text, lang));
    OfferedMembers(rows, lang);
  }

  // ---------------------------------------------------------------------
  // report_missing_translations
  // ---------------------------------------------------------------------

  /** The languages of `langs` whose main term is missing or empty, in the order of `langs`. */
  function MissingPreferredIn(langs: seq<string>, main: map<string, string>): seq<string> {
    if langs == [] then []
    else (if langs[0] !in main || main[langs[0]] == "" then [langs[0]] else []) + MissingPreferredIn(langs[1..], main)
  }

  /** The languages of `langs` that have a synonym group with no synonym, in the order of `langs`. */
  function MissingSynonymsIn(langs: seq<string>, groups: map<string, SynGroup>): seq<string> {
    if langs == [] then []
    else (if langs[0] in groups && groups[langs[0]].synonyms == [] then [langs[0]] else []) + MissingSynonymsIn(langs[1..], groups)
  }

  /** `xs` is `ys` with some elements left out. */
  predicate IsSubsequence(xs: seq<string>, ys: seq<string>)
    decreases |ys|
  {
    xs == [] || (ys != [] && ((xs[0] == ys[0] && IsSubsequence(xs[1..], ys[1..])) || IsSubsequence(xs, ys[1..])))
  }

  /** `report_missing_translations` (termun/askTermBases.py:160-189): both scans. */
  method ReportMissingTranslations(consolidated: Consolidated) returns (report: Report)
    ensures report == Report(MissingPreferredIn(Languages, consolidated.main), MissingSynonymsIn(SynonymLanguages, consolidated.groups))
  {
    var missingPreferred := ScanPreferred(Languages, consolidated.main);
    var missingSynonyms := ScanSynonyms(SynonymLanguages, consolidated.groups);
    report := Report(missingPreferred, missingSynonyms);
  }

  /** The scan for missing main terms (termun/askTermBases.py:178-180). */
  method ScanPreferred(langs: seq<string>, main: map<string, string>) returns (missing: seq<string>)
    ensures missing == MissingPreferredIn(langs, main)
  {
    assert langs[0..] == langs;
    assert langs[|langs|..] == [];
    hide MissingPreferredIn;
    missing := [];
    for i := 0 to |langs|
      invariant missing + MissingPreferredIn(langs[i..], main) == MissingPreferredIn(langs, main)
    {
      var lang := langs[i];
      MissingStep(langs[i..], main, map[]);
      assert langs[i..][1..] == langs[i + 1..];
      if lang !in main || main[lang] == "" {
        missing := missing + [lang];
      }
    }
    MissingStep([], main, map[]);
    assert missing + [] == missing;
  }

  /** The scan for missing synonyms (termun/askTermBases.py:183-187). */
  method ScanSynonyms(langs: seq<string>, groups: map<string, SynGroup>) returns (missing: seq<string>)
    ensures missing == MissingSynonymsIn(langs, groups)
  {
    assert langs[0..] == langs;
    assert langs[|langs|..] == [];
    hide MissingSynonymsIn;
    missing := [];
    for i := 0 to |langs|
      invariant missing + MissingSynonymsIn(langs[i..], groups) == MissingSynonymsIn(langs, groups)
    {
      var lang := langs[i];
      MissingStep(langs[i..], map[], groups);
      assert langs[i..][1..] == langs[i + 1..];
      if lang in groups && groups[lang].synonyms == [] {
        missing := missing + [lang];
      }
    }
    MissingStep([], map[], groups);
    assert missing + [] == missing;
  }

  /** One language of each scan of the report. */
  lemma MissingStep(langs: seq<string>, main: map<string, string>, groups: map<string, SynGroup>)
    ensures langs == [] ==> MissingPreferredIn(langs, main) == [] && MissingSynonymsIn(langs, groups) == []
    ensures langs != [] ==>
      MissingPreferredIn(langs, main) ==
        (if langs[0] !in main || main[langs[0]] == "" then [langs[0]] else []) + MissingPreferredIn(langs[1..], main)
    ensures langs != [] ==>
      MissingSynonymsIn(langs, groups) ==
        (if langs[0] in groups && groups[langs[0]].synonyms == [] then [langs[0]] else []) + MissingSynonymsIn(langs[1..], groups)
  {
  }

  /** The missing main terms: exactly the languages without a non-empty one, in the order of `langs`. */
  lemma {:induction false} MissingPreferredRule(langs: seq<string>, main: map<string, string>)
    ensures forall lang :: lang in MissingPreferredIn(langs, main) <==> lang in langs && (lang !in main || main[lang] == "")
    ensures IsSubsequence(MissingPreferredIn(langs, main), langs)
    decreases |langs|
  {
    if langs != [] {
      MissingPreferredRule(langs[1..], main);
      assert langs == [langs[0]] + langs[1..];
      var r := MissingPreferredIn(langs, main);
      if langs[0] !in main || main[langs[0]] == "" {
        assert r[0] == langs[0] && r[1..] == MissingPreferredIn(langs[1..], main);
      } else {
        assert r == MissingPreferredIn(langs[1..], main);
      }
    }
  }

  /** The missing synonyms: exactly the languages with a group and no synonym, in the order of `langs`. */
  lemma {:induction false} MissingSynonymsRule(langs: seq<string>, groups: map<string, SynGroup>)
    ensures forall lang :: lang in MissingSynonymsIn(langs, groups) <==>
      lang in langs && lang in groups && groups[lang].synonyms == []
    ensures IsSubsequence(MissingSynonymsIn(langs, groups), langs)
    decreases |langs|
  {
    if langs != [] {
      MissingSynonymsRule(langs[1..], groups);
      assert langs == [langs[0]] + langs[1..];
      var r := MissingSynonymsIn(langs, groups);
      if langs[0] in groups && groups[langs[0]].synonyms == [] {
        assert r[0] == langs[0] && r[1..] == MissingSynonymsIn(langs[1..], groups);
      } else {
        assert r == MissingSynonymsIn(langs[1..], groups);
      }
    }
  }

  /**
   * The report on a consolidated result: a language's main term is missing
   * exactly when its first candidate is absent or empty, and a language's
   * synonyms are missing exactly when none was collected.
   */
  lemma ReportOnConsolidated(data: seq<Row>, text: string, lang: string)
    ensures lang in MissingPreferredIn(Languages, ConsolidateUNTerm(data, text).main) <==>
      lang in Languages && MainTerm(data, text, lang) == ""
    ensures lang in MissingSynonymsIn(SynonymLanguages, ConsolidateUNTerm(data, text).groups) <==>
      lang in SynonymLanguages && SynonymsOf(data, text, lang) == []
  {
    var c := ConsolidateUNTerm(data, text);
    MissingPreferredRule(Languages, c.main);
    MissingSynonymsRule(SynonymLanguages, c.groups);
  }
}
