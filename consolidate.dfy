/**
 * `consolidate_results` (termseeker/utils.py): per-document records are
 * grouped by their English term into one record per term. Each field class
 * has its own merge rule. `*Term` fields keep the first value. `*Synonyms`
 * fields pool their contributions. `*Paragraphs` fields collect
 * source-stamped paragraphs. Metadata fields gather the distinct values on
 * separate lines. The output lists the keys in a fixed order of classes,
 * alphabetically within a class.
 */
module Consolidate {
  import opened Opt
  import opened Strings

  /**
   * An element of a list-valued field: a string, a tuple (the `str` of its
   * first component when it has one, and its `repr`), or any other object
   * (its `repr`). Pooling synonyms into a set treats every element as
   * hashable; the `TypeError` the source raises on a list or dict is not
   * modelled.
   */
  datatype Elem = EText(s: string) | ETuple(head: Option<string>, shown: string) | EOther(shown: string)

  /** A field value of an input record: `None`, a string, or a list. */
  datatype Value = Null | Text(s: string) | List(elems: seq<Elem>)

  /** An input record: field name to value. */
  type Record = map<string, Value>

  /**
   * A consolidated field. `Plain` holds a `*Term` or metadata value; a
   * `*Synonyms` field is the first contribution as given (`SynList`) until a
   * second one turns it into a set (`SynSet`); a `*Paragraphs` field is text.
   */
  datatype Field = Plain(v: Value) | SynList(elems: seq<Elem>) | SynSet(pool: set<Elem>) | Paras(text: string)

  /** The consolidated fields of one English term. */
  type Group = map<string, Field>

  const MetaKeys: seq<string> := ["docSymbol", "publicationDate", "docType", "docTitle"]
  const ParagraphSeparator: string := "\n\n"

  /** The merge rule a field name falls under, decided in the order of the source's `elif` chain. */
  datatype KeyClass = TermKey | SynonymsKey | ParagraphsKey | MetaKey | Ignored

  function ClassOf(key: string): KeyClass {
    if key == "docURLs" then Ignored
    else if EndsWith(key, "Term") then TermKey
    else if EndsWith(key, "Synonyms") then SynonymsKey
    else if EndsWith(key, "Paragraphs") then ParagraphsKey
    else if key in MetaKeys then MetaKey
    else Ignored
  }

  /** Python truthiness: `None`, the empty string and the empty list are false. */
  predicate Truthy(v: Value) {
    match v
    case Null => false
    case Text(s) => s != ""
    case List(es) => es != []
  }

  function Quote(s: string): string {
    "'" + s + "'"
  }

  function ElemRepr(e: Elem): string {
    match e
    case EText(s) => Quote(s)
    case ETuple(_, shown) => shown
    case EOther(shown) => shown
  }

  function Reprs(es: seq<Elem>): (r: seq<string>)
    ensures |r| == |es|
  {
    if es == [] then [] else [ElemRepr(es[0])] + Reprs(es[1..])
  }

  /** `str(v)`. */
  function Display(v: Value): string {
    match v
    case Null => "None"
    case Text(s) => s
    case List(es) => "[" + Join(Reprs(es), ", ") + "]"
  }

  function Get(item: Record, key: string, default: Value): Value {
    if key in item then item[key] else default
  }

  function Lookup(g: Group, key: string): Option<Field> {
    if key in g then Some(g[key]) else None
  }

  /** The provenance stamp of a record's paragraphs: its symbol and publication date, `Unknown` when absent. */
  function Suffix(item: Record): string {
    " (Source: " + Display(Get(item, "docSymbol", Text("Unknown")))
      + " on " + Display(Get(item, "publicationDate", Text("Unknown"))) + ")"
  }

  /** The stamped paragraphs of a list: strings and non-empty tuples (by their first component); other elements are dropped. */
  function Formatted(es: seq<Elem>, suffix: string): (r: seq<string>)
    ensures |r| <= |es|
  {
    if es == [] then []
    else
      var rest := Formatted(es[1..], suffix);
      match es[0]
      case EText(s) => [s + suffix] + rest
      case ETuple(head, _) => if head.Some? then [head.value + suffix] + rest else rest
      case EOther(_) => rest
  }

  /** The paragraphs one contribution adds: a non-list contributes none. */
  function Stamped(value: Value, suffix: string): seq<string> {
    if value.List? then Formatted(value.elems, suffix) else []
  }

  /** A Synonyms contribution as a list: a list as it is, a single value wrapped. */
  function AsList(value: Value): seq<Elem> {
    match value
    case List(es) => es
    case Text(s) => [EText(s)]
    case Null => []
  }

  function ElemSet(es: seq<Elem>): set<Elem> {
    set e | e in es
  }

  function Pool(f: Field): set<Elem> {
    match f
    case SynList(es) => ElemSet(es)
    case SynSet(p) => p
    case _ => {}
  }

  function TextOf(f: Field): string {
    if f.Paras? then f.text else ""
  }

  /**
   * The field `key` after the contribution `value` of a record stamped with
   * `suffix`, given the field so far (`None`: not present yet). `None` as a
   * result means the field is still absent.
   */
  function Merge(prior: Option<Field>, key: string, value: Value, suffix: string): Option<Field> {
    match ClassOf(key)
    case Ignored => prior
    case TermKey => if prior.None? then Some(Plain(value)) else prior
    case SynonymsKey =>
      if value.Null? then prior
      else if prior.None? then Some(SynList(AsList(value)))
      else Some(SynSet(Pool(prior.value) + ElemSet(AsList(value))))
    case ParagraphsKey =>
      if value.Null? then prior
      else
        var text := Join(Stamped(value, suffix), ParagraphSeparator);
        if prior.None? then Some(Paras(text))
        else if text != "" then Some(Paras(TextOf(prior.value) + ParagraphSeparator + text))
        else prior
    case MetaKey =>
      if prior.None? || !prior.value.Plain? then (if prior.None? then Some(Plain(value)) else prior)
      else if Truthy(value) && value != prior.value.v then
        (if prior.value.v.Text? then Some(Plain(Text(prior.value.v.s + "\n" + Display(value))))
         else Some(Plain(Text(Display(prior.value.v) + "\n" + Display(value)))))
      else prior
  }

  /** A field once present stays present. */
  lemma MergeKeeps(prior: Option<Field>, key: string, value: Value, suffix: string)
    requires prior.Some?
    ensures Merge(prior, key, value, suffix).Some?
  {
  }

  /** Python's string order: code point by code point, a proper prefix first. */
  predicate Below(a: string, b: string)
    decreases |a|
  {
    a == [] || (b != [] && (a[0] < b[0] || (a[0] == b[0] && Below(a[1..], b[1..]))))
  }

  lemma {:induction false} BelowTotal(a: string, b: string)
    ensures Below(a, b) || Below(b, a)
    decreases |a|
  {
    if a != [] && b != [] && a[0] == b[0] {
      BelowTotal(a[1..], b[1..]);
    }
  }

  lemma {:induction false} BelowAntisymmetric(a: string, b: string)
    requires Below(a, b) && Below(b, a)
    ensures a == b
    decreases |a|
  {
    if a != [] {
      BelowAntisymmetric(a[1..], b[1..]);
      assert a == [a[0]] + a[1..] && b == [b[0]] + b[1..];
    }
  }

  lemma {:induction false} BelowTransitive(a: string, b: string, c: string)
    requires Below(a, b) && Below(b, c)
    ensures Below(a, c)
    decreases |a|
  {
    if a != [] && a[0] == b[0] && b[0] == c[0] {
      BelowTransitive(a[1..], b[1..], c[1..]);
    }
  }

  predicate IsLeast(m: string, ks: set<string>) {
    m in ks && forall k :: k in ks ==> Below(m, k)
  }

  lemma {:induction false} LeastExists(ks: set<string>)
    requires ks != {}
    ensures exists m :: IsLeast(m, ks)
    decreases |ks|
  {
    var x :| x in ks;
    if ks - {x} == {} {
      assert ks == {x};
      assert Below(x, x) by { BelowTotal(x, x); }
      assert IsLeast(x, ks);
    } else {
      LeastExists(ks - {x});
      var m :| IsLeast(m, ks - {x});
      BelowTotal(m, x);
      if Below(m, x) {
        assert IsLeast(m, ks);
      } else {
        forall k | k in ks ensures Below(x, k) {
          if k != x { BelowTransitive(x, m, k); } else { BelowTotal(x, x); }
        }
        assert IsLeast(x, ks);
      }
    }
  }

  lemma LeastUnique(ks: set<string>)
    ensures forall a, b :: IsLeast(a, ks) && IsLeast(b, ks) ==> a == b
  {
    forall a, b | IsLeast(a, ks) && IsLeast(b, ks) ensures a == b {
      BelowAntisymmetric(a, b);
    }
  }

  /** Python's `sorted` of a set of names: every name once, in increasing order. */
  function Sorted(ks: set<string>): (r: seq<string>)
    ensures |r| == |ks|
    ensures forall k :: k in r <==> k in ks
    ensures forall i, j :: 0 <= i < j < |r| ==> Below(r[i], r[j]) && r[i] != r[j]
    decreases |ks|
  {
    if ks == {} then []
    else
      LeastExists(ks);
      LeastUnique(ks);
      var m :| IsLeast(m, ks);
      var rest := Sorted(ks - {m});
      SortedCons(ks, m, rest);
      [m] + rest
  }

  /** The least name in front of the sorted rest gives the sorted whole. */
  lemma SortedCons(ks: set<string>, m: string, rest: seq<string>)
    requires IsLeast(m, ks)
    requires |rest| == |ks - {m}|
    requires forall k :: k in rest <==> k in ks - {m}
    requires forall i, j :: 0 <= i < j < |rest| ==> Below(rest[i], rest[j]) && rest[i] != rest[j]
    ensures |[m] + rest| == |ks|
    ensures forall k :: k in [m] + rest <==> k in ks
    ensures forall i, j :: 0 <= i < j < |[m] + rest| ==> Below(([m] + rest)[i], ([m] + rest)[j]) && ([m] + rest)[i] != ([m] + rest)[j]
  {
    hide Below;
    var r := [m] + rest;
    forall i, j | 0 <= i < j < |r| ensures Below(r[i], r[j]) && r[i] != r[j] {
      if i > 0 {
        assert r[i] == rest[i - 1] && r[j] == rest[j - 1];
      } else {
        assert r[j] == rest[j - 1];
        assert r[j] in rest;
      }
    }
  }

  /** The field `key` once the fields of `fields` are merged into `g`. */
  function Updated(g: Group, fields: Record, suffix: string, key: string): Option<Field> {
    if key in fields then Merge(Lookup(g, key), key, fields[key], suffix) else Lookup(g, key)
  }

  /** A group after merging the fields of one record into it, each field by its own rule. */
  function Merged(g: Group, fields: Record, suffix: string): Group {
    map k | k in g.Keys + fields.Keys && Updated(g, fields, suffix, k).Some? :: Updated(g, fields, suffix, k).value
  }

  /** Each field of the merged group is the field merged by its own rule. */
  lemma MergedLookup(g: Group, fields: Record, suffix: string, k: string)
    ensures Lookup(Merged(g, fields, suffix), k) == Updated(g, fields, suffix, k)
  {
  }

  /** The fields of `item` whose names are in `done`. */
  function Restrict(item: Record, done: set<string>): Record {
    map k | k in item && k in done :: item[k]
  }

  /** The English term a record is grouped under; `None` when it is missing or empty. */
  function KeyOf(item: Record): Option<string> {
    var v := Get(item, "EnglishTerm", Text(""));
    if v.Text? && v.s != "" then Some(v.s) else None
  }

  /** The consolidation so far: the terms in first-seen order and their groups. */
  datatype Table = Table(order: seq<string>, groups: map<string, Group>)

  function AddItem(t: Table, item: Record): Table {
    match KeyOf(item)
    case None => t
    case Some(term) =>
      if term in t.groups then Table(t.order, t.groups[term := Merged(t.groups[term], item, Suffix(item))])
      else Table(t.order + [term], t.groups[term := Merged(map[], item, Suffix(item))])
  }

  /** The records folded in, first to last. */
  function Gather(items: seq<Record>): Table {
    if items == [] then Table([], map[])
    else AddItem(Gather(items[..|items| - 1]), items[|items| - 1])
  }

  predicate Distinct<T(==)>(xs: seq<T>) {
    forall i, j :: 0 <= i < j < |xs| ==> xs[i] != xs[j]
  }

  /** The table lists each grouped term exactly once. */
  lemma {:induction false} GatherShape(items: seq<Record>)
    ensures Distinct(Gather(items).order)
    ensures forall term :: term in Gather(items).order <==> term in Gather(items).groups
    decreases |items|
  {
    if items != [] {
      GatherShape(items[..|items| - 1]);
    }
  }

  function TermKeys(data: Group): set<string> {
    set k | k in data && EndsWith(k, "Term") && k != "EnglishTerm"
  }

  function SynonymKeys(data: Group): set<string> {
    set k | k in data && EndsWith(k, "Synonyms")
  }

  function ParagraphKeys(data: Group): set<string> {
    set k | k in data && EndsWith(k, "Paragraphs") && k != "EnglishParagraphs"
  }

  /** The names of `ks` that `data` has, in the order of `ks`. */
  function Present(data: Group, ks: seq<string>): (r: seq<string>)
    ensures forall k :: k in r <==> k in ks && k in data
  {
    if ks == [] then [] else (if ks[0] in data then [ks[0]] else []) + Present(data, ks[1..])
  }

  /**
   * The output key order after `EnglishTerm`: the other `*Term` keys sorted,
   * the `*Synonyms` keys sorted, `EnglishParagraphs`, the other
   * `*Paragraphs` keys sorted, then the metadata keys in their fixed order.
   */
  function OrderedKeys(data: Group): seq<string> {
    Sorted(TermKeys(data)) + Sorted(SynonymKeys(data)) + Present(data, ["EnglishParagraphs"])
      + Sorted(ParagraphKeys(data)) + Present(data, MetaKeys)
  }

  function Pick(data: Group, ks: seq<string>): (r: seq<(string, Field)>)
    requires forall k :: k in ks ==> k in data
    ensures |r| == |ks|
    ensures forall i :: 0 <= i < |ks| ==> r[i] == (ks[i], data[ks[i]])
  {
    if ks == [] then [] else [(ks[0], data[ks[0]])] + Pick(data, ks[1..])
  }

  /** The output record of one term. */
  function OrderedRecord(term: string, data: Group): seq<(string, Field)> {
    [("EnglishTerm", Plain(Text(term)))] + Pick(data, OrderedKeys(data))
  }

  function Emit(order: seq<string>, groups: map<string, Group>): (r: seq<seq<(string, Field)>>)
    requires forall term :: term in order ==> term in groups
    ensures |r| == |order|
  {
    if order == [] then []
    else Emit(order[..|order| - 1], groups) + [OrderedRecord(order[|order| - 1], groups[order[|order| - 1]])]
  }

  /** `consolidate_results` without the spreadsheet export. */
  function Consolidate(items: seq<Record>): seq<seq<(string, Field)>> {
    GatherShape(items);
    Emit(Gather(items).order, Gather(items).groups)
  }

  /** Groups with the same lookups are equal. */
  lemma LookupExtensional(a: Group, b: Group)
    requires forall k :: Lookup(a, k) == Lookup(b, k)
    ensures a == b
  {
    forall k | k in a ensures k in b && a[k] == b[k] {
      assert Lookup(a, k) == Lookup(b, k);
    }
    forall k | k in b ensures k in a {
      assert Lookup(a, k) == Lookup(b, k);
    }
  }

  /** Merging the next field of a record into the partly merged group. */
  lemma MergedStep(g: Group, item: Record, done: set<string>, key: string, suffix: string)
    requires key in item && key !in done
    ensures Merged(g, Restrict(item, done + {key}), suffix) ==
      var f := Merge(Lookup(Merged(g, Restrict(item, done), suffix), key), key, item[key], suffix);
      if f.Some? then Merged(g, Restrict(item, done), suffix)[key := f.value]
      else Merged(g, Restrict(item, done), suffix)
  {
    hide Merge;
    var before := Merged(g, Restrict(item, done), suffix);
    var after := Merged(g, Restrict(item, done + {key}), suffix);
    var f := Merge(Lookup(before, key), key, item[key], suffix);
    var expected := if f.Some? then before[key := f.value] else before;
    forall k ensures Lookup(after, k) == Lookup(expected, k) {
      MergedLookup(g, Restrict(item, done + {key}), suffix, k);
      MergedLookup(g, Restrict(item, done), suffix, k);
      if k == key {
        assert Restrict(item, done + {key})[k] == item[key];
        assert Lookup(before, k) == Lookup(g, k);
        if Lookup(g, k).Some? {
          MergeKeeps(Lookup(g, k), key, item[key], suffix);
        }
      } else {
        assert k in Restrict(item, done + {key}) <==> k in Restrict(item, done);
        if k in Restrict(item, done) {
          assert Restrict(item, done + {key})[k] == Restrict(item, done)[k];
        }
      }
    }
    LookupExtensional(after, expected);
  }

  /** Merging no fields leaves the group as it is. */
  lemma MergedEmpty(g: Group, suffix: string)
    ensures Merged(g, map[], suffix) == g
  {
    var r := Merged(g, map[], suffix);
    forall k ensures Lookup(r, k) == Lookup(g, k) {
      MergedLookup(g, map[], suffix, k);
    }
    LookupExtensional(r, g);
  }

  lemma ConsolidateIs(items: seq<Record>)
    ensures forall term :: term in Gather(items).order ==> term in Gather(items).groups
    ensures Consolidate(items) == Emit(Gather(items).order, Gather(items).groups)
  {
    GatherShape(items);
  }

  /** `AddItem` spelled out for a record with an English term. */
  lemma AddItemSome(t: Table, item: Record, term: string)
    requires KeyOf(item) == Some(term)
    ensures AddItem(t, item) ==
      if term in t.groups then Table(t.order, t.groups[term := Merged(t.groups[term], item, Suffix(item))])
      else Table(t.order + [term], t.groups[term := Merged(map[], item, Suffix(item))])
  {
  }

  lemma GatherStep(items: seq<Record>, n: nat)
    requires n < |items|
    ensures Gather(items[..n + 1]) == AddItem(Gather(items[..n]), items[n])
  {
    assert items[..n + 1][..n] == items[..n];
  }

  lemma EmitStep(order: seq<string>, groups: map<string, Group>, i: nat)
    requires i < |order| && forall term :: term in order ==> term in groups
    ensures Emit(order[..i + 1], groups) == Emit(order[..i], groups) + [OrderedRecord(order[i], groups[order[i]])]
  {
    assert order[..i + 1][..i] == order[..i];
  }

  /** The inner loop of `consolidate_results`: each field of one record merged into its term's group. */
  method MergeFields(start: Group, item: Record, suffix: string) returns (group: Group)
    ensures group == Merged(start, item, suffix)
  {
    group := start;
    var keys := item.Keys;
    ghost var done: set<string> := {};
    assert Restrict(item, done) == map[];
    MergedEmpty(start, suffix);
    hide Merge, Merged;
    while keys != {}
      invariant keys + done == item.Keys && keys !! done
      invariant group == Merged(start, Restrict(item, done), suffix)
      decreases keys
    {
      var key :| key in keys;
      MergedStep(start, item, done, key, suffix);
      var f := Merge(Lookup(group, key), key, item[key], suffix);
      if f.Some? {
        group := group[key := f.value];
      }
      keys := keys - {key};
      done := done + {key};
    }
    assert Restrict(item, done) == item;
  }

  /**
   * `consolidate_results`: fold the records into the table field by field,
   * then emit one ordered record per term.
   */
  method ConsolidateResults(metadataCleaned: seq<Record>) returns (result: seq<seq<(string, Field)>>)
    ensures result == Consolidate(metadataCleaned)
  {
    if metadataCleaned == [] {
      return [];
    }
    var order, consolidated := GatherAll(metadataCleaned);
    hide Consolidate, Distinct, Gather, Emit;
    GatherShape(metadataCleaned);
    result := EmitAll(order, consolidated);
    ConsolidateIs(metadataCleaned);
  }

  /** The field-merging loop of `consolidate_results`: the table after every record. */
  method GatherAll(metadataCleaned: seq<Record>) returns (order: seq<string>, consolidated: map<string, Group>)
    ensures Table(order, consolidated) == Gather(metadataCleaned)
  {
    order := [];
    consolidated := map[];
    var n := 0;
    assert Gather(metadataCleaned[..n]) == Table([], map[]);
    hide Distinct, Merge, Merged, Suffix, Gather, Emit, OrderedRecord, AddItem, KeyOf;
    while n < |metadataCleaned|
      invariant n <= |metadataCleaned|
      invariant order == Gather(metadataCleaned[..n]).order
      invariant consolidated == Gather(metadataCleaned[..n]).groups
    {
      var item := metadataCleaned[n];
      GatherStep(metadataCleaned, n);
      var englishTerm := KeyOf(item);
      if englishTerm.Some? {
        var term := englishTerm.value;
        AddItemSome(Table(order, consolidated), item, term);
        var start: Group := map[];
        if term !in consolidated {
          order := order + [term];
        } else {
          start := consolidated[term];
        }
        var group := MergeFields(start, item, Suffix(item));
        consolidated := consolidated[term := group];
      }
      n := n + 1;
    }
    assert metadataCleaned[..n] == metadataCleaned;
  }

  /** The output loop of `consolidate_results`: one ordered record per term, in first-seen order. */
  method EmitAll(order: seq<string>, consolidated: map<string, Group>) returns (result: seq<seq<(string, Field)>>)
    requires forall term :: term in order ==> term in consolidated
    ensures result == Emit(order, consolidated)
  {
    hide Emit, OrderedRecord;
    result := [];
    var i := 0;
    while i < |order|
      invariant i <= |order|
      invariant result == Emit(order[..i], consolidated)
    {
      var term := order[i];
      EmitStep(order, consolidated, i);
      result := result + [OrderedRecord(term, consolidated[term])];
      i := i + 1;
    }
    assert order[..i] == order;
  }

  /** The index of the first record grouped under `term`; `|items|` when there is none. */
  function First(items: seq<Record>, term: string): (r: nat)
    ensures r <= |items|
    ensures r < |items| ==> KeyOf(items[r]) == Some(term)
    ensures forall j :: 0 <= j < r ==> KeyOf(items[j]) != Some(term)
  {
    if items == [] then 0
    else if KeyOf(items[0]) == Some(term) then 0
    else 1 + First(items[1..], term)
  }

  lemma FirstAtMost(items: seq<Record>, j: nat)
    requires j < |items|
    ensures KeyOf(items[j]).Some? ==> First(items, KeyOf(items[j]).value) <= j
  {
  }

  /** The first record of `term` among the first `n + 1`, from the first among the first `n`. */
  lemma FirstExtend(items: seq<Record>, n: nat, term: string)
    requires n < |items|
    ensures First(items[..n + 1], term) ==
      if First(items[..n], term) < n then First(items[..n], term)
      else if KeyOf(items[n]) == Some(term) then n else n + 1
  {
    hide KeyOf;
    var a := First(items[..n], term);
    var b := First(items[..n + 1], term);
    assert forall j :: 0 <= j < n ==> items[..n + 1][j] == items[..n][j];
    assert items[..n + 1][n] == items[n];
    if a < n {
      assert KeyOf(items[..n + 1][a]) == Some(term);
      assert b <= a;
    } else if KeyOf(items[n]) == Some(term) {
      assert b <= n;
    }
  }

  /** The table's order grows by a record's term the first time the term appears. */
  lemma GatherOrderStep(items: seq<Record>)
    requires items != []
    ensures var prefix := Gather(items[..|items| - 1]).order;
      var key := KeyOf(items[|items| - 1]);
      Gather(items).order == if key.Some? && key.value !in prefix then prefix + [key.value] else prefix
  {
    hide Merged, Suffix;
    GatherShape(items[..|items| - 1]);
  }

  /** A term is listed exactly when some record carries it. */
  lemma {:induction false} GatherMembers(items: seq<Record>)
    ensures forall term :: term in Gather(items).order <==> First(items, term) < |items|
    decreases |items|
  {
    if items != [] {
      hide Gather, Merged, Suffix;
      var n := |items| - 1;
      var prefix := items[..n];
      assert items[..n + 1] == items;
      GatherMembers(prefix);
      GatherOrderStep(items);
      forall term ensures First(items, term) == (if First(prefix, term) < n then First(prefix, term)
          else if KeyOf(items[n]) == Some(term) then n else n + 1) {
        FirstExtend(items, n, term);
      }
    }
  }

  /** The terms are listed in order of first appearance. */
  lemma {:induction false} GatherOrder(items: seq<Record>)
    ensures forall a, b :: 0 <= a < b < |Gather(items).order| ==>
      First(items, Gather(items).order[a]) < First(items, Gather(items).order[b])
    decreases |items|
  {
    if items != [] {
      hide Gather, Merged, Suffix;
      var n := |items| - 1;
      var prefix := items[..n];
      assert items[..n + 1] == items;
      GatherOrder(prefix);
      GatherMembers(prefix);
      GatherOrderStep(items);
      var order := Gather(prefix).order;
      forall a | 0 <= a < |order| ensures First(items, order[a]) == First(prefix, order[a]) < n {
        FirstExtend(items, n, order[a]);
      }
      var key := KeyOf(items[n]);
      if key.Some? && key.value !in order {
        FirstExtend(items, n, key.value);
        assert First(prefix, key.value) == n;
      }
    }
  }

  /** One output record per grouped term, in the table's order, each starting with its term. */
  lemma ConsolidateShape(items: seq<Record>)
    ensures |Consolidate(items)| == |Gather(items).order|
    ensures forall i :: 0 <= i < |Consolidate(items)| ==>
      Gather(items).order[i] in Gather(items).groups &&
      Consolidate(items)[i] == OrderedRecord(Gather(items).order[i], Gather(items).groups[Gather(items).order[i]]) &&
      Consolidate(items)[i][0] == ("EnglishTerm", Plain(Text(Gather(items).order[i])))
  {
    GatherShape(items);
    var t := Gather(items);
    EmitIndex(t.order, t.groups);
  }

  lemma {:induction false} EmitIndex(order: seq<string>, groups: map<string, Group>)
    requires forall term :: term in order ==> term in groups
    ensures forall i :: 0 <= i < |order| ==> Emit(order, groups)[i] == OrderedRecord(order[i], groups[order[i]])
    decreases |order|
  {
    hide OrderedRecord;
    if order != [] {
      var prefix := order[..|order| - 1];
      EmitIndex(prefix, groups);
      assert Emit(order, groups) == Emit(prefix, groups) + [OrderedRecord(order[|order| - 1], groups[order[|order| - 1]])];
      assert forall i :: 0 <= i < |prefix| ==> order[i] == prefix[i];
    }
  }

  /** The result is empty exactly when no record has a (non-empty) English term. */
  lemma ConsolidateEmptyIff(items: seq<Record>)
    ensures Consolidate(items) == [] <==> forall j :: 0 <= j < |items| ==> KeyOf(items[j]).None?
  {
    ConsolidateShape(items);
    GatherMembers(items);
    if Consolidate(items) != [] {
      var term := Gather(items).order[0];
      assert KeyOf(items[First(items, term)]) == Some(term);
    } else {
      forall j | 0 <= j < |items| ensures KeyOf(items[j]).None? {
        FirstAtMost(items, j);
      }
    }
  }

  /** The contributions to field `key` of the records grouped under `term`, in record order, each with its record's stamp. */
  function Contribs(items: seq<Record>, term: string, key: string): seq<(Value, string)> {
    if items == [] then []
    else
      var last := items[|items| - 1];
      Contribs(items[..|items| - 1], term, key)
        + (if KeyOf(last) == Some(term) && key in last then [(last[key], Suffix(last))] else [])
  }

  /** Every contribution carries the stamp of a record, which is never empty. */
  lemma {:induction false} ContribsStamped(items: seq<Record>, term: string, key: string)
    ensures forall i :: 0 <= i < |Contribs(items, term, key)| ==> Contribs(items, term, key)[i].1 != ""
    decreases |items|
  {
    if items != [] {
      ContribsStamped(items[..|items| - 1], term, key);
    }
  }

  /** The field `key` after the contributions `cs`, merged one by one. */
  function FoldMerge(key: string, cs: seq<(Value, string)>): Option<Field> {
    if cs == [] then None else Merge(FoldMerge(key, cs[..|cs| - 1]), key, cs[|cs| - 1].0, cs[|cs| - 1].1)
  }

  /** What adding a record does to the group of `term`. */
  lemma AddItemGroup(t: Table, item: Record, term: string)
    ensures term in AddItem(t, item).groups <==> term in t.groups || KeyOf(item) == Some(term)
    ensures term in AddItem(t, item).groups ==>
      AddItem(t, item).groups[term] ==
        if KeyOf(item) == Some(term) then Merged(if term in t.groups then t.groups[term] else map[], item, Suffix(item))
        else t.groups[term]
  {
    hide Merged, Suffix;
  }

  lemma ContribsStep(items: seq<Record>, term: string, key: string)
    requires items != []
    ensures var last := items[|items| - 1];
      Contribs(items, term, key) == Contribs(items[..|items| - 1], term, key)
        + (if KeyOf(last) == Some(term) && key in last then [(last[key], Suffix(last))] else [])
  {
  }

  /** A term's consolidated field is its contributions merged in record order; a term with no group has none. */
  lemma {:induction false} GatherField(items: seq<Record>, term: string, key: string)
    ensures term in Gather(items).groups ==>
      Lookup(Gather(items).groups[term], key) == FoldMerge(key, Contribs(items, term, key))
    ensures term !in Gather(items).groups ==> Contribs(items, term, key) == []
    decreases |items|
  {
    if items != [] {
      var n := |items| - 1;
      var prefix := items[..n];
      var item := items[n];
      GatherField(prefix, term, key);
      GatherStep(items, n);
      assert items[..n + 1] == items;
      ContribsStep(items, term, key);
      assert FoldMerge(key, []) == None;
      hide Merge, Merged, FoldMerge, Gather, Contribs, Suffix, KeyOf;
      var t := Gather(prefix);
      AddItemGroup(t, item, term);
      var cs := Contribs(prefix, term, key);
      if KeyOf(item) == Some(term) {
        var g0 := if term in t.groups then t.groups[term] else map[];
        MergedLookup(g0, item, Suffix(item), key);
        if key in item {
          var cs' := cs + [(item[key], Suffix(item))];
          FoldMergeStep(key, cs');
          assert cs'[..|cs|] == cs;
        } else {
          assert cs + [] == cs;
        }
      } else {
        assert cs + [] == cs;
      }
    }
  }

  /** A `*Term` field keeps the value of the first record that has it. */
  lemma {:induction false} TermFirstWins(key: string, cs: seq<(Value, string)>)
    requires ClassOf(key) == TermKey
    ensures FoldMerge(key, cs) == if cs == [] then None else Some(Plain(cs[0].0))
    decreases |cs|
  {
    if cs != [] {
      TermFirstWins(key, cs[..|cs| - 1]);
      if |cs| > 1 {
        assert cs[..|cs| - 1][0] == cs[0];
      }
    }
  }

  /** How many contributions are not `None`. */
  function Given(cs: seq<(Value, string)>): nat {
    if cs == [] then 0 else Given(cs[..|cs| - 1]) + (if cs[|cs| - 1].0.Null? then 0 else 1)
  }

  /** All the elements contributed, pooled. */
  function Pooled(cs: seq<(Value, string)>): set<Elem> {
    if cs == [] then {} else Pooled(cs[..|cs| - 1]) + ElemSet(AsList(cs[|cs| - 1].0))
  }

  /**
   * A `*Synonyms` field exists once some contribution is not `None`; its
   * elements are exactly those contributed; the first contribution is kept
   * as it is, and from the second one on the field is a set.
   */
  lemma {:induction false} SynonymsPooled(key: string, cs: seq<(Value, string)>)
    requires ClassOf(key) == SynonymsKey
    ensures FoldMerge(key, cs).Some? <==> Given(cs) > 0
    ensures FoldMerge(key, cs).Some? ==> Pool(FoldMerge(key, cs).value) == Pooled(cs)
    ensures Given(cs) == 1 ==> FoldMerge(key, cs).value.SynList?
    ensures Given(cs) >= 2 ==> FoldMerge(key, cs).value.SynSet?
    ensures Given(cs) == 0 ==> Pooled(cs) == {}
    decreases |cs|
  {
    if cs != [] {
      SynonymsPooled(key, cs[..|cs| - 1]);
    }
  }

  /** The stamped paragraphs of all contributions, in order. */
  function Lines(cs: seq<(Value, string)>): seq<string> {
    if cs == [] then [] else Lines(cs[..|cs| - 1]) + Stamped(cs[|cs| - 1].0, cs[|cs| - 1].1)
  }

  /** The stamped paragraphs of the first contribution that is not `None`. */
  function FirstLines(cs: seq<(Value, string)>): seq<string> {
    if cs == [] then []
    else if Given(cs[..|cs| - 1]) > 0 then FirstLines(cs[..|cs| - 1])
    else Stamped(cs[|cs| - 1].0, cs[|cs| - 1].1)
  }

  /** Every stamped paragraph is a paragraph followed by its stamp. */
  lemma {:induction false} FormattedStamped(es: seq<Elem>, suffix: string)
    ensures forall i :: 0 <= i < |Formatted(es, suffix)| ==> EndsWith(Formatted(es, suffix)[i], suffix)
    decreases |es|
  {
    if es != [] {
      FormattedStamped(es[1..], suffix);
      forall x: string ensures EndsWith(x + suffix, suffix) {
        assert (x + suffix)[|x|..] == suffix;
      }
    }
  }

  lemma {:induction false} JoinAppend(a: seq<string>, b: seq<string>, sep: string)
    requires a != [] && b != []
    ensures Join(a, sep) + sep + Join(b, sep) == Join(a + b, sep)
    decreases |a|
  {
    if |a| > 1 {
      JoinAppend(a[1..], b, sep);
      assert (a + b)[1..] == a[1..] + b;
    } else {
      assert (a + b)[1..] == b;
    }
  }

  lemma JoinEmptyIff(xs: seq<string>, sep: string)
    requires forall i :: 0 <= i < |xs| ==> xs[i] != ""
    ensures Join(xs, sep) == "" <==> xs == []
  {
    if |xs| > 1 {
      assert |Join(xs, sep)| >= |xs[0]|;
    }
  }

  /** A non-`None` contribution stamps its paragraphs with a non-empty stamp, so its text is empty only when it has none. */
  lemma StampedText(value: Value, suffix: string)
    requires suffix != ""
    ensures Join(Stamped(value, suffix), ParagraphSeparator) == "" <==> Stamped(value, suffix) == []
  {
    if value.List? {
      FormattedStamped(value.elems, suffix);
    }
    JoinEmptyIff(Stamped(value, suffix), ParagraphSeparator);
  }

  /** A `*Paragraphs` field exists once some contribution is not `None`. */
  lemma {:induction false} ParagraphsPresent(key: string, cs: seq<(Value, string)>)
    requires ClassOf(key) == ParagraphsKey
    ensures FoldMerge(key, cs).Some? <==> Given(cs) > 0
    ensures FoldMerge(key, cs).Some? ==> FoldMerge(key, cs).value.Paras?
    ensures Given(cs) == 0 ==> Lines(cs) == [] && FirstLines(cs) == []
    ensures FirstLines(cs) != [] ==> Lines(cs) != []
    decreases |cs|
  {
    if cs != [] {
      var prefix := cs[..|cs| - 1];
      var (v, suffix) := cs[|cs| - 1];
      ParagraphsPresent(key, prefix);
      FoldMergeStep(key, cs);
      ParagraphStep(FoldMerge(key, prefix), key, v, suffix);
      assert Lines(cs) == Lines(prefix) + Stamped(v, suffix);
      assert v.Null? ==> Stamped(v, suffix) == [];
      hide FoldMerge, Merge, Join;
    }
  }

  /**
   * A `*Paragraphs` field is all stamped paragraphs joined by blank lines,
   * with one blank line in front when the first contribution that is not
   * `None` brought no paragraph but a later one did.
   */
  lemma {:induction false} ParagraphsJoined(key: string, cs: seq<(Value, string)>)
    requires ClassOf(key) == ParagraphsKey
    requires forall i :: 0 <= i < |cs| ==> cs[i].1 != ""
    ensures FoldMerge(key, cs).Some? ==> FoldMerge(key, cs) == Some(Paras(
      if FirstLines(cs) != [] || Lines(cs) == [] then Join(Lines(cs), ParagraphSeparator)
      else ParagraphSeparator + Join(Lines(cs), ParagraphSeparator)))
    decreases |cs|
  {
    if cs != [] {
      var prefix := cs[..|cs| - 1];
      var (v, suffix) := cs[|cs| - 1];
      ParagraphsJoined(key, prefix);
      ParagraphsPresent(key, prefix);
      StampedText(v, suffix);
      FoldMergeStep(key, cs);
      var lp := Lines(prefix);
      var st := Stamped(v, suffix);
      var sep := ParagraphSeparator;
      assert Lines(cs) == lp + st;
      assert v.Null? ==> st == [];
      ParagraphStep(FoldMerge(key, prefix), key, v, suffix);
      hide FoldMerge, Lines, FirstLines, Given, Stamped, Merge, Join;
      if v.Null? {
        assert lp + st == lp;
      } else if Given(prefix) == 0 {
        assert lp + st == st;
      } else if st == [] {
        assert lp + st == lp;
      } else if lp == [] {
        assert lp + st == st;
        assert "" + sep + Join(st, sep) == sep + Join(st, sep);
      } else if FirstLines(prefix) != [] {
        JoinAppend(lp, st, sep);
      } else {
        JoinAppend(lp, st, sep);
        assert sep + Join(lp, sep) + sep + Join(st, sep) == sep + (Join(lp, sep) + sep + Join(st, sep));
      }
    }
  }

  /** The paragraph rule for one contribution. */
  lemma ParagraphStep(prior: Option<Field>, key: string, value: Value, suffix: string)
    requires ClassOf(key) == ParagraphsKey
    ensures Merge(prior, key, value, suffix) ==
      if value.Null? then prior
      else if prior.None? then Some(Paras(Join(Stamped(value, suffix), ParagraphSeparator)))
      else if Join(Stamped(value, suffix), ParagraphSeparator) != "" then
        Some(Paras(TextOf(prior.value) + ParagraphSeparator + Join(Stamped(value, suffix), ParagraphSeparator)))
      else prior
  {
  }

  lemma ContainsAt(s: string, p: string, k: nat)
    requires At(s, p, k)
    ensures Contains(s, p)
  {
    ContainsIff(s, p);
  }

  /** Text added after a prefix keeps it a prefix. */
  lemma StartsWithExtend(s: string, t: string, p: string)
    requires StartsWith(s, p)
    ensures StartsWith(s + t, p)
  {
    assert (s + t)[..|p|] == s[..|p|];
  }

  /**
   * A metadata field starts with the first record's value and contains
   * every truthy value contributed.
   */
  lemma {:induction false} MetaCollects(key: string, cs: seq<(Value, string)>)
    requires ClassOf(key) == MetaKey && cs != []
    ensures FoldMerge(key, cs).Some? && FoldMerge(key, cs).value.Plain?
    ensures StartsWith(Display(FoldMerge(key, cs).value.v), Display(cs[0].0))
    ensures forall i :: 0 <= i < |cs| && Truthy(cs[i].0) ==> Contains(Display(FoldMerge(key, cs).value.v), Display(cs[i].0))
    decreases |cs|
  {
    hide Merge, FoldMerge, Display, Truthy, StartsWith, Contains, IndexOf;
    if |cs| == 1 {
      MetaFirst(key, cs);
    } else {
      var prefix := cs[..|cs| - 1];
      MetaCollects(key, prefix);
      assert forall i :: 0 <= i < |prefix| ==> prefix[i] == cs[i];
      MetaSpread(key, cs);
    }
  }

  /** The first record's value opens a metadata field. */
  lemma MetaFirst(key: string, cs: seq<(Value, string)>)
    requires ClassOf(key) == MetaKey && |cs| == 1
    ensures FoldMerge(key, cs) == Some(Plain(cs[0].0))
    ensures StartsWith(Display(cs[0].0), Display(cs[0].0))
    ensures Contains(Display(cs[0].0), Display(cs[0].0))
  {
    hide Contains, IndexOf;
    FoldMergeStep(key, cs);
    assert cs[..0] == [];
    var d := Display(cs[0].0);
    assert d[0..|d|] == d;
    ContainsAt(d, d, 0);
  }

  /** One more record keeps the first value in front and every truthy value inside. */
  lemma MetaSpread(key: string, cs: seq<(Value, string)>)
    requires ClassOf(key) == MetaKey && |cs| >= 2
    requires FoldMerge(key, cs[..|cs| - 1]).Some? && FoldMerge(key, cs[..|cs| - 1]).value.Plain?
    requires StartsWith(Display(FoldMerge(key, cs[..|cs| - 1]).value.v), Display(cs[0].0))
    requires forall i :: 0 <= i < |cs| - 1 && Truthy(cs[i].0) ==>
      Contains(Display(FoldMerge(key, cs[..|cs| - 1]).value.v), Display(cs[i].0))
    ensures FoldMerge(key, cs).Some? && FoldMerge(key, cs).value.Plain?
    ensures StartsWith(Display(FoldMerge(key, cs).value.v), Display(cs[0].0))
    ensures forall i :: 0 <= i < |cs| && Truthy(cs[i].0) ==> Contains(Display(FoldMerge(key, cs).value.v), Display(cs[i].0))
  {
    var n := |cs| - 1;
    var v := cs[n].0;
    var before := FoldMerge(key, cs[..n]).value.v;
    var appended := Truthy(v) && v != before;
    MetaStep(key, before, v, cs[n].1);
    FoldMergeStep(key, cs);
    var b := Display(before);
    var d := Display(v);
    var after := Display(FoldMerge(key, cs).value.v);
    assert after == if appended then b + "\n" + d else b;
    hide Merge, FoldMerge, Display, Truthy, StartsWith, Contains, IndexOf;
    MetaExtends(b, d, after, appended);
  }

  /** Records that all bring the same value leave a metadata field at that value. */
  lemma {:induction false} MetaUniform(key: string, cs: seq<(Value, string)>)
    requires ClassOf(key) == MetaKey && cs != []
    requires forall i :: 0 <= i < |cs| ==> cs[i].0 == cs[0].0
    ensures FoldMerge(key, cs) == Some(Plain(cs[0].0))
    decreases |cs|
  {
    var n := |cs| - 1;
    FoldMergeStep(key, cs);
    if n > 0 {
      var prefix := cs[..n];
      assert prefix[0] == cs[0];
      MetaUniform(key, prefix);
      MetaStep(key, cs[0].0, cs[n].0, cs[n].1);
    }
  }

  lemma FoldMergeStep(key: string, cs: seq<(Value, string)>)
    requires cs != []
    ensures FoldMerge(key, cs) == Merge(FoldMerge(key, cs[..|cs| - 1]), key, cs[|cs| - 1].0, cs[|cs| - 1].1)
  {
  }

  /** The value after one contribution extends the value before it and contains the contribution when it is appended or already equal. */
  lemma MetaExtends(b: string, d: string, after: string, appended: bool)
    requires after == if appended then b + "\n" + d else b
    ensures forall p :: StartsWith(b, p) ==> StartsWith(after, p)
    ensures forall p :: Contains(b, p) ==> Contains(after, p)
    ensures appended ==> Contains(after, d)
    ensures Contains(after, b)
  {
    hide Contains, IndexOf;
    assert after[0..|b|] == b;
    ContainsAt(after, b, 0);
    if appended {
      assert after == b + ("\n" + d);
      forall p | StartsWith(b, p) ensures StartsWith(after, p) {
        StartsWithExtend(b, "\n" + d, p);
      }
      forall p | Contains(b, p) ensures Contains(after, p) {
        ContainsExtend(b, "\n" + d, p);
      }
      assert after[|b| + 1..|b| + 1 + |d|] == d;
      ContainsAt(after, d, |b| + 1);
    }
  }

  /**
   * One metadata contribution: `"\n"` and the new value are appended exactly
   * when the value is truthy and differs from the whole value so far.
   */
  lemma MetaStep(key: string, before: Value, value: Value, suffix: string)
    requires ClassOf(key) == MetaKey
    ensures Merge(Some(Plain(before)), key, value, suffix) ==
      if Truthy(value) && value != before then Some(Plain(Text(Display(before) + "\n" + Display(value))))
      else Some(Plain(before))
  {
  }

  /**
   * The text of a metadata field fed only strings: the first string, then,
   * each after a newline, every later non-empty string that differs from
   * the whole text collected before it.
   */
  function MetaText(ss: seq<string>): string
    requires ss != []
  {
    if |ss| == 1 then ss[0]
    else
      var before := MetaText(ss[..|ss| - 1]);
      var d := ss[|ss| - 1];
      if d != "" && d != before then before + "\n" + d else before
  }

  /** The strings of contributions that are all strings. */
  function Texts(cs: seq<(Value, string)>): (ss: seq<string>)
    requires forall i :: 0 <= i < |cs| ==> cs[i].0.Text?
    ensures |ss| == |cs| && forall i :: 0 <= i < |cs| ==> cs[i].0 == Text(ss[i])
  {
    seq(|cs|, i requires 0 <= i < |cs| => cs[i].0.s)
  }

  /** When every record brings a string, a metadata field holds exactly `MetaText` of those strings. */
  lemma {:induction false} MetaFold(key: string, cs: seq<(Value, string)>)
    requires ClassOf(key) == MetaKey && cs != []
    requires forall i :: 0 <= i < |cs| ==> cs[i].0.Text?
    ensures FoldMerge(key, cs) == Some(Plain(Text(MetaText(Texts(cs)))))
    decreases |cs|
  {
    var n := |cs| - 1;
    FoldMergeStep(key, cs);
    if n == 0 {
      assert cs[..0] == [];
    } else {
      var prefix := cs[..n];
      MetaFold(key, prefix);
      assert Texts(cs)[..n] == Texts(prefix);
      var b := MetaText(Texts(prefix));
      MetaStep(key, Text(b), cs[n].0, cs[n].1);
    }
  }

  /** A value seen before is added again when another value came in between. */
  lemma MetaRepeatsAfterChange()
    ensures FoldMerge("docType", [(Text("A"), "s"), (Text("B"), "s"), (Text("A"), "s")]) == Some(Plain(Text("A\nB\nA")))
  {
    var key := "docType";
    DocTypeIsMeta();
    hide ClassOf, FoldMerge, Merge;
    var c1 := [(Text("A"), "s")];
    var c2 := c1 + [(Text("B"), "s")];
    var c3 := c2 + [(Text("A"), "s")];
    assert c3 == [(Text("A"), "s"), (Text("B"), "s"), (Text("A"), "s")];
    assert c3[..2] == c2 && c2[..1] == c1;
    MetaFirst(key, c1);
    FoldMergeStep(key, c2);
    MetaStep(key, Text("A"), Text("B"), "s");
    assert "A" + "\n" + "B" == "A\nB";
    FoldMergeStep(key, c3);
    MetaStep(key, Text("A\nB"), Text("A"), "s");
    assert "A\nB" + "\n" + "A" == "A\nB\nA";
  }

  /** `docType` falls in the metadata class. */
  lemma DocTypeIsMeta()
    ensures ClassOf("docType") == MetaKey
  {
    hide EndsWith;
    EndChar("docType", "Term", 1);
    EndChar("docType", "Synonyms", 1);
    EndChar("docType", "Paragraphs", 1);
  }

  /** A field name the output keeps: a `*Term`, `*Synonyms` or `*Paragraphs` name or a metadata name. */
  predicate Emitted(k: string) {
    EndsWith(k, "Term") || EndsWith(k, "Synonyms") || EndsWith(k, "Paragraphs") || k in MetaKeys
  }

  /** A name ending in `suf` ends in each of its last characters. */
  lemma EndChar(k: string, suf: string, i: nat)
    requires 1 <= i <= |suf|
    ensures EndsWith(k, suf) ==> |k| >= i && k[|k| - i] == suf[|suf| - i]
  {
    if EndsWith(k, suf) {
      assert k[|k| - i] == k[|k| - |suf|..][|suf| - i];
    }
  }

  /** The three suffixes exclude one another. */
  lemma SuffixesExclusive(k: string)
    ensures EndsWith(k, "Synonyms") ==> !EndsWith(k, "Term")
    ensures EndsWith(k, "Paragraphs") ==> !EndsWith(k, "Term") && !EndsWith(k, "Synonyms")
  {
    EndChar(k, "Term", 1);
    EndChar(k, "Synonyms", 1);
    EndChar(k, "Synonyms", 2);
    EndChar(k, "Paragraphs", 1);
    EndChar(k, "Paragraphs", 2);
  }

  /** A name is kept in the output exactly when some merge rule applies to it. */
  lemma EmittedIffMerged(k: string)
    ensures Emitted(k) <==> ClassOf(k) != Ignored
  {
    assert !EndsWith("docURLs", "Term") && !EndsWith("docURLs", "Synonyms") && !EndsWith("docURLs", "Paragraphs");
  }

  /** A name no rule applies to never becomes a field. */
  lemma {:induction false} IgnoredNeverMerged(key: string, cs: seq<(Value, string)>)
    ensures ClassOf(key) == Ignored ==> FoldMerge(key, cs) == None
    decreases |cs|
  {
    if cs != [] {
      IgnoredNeverMerged(key, cs[..|cs| - 1]);
    }
  }

  /** Every field of a consolidated group has a name the output keeps (`docURLs` and unknown names are dropped). */
  lemma GroupKeysKept(items: seq<Record>, term: string, key: string)
    requires term in Gather(items).groups && key in Gather(items).groups[term]
    ensures Emitted(key)
  {
    GatherField(items, term, key);
    IgnoredNeverMerged(key, Contribs(items, term, key));
    EmittedIffMerged(key);
  }

  /** Across all records, a `*Term` field of a group is the value of the first record of that group that has the field. */
  lemma GroupTermFirstWins(items: seq<Record>, term: string, key: string)
    requires ClassOf(key) == TermKey && term in Gather(items).groups
    ensures key in Gather(items).groups[term] <==> Contribs(items, term, key) != []
    ensures key in Gather(items).groups[term] ==>
      Gather(items).groups[term][key] == Plain(Contribs(items, term, key)[0].0)
  {
    GatherField(items, term, key);
    TermFirstWins(key, Contribs(items, term, key));
  }

  /** The position of a key class in the output order. */
  function Rank(k: string): nat {
    if k == "EnglishTerm" then 0
    else if EndsWith(k, "Term") then 1
    else if EndsWith(k, "Synonyms") then 2
    else if k == "EnglishParagraphs" then 3
    else if EndsWith(k, "Paragraphs") then 4
    else if k == "docSymbol" then 5
    else if k == "publicationDate" then 6
    else if k == "docType" then 7
    else if k == "docTitle" then 8
    else 9
  }

  /** `a` comes before `b`: an earlier class, or the same class and alphabetically first. */
  predicate Precedes(a: string, b: string) {
    Rank(a) < Rank(b) || (Rank(a) == Rank(b) && Below(a, b) && a != b)
  }

  predicate KeyOrdered(ks: seq<string>) {
    forall i, j :: 0 <= i < j < |ks| ==> Precedes(ks[i], ks[j])
  }

  predicate RanksIn(ks: seq<string>, lo: nat, hi: nat) {
    forall i :: 0 <= i < |ks| ==> lo <= Rank(ks[i]) <= hi
  }

  lemma ConcatOrdered(a: seq<string>, b: seq<string>, lo: nat, mid: nat, hi: nat)
    requires lo <= mid < hi
    requires KeyOrdered(a) && KeyOrdered(b) && RanksIn(a, lo, mid) && RanksIn(b, mid + 1, hi)
    ensures KeyOrdered(a + b) && RanksIn(a + b, lo, hi)
  {
    forall i | 0 <= i < |a + b| ensures lo <= Rank((a + b)[i]) <= hi {
      if i >= |a| {
        assert (a + b)[i] == b[i - |a|];
      }
    }
    forall i, j | 0 <= i < j < |a + b| ensures Precedes((a + b)[i], (a + b)[j]) {
      if j < |a| {
        assert Precedes(a[i], a[j]);
      } else if i >= |a| {
        assert Precedes(b[i - |a|], b[j - |a|]);
      } else {
        assert Rank(a[i]) <= mid < Rank(b[j - |a|]);
      }
    }
  }

  /** A sorted class of names is in output order. */
  lemma SortedOrdered(ks: set<string>, rank: nat)
    requires forall k :: k in ks ==> Rank(k) == rank
    ensures KeyOrdered(Sorted(ks)) && RanksIn(Sorted(ks), rank, rank)
  {
    var r := Sorted(ks);
    forall i, j | 0 <= i < j < |r| ensures Precedes(r[i], r[j]) {
      assert r[i] in ks && r[j] in ks;
    }
  }

  /** A name before an ordered sequence, and before each of its names, keeps it ordered. */
  lemma OrderedCons(x: string, rest: seq<string>)
    requires KeyOrdered(rest) && forall y :: y in rest ==> Precedes(x, y)
    ensures KeyOrdered([x] + rest)
  {
    hide Precedes;
    forall i, j | 0 <= i < j < |[x] + rest| ensures Precedes(([x] + rest)[i], ([x] + rest)[j]) {
      assert ([x] + rest)[j] == rest[j - 1];
      if i > 0 {
        assert ([x] + rest)[i] == rest[i - 1];
      }
    }
  }

  /** Picking the names present keeps their order. */
  lemma {:induction false} PresentOrdered(data: Group, ks: seq<string>, lo: nat, hi: nat)
    requires KeyOrdered(ks) && RanksIn(ks, lo, hi)
    ensures KeyOrdered(Present(data, ks)) && RanksIn(Present(data, ks), lo, hi)
    decreases |ks|
  {
    if ks != [] {
      var tail := ks[1..];
      assert KeyOrdered(tail) && RanksIn(tail, lo, hi) by {
        forall i | 0 <= i < |tail| ensures tail[i] == ks[i + 1] { }
      }
      PresentOrdered(data, tail, lo, hi);
      var rest := Present(data, tail);
      assert Present(data, ks) == (if ks[0] in data then [ks[0]] else []) + rest;
      hide Present;
      if ks[0] in data {
        forall y | y in rest ensures Precedes(ks[0], y) {
          var m :| 0 <= m < |tail| && tail[m] == y;
          assert y == ks[m + 1];
        }
        OrderedCons(ks[0], rest);
        forall i | 0 <= i < |[ks[0]] + rest| ensures lo <= Rank(([ks[0]] + rest)[i]) <= hi {
          if i > 0 {
            assert ([ks[0]] + rest)[i] == rest[i - 1];
          }
        }
      } else {
        assert [] + rest == rest;
      }
    }
  }

  /** The names the output keeps after `EnglishTerm`: those the group has among the kept names. */
  lemma OrderedKeysExact(data: Group)
    ensures forall k :: k in OrderedKeys(data) <==> k in data && k != "EnglishTerm" && Emitted(k)
  {
    forall k ensures k in OrderedKeys(data) <==> k in data && k != "EnglishTerm" && Emitted(k) {
      KeptName(data, k);
    }
  }

  lemma KeptName(data: Group, k: string)
    ensures k in OrderedKeys(data) <==> k in data && k != "EnglishTerm" && Emitted(k)
  {
    var s1 := Sorted(TermKeys(data));
    var s2 := Sorted(SynonymKeys(data));
    var s3 := Present(data, ["EnglishParagraphs"]);
    var s4 := Sorted(ParagraphKeys(data));
    var s5 := Present(data, MetaKeys);
    assert OrderedKeys(data) == s1 + s2 + s3 + s4 + s5;
    assert k in s1 <==> k in data && EndsWith(k, "Term") && k != "EnglishTerm";
    assert k in s2 <==> k in data && EndsWith(k, "Synonyms");
    assert k in s3 <==> k in data && k == "EnglishParagraphs";
    assert k in s4 <==> k in data && EndsWith(k, "Paragraphs") && k != "EnglishParagraphs";
    assert k in s5 <==> k in data && k in MetaKeys;
    hide Sorted, Present, OrderedKeys, TermKeys, SynonymKeys, ParagraphKeys, EndsWith;
    NamedKinds(k);
  }

  /** `EnglishTerm` is none of the other kept names; `EnglishParagraphs` is a paragraphs name. */
  lemma NamedKinds(k: string)
    ensures k == "EnglishTerm" ==> !EndsWith(k, "Synonyms") && !EndsWith(k, "Paragraphs") && k !in MetaKeys
    ensures k == "EnglishParagraphs" ==> EndsWith(k, "Paragraphs")
  {
    EndChar(k, "Synonyms", 1);
    EndChar(k, "Paragraphs", 1);
    if k == "EnglishParagraphs" {
      assert k[|k| - |"Paragraphs"|..] == "Paragraphs";
    }
  }

  /** The kept names follow `EnglishTerm` class by class, alphabetically within a class. */
  lemma OrderedKeysOrdered(data: Group)
    ensures KeyOrdered(["EnglishTerm"] + OrderedKeys(data))
  {
    forall k | k in TermKeys(data) ensures Rank(k) == 1 { }
    forall k | k in SynonymKeys(data) ensures Rank(k) == 2 { SuffixesExclusive(k); }
    forall k | k in ParagraphKeys(data) ensures Rank(k) == 4 { SuffixesExclusive(k); }
    SortedOrdered(TermKeys(data), 1);
    SortedOrdered(SynonymKeys(data), 2);
    SortedOrdered(ParagraphKeys(data), 4);
    FixedRanks();
    PresentOrdered(data, ["EnglishParagraphs"], 3, 3);
    PresentOrdered(data, MetaKeys, 5, 8);
    ClassesOrdered(Sorted(TermKeys(data)), Sorted(SynonymKeys(data)), Present(data, ["EnglishParagraphs"]),
      Sorted(ParagraphKeys(data)), Present(data, MetaKeys));
  }

  /** The five classes of kept names, each ordered, in rank order after `EnglishTerm`. */
  lemma ClassesOrdered(s1: seq<string>, s2: seq<string>, s3: seq<string>, s4: seq<string>, s5: seq<string>)
    requires KeyOrdered(s1) && RanksIn(s1, 1, 1)
    requires KeyOrdered(s2) && RanksIn(s2, 2, 2)
    requires KeyOrdered(s3) && RanksIn(s3, 3, 3)
    requires KeyOrdered(s4) && RanksIn(s4, 4, 4)
    requires KeyOrdered(s5) && RanksIn(s5, 5, 8)
    ensures KeyOrdered(["EnglishTerm"] + (s1 + s2 + s3 + s4 + s5))
  {
    assert RanksIn(["EnglishTerm"], 0, 0) && KeyOrdered(["EnglishTerm"]);
    hide Rank, KeyOrdered, RanksIn;
    ConcatOrdered(s4, s5, 4, 4, 8);
    ConcatOrdered(s3, s4 + s5, 3, 3, 8);
    ConcatOrdered(s2, s3 + (s4 + s5), 2, 2, 8);
    ConcatOrdered(s1, s2 + (s3 + (s4 + s5)), 1, 1, 8);
    assert s1 + s2 + s3 + s4 + s5 == s1 + (s2 + (s3 + (s4 + s5)));
    ConcatOrdered(["EnglishTerm"], s1 + s2 + s3 + s4 + s5, 0, 0, 8);
  }

  /**
   * The output record of a term: `EnglishTerm` first, then every kept field
   * exactly once, by class and alphabetically within a class, each with its
   * consolidated value.
   */
  lemma KeyOrder(term: string, data: Group)
    ensures OrderedRecord(term, data)[0] == ("EnglishTerm", Plain(Text(term)))
    ensures forall k :: k in OrderedKeys(data) <==> k in data && k != "EnglishTerm" && Emitted(k)
    ensures KeyOrdered(["EnglishTerm"] + OrderedKeys(data))
    ensures |OrderedRecord(term, data)| == 1 + |OrderedKeys(data)|
    ensures forall i :: 0 <= i < |OrderedKeys(data)| ==>
      OrderedRecord(term, data)[i + 1] == (OrderedKeys(data)[i], data[OrderedKeys(data)[i]])
  {
    hide OrderedKeys, Sorted, Present, Emitted, KeyOrdered, Rank, RanksIn, ClassOf;
    OrderedKeysExact(data);
    OrderedKeysOrdered(data);
  }

  /** A name whose last letter is neither `m` nor `s` has none of the three suffixes. */
  lemma PlainEnding(k: string)
    requires |k| > 0 && k[|k| - 1] != 'm' && k[|k| - 1] != 's'
    ensures !EndsWith(k, "Term") && !EndsWith(k, "Synonyms") && !EndsWith(k, "Paragraphs")
  {
    hide EndsWith;
    EndChar(k, "Term", 1);
    EndChar(k, "Synonyms", 1);
    EndChar(k, "Paragraphs", 1);
  }

  /** The metadata names rank 5 to 8 in their listed order, `EnglishParagraphs` ranks 3. */
  lemma NamedRanks()
    ensures Rank("EnglishParagraphs") == 3
    ensures forall i :: 0 <= i < |MetaKeys| ==> Rank(MetaKeys[i]) == 5 + i
  {
    hide EndsWith;
    EndChar("EnglishParagraphs", "Term", 1);
    EndChar("EnglishParagraphs", "Synonyms", 2);
    PlainEnding("docSymbol");
    PlainEnding("publicationDate");
    PlainEnding("docType");
    PlainEnding("docTitle");
  }

  /** The ranks of the names the output places by name. */
  lemma FixedRanks()
    ensures KeyOrdered(["EnglishParagraphs"]) && RanksIn(["EnglishParagraphs"], 3, 3)
    ensures KeyOrdered(MetaKeys) && RanksIn(MetaKeys, 5, 8)
  {
    NamedRanks();
    hide Rank;
    assert forall i, j :: 0 <= i < j < |MetaKeys| ==> Rank(MetaKeys[i]) < Rank(MetaKeys[j]);
  }
}
