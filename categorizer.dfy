/** The latest categorization driver (cde_harmonization/grouping/categorizer.py): label
    normalisation, the per-row categorization loop with error isolation, the KeyBERT score
    filter and the flattening of the SciGraph annotation response. The NLP pipeline, the
    keyphrase model and the annotation service are supplied as functions. */
module Categorizer {
  import opened Wrappers
  import opened Seqs
  import opened Strings
  import opened Py

  /** The spaCy pipeline: the lemmas of a text (None when the pipeline raises) and the
      vocabulary's stop-word flag. */
  datatype Nlp = Nlp(lemmatize: string -> Option<seq<string>>, isStop: string -> bool)

  /** Python's `string.punctuation`. */
  const Punctuation: string := "!\"#$%&'()*+,-./:;<=>?@[\\]^_`{|}~"

  /** A lemma survives normalisation when it is no stop word and no substring of the punctuation
      string (`word in string.punctuation` is a substring test). */
  predicate KeepWord(nlp: Nlp, w: string) {
    !nlp.isStop(w) && !IsSubstring(w, Punctuation)
  }

  /** The lemmas of `category` that survive. */
  function KeptWords(nlp: Nlp, category: string): (r: seq<string>)
    requires nlp.lemmatize(category).Some?
    ensures forall i :: 0 <= i < |r| ==> KeepWord(nlp, r[i]) && r[i] in nlp.lemmatize(category).value
    ensures forall i :: 0 <= i < |nlp.lemmatize(category).value| && KeepWord(nlp, nlp.lemmatize(category).value[i]) ==>
      nlp.lemmatize(category).value[i] in r
  {
    Filter(nlp.lemmatize(category).value, (w: string) => KeepWord(nlp, w))
  }

  /** `normalize`: the surviving lemmas joined by single spaces. */
  function Normalize(nlp: Nlp, category: string): (r: Result<string, Error>)
    ensures r.Failure? <==> nlp.lemmatize(category).None?
    ensures r.Failure? ==> r.error == Raised
  {
    match nlp.lemmatize(category)
    case None => Failure(Raised)
    case Some(_) => Success(Join(" ", KeptWords(nlp, category)))
  }

  /** The empty lemma never survives: it is a substring of every string. */
  lemma EmptyWordDropped(nlp: Nlp)
    ensures !KeepWord(nlp, "")
  {
    assert OccursAt(Punctuation, "", 0);
  }

  lemma JoinNonEmpty(sep: string, xs: seq<string>)
    requires xs != [] && xs[0] != ""
    ensures Join(sep, xs) != ""
  {
    if |xs| > 1 {
      assert Join(sep, xs) == xs[0] + sep + Join(sep, xs[1..]);
    }
  }

  /** A category normalises to the empty label exactly when every one of its lemmas is a stop
      word or punctuation; nothing downstream drops such a label. */
  lemma NormalizeEmptyIff(nlp: Nlp, category: string)
    requires nlp.lemmatize(category).Some?
    ensures Normalize(nlp, category) == Success("") <==>
      forall i :: 0 <= i < |nlp.lemmatize(category).value| ==> !KeepWord(nlp, nlp.lemmatize(category).value[i])
  {
    var kept := KeptWords(nlp, category);
    var lemmas := nlp.lemmatize(category).value;
    if kept != [] {
      EmptyWordDropped(nlp);
      JoinNonEmpty(" ", kept);
      var j :| 0 <= j < |lemmas| && lemmas[j] == kept[0];
      assert KeepWord(nlp, lemmas[j]);
    } else {
      forall i | 0 <= i < |lemmas| ensures !KeepWord(nlp, lemmas[i]) {
      }
    }
  }

  /** When the surviving lemmas hold no space and at least one survives, splitting the label on
      spaces gives back exactly the surviving lemmas, in order. */
  lemma NormalizeWords(nlp: Nlp, category: string)
    requires nlp.lemmatize(category).Some?
    requires KeptWords(nlp, category) != []
    requires forall i :: 0 <= i < |KeptWords(nlp, category)| ==> ' ' !in KeptWords(nlp, category)[i]
    ensures Normalize(nlp, category).Success?
    ensures Split(Normalize(nlp, category).value, " ") == KeptWords(nlp, category)
  {
    SplitJoin(KeptWords(nlp, category), ' ');
  }

  /** The list comprehension normalising every candidate; the first failure propagates. */
  function NormalizeAll(nlp: Nlp, candidates: seq<string>): (r: Result<seq<string>, Error>)
    ensures r.Success? <==> forall i :: 0 <= i < |candidates| ==> Normalize(nlp, candidates[i]).Success?
    ensures r.Failure? ==> r.error == Raised
    ensures r.Success? ==> |r.value| == |candidates|
    ensures r.Success? ==> forall i :: 0 <= i < |candidates| ==> Normalize(nlp, candidates[i]) == Success(r.value[i])
    decreases |candidates|
  {
    if candidates == [] then Success([])
    else
      var first :- Normalize(nlp, candidates[0]);
      var rest :- NormalizeAll(nlp, candidates[1..]);
      Success([first] + rest)
  }

  /** A categorizer after `__init__`: its text fields and the defaults overridden by the options. */
  datatype Categorizer = Categorizer(fields: seq<string>, options: Options)

  const Defaults: Options := map["field_name" := OStr("categories"), "score_threshold" := ONum(0.0)]

  /** A categorizer whose category column is a string (see the README on other key types). */
  predicate Valid(c: Categorizer) {
    "field_name" in c.options && c.options["field_name"].OStr? && "score_threshold" in c.options
  }

  function FieldName(c: Categorizer): string
    requires Valid(c)
  {
    c.options["field_name"].s
  }

  /** `__init__`: the options override the defaults key by key. */
  function NewCategorizer(fields: seq<string>, options: Options): (r: Result<Categorizer, Error>)
    ensures r.Failure? <==> "field_name" in options && !options["field_name"].OStr?
    ensures r.Success? ==> Valid(r.value) && r.value.fields == fields
    ensures r.Success? ==> FieldName(r.value) == (if "field_name" in options then options["field_name"].s else "categories")
    ensures r.Success? ==>
      r.value.options["score_threshold"] == (if "score_threshold" in options then options["score_threshold"] else ONum(0.0))
    ensures r.Success? ==> forall k :: k in options ==> k in r.value.options && r.value.options[k] == options[k]
  {
    var merged := MergeOptions(Defaults, options);
    if merged["field_name"].OStr? then Success(Categorizer(fields, merged)) else Failure(TypeError)
  }

  /** One iteration of the `try` block: categorize the row, normalise and deduplicate the labels,
      and write them under the category column. */
  function CategorizeRow(fieldName: string, nlp: Nlp, categorizeField: Row -> Result<seq<string>, Error>, row: Row): (r: Result<Row, Error>)
    ensures categorizeField(row).Failure? ==> r == Failure(categorizeField(row).error)
  {
    var candidates :- categorizeField(row);
    var labels :- NormalizeAll(nlp, candidates);
    Success(row[fieldName := List(Dedup(labels))])
  }

  /** A row succeeds exactly when `categorize_field` and every normalisation succeed. */
  lemma CategorizeRowSucceeds(fieldName: string, nlp: Nlp, categorizeField: Row -> Result<seq<string>, Error>, row: Row)
    ensures CategorizeRow(fieldName, nlp, categorizeField, row).Success? <==>
      categorizeField(row).Success? &&
      forall i :: 0 <= i < |categorizeField(row).value| ==> Normalize(nlp, categorizeField(row).value[i]).Success?
  {
  }

  /** On success only the category column is written; every other column keeps its value. */
  lemma CategorizeRowWritesOnlyCategories(fieldName: string, nlp: Nlp, categorizeField: Row -> Result<seq<string>, Error>, row: Row)
    requires CategorizeRow(fieldName, nlp, categorizeField, row).Success?
    ensures CategorizeRow(fieldName, nlp, categorizeField, row).value.Keys == row.Keys + {fieldName}
    ensures forall k :: k in row && k != fieldName ==> CategorizeRow(fieldName, nlp, categorizeField, row).value[k] == row[k]
  {
  }

  /** On success the category column is a list holding each normalised candidate exactly once. */
  lemma CategorizeRowLabels(fieldName: string, nlp: Nlp, categorizeField: Row -> Result<seq<string>, Error>, row: Row)
    requires CategorizeRow(fieldName, nlp, categorizeField, row).Success?
    ensures var labels := CategorizeRow(fieldName, nlp, categorizeField, row).value[fieldName];
      labels.List? && NoDups(labels.items)
    ensures var labels := CategorizeRow(fieldName, nlp, categorizeField, row).value[fieldName];
      forall x :: x in labels.items <==>
        exists i :: 0 <= i < |categorizeField(row).value| && Normalize(nlp, categorizeField(row).value[i]) == Success(x)
  {
    var candidates := categorizeField(row).value;
    var labels := NormalizeAll(nlp, candidates).value;
    var categories := Dedup(labels);
    assert CategorizeRow(fieldName, nlp, categorizeField, row).value[fieldName] == List(categories);
    forall x ensures x in categories <==> exists i :: 0 <= i < |candidates| && Normalize(nlp, candidates[i]) == Success(x) {
      if x in categories {
        var i :| 0 <= i < |labels| && labels[i] == x;
        assert Normalize(nlp, candidates[i]) == Success(x);
      }
      if exists i :: 0 <= i < |candidates| && Normalize(nlp, candidates[i]) == Success(x) {
        var i :| 0 <= i < |candidates| && Normalize(nlp, candidates[i]) == Success(x);
        assert labels[i] == x;
      }
    }
  }

  /** The outcome of the `try` block for every row. */
  function Outcomes(fieldName: string, nlp: Nlp, categorizeField: Row -> Result<seq<string>, Error>, cde: seq<Row>): (r: seq<Result<Row, Error>>)
    ensures |r| == |cde|
  {
    seq(|cde|, i requires 0 <= i < |cde| => CategorizeRow(fieldName, nlp, categorizeField, cde[i]))
  }

  /** The errors list: one entry per failing row, holding the row as copied and its exception,
      in row order. */
  function Failures(cde: seq<Row>, outcomes: seq<Result<Row, Error>>): (r: seq<(Row, Error)>)
    requires |outcomes| == |cde|
    ensures |r| <= |cde|
    decreases |cde|
  {
    if cde == [] then []
    else
      var n := |cde| - 1;
      var prev := Failures(cde[..n], outcomes[..n]);
      if outcomes[n].Failure? then prev + [(cde[n], outcomes[n].error)] else prev
  }

  /** Every recorded error comes from a failing row and carries that row's exception. */
  lemma {:induction false} FailureEntry(cde: seq<Row>, outcomes: seq<Result<Row, Error>>, k: nat)
    requires |outcomes| == |cde| && k < |Failures(cde, outcomes)|
    ensures exists i :: 0 <= i < |cde| && outcomes[i].Failure? && Failures(cde, outcomes)[k] == (cde[i], outcomes[i].error)
    decreases |cde|
  {
    var n := |cde| - 1;
    var prefix, before := cde[..n], outcomes[..n];
    var prev := Failures(prefix, before);
    if k < |prev| {
      FailureEntry(prefix, before, k);
      var i :| 0 <= i < n && before[i].Failure? && prev[k] == (prefix[i], before[i].error);
      assert prefix[i] == cde[i] && before[i] == outcomes[i];
    } else {
      assert Failures(cde, outcomes)[k] == (cde[n], outcomes[n].error);
    }
  }

  /** Every failing row is recorded with its exception. */
  lemma {:induction false} FailingRowRecorded(cde: seq<Row>, outcomes: seq<Result<Row, Error>>, i: nat)
    requires |outcomes| == |cde| && i < |cde| && outcomes[i].Failure?
    ensures (cde[i], outcomes[i].error) in Failures(cde, outcomes)
    decreases |cde|
  {
    var n := |cde| - 1;
    if i < n {
      var prefix, before := cde[..n], outcomes[..n];
      FailingRowRecorded(prefix, before, i);
      assert prefix[i] == cde[i] && before[i] == outcomes[i];
    }
  }

  /** `categorize_cde`: works on a copy of the rows (sequences are values, so the caller's rows
      are never touched); a row that succeeds gets its category column, a row that raises is
      kept as copied and recorded in `errors`, and the loop goes on. */
  method CategorizeCde(c: Categorizer, nlp: Nlp, categorizeField: Row -> Result<seq<string>, Error>, cde: seq<Row>)
      returns (rows: seq<Row>, errors: seq<(Row, Error)>)
    requires Valid(c)
    ensures |rows| == |cde|
    ensures forall i :: 0 <= i < |cde| && CategorizeRow(FieldName(c), nlp, categorizeField, cde[i]).Success? ==>
      rows[i] == CategorizeRow(FieldName(c), nlp, categorizeField, cde[i]).value
    ensures forall i :: 0 <= i < |cde| && CategorizeRow(FieldName(c), nlp, categorizeField, cde[i]).Failure? ==>
      rows[i] == cde[i]
    ensures errors == Failures(cde, Outcomes(FieldName(c), nlp, categorizeField, cde))
  {
    var fieldName := FieldName(c);
    rows := cde;
    errors := [];
    for i := 0 to |rows|
      invariant |rows| == |cde|
      invariant forall j :: i <= j < |cde| ==> rows[j] == cde[j]
      invariant forall j :: 0 <= j < i && CategorizeRow(fieldName, nlp, categorizeField, cde[j]).Success? ==>
        rows[j] == CategorizeRow(fieldName, nlp, categorizeField, cde[j]).value
      invariant forall j :: 0 <= j < i && CategorizeRow(fieldName, nlp, categorizeField, cde[j]).Failure? ==>
        rows[j] == cde[j]
      invariant errors == Failures(cde[..i], Outcomes(fieldName, nlp, categorizeField, cde[..i]))
    {
      var field := rows[i];
      FailuresSnoc(fieldName, nlp, categorizeField, cde, i);
      var outcome := CategorizeRow(fieldName, nlp, categorizeField, field);
      if outcome.Success? {
        rows := rows[i := outcome.value];
      } else {
        errors := errors + [(field, outcome.error)];
      }
    }
    assert cde[..|cde|] == cde;
  }

  /** One more row adds its entry to `errors` exactly when it fails. */
  lemma FailuresSnoc(fieldName: string, nlp: Nlp, categorizeField: Row -> Result<seq<string>, Error>, cde: seq<Row>, i: nat)
    requires i < |cde|
    ensures var o := CategorizeRow(fieldName, nlp, categorizeField, cde[i]);
      Failures(cde[..i + 1], Outcomes(fieldName, nlp, categorizeField, cde[..i + 1])) ==
        Failures(cde[..i], Outcomes(fieldName, nlp, categorizeField, cde[..i])) + (if o.Failure? then [(cde[i], o.error)] else [])
  {
    var pre := cde[..i + 1];
    assert pre[..i] == cde[..i];
    var os := Outcomes(fieldName, nlp, categorizeField, pre);
    assert os[..i] == Outcomes(fieldName, nlp, categorizeField, cde[..i]);
    assert os[i] == CategorizeRow(fieldName, nlp, categorizeField, cde[i]);
  }

  // ---------------------------------------------------------------------------
  // KeyBERT

  /** The phrases the model extracted from one document, with their scores. */
  type Extraction = seq<(string, real)>

  /** The phrases of one document scoring at least `threshold`, in order. */
  function Kept(threshold: real, doc: Extraction): (r: seq<string>)
    ensures |r| <= |doc|
    decreases |doc|
  {
    if doc == [] then []
    else
      var n := |doc| - 1;
      var prev := Kept(threshold, doc[..n]);
      if doc[n].1 >= threshold then prev + [doc[n].0] else prev
  }

  /** Every kept phrase has a score at or above the threshold in the document. */
  lemma {:induction false} KeptEntry(threshold: real, doc: Extraction, i: nat)
    requires i < |Kept(threshold, doc)|
    ensures exists j :: 0 <= j < |doc| && doc[j].0 == Kept(threshold, doc)[i] && doc[j].1 >= threshold
    decreases |doc|
  {
    var n := |doc| - 1;
    var prefix := doc[..n];
    var prev := Kept(threshold, prefix);
    if i < |prev| {
      KeptEntry(threshold, prefix, i);
      var j :| 0 <= j < n && prefix[j].0 == prev[i] && prefix[j].1 >= threshold;
      assert prefix[j] == doc[j];
    } else {
      assert Kept(threshold, doc)[i] == doc[n].0;
    }
  }

  /** Every phrase scoring at or above the threshold is kept. */
  lemma {:induction false} KeptScoring(threshold: real, doc: Extraction, j: nat)
    requires j < |doc| && doc[j].1 >= threshold
    ensures doc[j].0 in Kept(threshold, doc)
    decreases |doc|
  {
    var n := |doc| - 1;
    if j < n {
      KeptScoring(threshold, doc[..n], j);
      assert doc[..n][j] == doc[j];
    }
  }

  /** The score loop of `KeyBERTCategorizer.categorize_field`: over the documents in order, the
      phrases scoring at least the threshold. When the model raises, nothing was collected; a
      threshold that is no number makes the first comparison raise, so nothing is collected
      either. */
  function KeyphraseFilter(threshold: Opt, extraction: Option<seq<Extraction>>): (r: seq<string>)
    ensures extraction.None? || !threshold.ONum? ==> r == []
    decreases if extraction.Some? then |extraction.value| else 0
  {
    if extraction.None? || !threshold.ONum? || extraction.value == [] then []
    else
      var docs := extraction.value;
      var n := |docs| - 1;
      KeyphraseFilter(threshold, Some(docs[..n])) + Kept(threshold.n, docs[n])
  }

  /** Every phrase the filter returns was scored at or above the threshold in some document. */
  lemma {:induction false} KeyphraseEntry(threshold: real, docs: seq<Extraction>, i: nat)
    requires i < |KeyphraseFilter(ONum(threshold), Some(docs))|
    ensures exists d, j :: (0 <= d < |docs| && 0 <= j < |docs[d]| &&
      docs[d][j].0 == KeyphraseFilter(ONum(threshold), Some(docs))[i] && docs[d][j].1 >= threshold)
    decreases |docs|
  {
    var n := |docs| - 1;
    var prefix := docs[..n];
    var prev := KeyphraseFilter(ONum(threshold), Some(prefix));
    var last := Kept(threshold, docs[n]);
    assert KeyphraseFilter(ONum(threshold), Some(docs)) == prev + last;
    if i < |prev| {
      KeyphraseEntry(threshold, prefix, i);
      var d, j :| 0 <= d < n && 0 <= j < |prefix[d]| && prefix[d][j].0 == prev[i] && prefix[d][j].1 >= threshold;
      assert prefix[d] == docs[d];
    } else {
      KeptEntry(threshold, docs[n], i - |prev|);
    }
  }

  /** Every phrase some document scored at or above the threshold is returned. */
  lemma {:induction false} KeyphraseScoring(threshold: real, docs: seq<Extraction>, d: nat, j: nat)
    requires d < |docs| && j < |docs[d]| && docs[d][j].1 >= threshold
    ensures docs[d][j].0 in KeyphraseFilter(ONum(threshold), Some(docs))
    decreases |docs|
  {
    var n := |docs| - 1;
    if d < n {
      KeyphraseScoring(threshold, docs[..n], d, j);
      assert docs[..n][d] == docs[d];
    } else {
      KeptScoring(threshold, docs[n], j);
    }
  }

  /** The documents are handled one after the other: the filter of two batches is the
      concatenation of their filters. */
  lemma {:induction false} KeyphraseFilterConcat(threshold: real, a: seq<Extraction>, b: seq<Extraction>)
    ensures KeyphraseFilter(ONum(threshold), Some(a + b))
      == KeyphraseFilter(ONum(threshold), Some(a)) + KeyphraseFilter(ONum(threshold), Some(b))
    decreases |b|
  {
    if b == [] {
      assert a + b == a;
    } else {
      var n := |b| - 1;
      assert (a + b)[..|a| + n] == a + b[..n];
      KeyphraseFilterConcat(threshold, a, b[..n]);
    }
  }

  /** Every phrase of a document, in order. */
  function Phrases(doc: Extraction): (r: seq<string>)
    ensures |r| == |doc|
  {
    seq(|doc|, j requires 0 <= j < |doc| => doc[j].0)
  }

  /** With every score at or above the threshold (the default 0 and non-negative scores) the
      filter keeps every phrase of every document, in order. */
  lemma {:induction false} KeyphraseFilterKeepsAll(threshold: real, docs: seq<Extraction>)
    requires forall d, j :: 0 <= d < |docs| && 0 <= j < |docs[d]| ==> docs[d][j].1 >= threshold
    ensures KeyphraseFilter(ONum(threshold), Some(docs)) == Flatten(seq(|docs|, d requires 0 <= d < |docs| => Phrases(docs[d])))
    decreases |docs|
  {
    var all := seq(|docs|, d requires 0 <= d < |docs| => Phrases(docs[d]));
    if docs != [] {
      var n := |docs| - 1;
      KeyphraseFilterKeepsAll(threshold, docs[..n]);
      KeptAll(threshold, docs[n]);
      assert all == seq(n, d requires 0 <= d < n => Phrases(docs[..n][d])) + [Phrases(docs[n])];
      FlattenConcat(seq(n, d requires 0 <= d < n => Phrases(docs[..n][d])), [Phrases(docs[n])]);
      assert Flatten([Phrases(docs[n])]) == Phrases(docs[n]) by {
        assert [Phrases(docs[n])][1..] == [];
      }
    }
  }

  lemma {:induction false} KeptAll(threshold: real, doc: Extraction)
    requires forall j :: 0 <= j < |doc| ==> doc[j].1 >= threshold
    ensures Kept(threshold, doc) == Phrases(doc)
    decreases |doc|
  {
    if doc != [] {
      var n := |doc| - 1;
      KeptAll(threshold, doc[..n]);
      assert Phrases(doc) == Phrases(doc[..n]) + [doc[n].0];
    }
  }

  /** `[cde_row[field] for field in self.fields]`: a KeyError when a field is missing. */
  function Docs(fields: seq<string>, row: Row): (r: Result<seq<Value>, Error>)
    ensures r.Failure? <==> exists i :: 0 <= i < |fields| && fields[i] !in row
    ensures r.Failure? ==> r.error == KeyError
    ensures r.Success? ==> |r.value| == |fields| && forall i :: 0 <= i < |fields| ==> r.value[i] == row[fields[i]]
    decreases |fields|
  {
    if fields == [] then Success([])
    else if fields[0] !in row then Failure(KeyError)
    else
      var rest :- Docs(fields[1..], row);
      assert forall i :: 1 <= i < |fields| ==> fields[i] == fields[1..][i - 1];
      Success([row[fields[0]]] + rest)
  }

  /** `KeyBERTCategorizer.categorize_field`; `extract` is the keyphrase model (None when it raises). */
  function KeyBertField(c: Categorizer, extract: seq<Value> -> Option<seq<Extraction>>, row: Row): (r: Result<seq<string>, Error>)
    requires Valid(c)
    ensures r.Failure? <==> Docs(c.fields, row).Failure?
    ensures r.Success? ==> r.value == KeyphraseFilter(c.options["score_threshold"], extract(Docs(c.fields, row).value))
  {
    var docs :- Docs(c.fields, row);
    Success(KeyphraseFilter(c.options["score_threshold"], extract(docs)))
  }

  // ---------------------------------------------------------------------------
  // SciGraph

  /** An annotated span of the SciGraph response and the ids of its tokens. */
  datatype Span = Span(tokenIds: seq<string>)

  /** The token ids of the spans, span by span and token by token. */
  function SpanIds(spans: seq<Span>): (r: seq<string>)
    ensures |r| == TotalLength(seq(|spans|, k requires 0 <= k < |spans| => spans[k].tokenIds))
    ensures forall k, j :: 0 <= k < |spans| && 0 <= j < |spans[k].tokenIds| ==> spans[k].tokenIds[j] in r
  {
    var ids := seq(|spans|, k requires 0 <= k < |spans| => spans[k].tokenIds);
    FlattenLength(ids);
    assert forall k :: 0 <= k < |spans| ==> ids[k] == spans[k].tokenIds;
    Flatten(ids)
  }

  /** The ids of consecutive batches of spans are concatenated in order. */
  lemma SpanIdsConcat(a: seq<Span>, b: seq<Span>)
    ensures SpanIds(a + b) == SpanIds(a) + SpanIds(b)
  {
    var ia := seq(|a|, k requires 0 <= k < |a| => a[k].tokenIds);
    var ib := seq(|b|, k requires 0 <= k < |b| => b[k].tokenIds);
    assert seq(|a + b|, k requires 0 <= k < |a + b| => (a + b)[k].tokenIds) == ia + ib;
    FlattenConcat(ia, ib);
  }

  /** The type check of `". ".join(docs)`: every item must be a string, else a TypeError. */
  function Texts(docs: seq<Value>): (r: Result<seq<string>, Error>)
    ensures r.Failure? <==> exists i :: 0 <= i < |docs| && !docs[i].Str?
    ensures r.Failure? ==> r.error == TypeError
    ensures r.Success? ==> |r.value| == |docs| && forall i :: 0 <= i < |docs| ==> Str(r.value[i]) == docs[i]
    decreases |docs|
  {
    if docs == [] then Success([])
    else if !docs[0].Str? then Failure(TypeError)
    else
      var rest :- Texts(docs[1..]);
      assert forall i :: 1 <= i < |docs| ==> docs[i] == docs[1..][i - 1];
      Success([docs[0].s] + rest)
  }

  /** The row's text fields: the comprehension reads every field before the join sees any, so a
      missing field is a KeyError whatever the other values are; only then does a value that is
      no string make the join raise TypeError. */
  function FieldTexts(fields: seq<string>, row: Row): (r: Result<seq<string>, Error>)
    ensures r.Failure? <==> exists i :: 0 <= i < |fields| && (fields[i] !in row || !row[fields[i]].Str?)
    ensures (exists i :: 0 <= i < |fields| && fields[i] !in row) ==> r == Failure(KeyError)
    ensures r.Failure? && (forall i :: 0 <= i < |fields| ==> fields[i] in row) ==> r == Failure(TypeError)
    ensures r.Success? ==> |r.value| == |fields| && forall i :: 0 <= i < |fields| ==> Str(r.value[i]) == row[fields[i]]
  {
    var docs :- Docs(fields, row);
    Texts(docs)
  }

  /** The request text: the field values joined by ". ". */
  function RequestText(fields: seq<string>, row: Row): (r: Result<string, Error>)
    ensures r.Failure? <==> exists i :: 0 <= i < |fields| && (fields[i] !in row || !row[fields[i]].Str?)
    ensures (exists i :: 0 <= i < |fields| && fields[i] !in row) ==> r == Failure(KeyError)
    ensures r.Failure? && (forall i :: 0 <= i < |fields| ==> fields[i] in row) ==> r == Failure(TypeError)
    ensures r.Success? && |fields| == 1 ==> Str(r.value) == row[fields[0]]
    ensures r.Success? && fields == [] ==> r.value == ""
    ensures r.Success? ==> r.value == Join(". ", seq(|fields|, i requires 0 <= i < |fields| && fields[i] in row && row[fields[i]].Str? => row[fields[i]].s))
  {
    var texts :- FieldTexts(fields, row);
    assert texts == seq(|fields|, i requires 0 <= i < |fields| && fields[i] in row && row[fields[i]].Str? => row[fields[i]].s);
    Success(Join(". ", texts))
  }

  /** A missing field outranks a non-string one, wherever the two stand. */
  lemma MissingFieldBeforeType(a: string, b: string, v: Value)
    requires a != b && !v.Str?
    ensures RequestText([a, b], map[a := v]) == Failure(KeyError)
  {
    assert [a, b][1] == b;
  }

  /** `SciGraphAnnotationCategorizer.categorize_field`: post the request text (`annotate` stands
      for the request and the decoding of its "spans"; None when either raises) and collect the
      token ids with the two nested append loops. */
  method SciGraphField(fields: seq<string>, row: Row, annotate: string -> Option<seq<Span>>) returns (r: Result<seq<string>, Error>)
    ensures RequestText(fields, row).Failure? ==> r == Failure(RequestText(fields, row).error)
    ensures RequestText(fields, row).Success? && annotate(RequestText(fields, row).value).None? ==> r == Failure(Raised)
    ensures RequestText(fields, row).Success? && annotate(RequestText(fields, row).value).Some? ==>
      r == Success(SpanIds(annotate(RequestText(fields, row).value).value))
  {
    var doc := RequestText(fields, row);
    if doc.Failure? {
      return Failure(doc.error);
    }
    var response := annotate(doc.value);
    if response.None? {
      return Failure(Raised);
    }
    var data := response.value;
    var annotations: seq<string> := [];
    for k := 0 to |data|
      invariant annotations == SpanIds(data[..k])
    {
      var tokens := data[k].tokenIds;
      ghost var before := annotations;
      for j := 0 to |tokens|
        invariant annotations == before + tokens[..j]
      {
        annotations := annotations + [tokens[j]];
        assert tokens[..j + 1] == tokens[..j] + [tokens[j]];
      }
      assert tokens[..|tokens|] == tokens;
      SpanIdsConcat(data[..k], [data[k]]);
      assert data[..k + 1] == data[..k] + [data[k]];
      assert SpanIds([data[k]]) == tokens by {
        assert seq(1, i requires 0 <= i < 1 => [data[k]][i].tokenIds) == [tokens];
        assert [tokens][1..] == [];
      }
    }
    assert data[..|data|] == data;
    return Success(annotations);
  }
}
