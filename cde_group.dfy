/** The middle revision of the categorizers (cde_harmonization/grouping/group.py): the options are
    built with keyword arguments, so a caller cannot override `field_name` or `score_threshold`;
    labels are normalised and deduplicated as in the latest revision, but there is no per-row
    error handling: the first exception ends `categorize_cde`. */
module CdeGroup {
  import opened Wrappers
  import opened Seqs
  import opened Py
  import C = Categorizer

  /** `__init__`: `dict(field_name="categories", score_threshold=0, **options)`. A caller option
      with either name is a duplicate keyword argument. */
  function NewCategorizer(fields: seq<string>, options: Options): (r: Result<C.Categorizer, Error>)
    ensures r.Failure? <==> "field_name" in options || "score_threshold" in options
    ensures r.Failure? ==> r.error == TypeError
    ensures r.Success? ==> C.Valid(r.value) && r.value.fields == fields && C.FieldName(r.value) == "categories"
    ensures r.Success? ==> r.value.options["score_threshold"] == ONum(0.0)
    ensures r.Success? ==> forall k :: k in options ==> k in r.value.options && r.value.options[k] == options[k]
  {
    assert C.Defaults.Keys == {"field_name", "score_threshold"};
    var merged :- KeywordMerge(C.Defaults, options);
    Success(C.Categorizer(fields, merged))
  }

  /** What `categorize_cde` returns: every row categorized, in order, or the exception of the first
      row that raises. */
  function CategorizeAll(fieldName: string, nlp: C.Nlp, categorizeField: Row -> Result<seq<string>, Error>, cde: seq<Row>): (r: Result<seq<Row>, Error>)
    decreases |cde|
  {
    if cde == [] then Success([])
    else
      var first :- C.CategorizeRow(fieldName, nlp, categorizeField, cde[0]);
      var rest :- CategorizeAll(fieldName, nlp, categorizeField, cde[1..]);
      Success([first] + rest)
  }

  /** The batch succeeds exactly when every row does; it then holds one categorized row per input
      row, in input order. */
  lemma {:induction false} CategorizeAllSucceeds(fieldName: string, nlp: C.Nlp, categorizeField: Row -> Result<seq<string>, Error>, cde: seq<Row>)
    ensures CategorizeAll(fieldName, nlp, categorizeField, cde).Success? <==>
      forall i :: 0 <= i < |cde| ==> C.CategorizeRow(fieldName, nlp, categorizeField, cde[i]).Success?
    ensures CategorizeAll(fieldName, nlp, categorizeField, cde).Success? ==>
      |CategorizeAll(fieldName, nlp, categorizeField, cde).value| == |cde|
    ensures CategorizeAll(fieldName, nlp, categorizeField, cde).Success? ==>
      forall i :: 0 <= i < |cde| ==>
        CategorizeAll(fieldName, nlp, categorizeField, cde).value[i] == C.CategorizeRow(fieldName, nlp, categorizeField, cde[i]).value
    decreases |cde|
  {
    if cde != [] {
      var tail := cde[1..];
      CategorizeAllSucceeds(fieldName, nlp, categorizeField, tail);
      assert forall i :: 1 <= i < |cde| ==> cde[i] == tail[i - 1];
    }
  }

  /** The exception of the first failing row is the exception of the whole batch. */
  lemma {:induction false} CategorizeAllFirstError(fieldName: string, nlp: C.Nlp, categorizeField: Row -> Result<seq<string>, Error>, cde: seq<Row>, i: nat)
    requires i < |cde| && C.CategorizeRow(fieldName, nlp, categorizeField, cde[i]).Failure?
    requires forall j :: 0 <= j < i ==> C.CategorizeRow(fieldName, nlp, categorizeField, cde[j]).Success?
    ensures CategorizeAll(fieldName, nlp, categorizeField, cde) == Failure(C.CategorizeRow(fieldName, nlp, categorizeField, cde[i]).error)
    decreases i
  {
    if i > 0 {
      var tail := cde[1..];
      assert C.CategorizeRow(fieldName, nlp, categorizeField, cde[0]).Success?;
      assert forall j :: 0 <= j < i ==> tail[j] == cde[j + 1];
      CategorizeAllFirstError(fieldName, nlp, categorizeField, tail, i - 1);
    }
  }

  /** `categorize_cde`: categorizes a copy of the rows (sequences are values, so the caller's rows
      are never touched); an exception from `categorize_field` or `normalize` escapes at once. */
  method CategorizeCde(c: C.Categorizer, nlp: C.Nlp, categorizeField: Row -> Result<seq<string>, Error>, cde: seq<Row>)
      returns (r: Result<seq<Row>, Error>)
    requires C.Valid(c)
    ensures r == CategorizeAll(C.FieldName(c), nlp, categorizeField, cde)
  {
    var fieldName := C.FieldName(c);
    var rows := cde;
    for i := 0 to |rows|
      invariant |rows| == |cde|
      invariant forall j :: i <= j < |cde| ==> rows[j] == cde[j]
      invariant forall j :: 0 <= j < i ==> C.CategorizeRow(fieldName, nlp, categorizeField, cde[j]) == Success(rows[j])
    {
      var field := rows[i];
      assert field == cde[i];
      var outcome := C.CategorizeRow(fieldName, nlp, categorizeField, field);
      if outcome.Failure? {
        CategorizeAllFirstError(fieldName, nlp, categorizeField, cde, i);
        return Failure(outcome.error);
      }
      rows := rows[i := outcome.value];
    }
    CategorizeAllSucceeds(fieldName, nlp, categorizeField, cde);
    assert rows == CategorizeAll(fieldName, nlp, categorizeField, cde).value;
    return Success(rows);
  }

  /** `ConceptualAnalysisCategorizer.categorize_field`: no candidates for any row. */
  function ConceptualField(row: Row): Result<seq<string>, Error> {
    Success([])
  }

  /** With the conceptual strategy every row gets an empty category list and keeps its other
      columns. */
  lemma ConceptualRows(fieldName: string, nlp: C.Nlp, cde: seq<Row>)
    ensures CategorizeAll(fieldName, nlp, ConceptualField, cde).Success?
    ensures |CategorizeAll(fieldName, nlp, ConceptualField, cde).value| == |cde|
    ensures forall i :: 0 <= i < |cde| ==>
      CategorizeAll(fieldName, nlp, ConceptualField, cde).value[i] == cde[i][fieldName := List([])]
  {
    forall i | 0 <= i < |cde|
      ensures C.CategorizeRow(fieldName, nlp, ConceptualField, cde[i]) == Success(cde[i][fieldName := List([])])
    {
      assert C.NormalizeAll(nlp, []) == Success([]);
      assert Dedup<string>([]) == [];
    }
    CategorizeAllSucceeds(fieldName, nlp, ConceptualField, cde);
  }

  /** The KeyBERT strategy of this revision always filters with the default threshold 0: every
      label it returns is a phrase of some document scoring at least 0. */
  lemma KeyBertLabelsScoreNonNegative(fields: seq<string>, options: Options, extract: seq<Value> -> Option<seq<C.Extraction>>, row: Row, k: nat)
    requires NewCategorizer(fields, options).Success?
    requires C.KeyBertField(NewCategorizer(fields, options).value, extract, row).Success?
    requires k < |C.KeyBertField(NewCategorizer(fields, options).value, extract, row).value|
    ensures C.Docs(fields, row).Success? && extract(C.Docs(fields, row).value).Some?
    ensures var docs := extract(C.Docs(fields, row).value).value;
      exists d, j :: (0 <= d < |docs| && 0 <= j < |docs[d]| && docs[d][j].1 >= 0.0 &&
        docs[d][j].0 == C.KeyBertField(NewCategorizer(fields, options).value, extract, row).value[k])
  {
    var c := NewCategorizer(fields, options).value;
    var docs := extract(C.Docs(fields, row).value).value;
    C.KeyphraseEntry(0.0, docs, k);
  }

  /** ... and every phrase scoring at least 0 is among its labels. */
  lemma KeyBertKeepsNonNegative(fields: seq<string>, options: Options, extract: seq<Value> -> Option<seq<C.Extraction>>, row: Row, d: nat, j: nat)
    requires NewCategorizer(fields, options).Success?
    requires C.Docs(fields, row).Success? && extract(C.Docs(fields, row).value).Some?
    requires var docs := extract(C.Docs(fields, row).value).value;
      d < |docs| && j < |docs[d]| && docs[d][j].1 >= 0.0
    ensures C.KeyBertField(NewCategorizer(fields, options).value, extract, row).Success?
    ensures extract(C.Docs(fields, row).value).value[d][j].0 in C.KeyBertField(NewCategorizer(fields, options).value, extract, row).value
  {
    C.KeyphraseScoring(0.0, extract(C.Docs(fields, row).value).value, d, j);
  }
}
