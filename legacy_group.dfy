/** The first revision of the categorizers (grouping/group.py): the category column receives
    exactly what the strategy's `categorize_field` returns, with no normalisation, no
    deduplication and no error handling. */
module LegacyGroup {
  import opened Wrappers
  import opened Py

  /** A categorizer after `__init__`: its options. */
  datatype Categorizer = Categorizer(options: Options)

  const Defaults: Options := map["field_name" := OStr("categories")]

  predicate Valid(c: Categorizer) {
    "field_name" in c.options && c.options["field_name"].OStr?
  }

  function FieldName(c: Categorizer): string
    requires Valid(c)
  {
    c.options["field_name"].s
  }

  /** `__init__`: `dict(field_name="categories", **options)`; a caller `field_name` is a duplicate
      keyword argument. */
  function NewCategorizer(options: Options): (r: Result<Categorizer, Error>)
    ensures r.Failure? <==> "field_name" in options
    ensures r.Failure? ==> r.error == TypeError
    ensures r.Success? ==> Valid(r.value) && FieldName(r.value) == "categories"
    ensures r.Success? ==> r.value.options.Keys == options.Keys + {"field_name"}
    ensures r.Success? ==> forall k :: k in options ==> r.value.options[k] == options[k]
  {
    var merged :- KeywordMerge(Defaults, options);
    Success(Categorizer(merged))
  }

  /** One iteration of `categorize_cde`: the row with the strategy's answer under the category
      column. */
  function AssignRow(fieldName: string, categorizeField: Row -> Result<seq<string>, Error>, row: Row): (r: Result<Row, Error>)
    ensures r.Failure? <==> categorizeField(row).Failure?
    ensures r.Failure? ==> r.error == categorizeField(row).error
    ensures r.Success? ==> r.value.Keys == row.Keys + {fieldName}
    ensures r.Success? ==> r.value[fieldName] == List(categorizeField(row).value)
    ensures r.Success? ==> forall k :: k in row && k != fieldName ==> r.value[k] == row[k]
  {
    var categories :- categorizeField(row);
    Success(row[fieldName := List(categories)])
  }

  /** What `categorize_cde` returns: every row with its category column, in order, or the
      exception of the first row whose strategy raises. */
  function CategorizeAll(fieldName: string, categorizeField: Row -> Result<seq<string>, Error>, cde: seq<Row>): (r: Result<seq<Row>, Error>)
    decreases |cde|
  {
    if cde == [] then Success([])
    else
      var first :- AssignRow(fieldName, categorizeField, cde[0]);
      var rest :- CategorizeAll(fieldName, categorizeField, cde[1..]);
      Success([first] + rest)
  }

  /** The batch succeeds exactly when the strategy succeeds on every row; each output row is then
      its input row with the strategy's raw answer written under the category column. */
  lemma {:induction false} CategorizeAllSucceeds(fieldName: string, categorizeField: Row -> Result<seq<string>, Error>, cde: seq<Row>)
    ensures CategorizeAll(fieldName, categorizeField, cde).Success? <==>
      forall i :: 0 <= i < |cde| ==> categorizeField(cde[i]).Success?
    ensures CategorizeAll(fieldName, categorizeField, cde).Success? ==>
      |CategorizeAll(fieldName, categorizeField, cde).value| == |cde|
    ensures CategorizeAll(fieldName, categorizeField, cde).Success? ==>
      forall i :: 0 <= i < |cde| ==>
        CategorizeAll(fieldName, categorizeField, cde).value[i] == cde[i][fieldName := List(categorizeField(cde[i]).value)]
    decreases |cde|
  {
    if cde != [] {
      var tail := cde[1..];
      CategorizeAllSucceeds(fieldName, categorizeField, tail);
      assert forall i :: 1 <= i < |cde| ==> cde[i] == tail[i - 1];
    }
  }

  /** The exception of the first row whose strategy raises escapes the whole batch. */
  lemma {:induction false} CategorizeAllFirstError(fieldName: string, categorizeField: Row -> Result<seq<string>, Error>, cde: seq<Row>, i: nat)
    requires i < |cde| && categorizeField(cde[i]).Failure?
    requires forall j :: 0 <= j < i ==> categorizeField(cde[j]).Success?
    ensures CategorizeAll(fieldName, categorizeField, cde) == Failure(categorizeField(cde[i]).error)
    decreases i
  {
    if i > 0 {
      var tail := cde[1..];
      assert forall j :: 0 <= j < i - 1 ==> tail[j] == cde[j + 1];
      CategorizeAllFirstError(fieldName, categorizeField, tail, i - 1);
    }
  }

  /** `categorize_cde` on a copy of the rows (sequences are values, so the caller's rows are never
      touched). */
  method CategorizeCde(c: Categorizer, categorizeField: Row -> Result<seq<string>, Error>, cde: seq<Row>)
      returns (r: Result<seq<Row>, Error>)
    requires Valid(c)
    ensures r == CategorizeAll(FieldName(c), categorizeField, cde)
  {
    var fieldName := FieldName(c);
    var rows := cde;
    for i := 0 to |rows|
      invariant |rows| == |cde|
      invariant forall j :: i <= j < |cde| ==> rows[j] == cde[j]
      invariant forall j :: 0 <= j < i ==> categorizeField(cde[j]).Success?
      invariant forall j :: 0 <= j < i ==> rows[j] == cde[j][fieldName := List(categorizeField(cde[j]).value)]
    {
      var categories := categorizeField(rows[i]);
      if categories.Failure? {
        CategorizeAllFirstError(fieldName, categorizeField, cde, i);
        return Failure(categories.error);
      }
      rows := rows[i := rows[i][fieldName := List(categories.value)]];
    }
    CategorizeAllSucceeds(fieldName, categorizeField, cde);
    assert rows == CategorizeAll(fieldName, categorizeField, cde).value;
    return Success(rows);
  }

  /** `ConceptualAnalysisCategorizer.categorize_field`: no categories for any row. */
  function ConceptualField(row: Row): Result<seq<string>, Error> {
    Success([])
  }

  /** With the conceptual strategy every row gets `[]` under the category column. */
  lemma ConceptualRows(fieldName: string, cde: seq<Row>)
    ensures CategorizeAll(fieldName, ConceptualField, cde).Success?
    ensures |CategorizeAll(fieldName, ConceptualField, cde).value| == |cde|
    ensures forall i :: 0 <= i < |cde| ==>
      CategorizeAll(fieldName, ConceptualField, cde).value[i] == cde[i][fieldName := List([])]
  {
    CategorizeAllSucceeds(fieldName, ConceptualField, cde);
  }
}
