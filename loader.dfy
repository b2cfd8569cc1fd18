/** The loader of the first tool (grouping/loader.py): options added to the CSV defaults by
    keyword, dispatch on the file extension, rows loaded as plain strings, and the same in-place
    encoding before writing as the packaged loader. */
module Loader {
  import opened Wrappers
  import opened Py
  import opened CsvCodec

  const Defaults: Options := map[
    "csv_delimiter" := OStr(","),
    "csv_list_delimiter" := OStr(","),
    "csv_dict_delimiters" := OStr(",;")]

  /** A loader after `__init__`: its options. */
  datatype Loader = Loader(options: Options)

  predicate Valid(l: Loader) {
    Defaults.Keys <= l.options.Keys
  }

  /** `__init__`: `dict(**csv_options, **options)`; an option that repeats a default key is a
      duplicate keyword argument, any other is added. */
  function NewLoader(options: Options): (r: Result<Loader, Error>)
    ensures r.Failure? <==> exists k :: k in Defaults && k in options
    ensures r.Failure? ==> r.error == TypeError
    ensures r.Success? ==> Valid(r.value) && r.value.options.Keys == Defaults.Keys + options.Keys
    ensures r.Success? ==> forall k :: k in Defaults ==> r.value.options[k] == Defaults[k]
    ensures r.Success? ==> forall k :: k in options ==> r.value.options[k] == options[k]
  {
    var merged :- KeywordMerge(Defaults, options);
    Success(Loader(merged))
  }

  /** `load_csv`: the reader's rows as they are, every value a string. */
  function LoadCsv(records: seq<RawRow>): (r: seq<Row>)
    ensures |r| == |records|
    ensures forall i :: 0 <= i < |records| ==> r[i].Keys == records[i].Keys
    ensures forall i, k :: 0 <= i < |records| && k in records[i] ==> r[i][k] == Str(records[i][k])
  {
    seq(|records|, i requires 0 <= i < |records| => ToRow(records[i]))
  }

  /** `load`: only a name whose text after the last "." is "csv" is read (see ExtensionIsCsv). */
  function Load(l: Loader, fp: string, records: seq<RawRow>): (r: Result<seq<Row>, Error>)
    ensures Extension(fp) == "csv" <==> r.Success?
    ensures r.Failure? ==> r.error == UnsupportedExtension(fp)
    ensures r.Success? ==> r.value == LoadCsv(records)
  {
    if Extension(fp) == "csv" then Success(LoadCsv(records)) else Failure(UnsupportedExtension(fp))
  }

  /** `save`: the same extension test; a rejected name leaves the rows untouched. */
  method Save(l: Loader, cde: array<Row>, fp: string) returns (r: Result<(), Error>)
    requires Valid(l)
    modifies cde
    ensures Extension(fp) != "csv" ==> r == Failure(UnsupportedExtension(fp)) && cde[..] == old(cde[..])
    ensures Extension(fp) == "csv" && Unpack2(l.options["csv_dict_delimiters"]).Failure? ==>
      r == Failure(Unpack2(l.options["csv_dict_delimiters"]).error) && cde[..] == old(cde[..])
    ensures Extension(fp) == "csv" && Unpack2(l.options["csv_dict_delimiters"]).Success? ==>
      var (inner, outer) := Unpack2(l.options["csv_dict_delimiters"]).value;
      && EncodedInPlace(old(cde[..]), cde[..], l.options["csv_list_delimiter"], inner, outer)
      && r == (if EncodeOutcome(old(cde[..]), l.options["csv_list_delimiter"]).Failure? then Failure(AttributeError)
               else if cde.Length == 0 then Failure(IndexError)
               else Success(()))
  {
    if Extension(fp) == "csv" {
      r := SaveCsv(l.options, cde);
    } else {
      r := Failure(UnsupportedExtension(fp));
    }
  }

  /** A loader built without options joins lists with "," and writes dicts as `k,v` pairs
      joined by ";". */
  lemma DefaultDelimiters(l: Loader)
    requires NewLoader(map[]) == Success(l)
    ensures l.options["csv_list_delimiter"] == OStr(",")
    ensures Unpack2(l.options["csv_dict_delimiters"]) == Success((",", ";"))
  {
    assert l.options["csv_dict_delimiters"] == OStr(",;");
    assert Unpack2(OStr(",;")) == Success((",", ";"));
  }
}
