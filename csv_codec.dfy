/** The flat-table value encoding that both loaders' `save_csv` apply before writing: list cells
    are joined with the list delimiter, dict cells are written as `key{inner}value` pairs joined
    by the outer delimiter, and the caller's rows are rewritten in place. */
module CsvCodec {
  import opened Wrappers
  import opened Strings
  import opened Py

  /** One row as the CSV reader yields it: column name to cell text. */
  type RawRow = map<string, string>

  function ToRow(raw: RawRow): (r: Row)
    ensures r.Keys == raw.Keys
    ensures forall k :: k in r ==> r[k] == Str(raw[k])
  {
    map k | k in raw :: Str(raw[k])
  }

  /** `inner, outer = options["csv_dict_delimiters"]`: the value must iterate to exactly two
      items (two characters of a string, two items of a list); a number is not iterable. */
  function Unpack2(opt: Opt): (r: Result<(string, string), Error>)
    ensures r.Failure? <==> !(opt.OStr? && |opt.s| == 2) && !(opt.OList? && |opt.items| == 2)
    ensures r.Failure? ==> r.error == (if opt.ONum? then TypeError else ValueError)
    ensures r.Success? && opt.OStr? ==> |r.value.0| == 1 && |r.value.1| == 1 && r.value.0 + r.value.1 == opt.s
    ensures r.Success? && opt.OList? ==> [r.value.0, r.value.1] == opt.items
  {
    match opt
    case OStr(s) => if |s| == 2 then Success(([s[0]], [s[1]])) else Failure(ValueError)
    case OList(items) => if |items| == 2 then Success((items[0], items[1])) else Failure(ValueError)
    case ONum(_) => Failure(TypeError)
  }

  /** The `f"{key}{inner}{value}"` segments of a dict, in iteration order. */
  function EncodeEntries(inner: string, entries: seq<(string, string)>): (r: seq<string>)
    ensures |r| == |entries|
  {
    seq(|entries|, k requires 0 <= k < |entries| => entries[k].0 + inner + entries[k].1)
  }

  /** The string a cell is rewritten to: lists and dicts are flattened, strings stay. */
  function EncodeValue(listDelimiter: string, inner: string, outer: string, v: Value): (r: Value)
    ensures r.Str?
    ensures v.Str? ==> r == v
  {
    match v
    case List(items) => Str(Join(listDelimiter, items))
    case Dict(entries) => Str(Join(outer, EncodeEntries(inner, entries)))
    case Str(_) => v
  }

  function EncodeRow(listDelimiter: string, inner: string, outer: string, row: Row): (r: Row)
    ensures r.Keys == row.Keys
  {
    map k | k in row :: EncodeValue(listDelimiter, inner, outer, row[k])
  }

  /** The list delimiter as a string; any value will do when it is not one, since such a
      delimiter is only ever used on rows without lists. */
  function Delim(listDelimiter: Opt): string {
    if listDelimiter.OStr? then listDelimiter.s else ""
  }

  predicate HasList(row: Row) {
    exists k :: k in row && row[k].List?
  }

  /** A row the loop stopped in: lists untouched, every other cell either untouched or already
      encoded (which cells were reached depends on the dict's iteration order). */
  predicate PartlyEncoded(before: Row, after: Row, inner: string, outer: string) {
    && after.Keys == before.Keys
    && forall k :: k in before ==>
      if before[k].List? then after[k] == before[k]
      else after[k] == before[k] || after[k] == EncodeValue("", inner, outer, before[k])
  }

  /** Whether the preprocessing loop of `save_csv` runs to the end: `list_delimiter.join` raises
      AttributeError at the first list cell when the list delimiter is no string. */
  function EncodeOutcome(before: seq<Row>, listDelimiter: Opt): Result<(), Error> {
    if listDelimiter.OStr? || forall i :: 0 <= i < |before| ==> !HasList(before[i]) then Success(())
    else Failure(AttributeError)
  }

  /** The preprocessing loop of `save_csv` as a relation between the rows before and after it.
      When it runs to the end every row is encoded. When it raises, the rows before the first
      row holding a list are encoded, that row is partly encoded, the rows after it are
      untouched. */
  predicate EncodedInPlace(before: seq<Row>, after: seq<Row>, listDelimiter: Opt, inner: string, outer: string) {
    && |after| == |before|
    && if EncodeOutcome(before, listDelimiter).Success? then
      forall i :: 0 <= i < |before| ==> after[i] == EncodeRow(Delim(listDelimiter), inner, outer, before[i])
    else
      exists i :: (0 <= i < |before| && HasList(before[i])
        && (forall j :: 0 <= j < i ==> !HasList(before[j]) && after[j] == EncodeRow("", inner, outer, before[j]))
        && PartlyEncoded(before[i], after[i], inner, outer)
        && (forall j :: i < j < |before| ==> after[j] == before[j]))
  }

  /** Whatever happens, string cells keep their value, no column is added or removed, and a
      value that was written is always a string. */
  lemma EncodedKeepsStrings(before: seq<Row>, after: seq<Row>, listDelimiter: Opt, inner: string, outer: string, i: nat)
    requires EncodedInPlace(before, after, listDelimiter, inner, outer) && i < |before|
    ensures after[i].Keys == before[i].Keys
    ensures forall k :: k in before[i] && before[i][k].Str? ==> after[i][k] == before[i][k]
    ensures forall k :: k in before[i] ==> after[i][k] == before[i][k] || after[i][k].Str?
  {
    if EncodeOutcome(before, listDelimiter).Failure? {
      var f :| 0 <= f < |before| && HasList(before[f])
        && (forall j :: 0 <= j < f ==> !HasList(before[j]) && after[j] == EncodeRow("", inner, outer, before[j]))
        && PartlyEncoded(before[f], after[f], inner, outer)
        && (forall j :: f < j < |before| ==> after[j] == before[j]);
      if i < f {
        assert after[i] == EncodeRow("", inner, outer, before[i]);
      } else if i > f {
        assert after[i] == before[i];
      }
    }
  }

  /** The inner loop of `save_csv` on row `i`: `ok` is false when a list cell met a list delimiter
      that is no string. */
  method EncodeRowInPlace(cde: array<Row>, i: nat, listDelimiter: Opt, inner: string, outer: string) returns (ok: bool)
    requires i < cde.Length
    modifies cde
    ensures forall j :: 0 <= j < cde.Length && j != i ==> cde[j] == old(cde[j])
    ensures ok <==> listDelimiter.OStr? || !HasList(old(cde[i]))
    ensures ok ==> cde[i] == EncodeRow(Delim(listDelimiter), inner, outer, old(cde[i]))
    ensures !ok ==> PartlyEncoded(old(cde[i]), cde[i], inner, outer)
  {
    ghost var before := cde[i];
    var cols := cde[i].Keys;
    while cols != {}
      invariant cols <= before.Keys
      invariant forall j :: 0 <= j < cde.Length && j != i ==> cde[j] == old(cde[j])
      invariant cde[i].Keys == before.Keys
      invariant forall k :: k in cols ==> cde[i][k] == before[k]
      invariant forall k :: k in before && k !in cols ==> cde[i][k] == EncodeValue(Delim(listDelimiter), inner, outer, before[k])
      invariant !listDelimiter.OStr? ==> forall k :: k in before && k !in cols ==> !before[k].List?
      decreases |cols|
    {
      var col :| col in cols;
      var v := cde[i][col];
      if v.List? {
        if !listDelimiter.OStr? {
          assert PartlyEncoded(before, cde[i], inner, outer);
          return false;
        }
        cde[i] := cde[i][col := Str(Join(listDelimiter.s, v.items))];
      } else if v.Dict? {
        cde[i] := cde[i][col := Str(Join(outer, EncodeEntries(inner, v.entries)))];
      }
      cols := cols - {col};
    }
    assert cde[i] == EncodeRow(Delim(listDelimiter), inner, outer, before);
    return true;
  }

  /** The preprocessing loop of `save_csv`: every row of the caller's list is rewritten in place. */
  method EncodeRowsInPlace(cde: array<Row>, listDelimiter: Opt, inner: string, outer: string) returns (r: Result<(), Error>)
    modifies cde
    ensures r == EncodeOutcome(old(cde[..]), listDelimiter)
    ensures EncodedInPlace(old(cde[..]), cde[..], listDelimiter, inner, outer)
  {
    ghost var before := cde[..];
    for i := 0 to cde.Length
      invariant forall j :: 0 <= j < i ==> !listDelimiter.OStr? ==> !HasList(before[j])
      invariant forall j :: 0 <= j < i ==> cde[j] == EncodeRow(Delim(listDelimiter), inner, outer, before[j])
      invariant forall j :: i <= j < cde.Length ==> cde[j] == before[j]
    {
      var ok := EncodeRowInPlace(cde, i, listDelimiter, inner, outer);
      if !ok {
        assert !listDelimiter.OStr?;
        assert exists f :: (0 <= f < |before| && HasList(before[f])
          && (forall j :: 0 <= j < f ==> !HasList(before[j]) && cde[..][j] == EncodeRow("", inner, outer, before[j]))
          && PartlyEncoded(before[f], cde[..][f], inner, outer)
          && (forall j :: f < j < |before| ==> cde[..][j] == before[j])) by {
          assert HasList(before[i]);
        }
        return Failure(AttributeError);
      }
    }
    return Success(());
  }

  /** `save_csv` up to the writer: the dict delimiters are unpacked before any row is touched,
      the rows are encoded in place, and `cde[0]` raises IndexError on an empty list. Opening and
      writing the file are not modelled. */
  method SaveCsv(options: Options, cde: array<Row>) returns (r: Result<(), Error>)
    requires "csv_list_delimiter" in options && "csv_dict_delimiters" in options
    modifies cde
    ensures Unpack2(options["csv_dict_delimiters"]).Failure? ==>
      r == Failure(Unpack2(options["csv_dict_delimiters"]).error) && cde[..] == old(cde[..])
    ensures Unpack2(options["csv_dict_delimiters"]).Success? ==>
      var (inner, outer) := Unpack2(options["csv_dict_delimiters"]).value;
      && EncodedInPlace(old(cde[..]), cde[..], options["csv_list_delimiter"], inner, outer)
      && r == (if EncodeOutcome(old(cde[..]), options["csv_list_delimiter"]).Failure? then Failure(AttributeError)
               else if cde.Length == 0 then Failure(IndexError)
               else Success(()))
  {
    var listDelimiter := options["csv_list_delimiter"];
    var delimiters := Unpack2(options["csv_dict_delimiters"]);
    if delimiters.Failure? {
      return Failure(delimiters.error);
    }
    var (inner, outer) := delimiters.value;
    var encoded := EncodeRowsInPlace(cde, listDelimiter, inner, outer);
    if encoded.Failure? {
      return encoded;
    }
    if cde.Length == 0 {
      return Failure(IndexError);
    }
    return Success(());
  }
}
