/** The CDE loader of the packaged tool (cde_harmonization/utils/cde_loader.py): options merged
    over CSV defaults, dispatch on the file extension, the decoding of list and dict columns
    after reading, and the in-place encoding before writing. The CSV reader and writer are not
    modelled: a file's content is given as the header and the rows the reader yields. */
module CdeLoader {
  import opened Wrappers
  import opened Seqs
  import opened Strings
  import opened Py
  import opened CsvCodec

  const Defaults: Options := map[
    "csv_delimiter" := OStr(","),
    "csv_list_delimiter" := OStr(","),
    "csv_dict_delimiters" := OStr(",;"),
    "csv_parse_lists" := OList([]),
    "csv_parse_dicts" := OList([])]

  /** A loader after `__init__`: its merged options. */
  datatype Loader = Loader(options: Options)

  predicate Valid(l: Loader) {
    Defaults.Keys <= l.options.Keys
  }

  /** `__init__`: `{**default_csv_options, **options}`. */
  function NewLoader(options: Options): (r: Loader)
    ensures Valid(r)
    ensures forall k :: k in options ==> k in r.options && r.options[k] == options[k]
    ensures forall k :: k in Defaults && k !in options ==> r.options[k] == Defaults[k]
  {
    Loader(MergeOptions(Defaults, options))
  }

  /** The options `load_csv` reads before the loop. */
  datatype Codec = Codec(listDelimiter: Opt, inner: string, outer: string, lists: Opt, dicts: Opt)

  /** `load_csv`'s option reads; only the unpacking of the dict delimiters can fail. */
  function LoadCodec(l: Loader): (r: Result<Codec, Error>)
    requires Valid(l)
    ensures r.Failure? <==> Unpack2(l.options["csv_dict_delimiters"]).Failure?
    ensures r.Failure? ==> r.error == Unpack2(l.options["csv_dict_delimiters"]).error
    ensures r.Success? ==> (r.value.inner, r.value.outer) == Unpack2(l.options["csv_dict_delimiters"]).value
  {
    var delimiters :- Unpack2(l.options["csv_dict_delimiters"]);
    Success(Codec(l.options["csv_list_delimiter"], delimiters.0, delimiters.1,
                  l.options["csv_parse_lists"], l.options["csv_parse_dicts"]))
  }

  /** A loader built without options lists and dicts nothing and uses "," for lists, "," between
      a key and its value and ";" between pairs. */
  lemma DefaultCodec()
    ensures LoadCodec(NewLoader(map[])) == Success(Codec(OStr(","), ",", ";", OList([]), OList([])))
  {
    var l := NewLoader(map[]);
    assert l.options["csv_dict_delimiters"] == OStr(",;");
    assert Unpack2(OStr(",;")) == Success((",", ";"));
  }

  /** `field in option`: membership for a list, the substring test for a string, a TypeError for
      a number. */
  function Contains(option: Opt, field: string): (r: Result<bool, Error>)
    ensures r.Failure? <==> option.ONum?
    ensures r.Failure? ==> r.error == TypeError
    ensures option.OList? ==> r == Success(field in option.items)
    ensures option.OStr? ==> r == Success(IsSubstring(field, option.s))
  {
    match option
    case OList(items) => Success(field in items)
    case OStr(s) => Success(IsSubstring(field, s))
    case ONum(_) => Failure(TypeError)
  }

  /** `row[field].split(list_delimiter)`: only a string has `split`; the separator must be a
      non-empty string. */
  function SplitCell(v: Value, delimiter: Opt): (r: Result<Value, Error>)
    ensures r.Failure? <==> !v.Str? || !delimiter.OStr? || delimiter.s == ""
    ensures r.Failure? ==> r.error == (if !v.Str? then AttributeError else if !delimiter.OStr? then TypeError else ValueError)
    ensures r.Success? ==> r.value.List? && |r.value.items| >= 1 && Join(delimiter.s, r.value.items) == v.s
  {
    if !v.Str? then Failure(AttributeError)
    else if !delimiter.OStr? then Failure(TypeError)
    else
      var pieces :- PySplit(v.s, delimiter.s);
      Success(List(pieces))
  }

  /** The segments of a dict cell, each split into its parts. */
  function Segments(s: string, inner: string, outer: string): (r: seq<seq<string>>)
    requires inner != "" && outer != ""
  {
    var segments := Split(s, outer);
    seq(|segments|, k requires 0 <= k < |segments| => Split(segments[k], inner))
  }

  /** `dict([pair.split(inner) for pair in row[field].split(outer)])`. */
  function DecodeDict(v: Value, inner: string, outer: string): (r: Result<Value, Error>)
    ensures r.Success? ==> r.value.Dict? && NoDups(Keys(r.value.entries))
    ensures r.Failure? ==> r.error == (if !v.Str? then AttributeError else ValueError)
    ensures v.Str? && inner != "" && outer != "" ==>
      (r.Failure? <==> exists k :: 0 <= k < |Segments(v.s, inner, outer)| && |Segments(v.s, inner, outer)[k]| != 2)
  {
    if !v.Str? then Failure(AttributeError)
    else if outer == "" || inner == "" then Failure(ValueError)
    else
      var entries :- DictFromPairs(Segments(v.s, inner, outer));
      Success(Dict(entries))
  }

  /** No segment after segment `i` is keyed `k`. */
  predicate LastNamed(segments: seq<seq<string>>, i: nat, k: string)
    requires forall j :: 0 <= j < |segments| ==> segments[j] != []
  {
    forall j :: i < j < |segments| ==> segments[j][0] != k
  }

  /** What a decoded dict cell holds: its keys are the segments' keys in order of first
      appearance, each once, and each key holds the value of its last segment. */
  lemma DecodeDictEntries(s: string, inner: string, outer: string, k: string)
    requires inner != "" && outer != "" && DecodeDict(Str(s), inner, outer).Success?
    ensures var segments := Segments(s, inner, outer);
      && (forall i :: 0 <= i < |segments| ==> |segments[i]| == 2)
      && Keys(DecodeDict(Str(s), inner, outer).value.entries) == Dedup(Heads(segments))
      && (k in Keys(DecodeDict(Str(s), inner, outer).value.entries) <==>
            exists i :: 0 <= i < |segments| && segments[i][0] == k)
      && (forall i :: 0 <= i < |segments| && segments[i][0] == k && LastNamed(segments, i, k) ==>
            (k, segments[i][1]) in DecodeDict(Str(s), inner, outer).value.entries)
  {
    var segments := Segments(s, inner, outer);
    DictFromPairsOrder(segments);
    DictFromPairsLastWins(segments, k);
  }

  /** A cell of two `key{inner}value` segments joined by `outer` has those two segments. */
  lemma TwoSegments(inner: char, outer: char, k1: string, v1: string, k2: string, v2: string)
    requires inner != outer
    requires inner !in k1 && inner !in v1 && inner !in k2 && inner !in v2
    requires outer !in k1 && outer !in v1 && outer !in k2 && outer !in v2
    ensures Segments(k1 + [inner] + v1 + [outer] + k2 + [inner] + v2, [inner], [outer]) == [[k1, v1], [k2, v2]]
  {
    var items := [k1 + [inner] + v1, k2 + [inner] + v2];
    assert outer !in items[0] && outer !in items[1];
    assert Join([outer], items) == k1 + [inner] + v1 + [outer] + k2 + [inner] + v2 by {
      assert items[1..] == [items[1]];
    }
    SplitJoin(items, outer);
    SegmentSplits(inner, k1, v1);
    SegmentSplits(inner, k2, v2);
  }

  /** `dict([[k, v1], [k, v2]])` is `{k: v2}`. */
  lemma RepeatedKeyDict(k: string, v1: string, v2: string)
    ensures DictFromPairs([[k, v1], [k, v2]]) == Success([(k, v2)])
  {
    var pairs := [[k, v1], [k, v2]];
    assert pairs[..1] == [[k, v1]] && pairs[..1][..0] == [];
    assert DictFromPairs(pairs[..1]) == Success([(k, v1)]);
    assert Put([(k, v1)], k, v2) == [(k, v2)];
  }

  /** A repeated key keeps its first position and its last value: with `=` and `;`, the cell
      "a=1;a=2" decodes to {a: "2"}. */
  lemma RepeatedKeyLastWins()
    ensures DecodeDict(Str("a=1;a=2"), "=", ";") == Success(Dict([("a", "2")]))
  {
    assert "a" + ['='] + "1" + [';'] + "a" + ['='] + "2" == "a=1;a=2";
    TwoSegments('=', ';', "a", "1", "a", "2");
    RepeatedKeyDict("a", "1", "2");
  }

  /** The body of the inner loop of `load_csv` for one column: split a list column, then decode
      a dict column, from the value the list step left. */
  function DecodeField(c: Codec, field: string, v: Value): (r: Result<Value, Error>) {
    var isList :- Contains(c.lists, field);
    var afterList :- if isList then SplitCell(v, c.listDelimiter) else Success(v);
    var isDict :- Contains(c.dicts, field);
    if isDict then DecodeDict(afterList, c.inner, c.outer) else Success(afterList)
  }

  /** A column that neither option names keeps the value it was read with. */
  lemma UnnamedFieldKept(c: Codec, field: string, v: Value)
    requires Contains(c.lists, field) == Success(false) && Contains(c.dicts, field) == Success(false)
    ensures DecodeField(c, field, v) == Success(v)
  {
  }

  /** A column named by both options is split into a list, which has no `split`: AttributeError. */
  lemma ListAndDictFieldRaises(c: Codec, field: string, s: string)
    requires Contains(c.lists, field) == Success(true) && Contains(c.dicts, field) == Success(true)
    requires c.listDelimiter.OStr? && c.listDelimiter.s != ""
    ensures DecodeField(c, field, Str(s)) == Failure(AttributeError)
  {
  }

  /** A header whose every column is a key of `row`. */
  predicate Covers(header: seq<string>, row: Row) {
    forall k :: 0 <= k < |header| ==> header[k] in row
  }

  /** The inner loop of `load_csv` over the columns in `header` order, rewriting each in turn;
      the first exception ends it. */
  function DecodeRow(c: Codec, header: seq<string>, row: Row): (r: Result<Row, Error>)
    requires Covers(header, row)
    decreases |header|
  {
    if header == [] then Success(row)
    else
      var field := header[0];
      var v :- DecodeField(c, field, row[field]);
      DecodeRow(c, header[1..], row[field := v])
  }

  /** Decoding a row with distinct columns decodes each column from its own value, leaves
      columns outside the header alone, and fails exactly when some column fails. */
  lemma {:induction false} DecodeRowCells(c: Codec, header: seq<string>, row: Row)
    requires Covers(header, row) && NoDups(header)
    ensures DecodeRow(c, header, row).Success? <==>
      forall k :: 0 <= k < |header| ==> DecodeField(c, header[k], row[header[k]]).Success?
    ensures DecodeRow(c, header, row).Success? ==> DecodeRow(c, header, row).value.Keys == row.Keys
    ensures DecodeRow(c, header, row).Success? ==>
      forall k :: 0 <= k < |header| ==> DecodeRow(c, header, row).value[header[k]] == DecodeField(c, header[k], row[header[k]]).value
    ensures DecodeRow(c, header, row).Success? ==>
      forall f :: f in row && f !in header ==> DecodeRow(c, header, row).value[f] == row[f]
    decreases |header|
  {
    if header != [] {
      var field := header[0];
      var tail := header[1..];
      assert forall k :: 1 <= k < |header| ==> header[k] == tail[k - 1];
      NoDupsCons(field, tail);
      assert header == [field] + tail;
      var v := DecodeField(c, field, row[field]);
      if v.Success? {
        var next := row[field := v.value];
        assert forall k :: 0 <= k < |tail| ==> next[tail[k]] == row[tail[k]];
        DecodeRowCells(c, tail, next);
      }
    }
  }

  /** The exception of a row is the exception of its first failing column. */
  lemma {:induction false} DecodeRowFirstError(c: Codec, header: seq<string>, row: Row, k: nat)
    requires Covers(header, row) && NoDups(header) && k < |header|
    requires DecodeField(c, header[k], row[header[k]]).Failure?
    requires forall j :: 0 <= j < k ==> DecodeField(c, header[j], row[header[j]]).Success?
    ensures DecodeRow(c, header, row) == Failure(DecodeField(c, header[k], row[header[k]]).error)
    decreases k
  {
    if k > 0 {
      var field := header[0];
      var tail := header[1..];
      NoDupsCons(field, tail);
      assert header == [field] + tail;
      var v := DecodeField(c, field, row[field]);
      assert v.Success?;
      var next := row[field := v.value];
      forall j | 0 <= j < |tail| ensures tail[j] in next && next[tail[j]] == row[tail[j]] {
        assert tail[j] == header[j + 1];
      }
      forall j | 0 <= j < k - 1 ensures DecodeField(c, tail[j], next[tail[j]]).Success? {
        assert tail[j] == header[j + 1];
      }
      assert tail[k - 1] == header[k];
      DecodeRowFirstError(c, tail, next, k - 1);
      assert DecodeRow(c, header, row) == DecodeRow(c, tail, next);
    }
  }

  /** Every row the reader yields holds every header column. */
  predicate CoversAll(header: seq<string>, records: seq<RawRow>) {
    forall i, k :: 0 <= i < |records| && 0 <= k < |header| ==> header[k] in records[i]
  }

  /** The keys of the reader's row in iteration order: the row is a dict, so a repeated header
      name is one key, at the position of its first column. */
  function Columns(header: seq<string>): (r: seq<string>)
    ensures NoDups(r) && (forall k :: 0 <= k < |r| ==> r[k] in header)
    ensures forall k :: 0 <= k < |header| ==> header[k] in r
  {
    Dedup(header)
  }

  /** One record as the reader yields it, decoded key by key. */
  function DecodeRecord(c: Codec, header: seq<string>, raw: RawRow): Result<Row, Error>
    requires forall k :: 0 <= k < |header| ==> header[k] in raw
  {
    DecodeRow(c, Columns(header), ToRow(raw))
  }

  /** Each header name, repeated or not, is decoded once from the record's own cell: the record
      decodes exactly when every named cell does, and then holds each decoded cell under its
      name and every other cell unchanged. */
  lemma DecodeRecordCells(c: Codec, header: seq<string>, raw: RawRow)
    requires forall k :: 0 <= k < |header| ==> header[k] in raw
    ensures DecodeRecord(c, header, raw).Success? <==>
      forall k :: 0 <= k < |header| ==> DecodeField(c, header[k], Str(raw[header[k]])).Success?
    ensures DecodeRecord(c, header, raw).Success? ==>
      && DecodeRecord(c, header, raw).value.Keys == raw.Keys
      && (forall k :: 0 <= k < |header| ==>
            DecodeRecord(c, header, raw).value[header[k]] == DecodeField(c, header[k], Str(raw[header[k]])).value)
      && (forall f :: f in raw && f !in header ==> DecodeRecord(c, header, raw).value[f] == Str(raw[f]))
  {
    var cols := Columns(header);
    var row := ToRow(raw);
    DecodeRowCells(c, cols, row);
    forall k | 0 <= k < |header| ensures exists j :: 0 <= j < |cols| && cols[j] == header[k] {
      assert header[k] in cols;
    }
  }

  /** A column named twice is decoded once, exactly as if it were named once. */
  lemma RepeatedColumnOnce(c: Codec, name: string, cell: string)
    ensures DecodeRecord(c, [name, name], map[name := cell]) == DecodeRecord(c, [name], map[name := cell])
  {
    assert Columns([name, name]) == [name] by {
      assert [name, name][..1] == [name] && [name][..0] == [];
    }
    assert Columns([name]) == [name] by {
      assert [name][..0] == [];
    }
  }

  /** A record of one column decodes that one cell and nothing else. */
  lemma OneColumnRecord(c: Codec, name: string, cell: string)
    ensures var v := DecodeField(c, name, Str(cell));
      DecodeRecord(c, [name], map[name := cell]) == if v.Failure? then Failure(v.error) else Success(map[name := v.value])
  {
    var row := map[name := Str(cell)];
    assert [name][0..] == [name] && [name][1..] == [];
    assert Columns([name]) == [name] by {
      assert [name][..0] == [];
    }
    assert ToRow(map[name := cell]) == row;
    assert DecodeRecord(c, [name], map[name := cell]) == DecodeRow(c, [name], row);
    DecodeRowHead(c, [name], row, 0);
    var v := DecodeField(c, name, Str(cell));
    if v.Success? {
      var row' := row[name := v.value];
      assert DecodeRow(c, [], row') == Success(row');
      assert row' == map[name := v.value];
    }
  }

  /** With "a" a list column split by "|", the cell "x|y" decodes to `["x", "y"]`. */
  lemma SplitExampleCell()
    ensures DecodeField(Codec(OStr("|"), ":", ";", OList(["a"]), OList([])), "a", Str("x|y")) == Success(List(["x", "y"]))
  {
    var items := ["x", "y"];
    ListRoundTrip('|', ":", ";", items);
    assert Join("|", items) == "x|y" by {
      assert items[1..] == ["y"];
    }
  }

  /** A repeated list column is split once: a header "a", "a" with the cell "x|y" loads as
      `["x", "y"]`. */
  lemma RepeatedListColumn()
    ensures DecodeRecord(Codec(OStr("|"), ":", ";", OList(["a"]), OList([])), ["a", "a"], map["a" := "x|y"]) ==
      Success(map["a" := List(["x", "y"])])
  {
    var c := Codec(OStr("|"), ":", ";", OList(["a"]), OList([]));
    RepeatedColumnOnce(c, "a", "x|y");
    OneColumnRecord(c, "a", "x|y");
    SplitExampleCell();
  }

  /** The rows `load_csv` returns, or the first exception. */
  function DecodeRows(c: Codec, header: seq<string>, records: seq<RawRow>): (r: Result<seq<Row>, Error>)
    requires CoversAll(header, records)
    decreases |records|
  {
    if records == [] then Success([])
    else
      var n := |records| - 1;
      var prev :- DecodeRows(c, header, records[..n]);
      var row :- DecodeRecord(c, header, records[n]);
      Success(prev + [row])
  }

  /** Once a prefix of the rows fails, the whole load fails with the same exception. */
  lemma DecodeRowsPrefixFailure(c: Codec, header: seq<string>, records: seq<RawRow>, i: nat)
    requires CoversAll(header, records) && i <= |records|
    requires DecodeRows(c, header, records[..i]).Failure?
    ensures DecodeRows(c, header, records) == DecodeRows(c, header, records[..i])
  {
    DecodeRowsMap(c, header, records);
    DecodeRowsMap(c, header, records[..i]);
    MapResultPrefixFailure(RecordDecoder(c, header), records, i);
  }

  /** `DecodeRecord` as a total function: a record that lacks a header name, which no reader
      yields, decodes to nothing. */
  function RecordDecoder(c: Codec, header: seq<string>): RawRow -> Result<Row, Error> {
    raw => if forall k :: 0 <= k < |header| ==> header[k] in raw then DecodeRecord(c, header, raw) else Success(map[])
  }

  /** The load is the record decoder mapped over the records, stopping at the first exception. */
  lemma {:induction false} DecodeRowsMap(c: Codec, header: seq<string>, records: seq<RawRow>)
    requires CoversAll(header, records)
    ensures DecodeRows(c, header, records) == MapResult(RecordDecoder(c, header), records)
    decreases |records|
  {
    if records != [] {
      var n := |records| - 1;
      DecodeRowsMap(c, header, records[..n]);
    }
  }

  /** A successful load returns one decoded row per record, in order. */
  lemma DecodeRowsShape(c: Codec, header: seq<string>, records: seq<RawRow>)
    requires CoversAll(header, records)
    ensures DecodeRows(c, header, records).Success? <==>
      forall i :: 0 <= i < |records| ==> DecodeRecord(c, header, records[i]).Success?
    ensures DecodeRows(c, header, records).Success? ==>
      |DecodeRows(c, header, records).value| == |records| &&
      forall i :: 0 <= i < |records| ==> DecodeRows(c, header, records).value[i] == DecodeRecord(c, header, records[i]).value
  {
    var f := RecordDecoder(c, header);
    DecodeRowsMap(c, header, records);
    assert forall i :: 0 <= i < |records| ==> f(records[i]) == DecodeRecord(c, header, records[i]);
    MapResultSucceeds(f, records);
    if DecodeRows(c, header, records).Success? {
      MapResultValue(f, records);
    }
  }

  /** One column of the inner loop: decode column `k`, then the columns after it. */
  lemma DecodeRowHead(c: Codec, cols: seq<string>, row: Row, k: nat)
    requires k < |cols| && Covers(cols, row)
    ensures var v := DecodeField(c, cols[k], row[cols[k]]);
      && (v.Failure? ==> DecodeRow(c, cols[k..], row) == Failure(v.error))
      && (v.Success? ==> Covers(cols[k + 1..], row[cols[k] := v.value]) &&
                         DecodeRow(c, cols[k..], row) == DecodeRow(c, cols[k + 1..], row[cols[k] := v.value]))
  {
    assert cols[k..][1..] == cols[k + 1..];
  }

  /** One record of the outer loop: its row is appended to the rows before it. */
  lemma DecodeRowsStep(c: Codec, header: seq<string>, records: seq<RawRow>, i: nat, cde: seq<Row>, row: Row)
    requires CoversAll(header, records) && i < |records|
    requires DecodeRows(c, header, records[..i]) == Success(cde)
    requires DecodeRecord(c, header, records[i]) == Success(row)
    ensures DecodeRows(c, header, records[..i + 1]) == Success(cde + [row])
  {
    assert records[..i + 1][..i] == records[..i];
  }

  /** A record that raises after the rows before it decoded ends the whole load with that
      exception. */
  lemma DecodeRowsStopAt(c: Codec, header: seq<string>, records: seq<RawRow>, i: nat, e: Error)
    requires CoversAll(header, records) && i < |records|
    requires DecodeRows(c, header, records[..i]).Success?
    requires DecodeRecord(c, header, records[i]) == Failure(e)
    ensures DecodeRows(c, header, records) == Failure(e)
  {
    assert records[..i + 1][..i] == records[..i];
    DecodeRowsPrefixFailure(c, header, records, i + 1);
  }

  /** What `load_csv` returns for a file whose reader yields `header` and `records`. */
  function LoadCsvResult(l: Loader, header: seq<string>, records: seq<RawRow>): (r: Result<seq<Row>, Error>)
    requires Valid(l) && CoversAll(header, records)
  {
    var c :- LoadCodec(l);
    DecodeRows(c, header, records)
  }

  /** `load_csv`: decode every row in column order and collect the rows. */
  method LoadCsv(l: Loader, header: seq<string>, records: seq<RawRow>) returns (r: Result<seq<Row>, Error>)
    requires Valid(l) && CoversAll(header, records)
    ensures r == LoadCsvResult(l, header, records)
  {
    var codec := LoadCodec(l);
    if codec.Failure? {
      return Failure(codec.error);
    }
    var c := codec.value;
    var cde: seq<Row> := [];
    for i := 0 to |records|
      invariant DecodeRows(c, header, records[..i]) == Success(cde)
    {
      var row := ToRow(records[i]);
      var fields := Columns(header);
      for k := 0 to |fields|
        invariant Covers(fields, row)
        invariant DecodeRecord(c, header, records[i]) == DecodeRow(c, fields[k..], row)
      {
        var field := fields[k];
        var v := DecodeField(c, field, row[field]);
        DecodeRowHead(c, fields, row, k);
        if v.Failure? {
          DecodeRowsStopAt(c, header, records, i, v.error);
          return Failure(v.error);
        }
        row := row[field := v.value];
      }
      assert fields[|fields|..] == [];
      DecodeRowsStep(c, header, records, i, cde, row);
      cde := cde + [row];
    }
    assert records[..|records|] == records;
    return Success(cde);
  }

  /** `load`: only a name whose text after the last "." is "csv" is read (see ExtensionIsCsv). */
  method Load(l: Loader, fp: string, header: seq<string>, records: seq<RawRow>) returns (r: Result<seq<Row>, Error>)
    requires Valid(l) && CoversAll(header, records)
    ensures Extension(fp) == "csv" ==> r == LoadCsvResult(l, header, records)
    ensures Extension(fp) != "csv" ==> r == Failure(UnsupportedExtension(fp))
  {
    if Extension(fp) == "csv" {
      r := LoadCsv(l, header, records);
    } else {
      r := Failure(UnsupportedExtension(fp));
    }
  }

  /** `save`: the same extension test; a rejected name leaves the rows untouched. */
  method Save(l: Loader, cde: array<Row>, fp: string) returns (r: Result<(), Error>)
    requires Valid(l)
    modifies cde
    ensures Extension(fp) != "csv" ==> r == Failure(UnsupportedExtension(fp)) && cde[..] == old(cde[..])
    ensures Extension(fp) == "csv" && Unpack2(l.options["csv_dict_delimiters"]).Failure? ==>
      r == Failure(Unpack2(l.options["csv_dict_delimiters"]).error) && cde[..] == old(cde[..])
    ensures Extension(fp) == "csv" && Unpack2(l.options["csv_dict_delimiters"]).Success? ==>
      var (inner, outer) := Unpack2(l.options["csv_dict_delimiters"]).value;
      && EncodedInPlace(old(cde[..]), cde[..], l.options["csv_list_delimiter"], inner, outer)
      && r == (if EncodeOutcome(old(cde[..]), l.options["csv_list_delimiter"]).Failure? then Failure(AttributeError)
               else if cde.Length == 0 then Failure(IndexError)
               else Success(()))
  {
    if Extension(fp) == "csv" {
      r := SaveCsv(l.options, cde);
    } else {
      r := Failure(UnsupportedExtension(fp));
    }
  }

  // ---------------------------------------------------------------------------
  // Round trips between `save_csv`'s encoding and `load_csv`'s decoding

  /** A non-empty list whose items hold no delimiter comes back from its joined form. */
  lemma ListRoundTrip(d: char, inner: string, outer: string, items: seq<string>)
    requires items != [] && forall k :: 0 <= k < |items| ==> d !in items[k]
    ensures SplitCell(EncodeValue([d], inner, outer, List(items)), OStr([d])) == Success(List(items))
  {
    SplitJoin(items, d);
  }

  /** The empty list is saved as the empty cell, which loads as `[""]`. */
  lemma EmptyListComesBackAsEmptyString(d: string, inner: string, outer: string)
    requires d != ""
    ensures SplitCell(EncodeValue(d, inner, outer, List([])), OStr(d)) == Success(List([""]))
  {
    assert Find("", d).None?;
  }

  /** Splitting a `key{inner}value` segment gives its two parts back. */
  lemma SegmentSplits(inner: char, key: string, value: string)
    requires inner !in key && inner !in value
    ensures Split(key + [inner] + value, [inner]) == [key, value]
  {
    SplitJoin([key, value], inner);
    assert Join([inner], [key, value]) == key + [inner] + value by {
      assert [key, value][1..] == [value];
    }
  }

  /** A non-empty dict whose keys are distinct and whose keys and values hold neither delimiter
      comes back from its encoded form, pairs in the same order. */
  lemma DictRoundTrip(inner: char, outer: char, listDelimiter: string, entries: seq<(string, string)>)
    requires inner != outer && entries != [] && NoDups(Keys(entries))
    requires forall k :: 0 <= k < |entries| ==>
      inner !in entries[k].0 && inner !in entries[k].1 && outer !in entries[k].0 && outer !in entries[k].1
    ensures DecodeDict(EncodeValue(listDelimiter, [inner], [outer], Dict(entries)), [inner], [outer]) == Success(Dict(entries))
  {
    var encoded := EncodeEntries([inner], entries);
    forall k | 0 <= k < |encoded| ensures outer !in encoded[k] {
      assert encoded[k] == entries[k].0 + [inner] + entries[k].1;
    }
    SplitJoin(encoded, outer);
    var pairs := Segments(Join([outer], encoded), [inner], [outer]);
    forall k | 0 <= k < |entries| ensures pairs[k] == [entries[k].0, entries[k].1] {
      SegmentSplits(inner, entries[k].0, entries[k].1);
    }
    assert pairs == PairsOf(entries);
    DictFromDistinctPairs(entries);
  }

  /** An empty dict cell does not load: `"".split(outer)` is `[""]`, whose one segment splits into
      one part. So an empty dict, saved as the empty cell, does not come back. */
  lemma EmptyDictCellRaises(inner: string, outer: string)
    ensures DecodeDict(Str(""), inner, outer) == Failure(ValueError)
  {
    if inner != "" && outer != "" {
      assert Find("", outer).None? && Find("", inner).None?;
      assert |Segments("", inner, outer)[0]| != 2;
    }
  }

  /** Under a loader whose list and dict options name the column by its kind, a saved value of
      that kind loads back as itself, and a string column stays a string. */
  lemma FieldRoundTrip(c: Codec, d: char, inner: char, outer: char, field: string, v: Value)
    requires c.listDelimiter == OStr([d]) && c.inner == [inner] && c.outer == [outer] && inner != outer
    requires Contains(c.lists, field) == Success(v.List?) && Contains(c.dicts, field) == Success(v.Dict?)
    requires v.List? ==> v.items != [] && forall k :: 0 <= k < |v.items| ==> d !in v.items[k]
    requires v.Dict? ==> (v.entries != [] && NoDups(Keys(v.entries)) &&
      forall k :: 0 <= k < |v.entries| ==>
        inner !in v.entries[k].0 && inner !in v.entries[k].1 && outer !in v.entries[k].0 && outer !in v.entries[k].1)
    ensures DecodeField(c, field, EncodeValue([d], [inner], [outer], v)) == Success(v)
  {
    if v.List? {
      ListRoundTrip(d, [inner], [outer], v.items);
    } else if v.Dict? {
      DictRoundTrip(inner, outer, [d], v.entries);
    }
  }
}
