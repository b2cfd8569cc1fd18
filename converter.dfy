/** The analysis-dictionary converter of the harmonization helper: the rows the analysis produced
    (each with a `categories` list and a `matches` object from matched id to score) become a
    network of CDE nodes and match edges. A row without an id is skipped, a row without
    categories or matches is rejected, and every match is resolved to the first node whose id
    ends with the matched id. */
module Converter {
  import opened Wrappers
  import opened Seqs
  import opened Strings
  import opened Js

  /** `HarmonizationDecision`; the converter itself never sets one. */
  datatype Decision = Rejected | ExactMatch | MappableGroup | PossibleGroup | HasParent

  /** The enum's string values. */
  function Label(d: Decision): string {
    match d
    case Rejected => "Rejected"
    case ExactMatch => "Exact Match"
    case MappableGroup => "Mappable Group"
    case PossibleGroup => "Possible Group"
    case HasParent => "Has Parent"
  }

  /** The string values tell the decisions apart. */
  lemma LabelInjective(a: Decision, b: Decision)
    ensures Label(a) == Label(b) ==> a == b
  {
  }

  /** An `AnalysisEdge`. The score is kept as the raw matches value: its `parseFloat` is not
      modelled. */
  datatype Edge = Edge(source: string, target: string, score: JsValue, decision: Option<Decision>)

  /** An `AnalysisNetwork`. */
  datatype Network = Network(nodes: seq<JsRow>, edges: seq<Edge>)

  /** An entry of `edgesToCreate`: the row's id, a matched id and its score. */
  type Pending = (JsValue, string, JsValue)

  /** `Object.entries(v)` (and the length of `Object.keys(v)`): an object gives its entries, a
      string or an array gives its index keys with the characters or items; `undefined` is
      refused with a TypeError. */
  function ObjectEntries(v: JsValue): (r: Result<seq<(string, JsValue)>, JsError>)
    ensures r.Failure? <==> v.Undefined?
    ensures r.Failure? ==> r.error == TypeError
    ensures v.Obj? ==> r == Success(v.entries)
    ensures v.Str? ==> (r.Success? && |r.value| == |v.s| &&
      forall i :: 0 <= i < |v.s| ==> r.value[i] == (NatToString(i), Str([v.s[i]])))
    ensures v.Arr? ==> (r.Success? && |r.value| == |v.items| &&
      forall i :: 0 <= i < |v.items| ==> r.value[i] == (NatToString(i), Str(v.items[i])))
  {
    match v
    case Undefined => Failure(TypeError)
    case Obj(entries) => Success(entries)
    case Str(s) => Success(seq(|s|, i requires 0 <= i < |s| => (NatToString(i), Str([s[i]]))))
    case Arr(items) => Success(seq(|items|, i requires 0 <= i < |items| => (NatToString(i), Str(items[i]))))
  }

  /** The check on a row that has an id: falsy categories are an InvalidAnalysisDictError before
      `matches` is looked at; `Object.keys` of missing matches throws; no matches at all is an
      InvalidAnalysisDictError. On success, the entries of the matches. */
  function Validate(row: JsRow): (r: Result<seq<(string, JsValue)>, JsError>)
    ensures r.Failure? <==>
      !Truthy(Get(row, "categories")) || Get(row, "matches").Undefined? || ObjectEntries(Get(row, "matches")).value == []
    ensures r.Failure? ==>
      r.error == (if Truthy(Get(row, "categories")) && Get(row, "matches").Undefined? then TypeError else InvalidAnalysisDictError)
    ensures r.Success? ==> r.value == ObjectEntries(Get(row, "matches")).value && r.value != []
  {
    if !Truthy(Get(row, "categories")) then Failure(InvalidAnalysisDictError)
    else
      var entries :- ObjectEntries(Get(row, "matches"));
      if entries == [] then Failure(InvalidAnalysisDictError) else Success(entries)
  }

  /** Whether the converter keeps a row: its id is truthy. */
  function HasId(idField: string): JsRow -> bool {
    row => Truthy(Get(row, idField))
  }

  /** The node pushed for a row: `{[idField]: id, categories, ...cdeFields}`, that is every column
      but `matches`, with the id under the id field. */
  function NodeOf(row: JsRow, idField: string): (r: JsRow)
    ensures r.Keys == row.Keys - {"matches"} + {idField}
    ensures r[idField] == Get(row, idField)
    ensures forall k :: k in row && k != "matches" ==> r[k] == row[k]
  {
    (row - {"matches"})[idField := Get(row, idField)]
  }

  /** The `edgesToCreate` entries of one row, in the order of its matches. */
  function PendingOf(id: JsValue, entries: seq<(string, JsValue)>): (r: seq<Pending>)
    ensures |r| == |entries|
  {
    seq(|entries|, k requires 0 <= k < |entries| => (id, entries[k].0, entries[k].1))
  }

  /** What one iteration of the `forEach` over the rows adds: nothing for a row without an id,
      otherwise its node and its pending edges, or the exception it throws. */
  function Step(row: JsRow, idField: string): (r: Result<(seq<JsRow>, seq<Pending>), JsError>)
  {
    if !Truthy(Get(row, idField)) then Success(([], []))
    else
      var entries :- Validate(row);
      Success(([NodeOf(row, idField)], PendingOf(Get(row, idField), entries)))
  }

  /** The first loop of the converter: the nodes and `edgesToCreate` after all rows, or the
      exception of the first row that throws. */
  function Collect(rows: seq<JsRow>, idField: string): (r: Result<(seq<JsRow>, seq<Pending>), JsError>)
    decreases |rows|
  {
    if rows == [] then Success(([], []))
    else
      var n := |rows| - 1;
      var acc :- Collect(rows[..n], idField);
      var step :- Step(rows[n], idField);
      Success((acc.0 + step.0, acc.1 + step.1))
  }

  /** The rows that have an id, in order. */
  function Kept(rows: seq<JsRow>, idField: string): seq<JsRow> {
    Filter(rows, HasId(idField))
  }

  /** The entries of a row's matches (none when it has no matches). */
  function MatchEntries(row: JsRow): seq<(string, JsValue)> {
    var entries := ObjectEntries(Get(row, "matches"));
    if entries.Success? then entries.value else []
  }

  /** One node per row. */
  function NodesOf(rows: seq<JsRow>, idField: string): (r: seq<JsRow>)
    ensures |r| == |rows|
  {
    seq(|rows|, k requires 0 <= k < |rows| => NodeOf(rows[k], idField))
  }

  /** The pending edges of each row. */
  function PendingsOf(rows: seq<JsRow>, idField: string): (r: seq<seq<Pending>>)
    ensures |r| == |rows|
  {
    seq(|rows|, k requires 0 <= k < |rows| => PendingOf(Get(rows[k], idField), MatchEntries(rows[k])))
  }

  /** Once a prefix of the rows throws, the converter throws the same exception. */
  lemma {:induction false} CollectPrefixFailure(rows: seq<JsRow>, idField: string, i: nat)
    requires i <= |rows| && Collect(rows[..i], idField).Failure?
    ensures Collect(rows, idField) == Collect(rows[..i], idField)
    decreases |rows| - i
  {
    if i < |rows| {
      var n := |rows| - 1;
      assert rows[..n][..i] == rows[..i];
      CollectPrefixFailure(rows[..n], idField, i);
    } else {
      assert rows[..i] == rows;
    }
  }

  /** Appending a row appends it to the kept rows exactly when it has an id. */
  lemma KeptSnoc(rows: seq<JsRow>, x: JsRow, idField: string)
    ensures Kept(rows + [x], idField) == Kept(rows, idField) + (if Truthy(Get(x, idField)) then [x] else [])
  {
    FilterConcat(rows, [x], HasId(idField));
    assert Filter([x], HasId(idField)) == (if Truthy(Get(x, idField)) then [x] else []) by {
      assert [x][1..] == [];
    }
  }

  /** The first loop succeeds exactly when every row with an id has categories and matches. */
  lemma {:induction false} CollectSucceeds(rows: seq<JsRow>, idField: string)
    ensures Collect(rows, idField).Success? <==>
      forall i :: 0 <= i < |rows| && Truthy(Get(rows[i], idField)) ==> Validate(rows[i]).Success?
    decreases |rows|
  {
    if rows != [] {
      var n := |rows| - 1;
      CollectSucceeds(rows[..n], idField);
      assert forall i :: 0 <= i < n ==> rows[..n][i] == rows[i];
    }
  }

  /** One more row extends the nodes and `edgesToCreate` by what its step adds. */
  lemma CollectSnoc(prefix: seq<JsRow>, x: JsRow, idField: string)
    requires Collect(prefix, idField).Success? && Step(x, idField).Success?
    ensures Collect(prefix + [x], idField) ==
      Success((Collect(prefix, idField).value.0 + Step(x, idField).value.0, Collect(prefix, idField).value.1 + Step(x, idField).value.1))
  {
    var rows := prefix + [x];
    assert rows[..|rows| - 1] == prefix;
    assert rows[|rows| - 1] == x;
  }

  /** The reference nodes and pending edges of one more kept row. */
  lemma ReferenceSnoc(kept: seq<JsRow>, x: JsRow, idField: string)
    ensures NodesOf(kept + [x], idField) == NodesOf(kept, idField) + [NodeOf(x, idField)]
    ensures Flatten(PendingsOf(kept + [x], idField)) ==
      Flatten(PendingsOf(kept, idField)) + PendingOf(Get(x, idField), MatchEntries(x))
  {
    var p := PendingOf(Get(x, idField), MatchEntries(x));
    assert NodesOf(kept + [x], idField) == NodesOf(kept, idField) + [NodeOf(x, idField)];
    assert PendingsOf(kept + [x], idField) == PendingsOf(kept, idField) + [p];
    FlattenConcat(PendingsOf(kept, idField), [p]);
    assert Flatten([p]) == p by {
      assert [p][1..] == [];
    }
  }

  /** The nodes are then the rows with an id, in order, without their matches, and
      `edgesToCreate` lists their matches row by row; a row without an id leaves no trace. */
  lemma {:induction false} CollectValue(rows: seq<JsRow>, idField: string)
    requires Collect(rows, idField).Success?
    ensures Collect(rows, idField).value == (NodesOf(Kept(rows, idField), idField), Flatten(PendingsOf(Kept(rows, idField), idField)))
    decreases |rows|
  {
    if rows == [] {
      assert Kept(rows, idField) == [];
      assert PendingsOf([], idField) == [];
    } else {
      var n := |rows| - 1;
      var prefix, x := rows[..n], rows[n];
      assert rows == prefix + [x];
      CollectValue(prefix, idField);
      CollectSnoc(prefix, x, idField);
      KeptSnoc(prefix, x, idField);
      if Truthy(Get(x, idField)) {
        assert Step(x, idField) == Success(([NodeOf(x, idField)], PendingOf(Get(x, idField), MatchEntries(x))));
        ReferenceSnoc(Kept(prefix, idField), x, idField);
      } else {
        assert Step(x, idField) == Success(([], []));
        var acc := Collect(prefix, idField).value;
        assert acc.0 + [] == acc.0 && acc.1 + [] == acc.1;
        assert Kept(rows, idField) == Kept(prefix, idField);
      }
    }
  }

  /** The exception of the first row with an id that fails validation is the converter's. */
  lemma CollectFirstError(rows: seq<JsRow>, idField: string, i: nat)
    requires i < |rows| && Truthy(Get(rows[i], idField)) && Validate(rows[i]).Failure?
    requires forall j :: 0 <= j < i && Truthy(Get(rows[j], idField)) ==> Validate(rows[j]).Success?
    ensures Collect(rows, idField) == Failure(Validate(rows[i]).error)
  {
    var prefix := rows[..i + 1];
    assert prefix[..i] == rows[..i];
    CollectSucceeds(rows[..i], idField);
    assert forall j :: 0 <= j < i ==> rows[..i][j] == rows[j];
    CollectPrefixFailure(rows, idField, i + 1);
  }

  /** The node a row's match resolves to: `nodes.find((node) => node[idField].endsWith(suffix))`
      followed by `![idField]`. A node whose id is no string throws a TypeError when the scan
      reaches it, and so does a scan that finds nothing. */
  function FindBySuffix(nodes: seq<JsRow>, idField: string, suffix: string): (r: Result<string, JsError>)
    ensures r.Failure? ==> r.error == TypeError
    ensures r.Success? ==> EndsWith(r.value, suffix)
    ensures r.Success? ==> exists i :: 0 <= i < |nodes| && Get(nodes[i], idField) == Str(r.value)
  {
    if nodes == [] then Failure(TypeError)
    else
      var id := Get(nodes[0], idField);
      if !id.Str? then Failure(TypeError)
      else if EndsWith(id.s, suffix) then Success(id.s)
      else
        var r := FindBySuffix(nodes[1..], idField, suffix);
        assert r.Success? ==> exists i :: 0 <= i < |nodes[1..]| && Get(nodes[1..][i], idField) == Str(r.value);
        assert forall i :: 1 <= i < |nodes| ==> nodes[1..][i - 1] == nodes[i];
        r
  }

  /** Node `i` is the first one the scan accepts: every earlier id is a string without the suffix
      and node `i`'s id is a string ending with it. */
  predicate FirstMatch(nodes: seq<JsRow>, idField: string, suffix: string, i: nat) {
    && i < |nodes|
    && (forall j :: 0 <= j < i ==> Get(nodes[j], idField).Str? && !EndsWith(Get(nodes[j], idField).s, suffix))
    && Get(nodes[i], idField).Str? && EndsWith(Get(nodes[i], idField).s, suffix)
  }

  /** The scan returns the id of the first node it accepts ... */
  lemma {:induction false} FindBySuffixFirst(nodes: seq<JsRow>, idField: string, suffix: string, i: nat)
    requires FirstMatch(nodes, idField, suffix, i)
    ensures FindBySuffix(nodes, idField, suffix) == Success(Get(nodes[i], idField).s)
  {
    if i > 0 {
      assert FirstMatch(nodes[1..], idField, suffix, i - 1) by {
        assert forall j :: 0 <= j < i - 1 ==> nodes[1..][j] == nodes[j + 1];
      }
      FindBySuffixFirst(nodes[1..], idField, suffix, i - 1);
    }
  }

  /** ... and only then succeeds. */
  lemma {:induction false} FindBySuffixSucceeds(nodes: seq<JsRow>, idField: string, suffix: string)
    requires FindBySuffix(nodes, idField, suffix).Success?
    ensures exists i: nat :: FirstMatch(nodes, idField, suffix, i) && FindBySuffix(nodes, idField, suffix).value == Get(nodes[i], idField).s
  {
    var id := Get(nodes[0], idField);
    if EndsWith(id.s, suffix) {
      assert FirstMatch(nodes, idField, suffix, 0);
    } else {
      FindBySuffixSucceeds(nodes[1..], idField, suffix);
      var i: nat :| FirstMatch(nodes[1..], idField, suffix, i) && FindBySuffix(nodes[1..], idField, suffix).value == Get(nodes[1..][i], idField).s;
      assert forall j :: 0 <= j <= i ==> nodes[1..][j] == nodes[j + 1];
      assert FirstMatch(nodes, idField, suffix, i + 1);
    }
  }

  /** A match with the empty id resolves to the first node when its id is a string: every string
      ends with "". */
  lemma EmptySuffixFindsFirstNode(nodes: seq<JsRow>, idField: string)
    requires nodes != [] && Get(nodes[0], idField).Str?
    ensures FindBySuffix(nodes, idField, "") == Success(Get(nodes[0], idField).s)
  {
    assert EndsWith(Get(nodes[0], idField).s, "");
  }

  /** One iteration of the second loop: both ends resolved (the row's own id converted with
      `String`), the raw score, no decision. */
  function ResolveOne(nodes: seq<JsRow>, idField: string, p: Pending): Result<Edge, JsError>
  {
    var source :- FindBySuffix(nodes, idField, ToString(p.0));
    var target :- FindBySuffix(nodes, idField, p.1);
    Success(Edge(source, target, p.2, None))
  }

  /** The second loop: the edges in `edgesToCreate` order, or the first exception. */
  function Resolve(nodes: seq<JsRow>, idField: string, pending: seq<Pending>): Result<seq<Edge>, JsError> {
    MapResult(p => ResolveOne(nodes, idField, p), pending)
  }

  /** `convertAnalysisDictToNetwork`. */
  function Convert(rows: seq<JsRow>, idField: string): (r: Result<Network, JsError>)
    ensures r.Success? <==> Collect(rows, idField).Success? && Resolve(Collect(rows, idField).value.0, idField, Collect(rows, idField).value.1).Success?
    ensures r.Success? ==> r.value.nodes == Collect(rows, idField).value.0 && |r.value.edges| == |Collect(rows, idField).value.1|
  {
    var acc :- Collect(rows, idField);
    var edges :- Resolve(acc.0, idField, acc.1);
    MapResultValue(p => ResolveOne(acc.0, idField, p), acc.1);
    Success(Network(acc.0, edges))
  }

  /** Every edge of a converted network joins two of its nodes: each end is the id of a node and
      ends with the id it was resolved from (the row's own id, then the matched id); the score is
      the match's raw value and there is no decision yet. */
  lemma ConvertEdgesJoinNodes(rows: seq<JsRow>, idField: string, k: nat)
    requires Convert(rows, idField).Success? && k < |Convert(rows, idField).value.edges|
    ensures var net := Convert(rows, idField).value;
      && (exists i :: 0 <= i < |net.nodes| && Get(net.nodes[i], idField) == Str(net.edges[k].source))
      && (exists i :: 0 <= i < |net.nodes| && Get(net.nodes[i], idField) == Str(net.edges[k].target))
      && net.edges[k].decision == None
      && net.edges[k].score == Collect(rows, idField).value.1[k].2
      && EndsWith(net.edges[k].source, ToString(Collect(rows, idField).value.1[k].0))
      && EndsWith(net.edges[k].target, Collect(rows, idField).value.1[k].1)
  {
    var acc := Collect(rows, idField).value;
    MapResultValue(p => ResolveOne(acc.0, idField, p), acc.1);
    var p := acc.1[k];
    assert ResolveOne(acc.0, idField, p) == Success(Convert(rows, idField).value.edges[k]);
    var source := FindBySuffix(acc.0, idField, ToString(p.0));
    var target := FindBySuffix(acc.0, idField, p.1);
    assert source.Success? && target.Success?;
  }

  /** A converted network has one node per row with an id and one edge per match. */
  lemma ConvertCounts(rows: seq<JsRow>, idField: string)
    requires Convert(rows, idField).Success?
    ensures |Convert(rows, idField).value.nodes| == |Kept(rows, idField)|
    ensures |Convert(rows, idField).value.edges| == TotalLength(PendingsOf(Kept(rows, idField), idField))
  {
    CollectValue(rows, idField);
    var acc := Collect(rows, idField).value;
    MapResultValue(p => ResolveOne(acc.0, idField, p), acc.1);
    FlattenLength(PendingsOf(Kept(rows, idField), idField));
  }

  /** The first `forEach` of the converter: push the node of every row with an id and queue its
      matches. */
  method CollectRows(analysisDict: seq<JsRow>, idField: string) returns (r: Result<(seq<JsRow>, seq<Pending>), JsError>)
    ensures r == Collect(analysisDict, idField)
  {
    var nodes: seq<JsRow> := [];
    var edgesToCreate: seq<Pending> := [];
    for i := 0 to |analysisDict|
      invariant Collect(analysisDict[..i], idField) == Success((nodes, edgesToCreate))
    {
      var row := analysisDict[i];
      var id := Get(row, idField);
      assert analysisDict[..i + 1] == analysisDict[..i] + [row];
      if !Truthy(id) {
        assert Step(row, idField) == Success(([], []));
        CollectSnoc(analysisDict[..i], row, idField);
        assert nodes + [] == nodes && edgesToCreate + [] == edgesToCreate;
        continue;
      }
      var matches := Validate(row);
      if matches.Failure? {
        assert analysisDict[..i + 1][..i] == analysisDict[..i];
        CollectPrefixFailure(analysisDict, idField, i + 1);
        return Failure(matches.error);
      }
      var entries := matches.value;
      assert Step(row, idField) == Success(([NodeOf(row, idField)], PendingOf(id, entries)));
      CollectSnoc(analysisDict[..i], row, idField);
      nodes := nodes + [NodeOf(row, idField)];
      ghost var before := edgesToCreate;
      for k := 0 to |entries|
        invariant edgesToCreate == before + PendingOf(id, entries[..k])
      {
        assert PendingOf(id, entries[..k + 1]) == PendingOf(id, entries[..k]) + [(id, entries[k].0, entries[k].1)];
        edgesToCreate := edgesToCreate + [(id, entries[k].0, entries[k].1)];
      }
      assert entries[..|entries|] == entries;
    }
    assert analysisDict[..|analysisDict|] == analysisDict;
    return Success((nodes, edgesToCreate));
  }

  /** The second `forEach`: resolve both ends of every queued match and push the edge. */
  method CreateEdges(nodes: seq<JsRow>, idField: string, edgesToCreate: seq<Pending>) returns (r: Result<seq<Edge>, JsError>)
    ensures r == Resolve(nodes, idField, edgesToCreate)
  {
    var edges: seq<Edge> := [];
    for k := 0 to |edgesToCreate|
      invariant Resolve(nodes, idField, edgesToCreate[..k]) == Success(edges)
    {
      var (id1, id2, score) := edgesToCreate[k];
      assert edgesToCreate[..k + 1][..k] == edgesToCreate[..k];
      assert edgesToCreate[..k + 1][k] == (id1, id2, score);
      var source := FindBySuffix(nodes, idField, ToString(id1));
      var target := FindBySuffix(nodes, idField, id2);
      if source.Failure? || target.Failure? {
        MapResultPrefixFailure(p => ResolveOne(nodes, idField, p), edgesToCreate, k + 1);
        return Failure(TypeError);
      }
      edges := edges + [Edge(source.value, target.value, score, None)];
    }
    assert edgesToCreate[..|edgesToCreate|] == edgesToCreate;
    return Success(edges);
  }

  /** `convertAnalysisDictToNetwork`: the two loops in turn. */
  method ConvertAnalysisDictToNetwork(analysisDict: seq<JsRow>, idField: string) returns (r: Result<Network, JsError>)
    ensures r == Convert(analysisDict, idField)
  {
    var collected := CollectRows(analysisDict, idField);
    if collected.Failure? {
      return Failure(collected.error);
    }
    var (nodes, edgesToCreate) := collected.value;
    var edges := CreateEdges(nodes, idField, edgesToCreate);
    if edges.Failure? {
      return Failure(edges.error);
    }
    return Success(Network(nodes, edges.value));
  }
}
