/** The harmonization helper's application state: how `loadAnalysisFile` decodes the rows of an
    analysis file (each `categories` cell split into a list, each `matches` cell into an object
    from matched id to score), the `analysis` state cell and its transitions, and the lookup of
    the active community algorithm. The CSV parse, the metadata form and the Newman clustering
    are supplied by the caller. */
module AppContext {
  import opened Wrappers
  import opened Seqs
  import opened Strings
  import opened Js
  import opened Converter
  import opened Algorithms
  import CsvCodec
  import CdeLoader
  import Py

  /** What the metadata form returns. */
  datatype Metadata = Metadata(idField: string, listDelimiter: string, dictDelimiter: string)

  /** `row.categories?.split(listDelimiter)`: a missing value stays `undefined`, a string becomes
      the list of its pieces, and anything else has no `split` and throws. */
  function DecodeCategories(v: JsValue, listDelimiter: string): (r: Result<JsValue, JsError>)
    ensures r.Failure? <==> v.Arr? || v.Obj?
    ensures r.Failure? ==> r.error == TypeError
    ensures v.Undefined? ==> r == Success(Undefined)
    ensures v.Str? ==> r.Success? && r.value.Arr? && (listDelimiter != "" ==> Join(listDelimiter, r.value.items) == v.s)
  {
    match v
    case Undefined => Success(Undefined)
    case Str(s) => Success(Arr(JsSplit(s, listDelimiter)))
    case _ => Failure(TypeError)
  }

  /** `String(entry[0])` of an `Object.fromEntries` entry: a missing first item is the key "undefined". */
  function EntryKey(e: seq<string>): string {
    if |e| >= 1 then e[0] else "undefined"
  }

  /** `entry[1]`: a missing second item is `undefined`; items after the second are ignored. */
  function EntryValue(e: seq<string>): JsValue {
    if |e| >= 2 then Str(e[1]) else Undefined
  }

  /** `Object.fromEntries(entries)`: each entry assigned in turn, so a repeated key keeps its
      first position and its last value. */
  function FromEntries(es: seq<seq<string>>): seq<(string, JsValue)>
    decreases |es|
  {
    if es == [] then []
    else
      var n := |es| - 1;
      Assign(FromEntries(es[..n]), EntryKey(es[n]), EntryValue(es[n]))
  }

  /** The value stored under `k` in an object's entries. */
  function Lookup(entries: seq<(string, JsValue)>, k: string): Option<JsValue> {
    if entries == [] then None
    else if entries[0].0 == k then Some(entries[0].1)
    else Lookup(entries[1..], k)
  }

  /** The keys of an object's entries, in order. */
  function EntryNames(entries: seq<(string, JsValue)>): seq<string> {
    if entries == [] then [] else [entries[0].0] + EntryNames(entries[1..])
  }

  /** Assigning `key` makes it read as `v` and leaves every other key as it was. */
  lemma {:induction false} AssignLookup(entries: seq<(string, JsValue)>, key: string, v: JsValue, k: string)
    ensures Lookup(Assign(entries, key, v), k) == if k == key then Some(v) else Lookup(entries, k)
  {
    if entries != [] && entries[0].0 != key {
      AssignLookup(entries[1..], key, v, k);
    }
  }

  /** Assigning a key the object does not hold appends it. */
  lemma {:induction false} AssignNew(entries: seq<(string, JsValue)>, key: string, v: JsValue)
    requires Lookup(entries, key).None?
    ensures Assign(entries, key, v) == entries + [(key, v)]
  {
    if entries != [] {
      AssignNew(entries[1..], key, v);
      assert entries == [entries[0]] + entries[1..];
    }
  }

  /** Assigning a new key appends its name; assigning a known key keeps the names as they are. */
  lemma {:induction false} AssignNames(entries: seq<(string, JsValue)>, key: string, v: JsValue)
    ensures EntryNames(Assign(entries, key, v)) == if key in EntryNames(entries) then EntryNames(entries) else EntryNames(entries) + [key]
  {
    if entries != [] {
      if entries[0].0 != key {
        AssignNames(entries[1..], key, v);
        var rest := Assign(entries[1..], key, v);
        assert ([entries[0]] + rest)[1..] == rest;
      } else {
        assert ([(key, v)] + entries[1..])[1..] == entries[1..];
      }
    }
  }

  /** A key of the object exists exactly when some entry names it, and it holds the value of the
      last entry naming it. */
  lemma {:induction false} FromEntriesLastWins(es: seq<seq<string>>, k: string)
    ensures Lookup(FromEntries(es), k).Some? <==> exists i :: 0 <= i < |es| && EntryKey(es[i]) == k
    ensures forall i :: 0 <= i < |es| && EntryKey(es[i]) == k && (forall j :: i < j < |es| ==> EntryKey(es[j]) != k) ==>
      Lookup(FromEntries(es), k) == Some(EntryValue(es[i]))
    decreases |es|
  {
    if es != [] {
      var n := |es| - 1;
      var init := es[..n];
      assert FromEntries(es) == Assign(FromEntries(init), EntryKey(es[n]), EntryValue(es[n]));
      AssignLookup(FromEntries(init), EntryKey(es[n]), EntryValue(es[n]), k);
      FromEntriesLastWins(init, k);
      LastWinsStep(es, init, k, Lookup(FromEntries(init), k), Lookup(FromEntries(es), k));
    }
  }

  /** The step of `FromEntriesLastWins`: the lookup after one more entry is that entry's value when
      it names the key, and the lookup before it otherwise. */
  lemma LastWinsStep(es: seq<seq<string>>, init: seq<seq<string>>, k: string, prev: Option<JsValue>, cur: Option<JsValue>)
    requires es != [] && init == es[..|es| - 1]
    requires prev.Some? <==> exists i :: 0 <= i < |init| && EntryKey(init[i]) == k
    requires forall i :: 0 <= i < |init| && EntryKey(init[i]) == k && (forall j :: i < j < |init| ==> EntryKey(init[j]) != k) ==>
      prev == Some(EntryValue(init[i]))
    requires cur == if EntryKey(es[|es| - 1]) == k then Some(EntryValue(es[|es| - 1])) else prev
    ensures cur.Some? <==> exists i :: 0 <= i < |es| && EntryKey(es[i]) == k
    ensures forall i :: 0 <= i < |es| && EntryKey(es[i]) == k && (forall j :: i < j < |es| ==> EntryKey(es[j]) != k) ==>
      cur == Some(EntryValue(es[i]))
  {
    var n := |es| - 1;
    if EntryKey(es[n]) != k {
      if exists i :: 0 <= i < |es| && EntryKey(es[i]) == k {
        var i :| 0 <= i < |es| && EntryKey(es[i]) == k;
        assert init[i] == es[i];
      }
      if exists i :: 0 <= i < n && EntryKey(init[i]) == k {
        var i :| 0 <= i < n && EntryKey(init[i]) == k;
        assert init[i] == es[i];
      }
      forall i | 0 <= i < |es| && EntryKey(es[i]) == k && (forall j :: i < j < |es| ==> EntryKey(es[j]) != k)
        ensures cur == Some(EntryValue(es[i]))
      {
        assert init[i] == es[i];
        forall j | i < j < n ensures EntryKey(init[j]) != k {
          assert init[j] == es[j];
        }
      }
    } else {
      forall i | 0 <= i < |es| && EntryKey(es[i]) == k && (forall j :: i < j < |es| ==> EntryKey(es[j]) != k)
        ensures i == n
      {
      }
    }
  }

  /** An object's keys are distinct. */
  lemma {:induction false} FromEntriesDistinct(es: seq<seq<string>>)
    ensures NoDups(EntryNames(FromEntries(es)))
    decreases |es|
  {
    if es != [] {
      var n := |es| - 1;
      var prev := FromEntries(es[..n]);
      FromEntriesDistinct(es[..n]);
      AssignNames(prev, EntryKey(es[n]), EntryValue(es[n]));
      if EntryKey(es[n]) !in EntryNames(prev) {
        NoDupsConcat(EntryNames(prev), [EntryKey(es[n])]);
      }
    }
  }

  /** The object built from `key, value` pairs. */
  function StrEntries(pairs: seq<(string, string)>): seq<(string, JsValue)> {
    if pairs == [] then [] else StrEntries(pairs[..|pairs| - 1]) + [(pairs[|pairs| - 1].0, Str(pairs[|pairs| - 1].1))]
  }

  /** Entries of exactly two items with distinct first items give the pairs in order. */
  lemma {:induction false} FromDistinctPairs(es: seq<seq<string>>, pairs: seq<(string, string)>)
    requires |es| == |pairs|
    requires forall i :: 0 <= i < |es| ==> es[i] == [pairs[i].0, pairs[i].1]
    requires forall i, j :: 0 <= i < j < |es| ==> pairs[i].0 != pairs[j].0
    ensures FromEntries(es) == StrEntries(pairs)
    decreases |es|
  {
    if es != [] {
      var n := |es| - 1;
      FromDistinctPairs(es[..n], pairs[..n]);
      FromEntriesLastWins(es[..n], pairs[n].0);
      assert Lookup(FromEntries(es[..n]), pairs[n].0).None? by {
        forall i | 0 <= i < n ensures EntryKey(es[..n][i]) != pairs[n].0 {
          assert es[..n][i] == [pairs[i].0, pairs[i].1];
        }
      }
      AssignNew(FromEntries(es[..n]), pairs[n].0, Str(pairs[n].1));
    }
  }

  /** `row.matches?.split(dictDelimiter).map((entry) => entry.split(listDelimiter))`. */
  function Pieces(s: string, listDelimiter: string, dictDelimiter: string): (r: seq<seq<string>>)
    ensures |r| == |JsSplit(s, dictDelimiter)|
  {
    var parts := JsSplit(s, dictDelimiter);
    seq(|parts|, i requires 0 <= i < |parts| => JsSplit(parts[i], listDelimiter))
  }

  /** `Object.fromEntries(... || [])`: a missing value gives the empty object, a string the object
      of its pieces, and anything else throws. */
  function DecodeMatches(v: JsValue, listDelimiter: string, dictDelimiter: string): (r: Result<JsValue, JsError>)
    ensures r.Failure? <==> v.Arr? || v.Obj?
    ensures r.Failure? ==> r.error == TypeError
    ensures v.Undefined? ==> r == Success(Obj([]))
    ensures r.Success? ==> r.value.Obj? && NoDups(EntryNames(r.value.entries))
  {
    match v
    case Undefined => Success(Obj([]))
    case Str(s) =>
      FromEntriesDistinct(Pieces(s, listDelimiter, dictDelimiter));
      Success(Obj(FromEntries(Pieces(s, listDelimiter, dictDelimiter))))
    case _ => Failure(TypeError)
  }

  /** The body of the `.map` over the rows: `categories` then `matches` rewritten, every other
      column as it was. */
  function DecodeRow(row: JsRow, m: Metadata): (r: Result<JsRow, JsError>)
    ensures r.Failure? ==> r.error == TypeError
    ensures r.Success? ==> r.value.Keys == row.Keys + {"categories", "matches"}
    ensures r.Success? ==> forall k :: k in row && k != "categories" && k != "matches" ==> r.value[k] == row[k]
    ensures r.Success? ==> r.value["matches"].Obj?
  {
    var categories :- DecodeCategories(Get(row, "categories"), m.listDelimiter);
    var matches :- DecodeMatches(Get(row, "matches"), m.listDelimiter, m.dictDelimiter);
    Success(row["categories" := categories]["matches" := matches])
  }

  /** Rows zipped from the parsed file hold only strings and `undefined`, so decoding them
      never throws. */
  lemma ZippedRowsDecode(data: seq<seq<string>>, m: Metadata)
    ensures MapResult((row: JsRow) => DecodeRow(row, m), ZipRows(data)).Success?
  {
    var rows := ZipRows(data);
    forall i | 0 <= i < |rows| ensures DecodeRow(rows[i], m).Success? {
      ZipRowValues(data[0], data[i + 1], "categories");
      ZipRowValues(data[0], data[i + 1], "matches");
    }
    MapResultSucceeds((row: JsRow) => DecodeRow(row, m), rows);
  }

  /** `cdeJson.map(...)`: each row decoded in turn. */
  method DecodeRows(rows: seq<JsRow>, m: Metadata) returns (r: Result<seq<JsRow>, JsError>)
    ensures r == MapResult((row: JsRow) => DecodeRow(row, m), rows)
  {
    var out: seq<JsRow> := [];
    for i := 0 to |rows|
      invariant MapResult((row: JsRow) => DecodeRow(row, m), rows[..i]) == Success(out)
    {
      assert rows[..i + 1][..i] == rows[..i];
      var decoded := DecodeRow(rows[i], m);
      if decoded.Failure? {
        MapResultPrefixFailure((row: JsRow) => DecodeRow(row, m), rows, i + 1);
        return Failure(decoded.error);
      }
      out := out + [decoded.value];
    }
    assert rows[..|rows|] == rows;
    return Success(out);
  }

  /** A list written by joining with a one-character delimiter none of its items holds is read
      back as the same list; the empty list is excluded because "" splits to `[""]`. */
  lemma CategoriesRoundTrip(items: seq<string>, c: char)
    requires items != [] && forall k :: 0 <= k < |items| ==> c !in items[k]
    ensures DecodeCategories(Str(Join([c], items)), [c]) == Success(Arr(items))
  {
    SplitJoin(items, c);
  }

  /** A non-empty dict written as `save_csv` writes it (`key{inner}value` pairs joined by the
      outer delimiter) is read back by the browser, with the inner delimiter as list delimiter
      and the outer one as dict delimiter, as the same pairs in the same order, each value a
      string; keys must be distinct and no key or value may hold a delimiter. */
  lemma MatchesRoundTrip(inner: char, outer: char, entries: seq<(string, string)>)
    requires inner != outer && entries != [] && NoDups(Py.Keys(entries))
    requires forall k :: 0 <= k < |entries| ==>
      inner !in entries[k].0 && inner !in entries[k].1 && outer !in entries[k].0 && outer !in entries[k].1
    ensures DecodeMatches(Str(Join([outer], CsvCodec.EncodeEntries([inner], entries))), [inner], [outer]) ==
      Success(Obj(StrEntries(entries)))
  {
    var s := Join([outer], CsvCodec.EncodeEntries([inner], entries));
    var pieces := Pieces(s, [inner], [outer]);
    assert DecodeMatches(Str(s), [inner], [outer]) == Success(Obj(FromEntries(pieces)));
    PiecesArePairs(inner, outer, entries);
    KeysDistinct(entries);
    FromDistinctPairs(pieces, entries);
  }

  lemma KeysDistinct(entries: seq<(string, string)>)
    requires NoDups(Py.Keys(entries))
    ensures forall i, j :: 0 <= i < j < |entries| ==> entries[i].0 != entries[j].0
  {
    forall i, j | 0 <= i < j < |entries| ensures entries[i].0 != entries[j].0 {
      assert Py.Keys(entries)[i] == entries[i].0 && Py.Keys(entries)[j] == entries[j].0;
    }
  }

  /** The outer split of an encoded dict gives back its segments, and the inner split of each
      segment its key and value. */
  lemma PiecesArePairs(inner: char, outer: char, entries: seq<(string, string)>)
    requires inner != outer && entries != []
    requires forall k :: 0 <= k < |entries| ==>
      inner !in entries[k].0 && inner !in entries[k].1 && outer !in entries[k].0 && outer !in entries[k].1
    ensures var pieces := Pieces(Join([outer], CsvCodec.EncodeEntries([inner], entries)), [inner], [outer]);
      |pieces| == |entries| && forall k :: 0 <= k < |entries| ==> pieces[k] == [entries[k].0, entries[k].1]
  {
    var encoded := CsvCodec.EncodeEntries([inner], entries);
    forall k | 0 <= k < |encoded| ensures outer !in encoded[k] {
      assert encoded[k] == entries[k].0 + [inner] + entries[k].1;
    }
    SplitJoin(encoded, outer);
    var s := Join([outer], encoded);
    assert JsSplit(s, [outer]) == encoded;
    var pieces := Pieces(s, [inner], [outer]);
    forall k | 0 <= k < |entries| ensures pieces[k] == [entries[k].0, entries[k].1] {
      assert pieces[k] == JsSplit(encoded[k], [inner]);
      CdeLoader.SegmentSplits(inner, entries[k].0, entries[k].1);
    }
  }

  /** An empty `matches` cell decodes to the object `{"": undefined}`, not to `{}`: `"".split`
      gives `[""]` at both levels. */
  lemma EmptyMatchesCell(listDelimiter: string, dictDelimiter: string)
    requires listDelimiter != "" && dictDelimiter != ""
    ensures DecodeMatches(Str(""), listDelimiter, dictDelimiter) == Success(Obj([("", Undefined)]))
  {
    var parts := JsSplit("", dictDelimiter);
    assert Join(dictDelimiter, parts) == "" && |parts| >= 1;
    assert parts == [""] by { JoinEmptyPieces(dictDelimiter, parts); }
    var piece := JsSplit("", listDelimiter);
    assert piece == [""] by { JoinEmptyPieces(listDelimiter, piece); }
    assert Pieces("", listDelimiter, dictDelimiter) == [[""]];
    assert FromEntries([[""]]) == Assign([], "", Undefined) by {
      assert [[""]][..0] == [];
    }
  }

  /** Joining non-empty-separated pieces to "" leaves a single empty piece. */
  lemma JoinEmptyPieces(sep: string, parts: seq<string>)
    requires sep != "" && |parts| >= 1 && Join(sep, parts) == ""
    ensures parts == [""]
  {
  }

  /** An empty `matches` cell passes the converter's check for missing matches: the decoded row
      is accepted with the single match `""`, and that match resolves to the first node, whose
      id ends with "" like every string. */
  lemma EmptyMatchesResolveToFirstNode(row: JsRow, m: Metadata, nodes: seq<JsRow>)
    requires m.listDelimiter != "" && m.dictDelimiter != ""
    requires Get(row, "matches") == Str("") && Get(row, "categories").Str?
    requires nodes != [] && Get(nodes[0], m.idField).Str?
    ensures DecodeRow(row, m).Success?
    ensures Validate(DecodeRow(row, m).value) == Success([("", Undefined)])
    ensures var p: Pending := (Get(DecodeRow(row, m).value, m.idField), "", Undefined);
      ResolveOne(nodes, m.idField, p).Success? ==> ResolveOne(nodes, m.idField, p).value.target == Get(nodes[0], m.idField).s
  {
    EmptyMatchesCell(m.listDelimiter, m.dictDelimiter);
    EmptySuffixFindsFirstNode(nodes, m.idField);
  }

  /** An empty `categories` cell decodes to `[""]`, which is truthy, so the converter's check for
      missing categories does not reject the row. */
  lemma EmptyCategoriesPass(listDelimiter: string)
    requires listDelimiter != ""
    ensures DecodeCategories(Str(""), listDelimiter) == Success(Arr([""]))
    ensures Truthy(DecodeCategories(Str(""), listDelimiter).value)
  {
    var parts := JsSplit("", listDelimiter);
    JoinEmptyPieces(listDelimiter, parts);
  }

  /** A community-detection result offered to the user. */
  datatype Community = Community(name: string, description: string, reference: string, clusters: seq<Cluster>)

  datatype Communities = Communities(distinctSubgraphs: Community, fastWeightedNewman: Community)

  /** The loaded analysis. */
  datatype Analysis = Analysis(
    fileName: string,
    raw: seq<JsRow>,
    network: Network,
    communities: Communities,
    activeCommunityAlgorithm: string,
    metadata: Metadata)

  /** `Object.entries(analysis.communities)`, in declaration order. */
  function CommunityEntries(c: Communities): seq<(string, Community)> {
    [("distinctSubgraphs", c.distinctSubgraphs), ("fastWeightedNewman", c.fastWeightedNewman)]
  }

  /** `.find(([id, alg]) => id === key)`, as the community it finds. */
  function FindCommunity(entries: seq<(string, Community)>, key: string): (r: Option<Community>)
    ensures r.None? <==> forall i :: 0 <= i < |entries| ==> entries[i].0 != key
    ensures r.Some? ==> exists i :: 0 <= i < |entries| && entries[i] == (key, r.value)
  {
    if entries == [] then None
    else if entries[0].0 == key then Some(entries[0].1)
    else
      var r := FindCommunity(entries[1..], key);
      assert forall i :: 1 <= i < |entries| ==> entries[1..][i - 1] == entries[i];
      r
  }

  /** `activeCommunityAlgorithm`: no community without an analysis; otherwise the community
      whose key is the active algorithm, the `!` throwing when there is none. */
  function ActiveCommunity(analysis: Option<Analysis>): Result<Option<Community>, JsError> {
    if analysis.None? then Success(None)
    else
      var found := FindCommunity(CommunityEntries(analysis.value.communities), analysis.value.activeCommunityAlgorithm);
      if found.None? then Failure(TypeError) else Success(found)
  }

  /** The lookup succeeds exactly on the two algorithm keys and returns the community stored
      under the active key. */
  lemma ActiveCommunityMeaning(a: Analysis)
    ensures ActiveCommunity(Some(a)).Success? <==>
      a.activeCommunityAlgorithm == "distinctSubgraphs" || a.activeCommunityAlgorithm == "fastWeightedNewman"
    ensures ActiveCommunity(Some(a)).Failure? ==> ActiveCommunity(Some(a)).error == TypeError
    ensures a.activeCommunityAlgorithm == "distinctSubgraphs" ==> ActiveCommunity(Some(a)) == Success(Some(a.communities.distinctSubgraphs))
    ensures a.activeCommunityAlgorithm == "fastWeightedNewman" ==> ActiveCommunity(Some(a)) == Success(Some(a.communities.fastWeightedNewman))
  {
    var entries := CommunityEntries(a.communities);
    assert entries[0].0 == "distinctSubgraphs" && entries[1].0 == "fastWeightedNewman";
  }

  /** The state cell `analysis` of the provider. */
  class AppState {
    var analysis: Option<Analysis>

    /** `useState<Analysis|null>(null)` */
    constructor()
      ensures analysis == None
    {
      analysis := None;
    }

    /** `setActiveCommunityAlgorithm(id)`: only the active key changes, and nothing happens
        without an analysis. */
    method SetActiveCommunityAlgorithm(id: string)
      modifies this
      ensures old(analysis).None? ==> analysis == None
      ensures old(analysis).Some? ==> analysis == Some(old(analysis).value.(activeCommunityAlgorithm := id))
    {
      if analysis.Some? {
        analysis := Some(analysis.value.(activeCommunityAlgorithm := id));
      }
    }

    /** `clearAnalysis()` */
    method ClearAnalysis()
      modifies this
      ensures analysis == None
    {
      analysis := None;
    }

    /** `loadAnalysisFile(fileName, csvText)`, with Papa's rows `data`, the answer of the metadata
        form (`None` when it is cancelled) and the Newman clustering supplied. A cancelled form
        or an exception inside the `try` resets the analysis; an exception while decoding the
        rows, outside the `try`, leaves the state as it was. On success the analysis holds the
        decoded rows, their network, the connected components of the network as distinct
        subgraphs, and "distinctSubgraphs" as the active algorithm. */
    method LoadAnalysisFile(fileName: string, data: seq<seq<string>>, form: Option<Metadata>,
                            newman: Network -> Result<seq<Cluster>, JsError>)
      modifies this
      ensures form.None? ==> analysis == None
      ensures form.Some? && MapResult((row: JsRow) => DecodeRow(row, form.value), ZipRows(data)).Failure? ==>
        analysis == old(analysis)
      ensures form.Some? && MapResult((row: JsRow) => DecodeRow(row, form.value), ZipRows(data)).Success? ==>
        var rows := MapResult((row: JsRow) => DecodeRow(row, form.value), ZipRows(data)).value;
        var net := Convert(rows, form.value.idField);
        && (analysis.Some? <==>
              && net.Success?
              && |Ids(net.value.edges)| <= |net.value.nodes|
              && (net.value.edges == [] || forall u :: 0 <= u < |net.value.nodes| ==>
                    FindNode(net.value.nodes, form.value.idField, NodeId(Ids(net.value.edges), u)).Some?)
              && newman(net.value).Success?)
        && (analysis.Some? ==>
              && analysis.value.fileName == fileName
              && analysis.value.raw == rows
              && analysis.value.network == net.value
              && analysis.value.metadata == form.value
              && analysis.value.activeCommunityAlgorithm == "distinctSubgraphs"
              && analysis.value.communities.fastWeightedNewman.clusters == newman(net.value).value
              && exists comps :: EdgeComponents(net.value.edges, |net.value.nodes|, comps) &&
                   Success(analysis.value.communities.distinctSubgraphs.clusters) ==
                   Clusters(comps, Ids(net.value.edges), net.value.nodes, net.value.edges, form.value.idField))
    {
      if form.None? {
        analysis := None;
        return;
      }
      var metadata := form.value;
      var cdeJson := ZipRows(data);
      var analysisDict := DecodeRows(cdeJson, metadata);
      if analysisDict.Failure? {
        return;
      }
      var network := ConvertAnalysisDictToNetwork(analysisDict.value, metadata.idField);
      if network.Failure? {
        analysis := None;
        return;
      }
      var distinct;
      ghost var comps;
      distinct, comps := ConnectedComponents(network.value, metadata.idField);
      if distinct.Failure? {
        analysis := None;
        return;
      }
      var weighted := newman(network.value);
      if weighted.Failure? {
        analysis := None;
        return;
      }
      analysis := Some(Analysis(
        fileName,
        analysisDict.value,
        network.value,
        Communities(
          Community("Distinct subgraphs", "The subgraphs (connected components) of the network",
            "https://en.wikipedia.org/wiki/Component_(graph_theory)", distinct.value),
          Community("Fast Newman with Weights",
            "Fast Newman community detection accelerated by Clauset et al. with weightings",
            "http://scaledinnovation.com/analytics/communities/communities.html", weighted.value)),
        "distinctSubgraphs",
        metadata));
    }
  }

  /** After an analysis is loaded, its active community is the distinct subgraphs; switching to
      the Newman key then looks up the Newman clusters, and nothing but the key changes. */
  lemma SwitchCommunity(a: Analysis)
    requires a.activeCommunityAlgorithm == "distinctSubgraphs"
    ensures ActiveCommunity(Some(a)) == Success(Some(a.communities.distinctSubgraphs))
    ensures var b := a.(activeCommunityAlgorithm := "fastWeightedNewman");
      ActiveCommunity(Some(b)) == Success(Some(a.communities.fastWeightedNewman)) &&
      b.network == a.network && b.raw == a.raw && b.communities == a.communities && b.metadata == a.metadata
  {
    ActiveCommunityMeaning(a);
    ActiveCommunityMeaning(a.(activeCommunityAlgorithm := "fastWeightedNewman"));
  }
}
