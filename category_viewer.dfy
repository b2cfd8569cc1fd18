/** The category viewer's `App`: the degree helpers, the options of the category selector, the
    CSV upload, and `filteredGraph`, the copy of the network restricted to the selected
    categories. */
module CategoryViewer {
  import opened Wrappers
  import opened Seqs
  import opened Strings
  import opened Js
  import opened KgxLoader

  /** `outDegree(node)`: the number of edges leaving the node's id. */
  function OutDegree(g: Graph, id: string): (r: nat)
    ensures r <= |g.edges|
  {
    |Filter(g.edges, (e: KgxEdge) => e.from == id)|
  }

  /** `inDegree(node)`: the number of edges entering the node's id. */
  function InDegree(g: Graph, id: string): (r: nat)
    ensures r <= |g.edges|
  {
    |Filter(g.edges, (e: KgxEdge) => e.to == id)|
  }

  /** The out-degree is zero exactly when no edge leaves the id. */
  lemma OutDegreeZero(g: Graph, id: string)
    ensures OutDegree(g, id) == 0 <==> forall k :: 0 <= k < |g.edges| ==> g.edges[k].from != id
  {
    var out := Filter(g.edges, (e: KgxEdge) => e.from == id);
    if out != [] {
      var k :| 0 <= k < |g.edges| && g.edges[k] == out[0];
    }
    if exists k :: 0 <= k < |g.edges| && g.edges[k].from == id {
      var k :| 0 <= k < |g.edges| && g.edges[k].from == id;
      assert g.edges[k] in out;
    }
  }

  /** The in-degree is zero exactly when no edge enters the id. */
  lemma InDegreeZero(g: Graph, id: string)
    ensures InDegree(g, id) == 0 <==> forall k :: 0 <= k < |g.edges| ==> g.edges[k].to != id
  {
    var into := Filter(g.edges, (e: KgxEdge) => e.to == id);
    if into != [] {
      var k :| 0 <= k < |g.edges| && g.edges[k] == into[0];
    }
    if exists k :: 0 <= k < |g.edges| && g.edges[k].to == id {
      var k :| 0 <= k < |g.edges| && g.edges[k].to == id;
      assert g.edges[k] in into;
    }
  }

  /** `degree(node)`: no edge touches the id exactly when the degree is zero. */
  function Degree(g: Graph, id: string): (r: nat)
    ensures r == 0 <==> !Touched(g.edges, id)
  {
    OutDegreeZero(g, id);
    InDegreeZero(g, id);
    InDegree(g, id) + OutDegree(g, id)
  }

  /** One more edge adds one to the out-degree of its source and to no other. */
  lemma OutDegreeSnoc(nodes: seq<KgxNode>, edges: seq<KgxEdge>, e: KgxEdge, id: string)
    ensures OutDegree(Graph(nodes, edges + [e]), id) == OutDegree(Graph(nodes, edges), id) + (if e.from == id then 1 else 0)
  {
    FilterConcat(edges, [e], (e: KgxEdge) => e.from == id);
    assert Filter([e], (e: KgxEdge) => e.from == id) == (if e.from == id then [e] else []) + Filter([], (e: KgxEdge) => e.from == id);
  }

  /** One more edge adds one to the in-degree of its target and to no other. */
  lemma InDegreeSnoc(nodes: seq<KgxNode>, edges: seq<KgxEdge>, e: KgxEdge, id: string)
    ensures InDegree(Graph(nodes, edges + [e]), id) == InDegree(Graph(nodes, edges), id) + (if e.to == id then 1 else 0)
  {
    FilterConcat(edges, [e], (e: KgxEdge) => e.to == id);
    assert Filter([e], (e: KgxEdge) => e.to == id) == (if e.to == id then [e] else []) + Filter([], (e: KgxEdge) => e.to == id);
  }

  /** In a network built by `cdeToNetwork` no node has degree zero. */
  lemma KgxDegreesPositive(cde: seq<JsRow>, i: nat)
    requires Kgx(cde).Success? && i < |Kgx(cde).value.nodes|
    ensures Degree(Kgx(cde).value, Kgx(cde).value.nodes[i].id) >= 1
  {
    KgxWellFormed(cde);
  }

  /** An entry of the category selector. */
  datatype SelectOption = SelectOption(key: string, value: string, caption: string)

  /** `${ node.id } (${ outDegree(node) })` */
  function Label(g: Graph, id: string): string {
    id + " (" + NatToString(OutDegree(g, id)) + ")"
  }

  /** The category nodes of the graph, `graph.nodes.filter((n) => n.type === 'category')`. */
  function CategoryNodes(g: Graph): seq<KgxNode> {
    Filter(g.nodes, (n: KgxNode) => n.kind == Category)
  }

  /** `options`: the category nodes sorted by `(a, b) => outDegree(b) - outDegree(a)`, a stable
      sort by out-degree, largest first, each node as a key, value and label. */
  function CategoryOptions(g: Graph): seq<SelectOption> {
    var sorted := SortedCategories(g);
    seq(|sorted|, i requires 0 <= i < |sorted| => SelectOption(sorted[i].id, sorted[i].id, Label(g, sorted[i].id)))
  }

  /** The sorted category nodes behind the options. */
  function SortedCategories(g: Graph): (r: seq<KgxNode>)
    ensures |r| == |CategoryNodes(g)|
    ensures NonIncreasing(r, (n: KgxNode) => OutDegree(g, n.id))
    ensures forall n :: n in r <==> n in g.nodes && n.kind == Category
    ensures multiset(r) == multiset(CategoryNodes(g))
  {
    var cats := CategoryNodes(g);
    var sorted := SortByKey(cats, (n: KgxNode) => OutDegree(g, n.id));
    assert |sorted| == |multiset(sorted)| == |multiset(cats)| == |cats|;
    assert forall n :: n in sorted <==> n in multiset(cats);
    sorted
  }

  /** Option `i` shows the `i`-th sorted category node. */
  lemma OptionAt(g: Graph, i: nat)
    requires i < |CategoryOptions(g)|
    ensures |CategoryOptions(g)| == |SortedCategories(g)|
    ensures var n := SortedCategories(g)[i]; CategoryOptions(g)[i] == SelectOption(n.id, n.id, Label(g, n.id))
  {
  }

  /** One option per category node, each naming a category node by its id and labelled with
      that id and its out-degree, and every category node offered. */
  lemma CategoryOptionsShape(g: Graph)
    ensures |CategoryOptions(g)| == |CategoryNodes(g)|
    ensures forall i :: 0 <= i < |CategoryOptions(g)| ==>
      var o := CategoryOptions(g)[i];
      o.value == o.key && o.caption == Label(g, o.key) &&
      exists j :: 0 <= j < |g.nodes| && g.nodes[j].kind == Category && g.nodes[j].id == o.key
    ensures forall j :: 0 <= j < |g.nodes| && g.nodes[j].kind == Category ==>
      exists i :: 0 <= i < |CategoryOptions(g)| && CategoryOptions(g)[i].key == g.nodes[j].id
  {
    var sorted := SortedCategories(g);
    var r := CategoryOptions(g);
    assert |r| == |sorted|;
    forall i | 0 <= i < |r|
      ensures r[i].value == r[i].key && r[i].caption == Label(g, r[i].key)
      ensures exists j :: 0 <= j < |g.nodes| && g.nodes[j].kind == Category && g.nodes[j].id == r[i].key
    {
      OptionAt(g, i);
      assert sorted[i] in sorted;
      var j :| 0 <= j < |g.nodes| && g.nodes[j] == sorted[i];
    }
    forall j | 0 <= j < |g.nodes| && g.nodes[j].kind == Category
      ensures exists i :: 0 <= i < |r| && r[i].key == g.nodes[j].id
    {
      assert g.nodes[j] in sorted;
      var i :| 0 <= i < |sorted| && sorted[i] == g.nodes[j];
      OptionAt(g, i);
    }
  }

  /** The options come most outgoing edges first. */
  lemma CategoryOptionsOrdered(g: Graph)
    ensures forall i, j :: 0 <= i < j < |CategoryOptions(g)| ==>
      OutDegree(g, CategoryOptions(g)[i].key) >= OutDegree(g, CategoryOptions(g)[j].key)
  {
    var sorted := SortedCategories(g);
    forall i, j | 0 <= i < j < |CategoryOptions(g)|
      ensures OutDegree(g, CategoryOptions(g)[i].key) >= OutDegree(g, CategoryOptions(g)[j].key)
    {
      OptionAt(g, i);
      OptionAt(g, j);
    }
  }

  /** The number inside an option's label reads back as the out-degree of its key. */
  lemma OptionLabelDegree(g: Graph, i: nat)
    requires i < |CategoryOptions(g)|
    ensures var o := CategoryOptions(g)[i];
      |o.key| + 3 <= |o.caption| &&
      o.caption[..|o.key| + 2] == o.key + " (" && o.caption[|o.caption| - 1] == ')' &&
      (forall k :: |o.key| + 2 <= k < |o.caption| - 1 ==> '0' <= o.caption[k] <= '9') &&
      ParseNat(o.caption[|o.key| + 2..|o.caption| - 1]) == OutDegree(g, o.key)
  {
    OptionAt(g, i);
    var o := CategoryOptions(g)[i];
    var digits := NatToString(OutDegree(g, o.key));
    assert o.caption == o.key + " (" + digits + ")";
    assert o.caption[|o.key| + 2..|o.caption| - 1] == digits;
    ParseNatToString(OutDegree(g, o.key));
  }

  /** `uploadFile(file)`: a name ending in ".csv" has its parsed rows zipped with the header
      row; any other name loads nothing. The CSV parse itself is left to the caller: `data` is
      Papa's array of rows. */
  function UploadFile(name: string, data: seq<seq<string>>): (r: Option<seq<JsRow>>)
    ensures r.Some? <==> EndsWith(name, ".csv")
  {
    if EndsWith(name, ".csv") then Some(ZipRows(data)) else None
  }

  /** An accepted upload has one row object per data row; its keys are the header names, each
      holding the cell of the last column of that name, or `undefined` past a short row's end. */
  lemma UploadedRows(name: string, data: seq<seq<string>>, i: nat, c: nat)
    requires UploadFile(name, data).Some? && i < |UploadFile(name, data).value|
    requires c < |data[0]| && forall j :: c < j < |data[0]| ==> data[0][j] != data[0][c]
    ensures |UploadFile(name, data).value| == |data| - 1
    ensures forall k :: k in UploadFile(name, data).value[i] <==> k in data[0]
    ensures UploadFile(name, data).value[i][data[0][c]] == Cell(data[i + 1], c)
  {
    ZipRowKeys(data[0], data[i + 1]);
    ZipRowLastWins(data[0], data[i + 1], c);
  }

  /** Building the network from uploaded rows never throws. */
  lemma UploadedNetworkExists(name: string, data: seq<seq<string>>)
    requires UploadFile(name, data).Some?
    ensures Kgx(UploadFile(name, data).value).Success?
  {
    ZippedRowsDoNotThrow(data);
  }

  const Red: string := "#ff0000"

  /** `n.size *= 2`: an absent size becomes NaN. */
  function Doubled(s: Size): Size {
    match s
    case Unset => NotANumber
    case Px(n) => Px(2 * n)
    case NotANumber => NotANumber
  }

  /** A selected node after `n.color = '#ff0000'; n.size *= 2`. */
  function Highlighted(n: KgxNode): KgxNode {
    n.(color := Some(Red), size := Doubled(n.size))
  }

  /** `net.nodes.find((n) => n.id === category)`, as an index. */
  function FindIndex(nodes: seq<KgxNode>, id: string, from: nat := 0): (r: Option<nat>)
    requires from <= |nodes|
    requires forall k :: 0 <= k < from ==> nodes[k].id != id
    ensures r.None? <==> !HasNode(nodes, id)
    ensures r.Some? ==> r.value < |nodes| && nodes[r.value].id == id && forall k :: 0 <= k < r.value ==> nodes[k].id != id
    decreases |nodes| - from
  {
    if from == |nodes| then None
    else if nodes[from].id == id then Some(from)
    else FindIndex(nodes, id, from + 1)
  }

  /** The `forEach` over the selected categories on the copied nodes. A selected id with no node
      makes `n.color = ...` throw a TypeError. */
  function Highlight(nodes: seq<KgxNode>, sel: seq<string>): Result<seq<KgxNode>, JsError>
    decreases |sel|
  {
    if sel == [] then Success(nodes)
    else
      var h :- Highlight(nodes, sel[..|sel| - 1]);
      match FindIndex(h, sel[|sel| - 1])
      case None => Failure(TypeError)
      case Some(i) => Success(h[i := Highlighted(h[i])])
  }

  /** A node highlighted `k` times. */
  function Mark(n: KgxNode, k: nat): KgxNode
    decreases k
  {
    if k == 0 then n else Highlighted(Mark(n, k - 1))
  }

  lemma MarkKeeps(n: KgxNode, k: nat)
    ensures Mark(n, k).id == n.id && Mark(n, k).kind == n.kind
  {
  }

  function Pow2(k: nat): nat {
    if k == 0 then 1 else 2 * Pow2(k - 1)
  }

  /** The size after `k` doublings: `undefined` becomes NaN, a number is multiplied by 2^k. */
  function ScaledSize(s: Size, k: nat): Size {
    if k == 0 then s
    else
      match s
      case Unset => NotANumber
      case Px(m) => Px(m * Pow2(k))
      case NotANumber => NotANumber
  }

  /** A node highlighted at least once is red and its size is doubled once per highlight;
      nothing else about it changes. */
  lemma {:induction false} MarkEffect(n: KgxNode, k: nat)
    requires k >= 1
    ensures Mark(n, k) == n.(color := Some(Red), size := ScaledSize(n.size, k))
    decreases k
  {
    if k > 1 {
      MarkEffect(n, k - 1);
      if n.size.Px? {
        var m := n.size.n;
        assert m * Pow2(k) == 2 * (m * Pow2(k - 1)) by {
          assert Pow2(k) == 2 * Pow2(k - 1);
        }
      }
    }
  }

  /** No earlier node has the id of node `i`: the one `find` returns. */
  predicate FirstWithId(nodes: seq<KgxNode>, i: nat)
    requires i < |nodes|
  {
    forall k :: 0 <= k < i ==> nodes[k].id != nodes[i].id
  }

  /** A failed highlight of a prefix fails the whole loop. */
  lemma {:induction false} HighlightPrefixFailure(nodes: seq<KgxNode>, sel: seq<string>, i: nat)
    requires i <= |sel| && Highlight(nodes, sel[..i]).Failure?
    ensures Highlight(nodes, sel) == Highlight(nodes, sel[..i])
    decreases |sel| - i
  {
    if i < |sel| {
      var n := |sel| - 1;
      assert sel[..n][..i] == sel[..i];
      HighlightPrefixFailure(nodes, sel[..n], i);
    } else {
      assert sel[..i] == sel;
    }
  }

  /** The nodes after a highlight loop: each first node of its id is highlighted once per time
      its id is selected, every other node is as it was. */
  ghost predicate HighlightedBy(nodes: seq<KgxNode>, sel: seq<string>, h: seq<KgxNode>) {
    |h| == |nodes| &&
    forall i :: 0 <= i < |nodes| ==> h[i] == if FirstWithId(nodes, i) then Mark(nodes[i], multiset(sel)[nodes[i].id]) else nodes[i]
  }

  /** One more selected id highlights the first node carrying it. */
  lemma HighlightStep(nodes: seq<KgxNode>, sel: seq<string>, h: seq<KgxNode>, x: string, i: nat)
    requires HighlightedBy(nodes, sel, h)
    requires i < |h| && h[i].id == x && forall k :: 0 <= k < i ==> h[k].id != x
    ensures HighlightedBy(nodes, sel + [x], h[i := Highlighted(h[i])])
  {
    var h' := h[i := Highlighted(h[i])];
    assert multiset(sel + [x]) == multiset(sel) + multiset{x};
    forall m | 0 <= m < |nodes| ensures h[m].id == nodes[m].id {
      if FirstWithId(nodes, m) {
        MarkKeeps(nodes[m], multiset(sel)[nodes[m].id]);
      }
    }
    assert FirstWithId(nodes, i);
    forall m | 0 <= m < |nodes|
      ensures h'[m] == if FirstWithId(nodes, m) then Mark(nodes[m], multiset(sel + [x])[nodes[m].id]) else nodes[m]
    {
    }
  }

  /** Highlighting succeeds exactly when every selected id names a node, fails with a TypeError
      otherwise, and changes only the first node of each selected id. */
  lemma {:induction false} HighlightShape(nodes: seq<KgxNode>, sel: seq<string>)
    ensures Highlight(nodes, sel).Success? <==> forall j :: 0 <= j < |sel| ==> HasNode(nodes, sel[j])
    ensures Highlight(nodes, sel).Failure? ==> Highlight(nodes, sel).error == TypeError
    ensures Highlight(nodes, sel).Success? ==> HighlightedBy(nodes, sel, Highlight(nodes, sel).value)
    decreases |sel|
  {
    if sel == [] {
      forall i | 0 <= i < |nodes| && FirstWithId(nodes, i) ensures Mark(nodes[i], 0) == nodes[i] {
      }
    } else {
      var n := |sel| - 1;
      var pre := sel[..n];
      HighlightShape(nodes, pre);
      assert sel == pre + [sel[n]];
      if Highlight(nodes, pre).Success? {
        var h := Highlight(nodes, pre).value;
        forall m | 0 <= m < |nodes| ensures h[m].id == nodes[m].id {
          if FirstWithId(nodes, m) {
            MarkKeeps(nodes[m], multiset(pre)[nodes[m].id]);
          }
        }
        assert HasNode(h, sel[n]) <==> HasNode(nodes, sel[n]);
        match FindIndex(h, sel[n])
        case None =>
        case Some(i) =>
          HighlightStep(nodes, pre, h, sel[n], i);
      }
    }
  }

  /** `net.edges.find((e) => e.from === from && e.to === to)` finds something. */
  predicate HasEdge(edges: seq<KgxEdge>, from: string, to: string) {
    exists k :: 0 <= k < |edges| && edges[k].from == from && edges[k].to == to
  }

  /** A node the two node filters keep: a category node only when selected, a field node only
      when every selected category has an edge to it. */
  predicate Kept(edges: seq<KgxEdge>, sel: seq<string>, n: KgxNode) {
    if n.kind == Category then n.id in sel else forall c :: c in sel ==> HasEdge(edges, c, n.id)
  }

  /** Some node with this id survives the two node filters. */
  ghost predicate Survives(h: seq<KgxNode>, edges: seq<KgxEdge>, sel: seq<string>, id: string) {
    exists i :: 0 <= i < |h| && h[i].id == id && Kept(edges, sel, h[i])
  }

  /** What `filteredGraph` returns, given the highlighted nodes `h` and the original edges: the
      edges kept are exactly the original edges whose two ends survive the node filters, and the
      nodes kept are exactly the surviving nodes that a kept edge touches. */
  ghost predicate FilteredFrom(h: seq<KgxNode>, edges: seq<KgxEdge>, sel: seq<string>, out: Graph) {
    && (forall k :: 0 <= k < |out.edges| ==>
          out.edges[k] in edges && Survives(h, edges, sel, out.edges[k].from) && Survives(h, edges, sel, out.edges[k].to))
    && (forall k :: 0 <= k < |edges| && Survives(h, edges, sel, edges[k].from) && Survives(h, edges, sel, edges[k].to) ==>
          edges[k] in out.edges)
    && (forall i :: 0 <= i < |out.nodes| ==>
          out.nodes[i] in h && Kept(edges, sel, out.nodes[i]) && Touched(out.edges, out.nodes[i].id))
    && (forall i :: 0 <= i < |h| && Kept(edges, sel, h[i]) && Touched(out.edges, h[i].id) ==> h[i] in out.nodes)
  }

  /** The surviving node ids are the ids of the nodes both filters keep. */
  lemma StageIds(h: seq<KgxNode>, stage: seq<KgxNode>, edges: seq<KgxEdge>, sel: seq<string>)
    requires forall i :: 0 <= i < |stage| ==> stage[i] in h && Kept(edges, sel, stage[i])
    requires forall i :: 0 <= i < |h| && Kept(edges, sel, h[i]) ==> h[i] in stage
    ensures forall id :: HasNode(stage, id) <==> Survives(h, edges, sel, id)
  {
    forall id ensures HasNode(stage, id) <==> Survives(h, edges, sel, id) {
      if HasNode(stage, id) {
        var i :| 0 <= i < |stage| && stage[i].id == id;
        var j :| 0 <= j < |h| && h[j] == stage[i];
      }
      if Survives(h, edges, sel, id) {
        var i :| 0 <= i < |h| && h[i].id == id && Kept(edges, sel, h[i]);
        var j :| 0 <= j < |stage| && stage[j] == h[i];
      }
    }
  }

  /** `filteredGraph`: on copies of the nodes and edges, highlight the selected categories, keep
      the selected category nodes and the field nodes linked to every selected category, keep the
      edges between kept nodes, then drop the nodes left without an edge. The network `g` itself
      is a value and is not changed. */
  method FilterGraph(g: Graph, selected: seq<string>) returns (r: Result<Graph, JsError>)
    ensures r.Failure? <==> exists j :: 0 <= j < |selected| && !HasNode(g.nodes, selected[j])
    ensures r.Failure? ==> r.error == TypeError
    ensures r.Success? ==> (Highlight(g.nodes, selected).Success? &&
      FilteredFrom(Highlight(g.nodes, selected).value, g.edges, selected, r.value))
  {
    var nodes := g.nodes;
    var edges := g.edges;
    assert selected[..0] == [];
    for j := 0 to |selected|
      invariant Highlight(g.nodes, selected[..j]) == Success(nodes)
    {
      assert selected[..j + 1][..j] == selected[..j];
      var found := FindIndex(nodes, selected[j]);
      if found.None? {
        HighlightPrefixFailure(g.nodes, selected, j + 1);
        HighlightShape(g.nodes, selected);
        return Failure(TypeError);
      }
      nodes := nodes[found.value := Highlighted(nodes[found.value])];
    }
    assert selected[..|selected|] == selected;
    HighlightShape(g.nodes, selected);
    var h := nodes;
    nodes := Filter(nodes, (n: KgxNode) => n.kind != Category || n.id in selected);
    nodes := Filter(nodes, (n: KgxNode) => n.kind == Category || forall c :: c in selected ==> HasEdge(edges, c, n.id));
    StageIds(h, nodes, edges, selected);
    edges := Filter(edges, (e: KgxEdge) => HasNode(nodes, e.from) && HasNode(nodes, e.to));
    nodes := Filter(nodes, (n: KgxNode) => Touched(edges, n.id));
    r := Success(Graph(nodes, edges));
  }

  /** Every kept category node was selected, every kept field node has an edge from each
      selected category in the original network, both ends of every kept edge are kept nodes,
      and no kept node is without a kept edge. */
  lemma FilteredInvariants(h: seq<KgxNode>, edges: seq<KgxEdge>, sel: seq<string>, out: Graph)
    requires FilteredFrom(h, edges, sel, out)
    ensures forall i :: 0 <= i < |out.nodes| && out.nodes[i].kind == Category ==> out.nodes[i].id in sel
    ensures forall i, c :: 0 <= i < |out.nodes| && out.nodes[i].kind == Field && c in sel ==> HasEdge(edges, c, out.nodes[i].id)
    ensures forall k :: 0 <= k < |out.edges| ==> HasNode(out.nodes, out.edges[k].from) && HasNode(out.nodes, out.edges[k].to)
    ensures forall i :: 0 <= i < |out.nodes| ==> Degree(out, out.nodes[i].id) >= 1
  {
    forall k | 0 <= k < |out.edges| ensures HasNode(out.nodes, out.edges[k].from) && HasNode(out.nodes, out.edges[k].to) {
      var e := out.edges[k];
      assert Touched(out.edges, e.from) && Touched(out.edges, e.to);
      var a :| 0 <= a < |h| && h[a].id == e.from && Kept(edges, sel, h[a]);
      var b :| 0 <= b < |h| && h[b].id == e.to && Kept(edges, sel, h[b]);
      var a' :| 0 <= a' < |out.nodes| && out.nodes[a'] == h[a];
      var b' :| 0 <= b' < |out.nodes| && out.nodes[b'] == h[b];
    }
  }

  /** Highlighting keeps every node's id and kind in place. */
  lemma HighlightKeeps(nodes: seq<KgxNode>, sel: seq<string>)
    requires Highlight(nodes, sel).Success?
    ensures |Highlight(nodes, sel).value| == |nodes|
    ensures forall m :: 0 <= m < |nodes| ==>
      Highlight(nodes, sel).value[m].id == nodes[m].id && Highlight(nodes, sel).value[m].kind == nodes[m].kind
  {
    var h := Highlight(nodes, sel).value;
    HighlightShape(nodes, sel);
    forall m | 0 <= m < |nodes| ensures h[m].id == nodes[m].id && h[m].kind == nodes[m].kind {
      if FirstWithId(nodes, m) {
        MarkKeeps(nodes[m], multiset(sel)[nodes[m].id]);
      }
    }
  }

  /** A kept field node and a selected category that survives: their original edge is kept. */
  lemma FieldLinkKept(h: seq<KgxNode>, edges: seq<KgxEdge>, sel: seq<string>, out: Graph, f: KgxNode, c: string)
    requires FilteredFrom(h, edges, sel, out)
    requires f in out.nodes && f.kind == Field && c in sel && Survives(h, edges, sel, c)
    ensures HasEdge(out.edges, c, f.id)
  {
    var i :| 0 <= i < |out.nodes| && out.nodes[i] == f;
    assert Kept(edges, sel, f);
    var k :| 0 <= k < |edges| && edges[k].from == c && edges[k].to == f.id;
    var a :| 0 <= a < |h| && h[a] == f;
    assert Survives(h, edges, sel, f.id);
    var k' :| 0 <= k' < |out.edges| && out.edges[k'] == edges[k];
  }

  /** When every selected id is a category node of the network, each kept field node has a kept
      edge from each selected category. */
  lemma FilteredFieldsLinked(g: Graph, sel: seq<string>, out: Graph)
    requires Highlight(g.nodes, sel).Success?
    requires FilteredFrom(Highlight(g.nodes, sel).value, g.edges, sel, out)
    requires forall c :: c in sel ==> exists j :: 0 <= j < |g.nodes| && g.nodes[j].id == c && g.nodes[j].kind == Category
    ensures forall i, c :: 0 <= i < |out.nodes| && out.nodes[i].kind == Field && c in sel ==> HasEdge(out.edges, c, out.nodes[i].id)
  {
    var h := Highlight(g.nodes, sel).value;
    HighlightKeeps(g.nodes, sel);
    forall i, c | 0 <= i < |out.nodes| && out.nodes[i].kind == Field && c in sel
      ensures HasEdge(out.edges, c, out.nodes[i].id)
    {
      var j :| 0 <= j < |g.nodes| && g.nodes[j].id == c && g.nodes[j].kind == Category;
      assert h[j].id == c && Kept(g.edges, sel, h[j]);
      FieldLinkKept(h, g.edges, sel, out, out.nodes[i], c);
    }
  }

  /** `x` is a node of `nodes` marked once per time its id was selected. */
  ghost predicate MarkedOriginal(nodes: seq<KgxNode>, sel: seq<string>, x: KgxNode) {
    exists j :: 0 <= j < |nodes| && x == Mark(nodes[j], multiset(sel)[nodes[j].id])
  }

  /** In a network without repeated ids, every kept node is a node of the network, highlighted
      (red, size doubled) once per time its id was selected. */
  lemma FilteredHighlights(g: Graph, sel: seq<string>, out: Graph)
    requires NoDups(NodeIds(g.nodes))
    requires Highlight(g.nodes, sel).Success?
    requires FilteredFrom(Highlight(g.nodes, sel).value, g.edges, sel, out)
    ensures forall i :: 0 <= i < |out.nodes| ==> MarkedOriginal(g.nodes, sel, out.nodes[i])
    ensures forall i :: 0 <= i < |out.nodes| && out.nodes[i].id in sel ==> out.nodes[i].color == Some(Red)
  {
    var h := Highlight(g.nodes, sel).value;
    HighlightShape(g.nodes, sel);
    forall i | 0 <= i < |out.nodes| {
      HighlightedNode(g.nodes, sel, h, out.nodes[i]);
    }
    forall i | 0 <= i < |out.nodes| && out.nodes[i].id in sel ensures out.nodes[i].color == Some(Red) {
      HighlightedNode(g.nodes, sel, h, out.nodes[i]);
      var j :| 0 <= j < |g.nodes| && out.nodes[i] == Mark(g.nodes[j], multiset(sel)[g.nodes[j].id]);
      MarkKeeps(g.nodes[j], multiset(sel)[g.nodes[j].id]);
      SelectedRed(g.nodes[j], sel);
    }
  }

  /** With distinct ids every node of the highlighted list is its original node marked once per
      selection of its id. */
  lemma HighlightedNode(nodes: seq<KgxNode>, sel: seq<string>, h: seq<KgxNode>, x: KgxNode)
    requires NoDups(NodeIds(nodes)) && HighlightedBy(nodes, sel, h) && x in h
    ensures MarkedOriginal(nodes, sel, x)
  {
    var j :| 0 <= j < |h| && h[j] == x;
    var ids := NodeIds(nodes);
    forall k | 0 <= k < j ensures nodes[k].id != nodes[j].id {
      assert ids[k] != ids[j];
    }
    assert FirstWithId(nodes, j);
    assert x == Mark(nodes[j], multiset(sel)[nodes[j].id]);
  }

  /** A node whose id was selected is marked red. */
  lemma SelectedRed(n: KgxNode, sel: seq<string>)
    requires n.id in sel
    ensures Mark(n, multiset(sel)[n.id]).color == Some(Red)
  {
    MarkEffect(n, multiset(sel)[n.id]);
  }

}
