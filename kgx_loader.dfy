/** `cdeToNetwork` of the category viewer: every CDE row with a variable name and categories
    becomes a field node, each of its comma-separated categories a category node, and one edge
    runs from each category to the field. A node is pushed only when no node has its id yet. */
module KgxLoader {
  import opened Wrappers
  import opened Seqs
  import opened Js

  datatype Kind = Field | Category

  /** A node's `size` as JavaScript holds it: absent, a number, or NaN (what `undefined * 2` gives). */
  datatype Size = Unset | Px(n: int) | NotANumber

  /** A graph node. `color` is `None` until one is set; the palette colour a new category node
      takes is not modelled. */
  datatype KgxNode = KgxNode(id: string, name: string, title: string, kind: Kind, color: Option<string>, size: Size)

  datatype KgxEdge = KgxEdge(from: string, to: string)

  datatype Graph = Graph(nodes: seq<KgxNode>, edges: seq<KgxEdge>)

  /** `{ id, name: id, title: id, type: 'field' }` */
  function FieldNode(id: string): KgxNode {
    KgxNode(id, id, id, Field, None, Unset)
  }

  /** `{ id: category, name: category, title: category, color, size: 75, type: 'category' }` */
  function CategoryNode(id: string): KgxNode {
    KgxNode(id, id, id, Category, None, Px(75))
  }

  /** `nodes.find((node) => node.id === id)` finds something. */
  predicate HasNode(nodes: seq<KgxNode>, id: string) {
    exists i :: 0 <= i < |nodes| && nodes[i].id == id
  }

  function NodeIds(nodes: seq<KgxNode>): (r: seq<string>)
    ensures |r| == |nodes| && forall i :: 0 <= i < |nodes| ==> r[i] == nodes[i].id
  {
    seq(|nodes|, i requires 0 <= i < |nodes| => nodes[i].id)
  }

  /** `if (!row.variable_name || !row.categories) return` */
  predicate Skipped(row: JsRow) {
    !Truthy(Get(row, "variable_name")) || !Truthy(Get(row, "categories"))
  }

  /** `${row.variable_name}:${row.survey_name || 0}` */
  function FieldId(row: JsRow): string {
    var survey := Get(row, "survey_name");
    ToString(Get(row, "variable_name")) + ":" + (if Truthy(survey) then ToString(survey) else "0")
  }

  /** Pushes `n` unless a node with its id exists. */
  function AddNode(g: Graph, n: KgxNode): (r: Graph)
    ensures r.edges == g.edges
    ensures HasNode(r.nodes, n.id)
    ensures r.nodes == if HasNode(g.nodes, n.id) then g.nodes else g.nodes + [n]
    ensures NoDups(NodeIds(g.nodes)) ==> NoDups(NodeIds(r.nodes))
  {
    if HasNode(g.nodes, n.id) then g
    else
      var r := Graph(g.nodes + [n], g.edges);
      assert r.nodes[|g.nodes|].id == n.id;
      assert NodeIds(r.nodes) == NodeIds(g.nodes) + [n.id];
      assert NoDups(NodeIds(g.nodes)) ==> NoDups(NodeIds(r.nodes)) by {
        if NoDups(NodeIds(g.nodes)) {
          NoDupsConcat(NodeIds(g.nodes), [n.id]);
        }
      }
      r
  }

  /** The edges of one row: one from each category piece to the field, duplicates kept. */
  function Edges(cats: seq<string>, id: string): (r: seq<KgxEdge>)
    ensures |r| == |cats| && forall j :: 0 <= j < |cats| ==> r[j] == KgxEdge(cats[j], id)
  {
    seq(|cats|, j requires 0 <= j < |cats| => KgxEdge(cats[j], id))
  }

  /** The last category of `AddCategories`: its node is added if new and its edge appended. */
  lemma CategoryStep(g: Graph, h: Graph, cats: seq<string>, prefix: seq<string>, id: string)
    requires cats != [] && prefix == cats[..|cats| - 1]
    requires h.edges == g.edges + Edges(prefix, id)
    requires |g.nodes| <= |h.nodes| && h.nodes[..|g.nodes|] == g.nodes
    requires forall i :: |g.nodes| <= i < |h.nodes| ==> h.nodes[i] == CategoryNode(h.nodes[i].id) && h.nodes[i].id in prefix
    requires forall j :: 0 <= j < |prefix| ==> HasNode(h.nodes, prefix[j])
    requires NoDups(NodeIds(g.nodes)) ==> NoDups(NodeIds(h.nodes))
    ensures var h' := AddNode(h, CategoryNode(cats[|cats| - 1]));
      var r := Graph(h'.nodes, h'.edges + [KgxEdge(cats[|cats| - 1], id)]);
      && r.edges == g.edges + Edges(cats, id)
      && |g.nodes| <= |r.nodes| && r.nodes[..|g.nodes|] == g.nodes
      && (forall i :: |g.nodes| <= i < |r.nodes| ==> r.nodes[i] == CategoryNode(r.nodes[i].id) && r.nodes[i].id in cats)
      && (forall j :: 0 <= j < |cats| ==> HasNode(r.nodes, cats[j]))
      && (NoDups(NodeIds(g.nodes)) ==> NoDups(NodeIds(r.nodes)))
  {
    var c := cats[|cats| - 1];
    assert cats == prefix + [c];
    var h' := AddNode(h, CategoryNode(c));
    EdgesSnoc(g.edges, prefix, c, id);
    NodesStep(g.nodes, h.nodes, h'.nodes, cats, prefix, c);
  }

  lemma EdgesSnoc(ge: seq<KgxEdge>, prefix: seq<string>, c: string, id: string)
    ensures ge + Edges(prefix, id) + [KgxEdge(c, id)] == ge + Edges(prefix + [c], id)
  {
    EdgesSnocAlone(prefix, c, id);
  }

  lemma EdgesSnocAlone(prefix: seq<string>, c: string, id: string)
    ensures Edges(prefix + [c], id) == Edges(prefix, id) + [KgxEdge(c, id)]
  {
    assert |Edges(prefix + [c], id)| == |Edges(prefix, id) + [KgxEdge(c, id)]|;
    forall j | 0 <= j < |prefix| + 1 ensures Edges(prefix + [c], id)[j] == (Edges(prefix, id) + [KgxEdge(c, id)])[j] {
      if j < |prefix| {
        assert (prefix + [c])[j] == prefix[j];
      }
    }
  }

  /** The node side of `CategoryStep`, on the node sequences alone. */
  lemma NodesStep(gn: seq<KgxNode>, hn: seq<KgxNode>, rn: seq<KgxNode>, cats: seq<string>, prefix: seq<string>, c: string)
    requires cats == prefix + [c]
    requires |gn| <= |hn| && hn[..|gn|] == gn
    requires forall i :: |gn| <= i < |hn| ==> hn[i] == CategoryNode(hn[i].id) && hn[i].id in prefix
    requires forall j :: 0 <= j < |prefix| ==> HasNode(hn, prefix[j])
    requires rn == if HasNode(hn, c) then hn else hn + [CategoryNode(c)]
    ensures |gn| <= |rn| && rn[..|gn|] == gn
    ensures forall i :: |gn| <= i < |rn| ==> rn[i] == CategoryNode(rn[i].id) && rn[i].id in cats
    ensures forall j :: 0 <= j < |cats| ==> HasNode(rn, cats[j])
  {
    assert rn[..|hn|] == hn;
    assert rn[..|gn|] == rn[..|hn|][..|gn|];
    forall j | 0 <= j < |cats| ensures HasNode(rn, cats[j]) {
      if j < |prefix| {
        assert cats[j] == prefix[j];
        var i :| 0 <= i < |hn| && hn[i].id == cats[j];
        assert rn[i] == hn[i];
      } else if !HasNode(hn, c) {
        assert rn[|hn|].id == cats[j];
      }
    }
    forall i | |gn| <= i < |rn| ensures rn[i] == CategoryNode(rn[i].id) && rn[i].id in cats {
      if i < |hn| {
        assert rn[i] == hn[i];
      } else {
        assert rn[i] == CategoryNode(c);
      }
    }
  }

  /** `categories.forEach(...)`: each category node pushed if new, then one edge to the field. */
  function AddCategories(g: Graph, cats: seq<string>, id: string): (r: Graph)
    ensures r.edges == g.edges + Edges(cats, id)
    ensures |g.nodes| <= |r.nodes| && r.nodes[..|g.nodes|] == g.nodes
    ensures forall i :: |g.nodes| <= i < |r.nodes| ==> r.nodes[i] == CategoryNode(r.nodes[i].id) && r.nodes[i].id in cats
    ensures forall j :: 0 <= j < |cats| ==> HasNode(r.nodes, cats[j])
    ensures NoDups(NodeIds(g.nodes)) ==> NoDups(NodeIds(r.nodes))
    decreases |cats|
  {
    if cats == [] then
      assert g.nodes[..|g.nodes|] == g.nodes;
      g
    else
      var n := |cats| - 1;
      var h := AddCategories(g, cats[..n], id);
      var h' := AddNode(h, CategoryNode(cats[n]));
      CategoryStep(g, h, cats, cats[..n], id);
      Graph(h'.nodes, h'.edges + [KgxEdge(cats[n], id)])
  }

  /** One more category of `AddCategories`, as the inner loop takes it. */
  lemma AddCategoriesSnoc(g: Graph, cats: seq<string>, j: nat, id: string)
    requires j < |cats|
    ensures var h := AddCategories(g, cats[..j], id);
      AddCategories(g, cats[..j + 1], id) == Graph(AddNode(h, CategoryNode(cats[j])).nodes, h.edges + [KgxEdge(cats[j], id)])
  {
    assert cats[..j + 1][..j] == cats[..j];
  }

  /** The body of the `forEach` over the rows. `categories.split` throws a TypeError when the
      categories value is no string. */
  function RowStep(g: Graph, row: JsRow): Result<Graph, JsError> {
    if Skipped(row) then Success(g)
    else
      match Get(row, "categories")
      case Str(s) => Success(AddCategories(AddNode(g, FieldNode(FieldId(row))), JsSplit(s, ","), FieldId(row)))
      case _ => Failure(TypeError)
  }

  /** The network built from the rows, one row after the other. */
  function Kgx(cde: seq<JsRow>): Result<Graph, JsError>
    decreases |cde|
  {
    if cde == [] then Success(Graph([], []))
    else
      var n := |cde| - 1;
      var g :- Kgx(cde[..n]);
      RowStep(g, cde[n])
  }

  /** A row that throws: one kept whose categories are no string. */
  predicate Throws(row: JsRow) {
    !Skipped(row) && !Get(row, "categories").Str?
  }

  /** The edges each row contributes, independently of the nodes. */
  function RowEdges(row: JsRow): seq<KgxEdge> {
    if Skipped(row) || !Get(row, "categories").Str? then []
    else Edges(JsSplit(Get(row, "categories").s, ","), FieldId(row))
  }

  function AllEdges(cde: seq<JsRow>): seq<KgxEdge> {
    Flatten(seq(|cde|, i requires 0 <= i < |cde| => RowEdges(cde[i])))
  }

  lemma AllEdgesSnoc(cde: seq<JsRow>, row: JsRow)
    ensures AllEdges(cde + [row]) == AllEdges(cde) + RowEdges(row)
  {
    var a := seq(|cde|, i requires 0 <= i < |cde| => RowEdges(cde[i]));
    var b := seq(|cde + [row]|, i requires 0 <= i < |cde + [row]| => RowEdges((cde + [row])[i]));
    assert b == a + [RowEdges(row)];
    FlattenConcat(a, [RowEdges(row)]);
    assert Flatten([RowEdges(row)]) == RowEdges(row) + Flatten([]);
  }

  /** The network exists exactly when no kept row has categories that are no string, and then its
      edges are every row's category edges, in row order then piece order. */
  lemma {:induction false} KgxEdges(cde: seq<JsRow>)
    ensures Kgx(cde).Success? <==> forall i :: 0 <= i < |cde| ==> !Throws(cde[i])
    ensures Kgx(cde).Failure? ==> Kgx(cde).error == TypeError
    ensures Kgx(cde).Success? ==> Kgx(cde).value.edges == AllEdges(cde)
    decreases |cde|
  {
    if cde == [] {
      assert AllEdges(cde) == [];
    } else {
      var n := |cde| - 1;
      KgxEdges(cde[..n]);
      assert cde == cde[..n] + [cde[n]];
      AllEdgesSnoc(cde[..n], cde[n]);
      assert forall i :: 0 <= i < n ==> cde[..n][i] == cde[i];
    }
  }

  /** The invariant of the network: ids unique across both kinds, every node a field node or a
      category node of size 75 carrying its id as name and title, both ends of every edge are
      node ids, and no node is without an edge. */
  ghost predicate WellFormed(g: Graph) {
    && NoDups(NodeIds(g.nodes))
    && (forall i :: 0 <= i < |g.nodes| ==> g.nodes[i] == FieldNode(g.nodes[i].id) || g.nodes[i] == CategoryNode(g.nodes[i].id))
    && (forall k :: 0 <= k < |g.edges| ==> HasNode(g.nodes, g.edges[k].from) && HasNode(g.nodes, g.edges[k].to))
    && (forall i :: 0 <= i < |g.nodes| ==> Touched(g.edges, g.nodes[i].id))
  }

  /** Some edge starts or ends at `id`. */
  predicate Touched(edges: seq<KgxEdge>, id: string) {
    exists k :: 0 <= k < |edges| && (edges[k].from == id || edges[k].to == id)
  }

  lemma TouchedGrows(a: seq<KgxEdge>, b: seq<KgxEdge>, id: string)
    requires |a| <= |b| && b[..|a|] == a && Touched(a, id)
    ensures Touched(b, id)
  {
    var k :| 0 <= k < |a| && (a[k].from == id || a[k].to == id);
    assert b[k] == a[k];
  }

  /** A node present before a step is present after it (nodes are only ever appended). */
  lemma HasNodeGrows(a: seq<KgxNode>, b: seq<KgxNode>, id: string)
    requires |a| <= |b| && b[..|a|] == a && HasNode(a, id)
    ensures HasNode(b, id)
  {
    var i :| 0 <= i < |a| && a[i].id == id;
    assert b[i] == a[i];
  }

  /** After a kept row, both ends of every edge are node ids. */
  lemma RowEdgesJoinNodes(g: Graph, f: Graph, r: Graph, cats: seq<string>, id: string)
    requires forall k :: 0 <= k < |g.edges| ==> HasNode(g.nodes, g.edges[k].from) && HasNode(g.nodes, g.edges[k].to)
    requires f == AddNode(g, FieldNode(id)) && r == AddCategories(f, cats, id)
    ensures forall k :: 0 <= k < |r.edges| ==> HasNode(r.nodes, r.edges[k].from) && HasNode(r.nodes, r.edges[k].to)
  {
    assert r.nodes[..|g.nodes|] == g.nodes by {
      assert r.nodes[..|f.nodes|] == f.nodes && f.nodes[..|g.nodes|] == g.nodes;
    }
    HasNodeGrows(f.nodes, r.nodes, id);
    EdgesJoin(g.nodes, g.edges, r.nodes, r.edges, cats, id);
  }

  lemma EdgesJoin(gn: seq<KgxNode>, ge: seq<KgxEdge>, rn: seq<KgxNode>, re: seq<KgxEdge>, cats: seq<string>, id: string)
    requires forall k :: 0 <= k < |ge| ==> HasNode(gn, ge[k].from) && HasNode(gn, ge[k].to)
    requires |gn| <= |rn| && rn[..|gn|] == gn
    requires re == ge + Edges(cats, id) && HasNode(rn, id)
    requires forall j :: 0 <= j < |cats| ==> HasNode(rn, cats[j])
    ensures forall k :: 0 <= k < |re| ==> HasNode(rn, re[k].from) && HasNode(rn, re[k].to)
  {
    forall k | 0 <= k < |re| ensures HasNode(rn, re[k].from) && HasNode(rn, re[k].to) {
      if k < |ge| {
        assert re[k] == ge[k];
        HasNodeGrows(gn, rn, ge[k].from);
        HasNodeGrows(gn, rn, ge[k].to);
      } else {
        assert re[k] == KgxEdge(cats[k - |ge|], id);
      }
    }
  }

  /** After a kept row with at least one category, every node has an edge. */
  lemma RowNodesTouched(g: Graph, f: Graph, r: Graph, cats: seq<string>, id: string)
    requires forall i :: 0 <= i < |g.nodes| ==> Touched(g.edges, g.nodes[i].id)
    requires f == AddNode(g, FieldNode(id)) && r == AddCategories(f, cats, id) && |cats| >= 1
    ensures forall i :: 0 <= i < |r.nodes| ==> Touched(r.edges, r.nodes[i].id)
  {
    assert r.nodes[..|g.nodes|] == g.nodes by {
      assert r.nodes[..|f.nodes|] == f.nodes && f.nodes[..|g.nodes|] == g.nodes;
    }
    forall i | |g.nodes| <= i < |r.nodes| ensures r.nodes[i].id == id || r.nodes[i].id in cats {
      if i < |f.nodes| {
        assert r.nodes[i] == f.nodes[i];
      }
    }
    TouchedStep(g.nodes, g.edges, r.nodes, r.edges, cats, id);
  }

  lemma TouchedStep(gn: seq<KgxNode>, ge: seq<KgxEdge>, rn: seq<KgxNode>, re: seq<KgxEdge>, cats: seq<string>, id: string)
    requires forall i :: 0 <= i < |gn| ==> Touched(ge, gn[i].id)
    requires |gn| <= |rn| && rn[..|gn|] == gn
    requires re == ge + Edges(cats, id) && |cats| >= 1
    requires forall i :: |gn| <= i < |rn| ==> rn[i].id == id || rn[i].id in cats
    ensures forall i :: 0 <= i < |rn| ==> Touched(re, rn[i].id)
  {
    assert re[..|ge|] == ge;
    assert re[|ge|] == KgxEdge(cats[0], id);
    forall i | 0 <= i < |rn| ensures Touched(re, rn[i].id) {
      if i < |gn| {
        assert rn[i] == gn[i];
        TouchedGrows(ge, re, gn[i].id);
      } else if rn[i].id != id {
        var j :| 0 <= j < |cats| && cats[j] == rn[i].id;
        assert re[|ge| + j] == KgxEdge(cats[j], id);
      }
    }
  }

  /** After a kept row, every node is still a field node or a category node. */
  lemma RowNodeKinds(g: Graph, f: Graph, r: Graph, cats: seq<string>, id: string)
    requires forall i :: 0 <= i < |g.nodes| ==> g.nodes[i] == FieldNode(g.nodes[i].id) || g.nodes[i] == CategoryNode(g.nodes[i].id)
    requires f == AddNode(g, FieldNode(id)) && r == AddCategories(f, cats, id)
    ensures forall i :: 0 <= i < |r.nodes| ==> r.nodes[i] == FieldNode(r.nodes[i].id) || r.nodes[i] == CategoryNode(r.nodes[i].id)
  {
    forall i | 0 <= i < |f.nodes| ensures f.nodes[i] == FieldNode(f.nodes[i].id) || f.nodes[i] == CategoryNode(f.nodes[i].id) {
      if i < |g.nodes| {
        assert f.nodes[i] == g.nodes[i];
      }
    }
    forall i | 0 <= i < |r.nodes| ensures r.nodes[i] == FieldNode(r.nodes[i].id) || r.nodes[i] == CategoryNode(r.nodes[i].id) {
      if i < |f.nodes| {
        assert r.nodes[i] == r.nodes[..|f.nodes|][i];
      }
    }
  }

  /** A kept row keeps the network well formed: its split categories are never empty, so the
      field node gets an edge. */
  lemma RowStepWellFormed(g: Graph, row: JsRow)
    requires WellFormed(g) && RowStep(g, row).Success?
    ensures WellFormed(RowStep(g, row).value)
  {
    if !Skipped(row) {
      var id := FieldId(row);
      var cats := JsSplit(Get(row, "categories").s, ",");
      var f := AddNode(g, FieldNode(id));
      var r := AddCategories(f, cats, id);
      assert RowStep(g, row).value == r;
      assert |cats| >= 1 by { assert "," != ""; }
      RowEdgesJoinNodes(g, f, r, cats, id);
      RowNodesTouched(g, f, r, cats, id);
      RowNodeKinds(g, f, r, cats, id);
    }
  }

  /** Every network `cdeToNetwork` returns is well formed. */
  lemma {:induction false} KgxWellFormed(cde: seq<JsRow>)
    requires Kgx(cde).Success?
    ensures WellFormed(Kgx(cde).value)
    decreases |cde|
  {
    if cde != [] {
      var n := |cde| - 1;
      KgxWellFormed(cde[..n]);
      RowStepWellFormed(Kgx(cde[..n]).value, cde[n]);
    }
  }

  /** A failed prefix fails the whole fold. */
  lemma {:induction false} KgxPrefixFailure(cde: seq<JsRow>, i: nat)
    requires i <= |cde| && Kgx(cde[..i]).Failure?
    ensures Kgx(cde) == Kgx(cde[..i])
    decreases |cde| - i
  {
    if i < |cde| {
      var n := |cde| - 1;
      assert cde[..n][..i] == cde[..i];
      KgxPrefixFailure(cde[..n], i);
    } else {
      assert cde[..i] == cde;
    }
  }

  /** The inner `forEach`: a category node for each new category, an edge for each category. */
  method PushCategories(nodes: seq<KgxNode>, edges: seq<KgxEdge>, categories: seq<string>, id: string)
      returns (nodes': seq<KgxNode>, edges': seq<KgxEdge>)
    ensures Graph(nodes', edges') == AddCategories(Graph(nodes, edges), categories, id)
  {
    nodes', edges' := nodes, edges;
    assert categories[..0] == [];
    for j := 0 to |categories|
      invariant Graph(nodes', edges') == AddCategories(Graph(nodes, edges), categories[..j], id)
    {
      AddCategoriesSnoc(Graph(nodes, edges), categories, j, id);
      var category := categories[j];
      if !HasNode(nodes', category) {
        nodes' := nodes' + [CategoryNode(category)];
      }
      edges' := edges' + [KgxEdge(category, id)];
    }
    assert categories[..|categories|] == categories;
  }

  /** `cdeToNetwork(cde)`: the `forEach` over the rows with its inner `forEach` over the
      categories, pushing into `net.nodes` and `net.edges`. */
  method CdeToNetwork(cde: seq<JsRow>) returns (r: Result<Graph, JsError>)
    ensures r == Kgx(cde)
  {
    var nodes: seq<KgxNode> := [];
    var edges: seq<KgxEdge> := [];
    assert cde[..0] == [];
    for i := 0 to |cde|
      invariant Kgx(cde[..i]) == Success(Graph(nodes, edges))
    {
      assert cde[..i + 1][..i] == cde[..i];
      var row := cde[i];
      if !Truthy(Get(row, "variable_name")) || !Truthy(Get(row, "categories")) {
        continue;
      }
      var id := FieldId(row);
      var value := Get(row, "categories");
      if !value.Str? {
        KgxPrefixFailure(cde, i + 1);
        return Failure(TypeError);
      }
      var categories := JsSplit(value.s, ",");
      if !HasNode(nodes, id) {
        nodes := nodes + [FieldNode(id)];
      }
      nodes, edges := PushCategories(nodes, edges, categories, id);
    }
    assert cde[..|cde|] == cde;
    return Success(Graph(nodes, edges));
  }

  /** Rows zipped from a parsed CSV hold only strings and `undefined`, so the network exists. */
  lemma ZippedRowsDoNotThrow(data: seq<seq<string>>)
    ensures Kgx(ZipRows(data)).Success?
  {
    var rows := ZipRows(data);
    forall i | 0 <= i < |rows| ensures !Throws(rows[i]) {
      ZipRowValues(data[0], data[i + 1], "categories");
    }
    KgxEdges(rows);
  }
}
