/** `connectedComponents` of the harmonization helper: the ids on the network's edges get dense
    indices in order of first appearance, every edge is added in both directions to an
    adjacency list, a recursive depth-first search from every unvisited vertex collects the
    components, and each component becomes a sub-network of its nodes and of the edges leaving
    them. */
module Algorithms {
  import opened Wrappers
  import opened Seqs
  import opened Js
  import opened Converter

  /** The ends of every edge, source before target, edge by edge: the order `addEdge` meets the
      ids in. */
  function Endpoints(edges: seq<Edge>): (r: seq<string>)
    ensures |r| == 2 * |edges|
    decreases |edges|
  {
    if edges == [] then []
    else
      var n := |edges| - 1;
      Endpoints(edges[..n]) + [edges[n].source, edges[n].target]
  }

  /** An id is an endpoint exactly when some edge starts or ends at it. */
  lemma {:induction false} EndpointsMembership(edges: seq<Edge>, x: string)
    ensures x in Endpoints(edges) <==> exists j :: 0 <= j < |edges| && (edges[j].source == x || edges[j].target == x)
    decreases |edges|
  {
    if edges != [] {
      var n := |edges| - 1;
      EndpointsMembership(edges[..n], x);
      assert forall j :: 0 <= j < n ==> edges[..n][j] == edges[j];
    }
  }

  /** The ids in the order they are encoded: `edgeEncodings[x]` is the position of `x` here. */
  function Ids(edges: seq<Edge>): seq<string> {
    Dedup(Endpoints(edges))
  }

  /** The position of `x` among the ids (`|ids|` when it is none of them). */
  function IndexOf(ids: seq<string>, x: string): (r: nat)
    ensures r <= |ids|
    ensures r < |ids| <==> x in ids
    ensures r < |ids| ==> ids[r] == x
    ensures forall j :: 0 <= j < r ==> ids[j] != x
  {
    if ids == [] then 0
    else if ids[0] == x then 0
    else
      var r := 1 + IndexOf(ids[1..], x);
      assert forall j :: 1 <= j < |ids| ==> ids[j] == ids[1..][j - 1];
      r
  }

  /** In a sequence without duplicates the position of an element is its index. */
  lemma IndexOfDistinct(ids: seq<string>, u: nat)
    requires NoDups(ids) && u < |ids|
    ensures IndexOf(ids, ids[u]) == u
  {
  }

  /** `edgeEncodings` encodes `ids`: its keys are the ids and each maps to its position. */
  ghost predicate Encodes(enc: map<string, nat>, ids: seq<string>) {
    && (forall x :: x in enc <==> x in ids)
    && (forall x :: x in enc ==> enc[x] < |ids| && ids[enc[x]] == x)
  }

  /** Some edge joins `a` and `b`, in either direction. */
  ghost predicate Joined(edges: seq<Edge>, a: string, b: string) {
    exists j :: 0 <= j < |edges| && ((edges[j].source == a && edges[j].target == b) || (edges[j].source == b && edges[j].target == a))
  }

  /** The ids of a prefix of the edges are a prefix of all the ids. */
  lemma IdsPrefix(edges: seq<Edge>, k: nat)
    requires k <= |edges|
    ensures |Ids(edges[..k])| <= |Ids(edges)|
    ensures Ids(edges)[..|Ids(edges[..k])|] == Ids(edges[..k])
  {
    EndpointsPrefix(edges, k);
    DedupPrefix(Endpoints(edges), 2 * k);
  }

  lemma {:induction false} EndpointsPrefix(edges: seq<Edge>, k: nat)
    requires k <= |edges|
    ensures Endpoints(edges)[..2 * k] == Endpoints(edges[..k])
    decreases |edges| - k
  {
    if k < |edges| {
      var n := |edges| - 1;
      assert edges[..n][..k] == edges[..k];
      EndpointsPrefix(edges[..n], k);
    } else {
      assert edges[..k] == edges;
    }
  }

  /** The encoding of one id (the body of `addEdge` for its source or its target): a known id
      keeps its index, a new one takes the counter's value. */
  method Encode(enc: map<string, nat>, next: nat, x: string, ghost ids: seq<string>) returns (index: nat, enc': map<string, nat>, next': nat)
    requires Encodes(enc, ids) && next == |ids|
    ensures Encodes(enc', if x in ids then ids else ids + [x])
    ensures next' == |if x in ids then ids else ids + [x]|
    ensures x in enc' && index == enc'[x]
    ensures x !in ids ==> index == |ids|
    ensures forall y :: y in enc ==> y in enc' && enc'[y] == enc[y]
  {
    if x in enc {
      return enc[x], enc, next;
    }
    index := next;
    enc' := enc[x := next];
    next' := next + 1;
    assert forall y :: y in enc ==> (ids + [x])[enc[y]] == ids[enc[y]];
  }

  /** `ids` with `x` appended unless it is there already. */
  function Extend(ids: seq<string>, x: string): seq<string> {
    if x in ids then ids else ids + [x]
  }

  /** The ids of one more edge are the ids so far extended by its source, then its target. */
  lemma IdsSnoc(edges: seq<Edge>, e: Edge)
    ensures Ids(edges + [e]) == Extend(Extend(Ids(edges), e.source), e.target)
  {
    var es := edges + [e];
    assert es[..|edges|] == edges;
    var p := Endpoints(edges);
    assert Endpoints(es) == p + [e.source, e.target];
    DedupSnoc(p, e.source);
    DedupSnoc(p + [e.source], e.target);
    assert p + [e.source, e.target] == (p + [e.source]) + [e.target];
  }

  /** Every listed neighbour is joined to its vertex by an edge. */
  ghost predicate Sound(adj: seq<seq<nat>>, edges: seq<Edge>, ids: seq<string>) {
    forall u, j :: 0 <= u < |adj| && 0 <= j < |adj[u]| ==>
      u < |ids| && adj[u][j] < |ids| && Joined(edges, ids[u], ids[adj[u][j]])
  }

  /** The state after `addEdge` has run on the first `k` edges, for the ids `ids` they carry: the
      encoding covers those ids, every listed neighbour is joined to its vertex by an edge, and
      each of the first `k` edges is listed in both directions. With `k == |edges|` this says that
      `adj` is a symmetric adjacency list of the edges. */
  ghost predicate Linked(adj: seq<seq<nat>>, edges: seq<Edge>, k: nat, ids: seq<string>, enc: map<string, nat>) {
    && k <= |edges| && |ids| <= |adj|
    && Encodes(enc, ids)
    && Sound(adj, edges, ids)
    && (forall k' :: 0 <= k' < k ==>
          (&& edges[k'].source in enc && edges[k'].target in enc
           && enc[edges[k'].source] < |adj| && enc[edges[k'].target] < |adj|
           && enc[edges[k'].target] in adj[enc[edges[k'].source]]
           && enc[edges[k'].source] in adj[enc[edges[k'].target]]))
  }

  /** Pushing `dest` onto `src`'s list and `src` onto `dest`'s list, for the encoded ends of edge
      `k`, extends the state to the first `k + 1` edges. */
  lemma PushLinked(before: seq<seq<nat>>, edges: seq<Edge>, k: nat, ids: seq<string>, enc: map<string, nat>,
                   ids': seq<string>, enc': map<string, nat>, src: nat, dest: nat)
    requires k < |edges| && Linked(before, edges, k, ids, enc)
    requires Encodes(enc', ids') && |ids'| <= |before| && |ids| <= |ids'| && ids'[..|ids|] == ids
    requires forall y :: y in enc ==> y in enc' && enc'[y] == enc[y]
    requires edges[k].source in enc' && enc'[edges[k].source] == src
    requires edges[k].target in enc' && enc'[edges[k].target] == dest
    ensures Linked(before[src := before[src] + [dest]][dest := before[src := before[src] + [dest]][dest] + [src]], edges, k + 1, ids', enc')
  {
    var mid := before[src := before[src] + [dest]];
    var after := mid[dest := mid[dest] + [src]];
    assert Joined(edges, ids'[src], ids'[dest]) && Joined(edges, ids'[dest], ids'[src]) by {
      assert edges[k].source == ids'[src] && edges[k].target == ids'[dest];
    }
    PushSound(before, edges, ids, ids', src, dest);
    forall x, y | 0 <= y < |before| && x in before[y] ensures x in after[y] {
      assert before[y] <= mid[y] <= after[y];
    }
    assert dest in after[src] && src in after[dest];
    forall k' | 0 <= k' < k + 1
      ensures && edges[k'].source in enc' && edges[k'].target in enc'
              && enc'[edges[k'].source] < |after| && enc'[edges[k'].target] < |after|
              && enc'[edges[k'].target] in after[enc'[edges[k'].source]]
              && enc'[edges[k'].source] in after[enc'[edges[k'].target]]
    {
      if k' < k {
        assert enc[edges[k'].target] in before[enc[edges[k'].source]];
        assert enc[edges[k'].source] in before[enc[edges[k'].target]];
      }
    }
    assert Sound(after, edges, ids');
    assert k + 1 <= |edges| && |ids'| <= |after|;
    assert Encodes(enc', ids');
    assert Linked(after, edges, k + 1, ids', enc');
  }

  /** Pushing the two ends of an edge onto each other's lists keeps every listed neighbour joined. */
  lemma PushSound(before: seq<seq<nat>>, edges: seq<Edge>, ids: seq<string>, ids': seq<string>, src: nat, dest: nat)
    requires Sound(before, edges, ids)
    requires |ids'| <= |before| && |ids| <= |ids'| && ids'[..|ids|] == ids
    requires src < |ids'| && dest < |ids'|
    requires Joined(edges, ids'[src], ids'[dest]) && Joined(edges, ids'[dest], ids'[src])
    ensures Sound(before[src := before[src] + [dest]][dest := before[src := before[src] + [dest]][dest] + [src]], edges, ids')
  {
    SoundWiden(before, edges, ids, ids');
    var mid := before[src := before[src] + [dest]];
    PushOneSound(before, edges, ids', src, dest);
    PushOneSound(mid, edges, ids', dest, src);
  }

  /** Listed neighbours stay joined when the id list grows at its end. */
  lemma SoundWiden(adj: seq<seq<nat>>, edges: seq<Edge>, ids: seq<string>, ids': seq<string>)
    requires Sound(adj, edges, ids)
    requires |ids| <= |ids'| && ids'[..|ids|] == ids
    ensures Sound(adj, edges, ids')
  {
    forall u, j | 0 <= u < |adj| && 0 <= j < |adj[u]|
      ensures u < |ids'| && adj[u][j] < |ids'| && Joined(edges, ids'[u], ids'[adj[u][j]])
    {
      assert ids'[u] == ids[u] && ids'[adj[u][j]] == ids[adj[u][j]];
    }
    forall u | 0 <= u < |adj| && |adj[u]| > 0 ensures u < |ids'| {
      assert adj[u][0] < |ids|;
    }
  }

  /** Pushing `y` onto `x`'s list keeps every listed neighbour joined when `x` and `y` are. */
  lemma PushOneSound(adj: seq<seq<nat>>, edges: seq<Edge>, ids: seq<string>, x: nat, y: nat)
    requires Sound(adj, edges, ids)
    requires x < |adj| && x < |ids| && y < |ids| && Joined(edges, ids[x], ids[y])
    ensures Sound(adj[x := adj[x] + [y]], edges, ids)
  {
    var adj' := adj[x := adj[x] + [y]];
    forall u, j | 0 <= u < |adj'| && 0 <= j < |adj'[u]|
      ensures u < |ids| && adj'[u][j] < |ids| && Joined(edges, ids[u], ids[adj'[u][j]])
    {
      if u != x {
        assert adj'[u] == adj[u];
      } else if j < |adj[u]| {
        assert adj'[u][j] == adj[u][j];
      } else {
        assert adj'[u][j] == y;
      }
    }
    // the split-off conjunct `u < |ids|` mentions no `adj'[u][j]`, so it gets its own trigger
    forall u | 0 <= u < |adj'| && |adj'[u]| > 0 ensures u < |ids| {
      if u != x {
        assert adj[u][0] == adj'[u][0];
      }
    }
  }

  /** The encoding half of `addEdge(e)`: its source, then its target. */
  method EncodeEdge(enc: map<string, nat>, i: nat, e: Edge, ghost ids: seq<string>)
      returns (src: nat, dest: nat, enc': map<string, nat>, i': nat, ghost ids': seq<string>)
    requires Encodes(enc, ids) && i == |ids|
    ensures ids' == Extend(Extend(ids, e.source), e.target)
    ensures Encodes(enc', ids') && i' == |ids'|
    ensures |ids| <= |ids'| && ids'[..|ids|] == ids
    ensures forall y :: y in enc ==> y in enc' && enc'[y] == enc[y]
    ensures e.source in enc' && enc'[e.source] == src && e.target in enc' && enc'[e.target] == dest
    ensures src < |ids'| && dest < |ids'|
    ensures |ids'| == |ids| || |ids'| == src + 1 || |ids'| == dest + 1
  {
    ghost var ids1 := Extend(ids, e.source);
    var enc1, i1;
    src, enc1, i1 := Encode(enc, i, e.source, ids);
    dest, enc', i' := Encode(enc1, i1, e.target, ids1);
    ids' := Extend(ids1, e.target);
    assert ids'[..|ids|] == ids;
  }

  /** The pushes of `addEdge`: `dest` onto `src`'s list, then `src` onto `dest`'s list. */
  method Push(adj: array<seq<nat>>, src: nat, dest: nat)
    requires src < adj.Length && dest < adj.Length
    modifies adj
    ensures adj[..] == old(adj[..])[src := old(adj[src]) + [dest]][dest := old(adj[..])[src := old(adj[src]) + [dest]][dest] + [src]]
  {
    ghost var before := adj[..];
    adj[src] := adj[src] + [dest];
    adj[dest] := adj[dest] + [src];
    assert adj[..] == before[src := before[src] + [dest]][dest := before[src := before[src] + [dest]][dest] + [src]];
  }

  /** `addEdge(edges[k])`: encode both ends, then push each onto the other's list. `ok` is false
      when an index falls outside `adjListArray` (a TypeError in the source). */
  method AddEdge(edges: seq<Edge>, k: nat, adj: array<seq<nat>>, enc: map<string, nat>, i: nat, ghost ids: seq<string>)
      returns (ok: bool, enc': map<string, nat>, i': nat, ghost ids': seq<string>)
    requires k < |edges| && Linked(adj[..], edges, k, ids, enc) && i == |ids|
    modifies adj
    ensures ids' == Extend(Extend(ids, edges[k].source), edges[k].target)
    ensures ok <==> |ids'| <= adj.Length
    ensures ok ==> Linked(adj[..], edges, k + 1, ids', enc') && i' == |ids'|
  {
    var src, dest;
    src, dest, enc', i', ids' := EncodeEdge(enc, i, edges[k], ids);
    if src >= adj.Length || dest >= adj.Length {
      return false, enc', i', ids';
    }
    PushLinked(adj[..], edges, k, ids, enc, ids', enc', src, dest);
    Push(adj, src, dest);
    ok := true;
  }

  /** Before any edge: empty lists, no ids, an empty encoding. */
  lemma LinkedStart(adj: seq<seq<nat>>, edges: seq<Edge>)
    requires forall u :: 0 <= u < |adj| ==> adj[u] == []
    ensures Ids(edges[..0]) == [] && Linked(adj, edges, 0, [], map[])
  {
    assert edges[..0] == [];
  }

  /** The ids of the first `k + 1` edges extend those of the first `k` by edge `k`'s ends. */
  lemma IdsStep(edges: seq<Edge>, k: nat)
    requires k < |edges|
    ensures Ids(edges[..k + 1]) == Extend(Extend(Ids(edges[..k]), edges[k].source), edges[k].target)
  {
    assert edges[..k + 1] == edges[..k] + [edges[k]];
    IdsSnoc(edges[..k], edges[k]);
  }

  /** `net.edges.forEach((edge) => addEdge(edge))` on the fresh `adjListArray` of `V` empty lists:
      it throws a TypeError exactly when the edges carry more distinct ids than there are nodes
      (`adjListArray[src]` is then undefined); otherwise the encoding of the ids and a symmetric
      adjacency list of the edges. */
  method AddEdges(edges: seq<Edge>, adj: array<seq<nat>>) returns (r: Result<map<string, nat>, JsError>)
    requires forall u :: 0 <= u < adj.Length ==> adj[u] == []
    modifies adj
    ensures r.Failure? <==> |Ids(edges)| > adj.Length
    ensures r.Failure? ==> r.error == TypeError
    ensures r.Success? ==> Linked(adj[..], edges, |edges|, Ids(edges), r.value)
  {
    var enc: map<string, nat> := map[];
    var i := 0;
    ghost var ids: seq<string> := [];
    LinkedStart(adj[..], edges);
    for k := 0 to |edges|
      invariant Linked(adj[..], edges, k, ids, enc) && i == |ids| && ids == Ids(edges[..k])
    {
      IdsStep(edges, k);
      var ok;
      ok, enc, i, ids := AddEdge(edges, k, adj, enc, i, ids);
      if !ok {
        IdsPrefix(edges, k + 1);
        return Failure(TypeError);
      }
    }
    assert edges[..|edges|] == edges;
    return Success(enc);
  }

  /** Every listed neighbour is a vertex. */
  ghost predicate Bounded(adj: seq<seq<nat>>) {
    forall u, j :: 0 <= u < |adj| && 0 <= j < |adj[u]| ==> adj[u][j] < |adj|
  }

  /** Every neighbour lists the vertex back: the shape `addEdge` gives the lists. */
  ghost predicate Symmetric(adj: seq<seq<nat>>) {
    forall u, j :: 0 <= u < |adj| && 0 <= j < |adj[u]| ==> adj[u][j] < |adj| && u in adj[adj[u][j]]
  }

  /** The vertices not yet visited. */
  ghost function Unvisited(visited: seq<bool>): set<nat> {
    set u: nat | u < |visited| && !visited[u]
  }

  /** From position `from` on, every vertex of `r` after the first is a neighbour of one listed
      before it: `r[from..]` is the preorder of a tree of edges rooted at `r[from]`. */
  ghost predicate Spanned(adj: seq<seq<nat>>, r: seq<nat>, from: nat) {
    forall t {:trigger r[t]} :: from < t < |r| ==> exists s :: from <= s < t && r[s] < |adj| && r[t] in adj[r[s]]
  }

  /** The tree edge into position `t` of a spanned stretch. */
  lemma SpannedAt(adj: seq<seq<nat>>, r: seq<nat>, from: nat, t: nat)
    requires Spanned(adj, r, from) && from < t < |r|
    ensures exists s :: from <= s < t && r[s] < |adj| && r[t] in adj[r[s]]
  {
    assert r[t] in r;
  }

  /** The part of `r` after `c` is the part of its prefix `pre` after `c`, then what follows `pre`. */
  lemma SliceSplit(r: seq<nat>, pre: seq<nat>, c: nat)
    requires c <= |pre| <= |r| && r[..|pre|] == pre
    ensures r[c..] == pre[c..] + r[|pre|..]
  {
  }

  /** A recursive search from a neighbour of the root, appended after `pre`, keeps the tree. */
  lemma SpannedExtend(adj: seq<seq<nat>>, pre: seq<nat>, r: seq<nat>, from: nat)
    requires from < |pre| < |r| && r[..|pre|] == pre
    requires Spanned(adj, pre, from) && Spanned(adj, r, |pre|)
    requires pre[from] < |adj| && r[|pre|] in adj[pre[from]]
    ensures Spanned(adj, r, from)
  {
    forall t | from < t < |r| ensures exists s :: from <= s < t && r[s] < |adj| && r[t] in adj[r[s]] {
      if t < |pre| {
        var s :| from <= s < t && pre[s] < |adj| && pre[t] in adj[pre[s]];
        assert r[s] == pre[s] && r[t] == pre[t];
      } else if t == |pre| {
        assert r[from] == pre[from];
      } else {
        var s :| |pre| <= s < t && r[s] < |adj| && r[t] in adj[r[s]];
      }
    }
  }

  /** What a search from `v` that started with `before` and left `after` has appended to `conn`:
      `visited` only grows, `v` comes first, and the appended vertices are exactly the newly
      visited ones, each once, in the preorder of a tree of edges. */
  ghost predicate Searched(adj: seq<seq<nat>>, before: seq<bool>, after: seq<bool>, conn: seq<nat>, r: seq<nat>, v: nat) {
    && |after| == |before|
    && (forall u :: 0 <= u < |before| && before[u] ==> after[u])
    && |conn| < |r| && r[..|conn|] == conn && r[|conn|] == v
    && (forall u :: 0 <= u < |before| ==> (after[u] && !before[u] <==> u in r[|conn|..]))
    && (forall x :: x in r[|conn|..] ==> x < |before|)
    && NoDups(r[|conn|..])
    && Spanned(adj, r, |conn|)
  }

  /** Every neighbour of a vertex of `xs` is visited. */
  ghost predicate Closed(adj: seq<seq<nat>>, visited: seq<bool>, xs: seq<nat>) {
    forall i, j :: 0 <= i < |xs| && xs[i] < |adj| && 0 <= j < |adj[xs[i]]| ==>
      adj[xs[i]][j] < |visited| && visited[adj[xs[i]][j]]
  }

  /** Closure survives more visiting and joins across concatenation. */
  lemma ClosedConcat(adj: seq<seq<nat>>, here: seq<bool>, now: seq<bool>, xs: seq<nat>, ys: seq<nat>)
    requires Closed(adj, here, xs) && Closed(adj, now, ys)
    requires |here| == |now| && forall u :: 0 <= u < |here| && here[u] ==> now[u]
    ensures Closed(adj, now, xs + ys)
  {
    forall i, j | 0 <= i < |xs + ys| && (xs + ys)[i] < |adj| && 0 <= j < |adj[(xs + ys)[i]]|
      ensures adj[(xs + ys)[i]][j] < |now| && now[adj[(xs + ys)[i]][j]]
    {
      if i < |xs| {
        assert (xs + ys)[i] == xs[i];
      } else {
        assert (xs + ys)[i] == ys[i - |xs|];
      }
    }
  }

  /** The vertices newly visited over two stretches of a search are those of the first stretch,
      then those of the second, each once. */
  lemma NewlyVisitedConcat(entry: seq<bool>, here: seq<bool>, now: seq<bool>, a: seq<nat>, b: seq<nat>)
    requires |here| == |entry| && |now| == |entry|
    requires forall u :: 0 <= u < |entry| && entry[u] ==> here[u]
    requires forall u :: 0 <= u < |entry| && here[u] ==> now[u]
    requires forall u :: 0 <= u < |entry| ==> (here[u] && !entry[u] <==> u in a)
    requires forall u :: 0 <= u < |entry| ==> (now[u] && !here[u] <==> u in b)
    requires forall x :: x in a ==> x < |entry|
    requires forall x :: x in b ==> x < |entry|
    requires NoDups(a) && NoDups(b)
    ensures forall u :: 0 <= u < |entry| ==> (now[u] && !entry[u] <==> u in a + b)
    ensures forall x :: x in a + b ==> x < |entry|
    ensures NoDups(a + b)
  {
    NoDupsConcat(a, b);
  }

  /** A finished recursive search from an unvisited neighbour `w` of `v` extends the search from `v`. */
  lemma SearchStep(adj: seq<seq<nat>>, entry: seq<bool>, here: seq<bool>, now: seq<bool>,
                   conn: seq<nat>, pre: seq<nat>, r: seq<nat>, v: nat, w: nat)
    requires Searched(adj, entry, here, conn, pre, v) && Closed(adj, here, pre[|conn| + 1..])
    requires v < |adj| && w in adj[v] && w < |here| && !here[w]
    requires Searched(adj, here, now, pre, r, w) && Closed(adj, now, r[|pre|..])
    ensures Searched(adj, entry, now, conn, r, v) && Closed(adj, now, r[|conn| + 1..])
  {
    var a, b := pre[|conn|..], r[|pre|..];
    SliceSplit(r, pre, |conn|);
    SliceSplit(r, pre, |conn| + 1);
    assert r[..|conn|] == conn by {
      assert r[..|conn|] == r[..|pre|][..|conn|];
    }
    assert r[|conn|] == v by {
      assert r[|conn|] == r[..|pre|][|conn|];
    }
    NewlyVisitedConcat(entry, here, now, a, b);
    SpannedExtend(adj, pre, r, |conn|);
    ClosedConcat(adj, here, now, pre[|conn| + 1..], b);
  }

  /** Marking `v` and appending it starts a search from `v`. */
  lemma SearchStart(adj: seq<seq<nat>>, entry: seq<bool>, now: seq<bool>, conn: seq<nat>, v: nat)
    requires v < |entry| && !entry[v] && now == entry[v := true]
    ensures Searched(adj, entry, now, conn, conn + [v], v) && Closed(adj, now, (conn + [v])[|conn| + 1..])
  {
    var r := conn + [v];
    assert r[|conn|..] == [v] && r[|conn| + 1..] == [];
    assert r[..|conn|] == conn;
  }

  /** After the search from neighbour `i` of `v`, neighbours `0..i` of `v` are visited. */
  lemma VisitStep(adj: seq<seq<nat>>, here: seq<bool>, now: seq<bool>, pre: seq<nat>, r: seq<nat>, v: nat, i: nat)
    requires Bounded(adj) && |here| == |adj| && v < |adj| && i < |adj[v]|
    requires forall j :: 0 <= j < i ==> here[adj[v][j]]
    requires Searched(adj, here, now, pre, r, adj[v][i])
    ensures forall j :: 0 <= j < i + 1 ==> now[adj[v][j]]
  {
    var w := adj[v][i];
    assert w in r[|pre|..] by {
      assert r[|pre|..][0] == w;
    }
  }

  /** One iteration of `DFS`'s loop that recurses into the unvisited neighbour `i` of `v`
      keeps the loop's invariant. */
  lemma DfsStep(adj: seq<seq<nat>>, entry: seq<bool>, here: seq<bool>, now: seq<bool>,
                conn: seq<nat>, pre: seq<nat>, r: seq<nat>, v: nat, i: nat)
    requires Bounded(adj) && |here| == |adj| && v < |adj| && i < |adj[v]| && !here[adj[v][i]]
    requires Searched(adj, entry, here, conn, pre, v) && Closed(adj, here, pre[|conn| + 1..])
    requires forall j :: 0 <= j < i ==> here[adj[v][j]]
    requires Searched(adj, here, now, pre, r, adj[v][i]) && Closed(adj, now, r[|pre|..])
    ensures Searched(adj, entry, now, conn, r, v) && Closed(adj, now, r[|conn| + 1..])
    ensures forall j :: 0 <= j < i + 1 ==> now[adj[v][j]]
  {
    var w := adj[v][i];
    assert pre == r[..|pre|];
    SearchStep(adj, entry, here, now, conn, pre, r, v, w);
    VisitStep(adj, here, now, pre, r, v, i);
  }

  /** A search whose root has all its neighbours visited is closed from the root on. */
  lemma SearchFinish(adj: seq<seq<nat>>, entry: seq<bool>, now: seq<bool>, conn: seq<nat>, r: seq<nat>, v: nat)
    requires Bounded(adj) && |now| == |adj| && v < |adj|
    requires Searched(adj, entry, now, conn, r, v) && Closed(adj, now, r[|conn| + 1..])
    requires forall j :: 0 <= j < |adj[v]| ==> now[adj[v][j]]
    ensures Closed(adj, now, r[|conn|..])
  {
    assert r[|conn|..] == [v] + r[|conn| + 1..];
    ClosedCons(adj, now, v, r[|conn| + 1..]);
  }

  /** A vertex whose neighbours are all visited extends a closed sequence. */
  lemma ClosedCons(adj: seq<seq<nat>>, now: seq<bool>, v: nat, rest: seq<nat>)
    requires v < |adj| && Closed(adj, now, rest)
    requires forall j :: 0 <= j < |adj[v]| ==> adj[v][j] < |now| && now[adj[v][j]]
    ensures Closed(adj, now, [v] + rest)
  {
    forall i, j | 0 <= i < |[v] + rest| && ([v] + rest)[i] < |adj| && 0 <= j < |adj[([v] + rest)[i]]|
      ensures adj[([v] + rest)[i]][j] < |now| && now[adj[([v] + rest)[i]][j]]
    {
      if i > 0 {
        assert ([v] + rest)[i] == rest[i - 1];
      }
    }
  }

  /** `DFS(v, visited, conn)`: marks `v` and everything reachable from it through unvisited
      vertices, and appends them to `conn` starting with `v`. The appended vertices are exactly
      the newly visited ones, each once, and every neighbour of one of them ends up visited. */
  method Dfs(adj: array<seq<nat>>, v: nat, visited: array<bool>, conn: seq<nat>) returns (r: seq<nat>)
    requires adj.Length == visited.Length && v < visited.Length && !visited[v]
    requires Bounded(adj[..])
    modifies visited
    ensures Searched(adj[..], old(visited[..]), visited[..], conn, r, v)
    ensures Closed(adj[..], visited[..], r[|conn|..])
    decreases Unvisited(visited[..])
  {
    ghost var entry := visited[..];
    visited[v] := true;
    r := conn + [v];
    assert visited[..] == entry[v := true];
    SearchStart(adj[..], entry, visited[..], conn, v);
    var i := 0;
    while i < |adj[v]|
      invariant 0 <= i <= |adj[v]|
      invariant Searched(adj[..], entry, visited[..], conn, r, v)
      invariant Closed(adj[..], visited[..], r[|conn| + 1..])
      invariant forall j :: 0 <= j < i ==> visited[adj[v][j]]
      decreases |adj[v]| - i
    {
      var w := adj[v][i];
      if !visited[w] {
        ghost var pre := r;
        ghost var here := visited[..];
        assert Unvisited(here) < Unvisited(entry) by {
          assert v in Unvisited(entry) && v !in Unvisited(here);
        }
        r := Dfs(adj, w, visited, r);
        DfsStep(adj[..], entry, here, visited[..], conn, pre, r, v, i);
      }
      i := i + 1;
    }
    SearchFinish(adj[..], entry, visited[..], conn, r, v);
  }

  /** Some component holds `u`. */
  ghost predicate Covered(comps: seq<seq<nat>>, u: nat) {
    exists k :: 0 <= k < |comps| && u in comps[k]
  }

  /** A neighbour of any member of `c` is a member of `c`. */
  ghost predicate Complete(adj: seq<seq<nat>>, c: seq<nat>) {
    forall i, j :: 0 <= i < |c| && c[i] < |adj| && 0 <= j < |adj[c[i]]| ==> adj[c[i]][j] in c
  }

  /** Disjoint groups of the vertices below `n`: each non-empty, without duplicates and led by
      its smallest vertex, the groups in increasing order of their leaders. */
  ghost predicate Parts(n: nat, comps: seq<seq<nat>>) {
    && (forall k :: 0 <= k < |comps| ==>
          (&& |comps[k]| > 0 && NoDups(comps[k])
           && (forall x :: x in comps[k] ==> x < n && comps[k][0] <= x)))
    && (forall k1, k2 :: 0 <= k1 < k2 < |comps| ==> comps[k1][0] < comps[k2][0])
    && (forall k1, k2, x :: 0 <= k1 < k2 < |comps| && x in comps[k1] ==> x !in comps[k2])
  }

  /** The components found so far: parts of the vertices, each spanned by a tree of edges from
      its leader and, on symmetric lists, closed under neighbours. */
  ghost predicate Pieces(adj: seq<seq<nat>>, comps: seq<seq<nat>>) {
    && Parts(|adj|, comps)
    && (forall k :: 0 <= k < |comps| ==> Spanned(adj, comps[k], 0))
    && (Symmetric(adj) ==> forall k :: 0 <= k < |comps| ==> Complete(adj, comps[k]))
  }

  /** The components of the whole list: every vertex lies in one of the pieces. */
  ghost predicate ComponentsOf(adj: seq<seq<nat>>, comps: seq<seq<nat>>) {
    && (forall u :: 0 <= u < |adj| ==> Covered(comps, u))
    && Pieces(adj, comps)
  }

  /** The state of the outer loop before vertex `v`: the visited vertices are those of the
      components found, and every vertex below `v` is one of them. */
  ghost predicate Explored(adj: seq<seq<nat>>, visited: seq<bool>, comps: seq<seq<nat>>, v: nat) {
    && |visited| == |adj| && v <= |adj|
    && (forall u :: 0 <= u < |adj| ==> (visited[u] <==> Covered(comps, u)))
    && (forall u :: 0 <= u < v ==> visited[u])
    && Pieces(adj, comps)
    && (forall k :: 0 <= k < |comps| ==> comps[k][0] < v)
  }

  /** Every member of a component found so far is a visited vertex. */
  ghost predicate Marked(adj: seq<seq<nat>>, before: seq<bool>, comps: seq<seq<nat>>) {
    forall k, y :: 0 <= k < |comps| && y in comps[k] ==> y < |adj| && y < |before| && before[y]
  }

  /** A neighbour of a vertex in a complete component found so far is visited too. */
  lemma BackEdge(adj: seq<seq<nat>>, before: seq<bool>, comps: seq<seq<nat>>, w: nat, x: nat)
    requires |before| == |adj| && w < |adj| && x < |adj| && x in adj[w]
    requires forall k :: 0 <= k < |comps| ==> Complete(adj, comps[k])
    requires forall u :: 0 <= u < |adj| && before[u] ==> Covered(comps, u)
    requires Marked(adj, before, comps)
    ensures before[w] ==> before[x]
  {
    if before[w] {
      var k :| 0 <= k < |comps| && w in comps[k];
      var i' :| 0 <= i' < |comps[k]| && comps[k][i'] == w;
      var j' :| 0 <= j' < |adj[w]| && adj[w][j'] == x;
      assert Complete(adj, comps[k]);
      assert x in comps[k];
    }
  }

  lemma SearchComplete(adj: seq<seq<nat>>, before: seq<bool>, after: seq<bool>, comps: seq<seq<nat>>, r: seq<nat>)
    requires Symmetric(adj) && |before| == |adj| && |after| == |adj|
    requires forall k :: 0 <= k < |comps| ==> Complete(adj, comps[k])
    requires forall u :: 0 <= u < |adj| && before[u] ==> Covered(comps, u)
    requires Marked(adj, before, comps)
    requires forall u :: 0 <= u < |adj| && after[u] && !before[u] ==> u in r
    requires forall x :: x in r ==> x < |adj| && !before[x]
    requires Closed(adj, after, r)
    ensures Complete(adj, r)
  {
    forall i, j | 0 <= i < |r| && r[i] < |adj| && 0 <= j < |adj[r[i]]| ensures adj[r[i]][j] in r {
      var x, w := r[i], adj[r[i]][j];
      assert x in adj[w];
      BackEdge(adj, before, comps, w, x);
      assert x in r && after[w];
    }
  }

  /** After a search from `v`, the visited vertices are those of the components with the new one. */
  lemma CoverStep(adj: seq<seq<nat>>, before: seq<bool>, after: seq<bool>, comps: seq<seq<nat>>, r: seq<nat>)
    requires |before| == |adj| && |after| == |adj|
    requires forall u :: 0 <= u < |adj| ==> (before[u] <==> Covered(comps, u))
    requires forall u :: 0 <= u < |adj| && before[u] ==> after[u]
    requires forall u :: 0 <= u < |adj| ==> (after[u] && !before[u] <==> u in r)
    ensures forall u :: 0 <= u < |adj| ==> (after[u] <==> Covered(comps + [r], u))
  {
    var cs := comps + [r];
    forall u | 0 <= u < |adj| ensures after[u] <==> Covered(cs, u) {
      if Covered(comps, u) {
        var k :| 0 <= k < |comps| && u in comps[k];
        assert cs[k] == comps[k];
      }
      if u in r {
        assert cs[|comps|] == r;
      }
      if Covered(cs, u) {
        var k :| 0 <= k < |cs| && u in cs[k];
        if k < |comps| {
          assert Covered(comps, u);
        }
      }
    }
  }

  /** A new component of unvisited vertices led by `v`, beyond every earlier leader, keeps the pieces. */
  lemma PiecesStep(adj: seq<seq<nat>>, comps: seq<seq<nat>>, r: seq<nat>, v: nat)
    requires Pieces(adj, comps) && (forall k :: 0 <= k < |comps| ==> comps[k][0] < v)
    requires |r| > 0 && r[0] == v && NoDups(r) && Spanned(adj, r, 0)
    requires forall x :: x in r ==> x < |adj| && v <= x
    requires forall k, x :: 0 <= k < |comps| && x in comps[k] ==> x !in r
    requires Symmetric(adj) ==> Complete(adj, r)
    ensures Pieces(adj, comps + [r])
  {
  }

  /** What a search from the unvisited `v` appended is new: no vertex of an earlier component,
      every vertex unvisited before the search and not below `v`. */
  lemma FreshSearch(adj: seq<seq<nat>>, before: seq<bool>, after: seq<bool>, comps: seq<seq<nat>>, r: seq<nat>, v: nat)
    requires |before| == |adj| && |after| == |adj| && v < |adj|
    requires forall u :: 0 <= u < |adj| ==> (before[u] <==> Covered(comps, u))
    requires Parts(|adj|, comps)
    requires forall u :: 0 <= u < v ==> before[u]
    requires forall u :: 0 <= u < |before| ==> (after[u] && !before[u] <==> u in r)
    requires forall x :: x in r ==> x < |before|
    ensures forall k, x :: 0 <= k < |comps| && x in comps[k] ==> x !in r
    ensures forall x :: x in r ==> x < |adj| && !before[x] && v <= x
    ensures Marked(adj, before, comps)
  {
    forall k, x | 0 <= k < |comps| && x in comps[k] ensures x < |adj| && x < |before| && before[x] && x !in r {
      assert Covered(comps, x);
    }
  }

  /** A search from the unvisited vertex `v` adds one component. */
  lemma ExploreStep(adj: seq<seq<nat>>, before: seq<bool>, after: seq<bool>, comps: seq<seq<nat>>, r: seq<nat>, v: nat)
    requires Explored(adj, before, comps, v) && v < |adj| && !before[v]
    requires Searched(adj, before, after, [], r, v) && Closed(adj, after, r)
    ensures Explored(adj, after, comps + [r], v + 1)
  {
    SearchedFromRoot(adj, before, after, r, v);
    ExploreFresh(adj, before, after, comps, r, v);
  }

  /** A search from `v` that started with nothing collected, read without the empty prefix. */
  lemma SearchedFromRoot(adj: seq<seq<nat>>, before: seq<bool>, after: seq<bool>, r: seq<nat>, v: nat)
    requires Searched(adj, before, after, [], r, v)
    ensures |after| == |before| && |r| > 0 && r[0] == v
    ensures forall u :: 0 <= u < |before| && before[u] ==> after[u]
    ensures forall u :: 0 <= u < |before| ==> (after[u] && !before[u] <==> u in r)
    ensures forall x :: x in r ==> x < |before|
    ensures NoDups(r) && Spanned(adj, r, 0)
  {
    assert r[0..] == r;
  }

  /** The step of `ExploreStep`, from the facts of a search that started with nothing collected. */
  lemma ExploreFresh(adj: seq<seq<nat>>, before: seq<bool>, after: seq<bool>, comps: seq<seq<nat>>, r: seq<nat>, v: nat)
    requires Explored(adj, before, comps, v) && v < |adj| && !before[v]
    requires |after| == |before| && |r| > 0 && r[0] == v
    requires forall u :: 0 <= u < |before| && before[u] ==> after[u]
    requires forall u :: 0 <= u < |before| ==> (after[u] && !before[u] <==> u in r)
    requires forall x :: x in r ==> x < |before|
    requires NoDups(r) && Spanned(adj, r, 0) && Closed(adj, after, r)
    ensures Explored(adj, after, comps + [r], v + 1)
  {
    CoverStep(adj, before, after, comps, r);
    ExplorePieces(adj, before, after, comps, r, v);
    VisitedStep(before, after, r, v);
    LeadersStep(comps, r, v);
  }

  /** After a search from `v`, every vertex up to `v` is visited. */
  lemma VisitedStep(before: seq<bool>, after: seq<bool>, r: seq<nat>, v: nat)
    requires v < |before| && |after| == |before| && |r| > 0 && r[0] == v
    requires forall u :: 0 <= u < v ==> before[u]
    requires forall u :: 0 <= u < |before| && before[u] ==> after[u]
    requires forall u :: 0 <= u < |before| ==> (after[u] && !before[u] <==> u in r)
    ensures forall u :: 0 <= u < v + 1 ==> after[u]
  {
    assert v in r;
  }

  /** Appending a component led by `v` to components led below `v` keeps every leader below `v + 1`. */
  lemma LeadersStep(comps: seq<seq<nat>>, r: seq<nat>, v: nat)
    requires forall k :: 0 <= k < |comps| ==> |comps[k]| > 0 && comps[k][0] < v
    requires |r| > 0 && r[0] == v
    ensures forall k :: 0 <= k < |comps + [r]| ==> |(comps + [r])[k]| > 0 && (comps + [r])[k][0] < v + 1
  {
    forall k | 0 <= k < |comps + [r]| ensures |(comps + [r])[k]| > 0 && (comps + [r])[k][0] < v + 1 {
      if k < |comps| {
        assert (comps + [r])[k] == comps[k];
      }
    }
  }

  /** The new component keeps the pieces. */
  lemma ExplorePieces(adj: seq<seq<nat>>, before: seq<bool>, after: seq<bool>, comps: seq<seq<nat>>, r: seq<nat>, v: nat)
    requires Explored(adj, before, comps, v) && v < |adj| && !before[v]
    requires |after| == |before| && |r| > 0 && r[0] == v
    requires forall u :: 0 <= u < |before| ==> (after[u] && !before[u] <==> u in r)
    requires forall x :: x in r ==> x < |before|
    requires NoDups(r) && Spanned(adj, r, 0) && Closed(adj, after, r)
    ensures Pieces(adj, comps + [r])
  {
    FreshSearch(adj, before, after, comps, r, v);
    if Symmetric(adj) {
      SearchComplete(adj, before, after, comps, r);
    }
    PiecesStep(adj, comps, r, v);
  }

  /** The outer loop of `connectedComponents`: a search from every vertex not yet visited, in
      increasing order, each collecting one component. */
  method Components(adj: array<seq<nat>>) returns (comps: seq<seq<nat>>)
    requires Bounded(adj[..])
    ensures ComponentsOf(adj[..], comps)
  {
    var visited := new bool[adj.Length](_ => false);
    comps := [];
    for v := 0 to adj.Length
      invariant Explored(adj[..], visited[..], comps, v)
    {
      if !visited[v] {
        ghost var before := visited[..];
        var c := Dfs(adj, v, visited, []);
        ExploreStep(adj[..], before, visited[..], comps, c, v);
        comps := comps + [c];
      }
    }
  }

  /** In an encoding of duplicate-free ids, the index of an id is its position. */
  lemma EncodedIndex(enc: map<string, nat>, ids: seq<string>, x: string)
    requires Encodes(enc, ids) && NoDups(ids) && x in enc
    ensures enc[x] == IndexOf(ids, x)
  {
    IndexOfDistinct(ids, enc[x]);
  }

  /** The lists `addEdge` builds from all the edges are symmetric. */
  lemma LinkedSymmetric(adj: seq<seq<nat>>, edges: seq<Edge>, ids: seq<string>, enc: map<string, nat>)
    requires Linked(adj, edges, |edges|, ids, enc) && NoDups(ids)
    ensures Symmetric(adj)
  {
    forall u, j | 0 <= u < |adj| && 0 <= j < |adj[u]| ensures adj[u][j] < |adj| && u in adj[adj[u][j]] {
      var w := adj[u][j];
      assert u < |ids| && w < |ids| && Joined(edges, ids[u], ids[w]);
      var m :| 0 <= m < |edges| && ((edges[m].source == ids[u] && edges[m].target == ids[w])
                                    || (edges[m].source == ids[w] && edges[m].target == ids[u]));
      IndexOfDistinct(ids, u);
      IndexOfDistinct(ids, w);
      EncodedIndex(enc, ids, ids[u]);
      EncodedIndex(enc, ids, ids[w]);
    }
  }

  /** Both ends of every edge lie in the same component. */
  lemma EdgeTogether(adj: seq<seq<nat>>, edges: seq<Edge>, ids: seq<string>, enc: map<string, nat>,
                     comps: seq<seq<nat>>, m: nat, k: nat)
    requires Linked(adj, edges, |edges|, ids, enc) && NoDups(ids) && ComponentsOf(adj, comps)
    requires m < |edges| && k < |comps|
    ensures IndexOf(ids, edges[m].source) in comps[k] <==> IndexOf(ids, edges[m].target) in comps[k]
  {
    LinkedSymmetric(adj, edges, ids, enc);
    var a, b := enc[edges[m].source], enc[edges[m].target];
    EncodedIndex(enc, ids, edges[m].source);
    EncodedIndex(enc, ids, edges[m].target);
    assert b in adj[a] && a in adj[b];
    assert Complete(adj, comps[k]);
    if a in comps[k] {
      var i :| 0 <= i < |comps[k]| && comps[k][i] == a;
      var j :| 0 <= j < |adj[a]| && adj[a][j] == b;
    }
    if b in comps[k] {
      var i :| 0 <= i < |comps[k]| && comps[k][i] == b;
      var j :| 0 <= j < |adj[b]| && adj[b][j] == a;
    }
  }

  /** The vertex at position `t > 0` of a component is an id joined by an edge to the id of a
      vertex listed before it. */
  ghost predicate Attached(edges: seq<Edge>, ids: seq<string>, c: seq<nat>, t: nat) {
    t < |c| && c[t] < |ids| && exists s :: 0 <= s < t && c[s] < |ids| && Joined(edges, ids[c[s]], ids[c[t]])
  }

  lemma TreeJoined(adj: seq<seq<nat>>, edges: seq<Edge>, ids: seq<string>, c: seq<nat>, t: nat)
    requires Sound(adj, edges, ids) && Spanned(adj, c, 0) && 0 < t < |c|
    ensures Attached(edges, ids, c, t)
  {
    SpannedAt(adj, c, 0, t);
    var s :| 0 <= s < t && c[s] < |adj| && c[t] in adj[c[s]];
    var j :| 0 <= j < |adj[c[s]]| && adj[c[s]][j] == c[t];
  }

  /** The components in terms of the edges: a partition of the `n` vertices, led by their
      smallest vertex and in increasing order; both ends of every edge in the same component; and
      every vertex of a component after the first joined by an edge to one listed before it, so
      that the component is connected. */
  ghost predicate EdgeComponents(edges: seq<Edge>, n: nat, comps: seq<seq<nat>>) {
    && Parts(n, comps)
    && (forall u :: 0 <= u < n ==> Covered(comps, u))
    && (forall m, k :: 0 <= m < |edges| && 0 <= k < |comps| ==>
          (IndexOf(Ids(edges), edges[m].source) in comps[k] <==> IndexOf(Ids(edges), edges[m].target) in comps[k]))
    && (forall k, t :: 0 <= k < |comps| && 0 < t < |comps[k]| ==> Attached(edges, Ids(edges), comps[k], t))
  }

  /** The components of the lists built from all the edges are the components of the edges. */
  lemma LinkedComponents(adj: seq<seq<nat>>, edges: seq<Edge>, enc: map<string, nat>, comps: seq<seq<nat>>)
    requires Linked(adj, edges, |edges|, Ids(edges), enc) && ComponentsOf(adj, comps)
    ensures EdgeComponents(edges, |adj|, comps)
  {
    var ids := Ids(edges);
    forall m, k | 0 <= m < |edges| && 0 <= k < |comps|
      ensures IndexOf(ids, edges[m].source) in comps[k] <==> IndexOf(ids, edges[m].target) in comps[k]
    {
      EdgeTogether(adj, edges, ids, enc, comps, m, k);
    }
    forall k, t | 0 <= k < |comps| && 0 < t < |comps[k]| ensures Attached(edges, ids, comps[k], t) {
      TreeJoined(adj, edges, ids, comps[k], t);
    }
  }

  /** A chain of ids, each joined by an edge to the next. */
  ghost predicate Chained(edges: seq<Edge>, path: seq<string>) {
    forall i :: 0 <= i < |path| - 1 ==> Joined(edges, path[i], path[i + 1])
  }

  /** Transitivity: ids linked by a chain of edges end up in the same component. */
  lemma {:induction false} ChainSameComponent(edges: seq<Edge>, n: nat, comps: seq<seq<nat>>, path: seq<string>, k: nat)
    requires EdgeComponents(edges, n, comps) && k < |comps|
    requires |path| > 0 && Chained(edges, path) && IndexOf(Ids(edges), path[0]) in comps[k]
    ensures IndexOf(Ids(edges), path[|path| - 1]) in comps[k]
    decreases |path|
  {
    if |path| > 1 {
      var p := path[..|path| - 1];
      assert Chained(edges, p) by {
        forall i | 0 <= i < |p| - 1 ensures Joined(edges, p[i], p[i + 1]) {
          assert p[i] == path[i] && p[i + 1] == path[i + 1];
        }
      }
      ChainSameComponent(edges, n, comps, p, k);
      var a, b := path[|path| - 2], path[|path| - 1];
      assert Joined(edges, a, b);
      var m :| 0 <= m < |edges| && ((edges[m].source == a && edges[m].target == b) || (edges[m].source == b && edges[m].target == a));
      assert IndexOf(Ids(edges), edges[m].source) in comps[k] <==> IndexOf(Ids(edges), edges[m].target) in comps[k];
    }
  }

  /** A sub-network of `connectedComponents`' result. A node is `undefined` when no node carries
      the id the search produced. */
  datatype Cluster = Cluster(nodes: seq<Option<JsRow>>, edges: seq<Edge>)

  /** `Object.keys(edgeEncodings).find((x) => edgeEncodings[x] === u)`: the id encoded as `u`, or
      `undefined` for a vertex no edge mentions. */
  function NodeId(ids: seq<string>, u: nat): (r: JsValue)
    ensures r == Undefined <==> u >= |ids|
    ensures r.Str? ==> r.s == ids[u]
  {
    if u < |ids| then Str(ids[u]) else Undefined
  }

  /** The key of `edgeEncodings` that maps to `u` is the id at position `u`, whatever order the
      keys are listed in. */
  lemma EncodedKey(enc: map<string, nat>, ids: seq<string>, u: nat, x: string)
    requires Encodes(enc, ids) && NoDups(ids)
    ensures (x in enc && enc[x] == u) <==> NodeId(ids, u) == Str(x)
  {
    if u < |ids| {
      IndexOfDistinct(ids, u);
    }
  }

  /** `nodes.find((n) => n[idField] === key)`. */
  function FindNode(nodes: seq<JsRow>, idField: string, key: JsValue): (r: Option<JsRow>)
    ensures r.None? <==> forall i :: 0 <= i < |nodes| ==> Get(nodes[i], idField) != key
    ensures r.Some? ==> exists i :: (0 <= i < |nodes| && nodes[i] == r.value && Get(nodes[i], idField) == key
                                     && forall j :: 0 <= j < i ==> Get(nodes[j], idField) != key)
  {
    if nodes == [] then None
    else if Get(nodes[0], idField) == key then Some(nodes[0])
    else
      var r := FindNode(nodes[1..], idField, key);
      assert forall i :: 1 <= i < |nodes| ==> nodes[i] == nodes[1..][i - 1];
      if r.Some? then
        var i :| 0 <= i < |nodes[1..]| && nodes[1..][i] == r.value && Get(nodes[1..][i], idField) == key
                  && forall j :: 0 <= j < i ==> Get(nodes[1..][j], idField) != key;
        assert nodes[i + 1] == r.value;
        r
      else r
  }

  /** `net.edges.filter(({ source }) => node[idField] === source)`: the edges leaving `node`;
      reading a property of an `undefined` node throws once the filter calls back at all. */
  function EdgesFrom(node: Option<JsRow>, edges: seq<Edge>, idField: string): (r: Result<seq<Edge>, JsError>)
    ensures r.Failure? <==> node.None? && edges != []
    ensures r.Failure? ==> r.error == TypeError
    ensures r.Success? ==> forall e :: e in r.value <==> e in edges && node.Some? && Get(node.value, idField) == Str(e.source)
  {
    match node
    case None => if edges == [] then Success([]) else Failure(TypeError)
    case Some(n) => Success(Filter(edges, (e: Edge) => Get(n, idField) == Str(e.source)))
  }

  /** One component as a sub-network: its nodes looked up by id, then the edges leaving each. */
  function ClusterOf(comp: seq<nat>, ids: seq<string>, nodes: seq<JsRow>, edges: seq<Edge>, idField: string): (r: Result<Cluster, JsError>)
  {
    var found := seq(|comp|, i requires 0 <= i < |comp| => FindNode(nodes, idField, NodeId(ids, comp[i])));
    var out :- MapResult((n: Option<JsRow>) => EdgesFrom(n, edges, idField), found);
    Success(Cluster(found, Flatten(out)))
  }

  /** `connectedComponents.map(...)`: every component as a sub-network, in order. */
  function Clusters(comps: seq<seq<nat>>, ids: seq<string>, nodes: seq<JsRow>, edges: seq<Edge>, idField: string): Result<seq<Cluster>, JsError> {
    MapResult((c: seq<nat>) => ClusterOf(c, ids, nodes, edges, idField), comps)
  }

  /** A component's sub-network exists unless a node is missing while there are edges to filter;
      its nodes are those found for its vertices, in the order of the search. */
  lemma ClusterOfShape(comp: seq<nat>, ids: seq<string>, nodes: seq<JsRow>, edges: seq<Edge>, idField: string)
    ensures ClusterOf(comp, ids, nodes, edges, idField).Success? <==>
      edges == [] || forall i :: 0 <= i < |comp| ==> FindNode(nodes, idField, NodeId(ids, comp[i])).Some?
    ensures ClusterOf(comp, ids, nodes, edges, idField).Failure? ==> ClusterOf(comp, ids, nodes, edges, idField).error == TypeError
    ensures ClusterOf(comp, ids, nodes, edges, idField).Success? ==>
      var c := ClusterOf(comp, ids, nodes, edges, idField).value;
      |c.nodes| == |comp| && forall i :: 0 <= i < |comp| ==> c.nodes[i] == FindNode(nodes, idField, NodeId(ids, comp[i]))
  {
    var found := seq(|comp|, i requires 0 <= i < |comp| => FindNode(nodes, idField, NodeId(ids, comp[i])));
    var f := (n: Option<JsRow>) => EdgesFrom(n, edges, idField);
    assert forall i :: 0 <= i < |comp| ==> found[i] == FindNode(nodes, idField, NodeId(ids, comp[i]));
    MapResultSucceeds(f, found);
    assert forall k :: 0 <= k < |found| ==> (f(found[k]).Success? <==> edges == [] || found[k].Some?);
    if MapResult(f, found).Failure? {
      MapResultFailure(f, found);
    }
  }

  /** The edges of a component's sub-network are exactly the edges whose source is one of its
      vertices. */
  lemma ClusterEdgesBySource(comp: seq<nat>, edges: seq<Edge>, nodes: seq<JsRow>, idField: string)
    requires ClusterOf(comp, Ids(edges), nodes, edges, idField).Success?
    ensures forall e :: e in ClusterOf(comp, Ids(edges), nodes, edges, idField).value.edges <==>
      e in edges && IndexOf(Ids(edges), e.source) in comp
  {
    var ids := Ids(edges);
    var found := seq(|comp|, i requires 0 <= i < |comp| => FindNode(nodes, idField, NodeId(ids, comp[i])));
    var f := (n: Option<JsRow>) => EdgesFrom(n, edges, idField);
    var out := MapResult(f, found).value;
    MapResultValue(f, found);
    ClusterOfShape(comp, ids, nodes, edges, idField);
    forall e ensures e in Flatten(out) <==> e in edges && IndexOf(ids, e.source) in comp {
      FlattenMembership(out, e);
      if e in Flatten(out) {
        var i :| 0 <= i < |out| && e in out[i];
        assert f(found[i]) == Success(out[i]);
        var n := found[i].value;
        assert Get(n, idField) == Str(e.source) && Get(n, idField) == NodeId(ids, comp[i]);
        IndexOfDistinct(ids, comp[i]);
      }
      if e in edges && IndexOf(ids, e.source) in comp {
        EndpointsMembership(edges, e.source);
        var i :| 0 <= i < |comp| && comp[i] == IndexOf(ids, e.source);
        assert f(found[i]) == Success(out[i]);
        assert e in out[i];
      }
    }
  }

  /** All the sub-networks exist unless some vertex's node is missing while there are edges. */
  lemma ClustersSucceed(comps: seq<seq<nat>>, ids: seq<string>, nodes: seq<JsRow>, edges: seq<Edge>, idField: string)
    requires Parts(|nodes|, comps) && forall u :: 0 <= u < |nodes| ==> Covered(comps, u)
    ensures Clusters(comps, ids, nodes, edges, idField).Success? <==>
      edges == [] || forall u :: 0 <= u < |nodes| ==> FindNode(nodes, idField, NodeId(ids, u)).Some?
    ensures Clusters(comps, ids, nodes, edges, idField).Failure? ==> Clusters(comps, ids, nodes, edges, idField).error == TypeError
  {
    var f := (c: seq<nat>) => ClusterOf(c, ids, nodes, edges, idField);
    MapResultSucceeds(f, comps);
    forall k | 0 <= k < |comps| {
      ClusterOfShape(comps[k], ids, nodes, edges, idField);
    }
    if edges != [] && forall u :: 0 <= u < |nodes| ==> FindNode(nodes, idField, NodeId(ids, u)).Some? {
      forall k, i | 0 <= k < |comps| && 0 <= i < |comps[k]| ensures FindNode(nodes, idField, NodeId(ids, comps[k][i])).Some? {
        assert comps[k][i] in comps[k];
      }
    }
    if edges != [] && exists u :: 0 <= u < |nodes| && FindNode(nodes, idField, NodeId(ids, u)).None? {
      var u :| 0 <= u < |nodes| && FindNode(nodes, idField, NodeId(ids, u)).None?;
      assert Covered(comps, u);
      var k :| 0 <= k < |comps| && u in comps[k];
      var i :| 0 <= i < |comps[k]| && comps[k][i] == u;
      assert f(comps[k]).Failure?;
    }
    if MapResult(f, comps).Failure? {
      MapResultFailure(f, comps);
    }
  }

  /** Every edge lands in exactly one sub-network: the one holding its source. */
  lemma EdgeInOneCluster(comps: seq<seq<nat>>, edges: seq<Edge>, nodes: seq<JsRow>, idField: string, m: nat)
    requires EdgeComponents(edges, |nodes|, comps) && |Ids(edges)| <= |nodes| && m < |edges|
    requires Clusters(comps, Ids(edges), nodes, edges, idField).Success?
    ensures var cs := Clusters(comps, Ids(edges), nodes, edges, idField).value;
      && |cs| == |comps|
      && (exists k :: 0 <= k < |cs| && edges[m] in cs[k].edges)
      && (forall k1, k2 :: 0 <= k1 < |cs| && 0 <= k2 < |cs| && edges[m] in cs[k1].edges && edges[m] in cs[k2].edges ==> k1 == k2)
  {
    var ids := Ids(edges);
    var f := (c: seq<nat>) => ClusterOf(c, ids, nodes, edges, idField);
    MapResultValue(f, comps);
    var cs := MapResult(f, comps).value;
    forall k | 0 <= k < |comps| ensures forall e :: e in cs[k].edges <==> e in edges && IndexOf(ids, e.source) in comps[k] {
      assert f(comps[k]) == Success(cs[k]);
      ClusterEdgesBySource(comps[k], edges, nodes, idField);
    }
    EndpointsMembership(edges, edges[m].source);
    var u := IndexOf(ids, edges[m].source);
    assert Covered(comps, u);
    var k :| 0 <= k < |comps| && u in comps[k];
    assert edges[m] in cs[k].edges;
    forall k1, k2 | 0 <= k1 < |cs| && 0 <= k2 < |cs| && edges[m] in cs[k1].edges && edges[m] in cs[k2].edges ensures k1 == k2 {
    }
  }

  /** A node no edge mentions makes the assembly throw as soon as there is an edge: its vertex
      has no id, and no node has an `undefined` id. */
  lemma UnmentionedNodeFails(edges: seq<Edge>, nodes: seq<JsRow>, idField: string)
    requires |Ids(edges)| < |nodes| && edges != []
    requires forall i :: 0 <= i < |nodes| ==> Get(nodes[i], idField) != Undefined
    ensures !(forall u :: 0 <= u < |nodes| ==> FindNode(nodes, idField, NodeId(Ids(edges), u)).Some?)
  {
    assert FindNode(nodes, idField, NodeId(Ids(edges), |Ids(edges)|)).None?;
  }

  /** `connectedComponents(net, idField)`: `adjListArray` of `V = net.nodes.length` empty lists,
      `addEdge` on every edge, a search from every unvisited vertex, then one sub-network per
      component. It throws a TypeError when the edges carry more ids than there are nodes, or when
      a vertex's node is missing while there are edges; otherwise `comps` are the components of
      the edges and the result is their sub-networks. */
  method ConnectedComponents(net: Network, idField: string) returns (r: Result<seq<Cluster>, JsError>, ghost comps: seq<seq<nat>>)
    ensures r.Failure? ==> r.error == TypeError
    ensures r.Success? <==>
      && |Ids(net.edges)| <= |net.nodes|
      && (net.edges == [] || forall u :: 0 <= u < |net.nodes| ==> FindNode(net.nodes, idField, NodeId(Ids(net.edges), u)).Some?)
    ensures |Ids(net.edges)| <= |net.nodes| ==>
      && EdgeComponents(net.edges, |net.nodes|, comps)
      && r == Clusters(comps, Ids(net.edges), net.nodes, net.edges, idField)
  {
    var adj := new seq<nat>[|net.nodes|](_ => []);
    var encodings := AddEdges(net.edges, adj);
    if encodings.Failure? {
      return Failure(TypeError), [];
    }
    LinkedSymmetric(adj[..], net.edges, Ids(net.edges), encodings.value);
    var connected := Components(adj);
    comps := connected;
    LinkedComponents(adj[..], net.edges, encodings.value, comps);
    ClustersSucceed(comps, Ids(net.edges), net.nodes, net.edges, idField);
    r := Clusters(connected, Ids(net.edges), net.nodes, net.edges, idField);
  }
}
