/** The rest of the graph effect in src/components/LoadGraph.jsx: one
    conversation node per conversation (its earliest message), conversations
    grouped by cluster, the legend handed to the parent, and the graphology
    graph of cluster nodes, conversation nodes and one edge per
    conversation. Clusters of fewer than two conversations are outliers:
    blank label, black colour. The UMAP layout is not modelled; nodes carry
    no coordinates. */
module GraphAssembly {
  import opened Wrappers
  import opened Seqs
  import opened Text
  import opened Messages
  import opened Grouping
  import opened ClusterColors
  import opened Labeler
  import opened FirstMessages

  const TitleLength: nat := 60
  const LabelWords: nat := 3
  const MinClusterSize: nat := 2
  const MaxNeighbors: int := 10
  const Black: string := "#000000"

  /** `{ id, cluster, label }` built from a conversation's first message. */
  datatype Convo = Convo(id: string, cluster: nat, caption: string)

  function ConvoOf(m: ClusteredMessage): Convo {
    Convo(m.message.conversationId, m.clusterId, Prefix(m.message.conversationTitle, TitleLength))
  }

  function Convos(msgs: seq<ClusteredMessage>): seq<Convo> {
    var fs := Firsts(msgs);
    seq(|fs|, i requires 0 <= i < |fs| => ConvoOf(fs[i]))
  }

  function ConvoId(c: Convo): string {
    c.id
  }

  /** One conversation node per conversation, in order of first appearance,
      built from the conversation's earliest message. */
  lemma ConvosMeaning(msgs: seq<ClusteredMessage>)
    ensures KeysOf(Convos(msgs), ConvoId) == FirstOccurrences(KeysOf(msgs, Conv))
    ensures Distinct(KeysOf(Convos(msgs), ConvoId))
    ensures forall i :: 0 <= i < |Convos(msgs)| ==>
      exists p: nat :: Chosen(msgs, p) && Convos(msgs)[i] == ConvoOf(msgs[p])
  {
    var cs := Convos(msgs);
    assert KeysOf(cs, ConvoId) == Convs(Firsts(msgs));
    FirstsKeys(msgs);
    forall i | 0 <= i < |cs| ensures exists p: nat :: Chosen(msgs, p) && cs[i] == ConvoOf(msgs[p]) {
      FirstsChosen(msgs, i);
    }
  }

  function ClusterOf(c: Convo): nat {
    c.cluster
  }

  /** The `clusters` map: conversations grouped by cluster id in order of
      first appearance. */
  function Clusters(cs: seq<Convo>): seq<Group<nat, Convo>> {
    GroupBy(cs, ClusterOf)
  }

  /** `` `cluster-${id}` ``. */
  function ClusterNodeId(k: nat): string {
    "cluster-" + NatToString(k)
  }

  /** `s.split(sep)` for a one-character separator: the pieces between
      separators, empty pieces included. */
  function Split(s: string, sep: char): (parts: seq<string>)
    ensures |parts| >= 1
  {
    if s == [] then [""]
    else
      var rest := Split(s[1..], sep);
      if s[0] == sep then [""] + rest else [[s[0]] + rest[0]] + rest[1..]
  }

  /** Joining the pieces with the separator gives the string back. */
  lemma {:induction false} JoinSplit(s: string, sep: char)
    ensures Join(Split(s, sep), [sep]) == s
  {
    if s != [] {
      var rest := Split(s[1..], sep);
      JoinSplit(s[1..], sep);
      if s[0] == sep {
        assert Split(s, sep)[1..] == rest;
      } else if |rest| > 1 {
        assert Split(s, sep)[1..] == rest[1..];
        assert Join(rest, [sep]) == rest[0] + [sep] + Join(rest[1..], [sep]);
      }
    }
  }

  /** A string without the separator is one piece. */
  lemma {:induction false} SplitWhole(s: string, sep: char)
    requires sep !in s
    ensures Split(s, sep) == [s]
  {
    if s != [] {
      assert s[0] in s;
      assert forall c :: c in s[1..] ==> c in s;
      SplitWhole(s[1..], sep);
      assert [s[0]] + s[1..] == s;
    }
  }

  /** A separator after a piece `w` starts the next piece. */
  lemma {:induction false} SplitAfter(w: string, sep: char, t: string)
    requires sep !in w
    ensures Split(w + [sep] + t, sep) == [w] + Split(t, sep)
  {
    if w == [] {
      assert w + [sep] + t == [sep] + t;
      assert ([sep] + t)[1..] == t;
    } else {
      SplitAfter(w[1..], sep, t);
      assert (w + [sep] + t)[1..] == w[1..] + [sep] + t;
      assert [w[0]] + w[1..] == w;
    }
  }

  /** `` `cluster-${k}`.split('-') `` is `["cluster", String(k)]`. */
  lemma ClusterIdParts(k: nat)
    ensures Split(ClusterNodeId(k), '-') == ["cluster", NatToString(k)]
  {
    var digits := NatToString(k);
    assert '-' !in digits;
    SplitWhole(digits, '-');
    assert ClusterNodeId(k) == "cluster" + ['-'] + digits;
    SplitAfter("cluster", '-', digits);
  }

  /** `Number(id.split('-')[1])` on a cluster node id. */
  function ClusterNumber(id: string): nat
    requires |Split(id, '-')| >= 2
    requires forall i :: 0 <= i < |Split(id, '-')[1]| ==> IsDigit(Split(id, '-')[1][i])
  {
    ParseDigits(Split(id, '-')[1])
  }

  /** The cluster id read back from the node id is the cluster id. */
  lemma ClusterNumberOfId(k: nat)
    ensures |Split(ClusterNodeId(k), '-')| >= 2
    ensures forall i :: 0 <= i < |Split(ClusterNodeId(k), '-')[1]| ==> IsDigit(Split(ClusterNodeId(k), '-')[1][i])
    ensures ClusterNumber(ClusterNodeId(k)) == k
  {
    ClusterIdParts(k);
    ParsePrinted(k);
  }

  /** Different clusters get different node ids. */
  lemma ClusterNodeIdInjective(a: nat, b: nat)
    requires ClusterNodeId(a) == ClusterNodeId(b)
    ensures a == b
  {
    ClusterNumberOfId(a);
    ClusterNumberOfId(b);
  }

  /** `cl.convos.map(conv => conv.label || "")`. */
  function Labels(cs: seq<Convo>): seq<string> {
    seq(|cs|, i requires 0 <= i < |cs| => cs[i].caption)
  }

  /** The label of a cluster: blank for an outlier, else its top three title
      words, else `cluster <id>`. */
  function ClusterLabel(g: Group<nat, Convo>): string {
    if |g.members| < MinClusterSize then " "
    else
      var words := GetTopWords(Labels(g.members), LabelWords);
      if words != "" then words
      else
        ClusterIdParts(g.key);
        "cluster " + Split(ClusterNodeId(g.key), '-')[1]
  }

  datatype LegendEntry = LegendEntry(id: string, caption: string, color: string, count: nat)

  /** One legend row: outliers are black, other clusters take their palette
      colour. */
  function LegendOf(g: Group<nat, Convo>): LegendEntry {
    var id := ClusterNodeId(g.key);
    if |g.members| < MinClusterSize then LegendEntry(id, ClusterLabel(g), Black, |g.members|)
    else
      ClusterNumberOfId(g.key);
      LegendEntry(id, ClusterLabel(g), ColorForCluster(ClusterNumber(id), false), |g.members|)
  }

  function Legend(gs: seq<Group<nat, Convo>>): seq<LegendEntry> {
    seq(|gs|, i requires 0 <= i < |gs| => LegendOf(gs[i]))
  }

  /** A join of words never starts with a space. */
  lemma JoinOfWordsStart(ws: seq<string>, sep: string)
    requires |ws| >= 1 && IsWord(ws[0])
    ensures |Join(ws, sep)| >= 1 && Join(ws, sep)[0] == ws[0][0]
  {
    if |ws| > 1 {
      assert Join(ws, sep) == ws[0] + (sep + Join(ws[1..], sep));
    }
  }

  /** Only an outlier gets the blank label, and only an outlier is black;
      any other cluster shows its palette colour. */
  lemma LegendOutlier(g: Group<nat, Convo>)
    ensures LegendOf(g).caption == " " <==> |g.members| < MinClusterSize
    ensures LegendOf(g).color == Black <==> |g.members| < MinClusterSize
    ensures |g.members| >= MinClusterSize ==> LegendOf(g).color == ColorForCluster(g.key, false)
    ensures LegendOf(g).id == ClusterNodeId(g.key) && LegendOf(g).count == |g.members|
  {
    if |g.members| >= MinClusterSize {
      ClusterNumberOfId(g.key);
      PaletteHasNoBlack();
      assert ColorForCluster(g.key, false) == Palette[g.key % PaletteSize];
      var texts := Labels(g.members);
      var words := GetTopWords(texts, LabelWords);
      if words != "" {
        LabelEmpty(texts, LabelWords);
        TopWordsShape(texts, LabelWords);
        JoinOfWordsStart(TopWords(texts, LabelWords), Separator);
      } else {
        ClusterIdParts(g.key);
        assert ClusterLabel(g)[1] == 'l';
      }
    }
  }

  /** The legend has one row per cluster, in order of first appearance, and
      its counts add up to the number of conversations. */
  lemma LegendCounts(cs: seq<Convo>)
    ensures var gs := Clusters(cs); var legend := Legend(gs);
      && |legend| == |FirstOccurrences(KeysOf(cs, ClusterOf))|
      && (forall i :: 0 <= i < |legend| ==>
            legend[i].id == ClusterNodeId(gs[i].key) && legend[i].count == |Select(cs, ClusterOf, gs[i].key)|)
      && Sum(Sizes(gs)) == |cs|
  {
    var gs := Clusters(cs);
    assert IsGrouping(cs, ClusterOf, gs);
    assert |Keys(gs)| == |gs|;
  }

  datatype NodeKind = ClusterKind | ConvoKind(clusterId: nat)

  /** A graph node with the attributes the view reads; the layout
      coordinates are left out. */
  datatype Node = Node(id: string, caption: string, size: real, color: string, kind: NodeKind)

  datatype Edge = Edge(source: string, target: string, color: string)

  datatype Graph = Graph(nodes: seq<Node>, edges: seq<Edge>)

  /** What graphology's `addNode` and `addEdge` throw on a simple graph. */
  datatype GraphError = NodeExists(id: string) | NodeMissing(id: string) | EdgeExists(source: string, target: string)

  function NodeIds(nodes: seq<Node>): (ids: seq<string>)
    ensures |ids| == |nodes|
    ensures forall i :: 0 <= i < |nodes| ==> ids[i] == nodes[i].id
  {
    seq(|nodes|, i requires 0 <= i < |nodes| => nodes[i].id)
  }

  predicate HasEdge(g: Graph, source: string, target: string) {
    exists i :: 0 <= i < |g.edges| && g.edges[i].source == source && g.edges[i].target == target
  }

  /** `graph.addNode(id, attributes)`: a node id may be used once. */
  function AddNode(g: Graph, n: Node): Result<Graph, GraphError> {
    if n.id in NodeIds(g.nodes) then Err(NodeExists(n.id)) else Ok(Graph(g.nodes + [n], g.edges))
  }

  /** `graph.addEdge(source, target, attributes)`: both ends must exist and
      the graph holds at most one edge from `source` to `target`. */
  function AddEdge(g: Graph, e: Edge): Result<Graph, GraphError> {
    if e.source !in NodeIds(g.nodes) then Err(NodeMissing(e.source))
    else if e.target !in NodeIds(g.nodes) then Err(NodeMissing(e.target))
    else if HasEdge(g, e.source, e.target) then Err(EdgeExists(e.source, e.target))
    else Ok(Graph(g.nodes, g.edges + [e]))
  }

  /** `cl.convos.length < 2 ? 1 : 5 + cl.convos.length * 0.3`. */
  function ClusterSize(count: nat): real {
    if count < MinClusterSize then 1.0 else 5.0 + (count as real) * 0.3
  }

  function ClusterNodeOf(g: Group<nat, Convo>): Node {
    var id := ClusterNodeId(g.key);
    ClusterNumberOfId(g.key);
    var color := if |g.members| < MinClusterSize then Black else ColorForCluster(ClusterNumber(id), true);
    Node(id, ClusterLabel(g), ClusterSize(|g.members|), color, ClusterKind)
  }

  function ClusterNodes(gs: seq<Group<nat, Convo>>): seq<Node> {
    seq(|gs|, i requires 0 <= i < |gs| => ClusterNodeOf(gs[i]))
  }

  /** Adds the nodes one after the other; the first `addNode` that throws
      ends the loop. */
  function AddNodes(g: Graph, ns: seq<Node>): Result<Graph, GraphError>
    decreases |ns|
  {
    if ns == [] then Ok(g)
    else
      match AddNode(g, ns[0])
      case Err(e) => Err(e)
      case Ok(g1) => AddNodes(g1, ns[1..])
  }

  /** `outlierClusters`: the node ids of the clusters with fewer than two
      conversations. */
  function OutlierIds(gs: seq<Group<nat, Convo>>): set<string> {
    set i | 0 <= i < |gs| && |gs[i].members| < MinClusterSize :: ClusterNodeId(gs[i].key)
  }

  function ConvoColor(c: Convo, outliers: set<string>): string {
    if ClusterNodeId(c.cluster) in outliers then Black else ColorForCluster(c.cluster, false)
  }

  function ConvoNodeOf(c: Convo, color: string): Node {
    Node(c.id, c.caption, 5.0, color, ConvoKind(c.cluster))
  }

  function ConvoNodes(cs: seq<Convo>, outliers: set<string>): seq<Node> {
    seq(|cs|, i requires 0 <= i < |cs| => ConvoNodeOf(cs[i], ConvoColor(cs[i], outliers)))
  }

  function ConvoEdges(cs: seq<Convo>, outliers: set<string>): seq<Edge> {
    seq(|cs|, i requires 0 <= i < |cs| => Edge(ClusterNodeId(cs[i].cluster), cs[i].id, ConvoColor(cs[i], outliers)))
  }

  /** Adds `ns[i]` and then `es[i]` for each `i` in turn; the first call
      that throws ends the loop. */
  function AddLinked(g: Graph, ns: seq<Node>, es: seq<Edge>): Result<Graph, GraphError>
    requires |ns| == |es|
    decreases |ns|
  {
    if ns == [] then Ok(g)
    else
      match AddNode(g, ns[0])
      case Err(e) => Err(e)
      case Ok(g1) =>
        match AddEdge(g1, es[0])
        case Err(e) => Err(e)
        case Ok(g2) => AddLinked(g2, ns[1..], es[1..])
  }

  function BuildGraph(gs: seq<Group<nat, Convo>>, cs: seq<Convo>): Result<Graph, GraphError> {
    match AddNodes(Graph([], []), ClusterNodes(gs))
    case Err(e) => Err(e)
    case Ok(g) => AddLinked(g, ConvoNodes(cs, OutlierIds(gs)), ConvoEdges(cs, OutlierIds(gs)))
  }

  /** `Math.min(10, nSamples - 1)`, the UMAP neighbourhood size. */
  function NeighborCount(samples: nat): (k: int)
    ensures k <= MaxNeighbors && k <= samples - 1
    ensures k == MaxNeighbors || k == samples - 1
  {
    Min(MaxNeighbors, samples - 1)
  }

  /** What the effect produces: the legend passed to `onLegendReady`, the
      UMAP neighbourhood size and the graph, or what `addNode`/`addEdge`
      threw. */
  datatype View = View(legend: seq<LegendEntry>, neighbors: int, graph: Result<Graph, GraphError>)

  /** The effect on `processedData.messages`; it does nothing without
      messages. */
  function LoadGraph(msgs: seq<ClusteredMessage>): (r: Option<View>)
    ensures r.None? <==> msgs == []
    ensures r.Some? ==> r.value.neighbors <= MaxNeighbors && |r.value.legend| == |Clusters(Convos(msgs))|
  {
    if msgs == [] then None
    else
      var cs := Convos(msgs);
      var gs := Clusters(cs);
      Some(View(Legend(gs), NeighborCount(|cs|), BuildGraph(gs, cs)))
  }

  /** Nodes with distinct ids none of which is taken yet are all added, in
      order. */
  lemma {:induction false} AddNodesOk(g: Graph, ns: seq<Node>)
    requires Distinct(NodeIds(ns))
    requires forall i :: 0 <= i < |ns| ==> ns[i].id !in NodeIds(g.nodes)
    ensures AddNodes(g, ns) == Ok(Graph(g.nodes + ns, g.edges))
    decreases |ns|
  {
    if ns != [] {
      var g1 := Graph(g.nodes + [ns[0]], g.edges);
      assert AddNode(g, ns[0]) == Ok(g1);
      var rest := ns[1..];
      assert Distinct(NodeIds(rest)) by {
        forall a, b | 0 <= a < b < |rest| ensures NodeIds(rest)[a] != NodeIds(rest)[b] {
          assert NodeIds(ns)[a + 1] != NodeIds(ns)[b + 1];
        }
      }
      forall i | 0 <= i < |rest| ensures rest[i].id !in NodeIds(g1.nodes) {
        assert NodeIds(g1.nodes) == NodeIds(g.nodes) + [ns[0].id];
        assert NodeIds(ns)[0] != NodeIds(ns)[i + 1];
      }
      AddNodesOk(g1, rest);
      assert g.nodes + [ns[0]] + rest == g.nodes + ns;
    } else {
      assert g.nodes + ns == g.nodes;
    }
  }

  /** A node whose id is already taken makes `addNode` throw. */
  lemma {:induction false} AddNodesFails(g: Graph, ns: seq<Node>, k: nat)
    requires k < |ns| && ns[k].id in NodeIds(g.nodes) + NodeIds(ns[..k])
    ensures AddNodes(g, ns).Err?
    decreases |ns|
  {
    if AddNode(g, ns[0]).Ok? {
      var g1 := AddNode(g, ns[0]).value;
      assert NodeIds(g1.nodes) + NodeIds(ns[1..][..k - 1]) == NodeIds(g.nodes) + NodeIds(ns[..k]) by {
        assert k != 0;
        assert NodeIds(g1.nodes) == NodeIds(g.nodes) + [ns[0].id];
        assert NodeIds(ns[..k]) == [ns[0].id] + NodeIds(ns[1..][..k - 1]);
      }
      AddNodesFails(g1, ns[1..], k - 1);
    }
  }

  /** Nodes with distinct ids not in `g`, each paired with an edge into it
      from a node of `g`, and no edge of `g` into any of them. */
  predicate Linkable(g: Graph, ns: seq<Node>, es: seq<Edge>) {
    && |ns| == |es|
    && Distinct(NodeIds(ns))
    && (forall i :: 0 <= i < |ns| ==> ns[i].id !in NodeIds(g.nodes))
    && (forall i :: 0 <= i < |es| ==> es[i].source in NodeIds(g.nodes) && es[i].target == ns[i].id)
    && (forall j :: 0 <= j < |g.edges| ==> g.edges[j].target !in NodeIds(ns))
  }

  /** Such nodes are all added with their edges, in order. */
  lemma {:induction false} AddLinkedOk(g: Graph, ns: seq<Node>, es: seq<Edge>)
    requires Linkable(g, ns, es)
    ensures AddLinked(g, ns, es) == Ok(Graph(g.nodes + ns, g.edges + es))
    decreases |ns|
  {
    if ns != [] {
      var g2 := Graph(g.nodes + [ns[0]], g.edges + [es[0]]);
      assert AddLinked(g2, ns[1..], es[1..]) == Ok(Graph(g2.nodes + ns[1..], g2.edges + es[1..])) by {
        LinkableRest(g, ns, es);
        AddLinkedOk(g2, ns[1..], es[1..]);
      }
      assert Graph(g2.nodes + ns[1..], g2.edges + es[1..]) == Graph(g.nodes + ns, g.edges + es) by {
        assert g.nodes + [ns[0]] + ns[1..] == g.nodes + ns;
        assert g.edges + [es[0]] + es[1..] == g.edges + es;
      }
      LinkedStep(g, ns, es);
    } else {
      assert g.nodes + ns == g.nodes && g.edges + es == g.edges;
    }
  }

  lemma LinkedStep(g: Graph, ns: seq<Node>, es: seq<Edge>)
    requires Linkable(g, ns, es) && ns != []
    ensures AddLinked(g, ns, es) == AddLinked(Graph(g.nodes + [ns[0]], g.edges + [es[0]]), ns[1..], es[1..])
  {
    var g1 := Graph(g.nodes + [ns[0]], g.edges);
    assert NodeIds(g1.nodes) == NodeIds(g.nodes) + [ns[0].id];
    assert AddNode(g, ns[0]) == Ok(g1);
    assert !HasEdge(g1, es[0].source, es[0].target) by {
      assert NodeIds(ns)[0] == ns[0].id;
    }
  }

  lemma LinkableRest(g: Graph, ns: seq<Node>, es: seq<Edge>)
    requires Linkable(g, ns, es) && ns != []
    ensures Linkable(Graph(g.nodes + [ns[0]], g.edges + [es[0]]), ns[1..], es[1..])
  {
    var g2 := Graph(g.nodes + [ns[0]], g.edges + [es[0]]);
    var rest := ns[1..];
    assert NodeIds(g2.nodes) == NodeIds(g.nodes) + [ns[0].id];
    assert forall x :: x in NodeIds(rest) ==> x in NodeIds(ns) && x != ns[0].id by {
      forall x | x in NodeIds(rest) ensures x in NodeIds(ns) && x != ns[0].id {
        var a :| 0 <= a < |rest| && NodeIds(rest)[a] == x;
        assert NodeIds(ns)[a + 1] == x;
        assert NodeIds(ns)[0] != NodeIds(ns)[a + 1];
      }
    }
    assert Distinct(NodeIds(rest)) by {
      forall a, b | 0 <= a < b < |rest| ensures NodeIds(rest)[a] != NodeIds(rest)[b] {
        assert NodeIds(ns)[a + 1] != NodeIds(ns)[b + 1];
      }
    }
  }

  /** A conversation whose id is already a node id makes `addNode` throw. */
  lemma {:induction false} AddLinkedFails(g: Graph, ns: seq<Node>, es: seq<Edge>, k: nat)
    requires |ns| == |es| && k < |ns| && ns[k].id in NodeIds(g.nodes)
    ensures AddLinked(g, ns, es).Err?
    decreases |ns|
  {
    if AddNode(g, ns[0]).Ok? {
      var g1 := AddNode(g, ns[0]).value;
      assert NodeIds(g1.nodes) == NodeIds(g.nodes) + [ns[0].id];
      if AddEdge(g1, es[0]).Ok? {
        var g2 := AddEdge(g1, es[0]).value;
        assert k != 0;
        assert ns[1..][k - 1].id in NodeIds(g2.nodes);
        AddLinkedFails(g2, ns[1..], es[1..], k - 1);
      }
    }
  }

  /** Different clusters give cluster nodes with different ids. */
  lemma ClusterNodeIdsDistinct(gs: seq<Group<nat, Convo>>)
    requires Distinct(Keys(gs))
    ensures Distinct(NodeIds(ClusterNodes(gs)))
    ensures forall j :: 0 <= j < |gs| ==> NodeIds(ClusterNodes(gs))[j] == ClusterNodeId(gs[j].key)
  {
    var ids := NodeIds(ClusterNodes(gs));
    forall a, b | 0 <= a < b < |ids| ensures ids[a] != ids[b] {
      if ids[a] == ids[b] {
        ClusterNodeIdInjective(gs[a].key, gs[b].key);
      }
    }
  }

  /** Every conversation's cluster has a cluster node. */
  lemma ClusterNodeOfEveryConvo(gs: seq<Group<nat, Convo>>, c: Convo)
    requires c.cluster in Keys(gs)
    ensures ClusterNodeId(c.cluster) in NodeIds(ClusterNodes(gs))
  {
    var j :| 0 <= j < |gs| && Keys(gs)[j] == c.cluster;
    assert NodeIds(ClusterNodes(gs))[j] == ClusterNodeId(c.cluster);
  }

  /** The clusters have distinct ids, and every conversation's cluster is
      among them. */
  lemma ClustersCover(cs: seq<Convo>)
    ensures Distinct(Keys(Clusters(cs)))
    ensures forall i :: 0 <= i < |cs| ==> cs[i].cluster in Keys(Clusters(cs))
  {
    forall i | 0 <= i < |cs| ensures cs[i].cluster in Keys(Clusters(cs)) {
      GroupByCovers(cs, ClusterOf, i);
    }
  }

  /** The graph is built without error exactly when no conversation id is
      also a cluster node id; it then holds the cluster nodes, then the
      conversation nodes, and one edge from each conversation's cluster
      node to it. */
  lemma GraphBuilds(cs: seq<Convo>)
    requires Distinct(KeysOf(cs, ConvoId))
    ensures var gs := Clusters(cs); var ids := NodeIds(ClusterNodes(gs));
      BuildGraph(gs, cs).Ok? <==> forall i :: 0 <= i < |cs| ==> cs[i].id !in ids
    ensures var gs := Clusters(cs); var out := OutlierIds(gs);
      BuildGraph(gs, cs).Ok? ==>
        BuildGraph(gs, cs).value == Graph(ClusterNodes(gs) + ConvoNodes(cs, out), ConvoEdges(cs, out))
  {
    ClustersCover(cs);
    BuildsFrom(Clusters(cs), cs);
  }

  /** `GraphBuilds` for any clusters with distinct ids covering the
      conversations. */
  lemma BuildsFrom(gs: seq<Group<nat, Convo>>, cs: seq<Convo>)
    requires Distinct(KeysOf(cs, ConvoId)) && Distinct(Keys(gs))
    requires forall i :: 0 <= i < |cs| ==> cs[i].cluster in Keys(gs)
    ensures var ids := NodeIds(ClusterNodes(gs));
      BuildGraph(gs, cs).Ok? <==> forall i :: 0 <= i < |cs| ==> cs[i].id !in ids
    ensures var out := OutlierIds(gs);
      BuildGraph(gs, cs).Ok? ==>
        BuildGraph(gs, cs).value == Graph(ClusterNodes(gs) + ConvoNodes(cs, out), ConvoEdges(cs, out))
  {
    var out := OutlierIds(gs);
    var cns := ClusterNodes(gs);
    var ns, es := ConvoNodes(cs, out), ConvoEdges(cs, out);
    var g := Graph(cns, []);
    assert BuildGraph(gs, cs) == AddLinked(g, ns, es) by {
      assert AddNodes(Graph([], []), cns) == Ok(g) by {
        ClusterNodeIdsDistinct(gs);
        AddNodesOk(Graph([], []), cns);
        assert [] + cns == cns;
      }
    }
    if forall i :: 0 <= i < |cs| ==> cs[i].id !in NodeIds(cns) {
      assert AddLinked(g, ns, es) == Ok(Graph(cns + ns, [] + es)) by {
        ConvosLinkable(gs, cs);
        AddLinkedOk(g, ns, es);
      }
      assert [] + es == es;
    } else {
      var i :| 0 <= i < |cs| && cs[i].id in NodeIds(cns);
      assert AddLinked(g, ns, es).Err? by {
        assert ns[i].id in NodeIds(g.nodes);
        AddLinkedFails(g, ns, es, i);
      }
    }
  }

  lemma ConvosLinkable(gs: seq<Group<nat, Convo>>, cs: seq<Convo>)
    requires Distinct(KeysOf(cs, ConvoId))
    requires forall i :: 0 <= i < |cs| ==> cs[i].cluster in Keys(gs)
    requires forall i :: 0 <= i < |cs| ==> cs[i].id !in NodeIds(ClusterNodes(gs))
    ensures var out := OutlierIds(gs);
      Linkable(Graph(ClusterNodes(gs), []), ConvoNodes(cs, out), ConvoEdges(cs, out))
  {
    var out := OutlierIds(gs);
    var ns, es := ConvoNodes(cs, out), ConvoEdges(cs, out);
    assert Distinct(NodeIds(ns)) by {
      forall a, b | 0 <= a < b < |ns| ensures NodeIds(ns)[a] != NodeIds(ns)[b] {
        assert KeysOf(cs, ConvoId)[a] != KeysOf(cs, ConvoId)[b];
      }
    }
    forall i | 0 <= i < |es| ensures es[i].source in NodeIds(ClusterNodes(gs)) {
      ClusterNodeOfEveryConvo(gs, cs[i]);
    }
  }

  /** A conversation node has the colour its cluster has in the legend. */
  lemma ConvoColorMatchesLegend(cs: seq<Convo>, i: nat, j: nat)
    requires i < |cs| && j < |Clusters(cs)| && Clusters(cs)[j].key == cs[i].cluster
    ensures ConvoColor(cs[i], OutlierIds(Clusters(cs))) == LegendOf(Clusters(cs)[j]).color
  {
    ClustersCover(cs);
    ColorMatchesFrom(Clusters(cs), cs[i], j);
  }

  lemma ColorMatchesFrom(gs: seq<Group<nat, Convo>>, c: Convo, j: nat)
    requires Distinct(Keys(gs)) && j < |gs| && gs[j].key == c.cluster
    ensures ConvoColor(c, OutlierIds(gs)) == LegendOf(gs[j]).color
  {
    LegendOutlier(gs[j]);
    OutlierIdsMeaning(gs, j);
  }

  /** A cluster's node id is among the outlier ids exactly when the cluster
      has fewer than two conversations. */
  lemma OutlierIdsMeaning(gs: seq<Group<nat, Convo>>, j: nat)
    requires Distinct(Keys(gs)) && j < |gs|
    ensures ClusterNodeId(gs[j].key) in OutlierIds(gs) <==> |gs[j].members| < MinClusterSize
  {
    if ClusterNodeId(gs[j].key) in OutlierIds(gs) {
      var j' :| 0 <= j' < |gs| && |gs[j'].members| < MinClusterSize && ClusterNodeId(gs[j'].key) == ClusterNodeId(gs[j].key);
      ClusterNodeIdInjective(gs[j'].key, gs[j].key);
      assert Keys(gs)[j'] == Keys(gs)[j];
    }
  }



  /** A cluster node carries its legend row's id and label; it is black
      exactly for an outlier and otherwise takes the transparent variant of
      the legend colour. */
  lemma ClusterNodeMatchesLegend(g: Group<nat, Convo>)
    ensures ClusterNodeOf(g).id == LegendOf(g).id && ClusterNodeOf(g).caption == LegendOf(g).caption
    ensures ClusterNodeOf(g).color == Black <==> LegendOf(g).color == Black
    ensures |g.members| >= MinClusterSize ==> ClusterNodeOf(g).color == ColorForCluster(g.key, true)
    ensures ClusterNodeOf(g).size == if |g.members| < MinClusterSize then 1.0 else 5.0 + |g.members| as real * 0.3
  {
    LegendOutlier(g);
    ClusterNumberOfId(g.key);
    if |g.members| >= MinClusterSize {
      var color := ColorForCluster(g.key, true);
      var c: Rgb :| color == RgbaString(c);
      assert color[0] == 'r';
    }
  }

  /** On any non-empty input the effect builds the graph exactly when no
      conversation id is also a cluster node id; the graph then has one
      node per cluster and per conversation and one edge per
      conversation, and UMAP looks at no more neighbours than there are
      other conversations. */
  lemma LoadGraphBuilds(msgs: seq<ClusteredMessage>)
    requires msgs != []
    ensures LoadGraph(msgs).Some?
    ensures var v := LoadGraph(msgs).value; var cs := Convos(msgs); var gs := Clusters(cs);
      && (v.graph.Ok? <==> forall i :: 0 <= i < |cs| ==> cs[i].id !in NodeIds(ClusterNodes(gs)))
      && (v.graph.Ok? ==>
            && NodeIds(v.graph.value.nodes) == NodeIds(ClusterNodes(gs)) + FirstOccurrences(KeysOf(msgs, Conv))
            && |v.graph.value.edges| == |cs|)
      && |v.legend| == |gs|
      && v.neighbors <= |FirstOccurrences(KeysOf(msgs, Conv))| - 1
  {
    var cs := Convos(msgs);
    var gs := Clusters(cs);
    var v := LoadGraph(msgs).value;
    assert v == View(Legend(gs), NeighborCount(|cs|), BuildGraph(gs, cs));
    assert KeysOf(cs, ConvoId) == FirstOccurrences(KeysOf(msgs, Conv)) && Distinct(KeysOf(cs, ConvoId)) by {
      ConvosMeaning(msgs);
    }
    GraphBuilds(cs);
    if v.graph.Ok? {
      GraphNodeIds(gs, cs);
    }
  }

  lemma GraphNodeIds(gs: seq<Group<nat, Convo>>, cs: seq<Convo>)
    ensures NodeIds(ClusterNodes(gs) + ConvoNodes(cs, OutlierIds(gs))) == NodeIds(ClusterNodes(gs)) + KeysOf(cs, ConvoId)
  {
  }
}
