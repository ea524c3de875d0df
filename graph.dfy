/** build_object_graph: a directed mention graph over exported objects.

    Pass 1 registers one node per row that has a non-empty string file name,
    with normalised attributes; pass 2 scans each such row's text and its
    string-valued properties for mentions and accumulates them as edge
    weights towards registered objects other than the row itself. */
module ObjectGraph {
  import opened Values
  import opened Collections
  import Mentions

  /** One row of the export table, as build_object_graph reads it. */
  datatype Row = Row(
    fileName: Value,
    title: Value,
    objectType: Value,
    properties: Value,
    textContent: string,
    date: Option<Timestamp>)

  /** The row's file name when it is a non-empty string; rows without one
      are skipped by both passes. */
  function SourceName(r: Row): Option<string>
  {
    if r.fileName.Str? && r.fileName.s != "" then Some(r.fileName.s) else None
  }

  /** An attribute value as stored: with dict normalisation on, a mapping is
      replaced by the JSON text the serialiser gives it. */
  function Scalar(v: Value, normalize: bool, dumps: Value -> string): (r: Value)
    ensures !v.Null? ==> !r.Null?
    ensures normalize ==> !r.Dict?
  {
    if normalize && v.Dict? then Str(dumps(v)) else v
  }

  /** The attributes pass 1 gives a row's node: title, object type and
      properties unless they are None, and the date as its ISO text unless it
      is missing or NaT. */
  function NodeAttrs(r: Row, normalize: bool, dumps: Value -> string): (a: map<string, Value>)
    ensures a.Keys <= {"title", "object_type", "properties", "date"}
    ensures "title" in a <==> !r.title.Null?
    ensures "title" in a ==> a["title"] == Scalar(r.title, normalize, dumps)
    ensures "object_type" in a <==> !r.objectType.Null?
    ensures "object_type" in a ==> a["object_type"] == Scalar(r.objectType, normalize, dumps)
    ensures "properties" in a <==> !r.properties.Null?
    ensures "properties" in a ==> a["properties"] == Scalar(r.properties, normalize, dumps)
    ensures "date" in a <==> r.date.Some?
    ensures "date" in a ==> a["date"] == Str(r.date.value.iso)
  {
    var titled := Keep(map[], "title", r.title, normalize, dumps);
    var typed := Keep(titled, "object_type", r.objectType, normalize, dumps);
    var described := Keep(typed, "properties", r.properties, normalize, dumps);
    if r.date.Some? then described["date" := Str(r.date.value.iso)] else described
  }

  /** A row's node attributes are never None, and with dict normalisation
      on never a mapping. */
  lemma AttrsAreScalar(r: Row, normalize: bool, dumps: Value -> string)
    ensures forall k :: k in NodeAttrs(r, normalize, dumps) ==> !NodeAttrs(r, normalize, dumps)[k].Null?
    ensures normalize ==> forall k :: k in NodeAttrs(r, normalize, dumps) ==> !NodeAttrs(r, normalize, dumps)[k].Dict?
  {
    var a := NodeAttrs(r, normalize, dumps);
    forall k | k in a
      ensures !a[k].Null? && (normalize ==> !a[k].Dict?)
    {
      assert k == "title" || k == "object_type" || k == "properties" || k == "date";
    }
  }

  /** Adds attribute `k` unless its value is None. */
  function Keep(m: map<string, Value>, k: string, v: Value, normalize: bool, dumps: Value -> string): (r: map<string, Value>)
    ensures r.Keys == if v.Null? then m.Keys else m.Keys + {k}
    ensures forall j :: j != k && j in m ==> r[j] == m[j]
    ensures !v.Null? ==> r[k] == Scalar(v, normalize, dumps)
    ensures v.Null? ==> r == m
  {
    if v.Null? then m else m[k := Scalar(v, normalize, dumps)]
  }

  // ---------------------------------------------------------------------
  // The graph under construction

  /** The networkx DiGraph state the builder uses: each node's attribute map
      and each edge's weight. */
  class DiGraph {
    var nodes: map<string, map<string, Value>>
    var weights: map<(string, string), nat>

    constructor ()
      ensures nodes == map[] && weights == map[]
    {
      nodes := map[];
      weights := map[];
    }

    predicate HasEdge(u: string, v: string)
      reads this
    {
      (u, v) in weights
    }

    /** add_node: a new node gets `attrs`; an existing node's attribute map
        is updated key by key, the new values winning. */
    method AddNode(n: string, attrs: map<string, Value>)
      modifies this
      ensures nodes == old(nodes)[n := if n in old(nodes) then old(nodes)[n] + attrs else attrs]
      ensures weights == old(weights)
    {
      nodes := nodes[n := if n in nodes then nodes[n] + attrs else attrs];
    }

    /** add_edge with a weight: missing endpoints are added without
        attributes, and the edge's weight is set. */
    method AddEdge(u: string, v: string, w: nat)
      modifies this
      ensures nodes.Keys == old(nodes).Keys + {u, v}
      ensures forall n :: n in old(nodes) ==> nodes[n] == old(nodes)[n]
      ensures forall n :: n in nodes && n !in old(nodes) ==> nodes[n] == map[]
      ensures weights == old(weights)[(u, v) := w]
      ensures u in old(nodes) && v in old(nodes) ==> nodes == old(nodes)
    {
      if u !in nodes {
        nodes := nodes[u := map[]];
      }
      if v !in nodes {
        nodes := nodes[v := map[]];
      }
      weights := weights[(u, v) := w];
    }

    /** graph[u][v]["weight"] += w on an existing edge. */
    method AddWeight(u: string, v: string, w: nat)
      requires (u, v) in weights
      modifies this
      ensures weights == old(weights)[(u, v) := old(weights)[(u, v)] + w]
      ensures nodes == old(nodes)
    {
      weights := weights[(u, v) := weights[(u, v)] + w];
    }
  }

  // ---------------------------------------------------------------------
  // What the two passes compute

  /** The registered file names (the keys of file_lookup). */
  function Names(rows: seq<Row>): set<string>
  {
    if rows == [] then {}
    else
      var init := Names(rows[..|rows| - 1]);
      match SourceName(rows[|rows| - 1])
      case Some(n) => init + {n}
      case None => init
  }

  /** The node table after pass 1 over `rows`. */
  function Nodes(rows: seq<Row>, normalize: bool, dumps: Value -> string): map<string, map<string, Value>>
  {
    if rows == [] then map[]
    else
      var init := Nodes(rows[..|rows| - 1], normalize, dumps);
      var r := rows[|rows| - 1];
      match SourceName(r)
      case Some(n) =>
        var attrs := NodeAttrs(r, normalize, dumps);
        init[n := if n in init then init[n] + attrs else attrs]
      case None => init
  }

  /** The properties pass 2 scans: the row's mapping, or none when its
      properties are not a mapping. */
  function ScannedProperties(r: Row): map<string, Value>
  {
    if r.properties.Dict? then r.properties.entries else map[]
  }

  /** The keys of the string-valued properties that mention `t`. */
  function MentioningKeys(props: map<string, Value>, t: string): set<string>
  {
    set k | k in props && props[k].Str? && t in Mentions.Mentions(props[k].s)
  }

  /** mention_counts[t] for a row: 1 if its text mentions `t` (the extractor
      returns each name once), plus one for each string-valued property that
      mentions `t`. */
  function MentionCount(r: Row, t: string): nat
  {
    var props := ScannedProperties(r);
    (if t in Mentions.Mentions(r.textContent) then 1 else 0) + |MentioningKeys(props, t)|
  }

  /** The sum of the mention counts of `t` over the rows whose file name is `s`. */
  function Weight(rows: seq<Row>, s: string, t: string): nat
  {
    if rows == [] then 0
    else
      var r := rows[|rows| - 1];
      Weight(rows[..|rows| - 1], s, t) + (if SourceName(r) == Some(s) then MentionCount(r, t) else 0)
  }

  /** What pass 2 accumulates on the pair `p` when the registered names are
      `names`: nothing towards unknown targets or the source itself. */
  function Accumulated(rows: seq<Row>, names: set<string>, p: (string, string)): nat
  {
    if p.1 in names && p.1 != p.0 then Weight(rows, p.0, p.1) else 0
  }

  function Pairs(names: set<string>): set<(string, string)>
  {
    set s, t | s in names && t in names :: (s, t)
  }

  /** The edge table after pass 2: every pair with a positive accumulated
      weight. */
  function Edges(rows: seq<Row>): map<(string, string), nat>
  {
    var names := Names(rows);
    map p | p in Pairs(names) && Accumulated(rows, names, p) > 0 :: Accumulated(rows, names, p)
  }

  /** A Counter lookup: 0 for a missing key. */
  function Count<K>(m: map<K, nat>, k: K): nat
  {
    if k in m then m[k] else 0
  }

  // ---------------------------------------------------------------------
  // build_object_graph

  /** Counter.update over a list of distinct names: each gains one. */
  method CountEach(counts: map<string, nat>, names: seq<string>) returns (updated: map<string, nat>)
    requires Mentions.NoDuplicates(names)
    requires forall t :: t in counts ==> counts[t] > 0
    ensures forall t :: t in updated ==> updated[t] > 0
    ensures forall t :: Count(updated, t) == Count(counts, t) + (if t in names then 1 else 0)
  {
    updated := counts;
    for j := 0 to |names|
      invariant forall t :: t in updated ==> updated[t] > 0
      invariant forall t :: Count(updated, t) == Count(counts, t) + (if t in names[..j] then 1 else 0)
    {
      assert names[j] !in names[..j];
      assert names[..j + 1] == names[..j] + [names[j]];
      updated := updated[names[j] := Count(updated, names[j]) + 1];
    }
    assert names[..|names|] == names;
  }

  /** The mention counter of one row: a Counter over the mentions of its
      text, then one increment per mention in each string-valued property. */
  method CountMentions(r: Row) returns (counts: map<string, nat>)
    ensures forall t :: t in counts ==> counts[t] > 0
    ensures forall t :: Count(counts, t) == MentionCount(r, t)
  {
    var body := Mentions.ExtractObjectMentions(r.textContent);
    Mentions.MentionsNoDuplicates(r.textContent);
    counts := CountEach(map[], body);
    var props := ScannedProperties(r);
    var todo := props.Keys;
    ghost var done: set<string> := {};
    while todo != {}
      invariant todo <= props.Keys && done == props.Keys - todo
      invariant forall t :: t in counts ==> counts[t] > 0
      invariant forall t :: Count(counts, t) == (if t in body then 1 else 0) + |MentioningKeys(props, t) * done|
      decreases todo
    {
      var key :| key in todo;
      counts := CountProperty(counts, props, key);
      MentioningKeysStep(props, done, key);
      todo := todo - {key};
      done := done + {key};
    }
    assert done == props.Keys;
    forall t ensures Count(counts, t) == MentionCount(r, t) {
      MentionCountOfAllKeys(r, t);
    }
  }

  lemma MentionCountOfAllKeys(r: Row, t: string)
    ensures MentionCount(r, t) == (if t in Mentions.Mentions(r.textContent) then 1 else 0) +
              |MentioningKeys(ScannedProperties(r), t) * ScannedProperties(r).Keys|
  {
    IntersectWhole(MentioningKeys(ScannedProperties(r), t), ScannedProperties(r).Keys);
  }

  /** One property of the row: a string value adds one for each name it
      mentions; any other value adds nothing. */
  method CountProperty(counts: map<string, nat>, props: map<string, Value>, key: string)
    returns (updated: map<string, nat>)
    requires key in props
    requires forall t :: t in counts ==> counts[t] > 0
    ensures forall t :: t in updated ==> updated[t] > 0
    ensures forall t :: Count(updated, t) == Count(counts, t) +
              (if props[key].Str? && t in Mentions.Mentions(props[key].s) then 1 else 0)
  {
    updated := counts;
    if props[key].Str? {
      var found := Mentions.ExtractObjectMentions(props[key].s);
      Mentions.MentionsNoDuplicates(props[key].s);
      updated := CountEach(counts, found);
    }
  }

  lemma MentioningKeysStep(props: map<string, Value>, done: set<string>, key: string)
    requires key in props && key !in done
    ensures forall t :: |MentioningKeys(props, t) * (done + {key})| ==
              |MentioningKeys(props, t) * done| +
              (if props[key].Str? && t in Mentions.Mentions(props[key].s) then 1 else 0)
  {
    forall t {
      IntersectInsert(MentioningKeys(props, t), done, key);
    }
  }

  /** The inner loop of pass 2 for one source row: every counted target that
      is registered and is not the source adds its count to the edge from the
      source, creating the edge if needed. */
  method AddMentionEdges(graph: DiGraph, source: string, counts: map<string, nat>, lookup: map<string, Row>)
    requires source in graph.nodes && lookup.Keys <= graph.nodes.Keys
    requires forall t :: t in counts ==> counts[t] > 0
    requires forall p :: p in graph.weights ==> graph.weights[p] > 0
    modifies graph
    ensures graph.nodes == old(graph.nodes)
    ensures forall p :: p in graph.weights ==> graph.weights[p] > 0
    ensures forall p :: Count(graph.weights, p) == Count(old(graph.weights), p) +
              (if p.0 == source && p.1 in lookup && p.1 != source then Count(counts, p.1) else 0)
  {
    var todo := counts.Keys;
    while todo != {}
      invariant todo <= counts.Keys
      invariant graph.nodes == old(graph.nodes)
      invariant forall p :: p in graph.weights ==> graph.weights[p] > 0
      invariant forall p :: Count(graph.weights, p) == Count(old(graph.weights), p) +
                  (if p.0 == source && p.1 in lookup && p.1 != source && p.1 !in todo
                   then Count(counts, p.1) else 0)
      decreases todo
    {
      var target :| target in todo;
      if target in lookup && target != source {
        if graph.HasEdge(source, target) {
          graph.AddWeight(source, target, counts[target]);
        } else {
          graph.AddEdge(source, target, counts[target]);
        }
      }
      todo := todo - {target};
    }
  }

  /** build_object_graph(rows, normalize_dict_attrs), with `dumps` standing
      for json.dumps. */
  method BuildObjectGraph(rows: seq<Row>, normalizeDictAttrs: bool, dumps: Value -> string)
    returns (graph: DiGraph)
    ensures fresh(graph)
    ensures rows == [] ==> graph.nodes == map[] && graph.weights == map[]
    ensures graph.nodes == Nodes(rows, normalizeDictAttrs, dumps)
    ensures graph.weights == Edges(rows)
  {
    graph := new DiGraph();
    if |rows| == 0 {
      return;
    }
    var lookup := RegisterNodes(graph, rows, normalizeDictAttrs, dumps);
    NodeKeysAreNames(rows, normalizeDictAttrs, dumps);
    AddMentionsOfRows(graph, rows, lookup);
  }

  /** Pass 1: register all objects as nodes; `lookup` maps each registered
      name to the first row that carries it. */
  method RegisterNodes(graph: DiGraph, rows: seq<Row>, normalizeDictAttrs: bool, dumps: Value -> string)
    returns (lookup: map<string, Row>)
    requires graph.nodes == map[] && graph.weights == map[]
    modifies graph
    ensures graph.nodes == Nodes(rows, normalizeDictAttrs, dumps) && graph.weights == map[]
    ensures lookup.Keys == Names(rows)
  {
    lookup := map[];
    for i := 0 to |rows|
      invariant graph.nodes == Nodes(rows[..i], normalizeDictAttrs, dumps)
      invariant graph.weights == map[]
      invariant lookup.Keys == Names(rows[..i])
    {
      assert rows[..i + 1][..i] == rows[..i];
      var fileName := rows[i].fileName;
      if fileName.Str? && fileName.s != "" {
        if fileName.s !in lookup {
          lookup := lookup[fileName.s := rows[i]];
        }
        var attrs := NodeAttrs(rows[i], normalizeDictAttrs, dumps);
        graph.AddNode(fileName.s, attrs);
      }
    }
    assert rows[..|rows|] == rows;
  }

  /** Pass 2: add edges for mentions found in text content and properties. */
  method AddMentionsOfRows(graph: DiGraph, rows: seq<Row>, lookup: map<string, Row>)
    requires lookup.Keys == Names(rows) && graph.nodes.Keys == Names(rows) && graph.weights == map[]
    modifies graph
    ensures graph.nodes == old(graph.nodes)
    ensures graph.weights == Edges(rows)
  {
    for i := 0 to |rows|
      invariant graph.nodes == old(graph.nodes) && graph.nodes.Keys == lookup.Keys
      invariant forall p :: p in graph.weights ==> graph.weights[p] > 0
      invariant forall p :: Count(graph.weights, p) == Accumulated(rows[..i], lookup.Keys, p)
    {
      AddMentionsOfRow(graph, rows, i, lookup);
    }
    assert rows[..|rows|] == rows;
    EdgesFromAccumulated(rows, graph.weights);
  }

  /** One iteration of pass 2: the row's mention counts, when it has a file
      name, are added to the edges leaving its node. */
  method AddMentionsOfRow(graph: DiGraph, rows: seq<Row>, i: nat, lookup: map<string, Row>)
    requires i < |rows|
    requires lookup.Keys == Names(rows) && graph.nodes.Keys == lookup.Keys
    requires forall p :: p in graph.weights ==> graph.weights[p] > 0
    requires forall p :: Count(graph.weights, p) == Accumulated(rows[..i], lookup.Keys, p)
    modifies graph
    ensures graph.nodes == old(graph.nodes)
    ensures forall p :: p in graph.weights ==> graph.weights[p] > 0
    ensures forall p :: Count(graph.weights, p) == Accumulated(rows[..i + 1], lookup.Keys, p)
  {
    var source := rows[i].fileName;
    if source.Str? && source.s != "" {
      NameOfRowIsRegistered(rows, i);
      var counts := CountMentions(rows[i]);
      AddMentionEdges(graph, source.s, counts, lookup);
    }
    forall p ensures Count(graph.weights, p) == Accumulated(rows[..i + 1], lookup.Keys, p) {
      AccumulatedStep(rows, i, lookup.Keys, p);
    }
  }

  /** Pass 2 over one more row adds that row's mention counts. */
  lemma AccumulatedStep(rows: seq<Row>, i: nat, names: set<string>, p: (string, string))
    requires i < |rows|
    ensures Accumulated(rows[..i + 1], names, p) == Accumulated(rows[..i], names, p) +
              (if SourceName(rows[i]) == Some(p.0) && p.1 in names && p.1 != p.0
               then MentionCount(rows[i], p.1) else 0)
  {
    assert rows[..i + 1][..i] == rows[..i];
  }

  // ---------------------------------------------------------------------
  // Properties of the graph

  lemma NameOfRowIsRegistered(rows: seq<Row>, i: nat)
    requires i < |rows| && SourceName(rows[i]).Some?
    ensures SourceName(rows[i]).value in Names(rows)
  {
    NamesAreFileNames(rows, SourceName(rows[i]).value);
  }

  /** The registered names are exactly the non-empty string file names of
      the rows. */
  lemma {:induction false} NamesAreFileNames(rows: seq<Row>, n: string)
    ensures n in Names(rows) <==> exists i :: 0 <= i < |rows| && SourceName(rows[i]) == Some(n)
  {
    if rows != [] {
      var last := |rows| - 1;
      var init := rows[..last];
      NamesAreFileNames(init, n);
      if n in Names(rows) && SourceName(rows[last]) != Some(n) {
        var i :| 0 <= i < last && SourceName(init[i]) == Some(n);
        assert init[i] == rows[i];
      }
      if n !in Names(rows) {
        forall i | 0 <= i < |rows| ensures SourceName(rows[i]) != Some(n) {
          if i < last {
            assert init[i] == rows[i];
          }
        }
      }
    }
  }

  /** Pass 1 creates exactly one node per registered name. */
  lemma {:induction false} NodeKeysAreNames(rows: seq<Row>, normalize: bool, dumps: Value -> string)
    ensures Nodes(rows, normalize, dumps).Keys == Names(rows)
  {
    if rows != [] {
      NodeKeysAreNames(rows[..|rows| - 1], normalize, dumps);
    }
  }

  /** No node attribute is None, and with dict normalisation on none is a
      mapping. */
  lemma {:induction false} NodeAttributesAreScalar(rows: seq<Row>, normalize: bool, dumps: Value -> string)
    ensures forall n, k :: n in Nodes(rows, normalize, dumps) && k in Nodes(rows, normalize, dumps)[n] ==>
              !Nodes(rows, normalize, dumps)[n][k].Null? &&
              (normalize ==> !Nodes(rows, normalize, dumps)[n][k].Dict?)
  {
    if rows != [] {
      NodeAttributesAreScalar(rows[..|rows| - 1], normalize, dumps);
      AttrsAreScalar(rows[|rows| - 1], normalize, dumps);
    }
  }

  /** The value of attribute `k` from the last row named `n` that has one. */
  function LastAttr(rows: seq<Row>, n: string, k: string, normalize: bool, dumps: Value -> string): Option<Value>
  {
    if rows == [] then None
    else
      var r := rows[|rows| - 1];
      var attrs := NodeAttrs(r, normalize, dumps);
      if SourceName(r) == Some(n) && k in attrs then Some(attrs[k])
      else LastAttr(rows[..|rows| - 1], n, k, normalize, dumps)
  }

  /** Rows sharing a file name merge into one node, attribute by attribute,
      the last row that has an attribute giving its value. */
  lemma {:induction false} NodeAttributeFromLastRow(rows: seq<Row>, n: string, k: string, normalize: bool, dumps: Value -> string)
    requires n in Nodes(rows, normalize, dumps)
    ensures k in Nodes(rows, normalize, dumps)[n] <==> LastAttr(rows, n, k, normalize, dumps).Some?
    ensures k in Nodes(rows, normalize, dumps)[n] ==>
              Nodes(rows, normalize, dumps)[n][k] == LastAttr(rows, n, k, normalize, dumps).value
  {
    var init := rows[..|rows| - 1];
    var r := rows[|rows| - 1];
    if n in Nodes(init, normalize, dumps) && SourceName(r) != Some(n) {
      NodeAttributeFromLastRow(init, n, k, normalize, dumps);
    } else if n in Nodes(init, normalize, dumps) && k !in NodeAttrs(r, normalize, dumps) {
      NodeAttributeFromLastRow(init, n, k, normalize, dumps);
    } else if n !in Nodes(init, normalize, dumps) {
      NoNodeNoAttr(init, n, k, normalize, dumps);
    }
  }

  lemma {:induction false} NoNodeNoAttr(rows: seq<Row>, n: string, k: string, normalize: bool, dumps: Value -> string)
    requires n !in Nodes(rows, normalize, dumps)
    ensures LastAttr(rows, n, k, normalize, dumps).None?
  {
    if rows != [] {
      NoNodeNoAttr(rows[..|rows| - 1], n, k, normalize, dumps);
    }
  }

  /** A positive weight from `s` needs a row whose file name is `s`. */
  lemma {:induction false} WeightNeedsSource(rows: seq<Row>, s: string, t: string)
    requires Weight(rows, s, t) > 0
    ensures s in Names(rows)
  {
    var init := rows[..|rows| - 1];
    if SourceName(rows[|rows| - 1]) != Some(s) {
      WeightNeedsSource(init, s, t);
    } else if Weight(init, s, t) > 0 {
      WeightNeedsSource(init, s, t);
    }
  }

  lemma EdgesFromAccumulated(rows: seq<Row>, w: map<(string, string), nat>)
    requires forall p :: p in w ==> w[p] > 0
    requires forall p :: Count(w, p) == Accumulated(rows, Names(rows), p)
    ensures w == Edges(rows)
  {
    var names := Names(rows);
    var e := Edges(rows);
    forall p | p in w ensures p in e && e[p] == w[p] {
      assert Accumulated(rows, names, p) > 0;
      WeightNeedsSource(rows, p.0, p.1);
      assert p in Pairs(names);
    }
    forall p | p in e ensures p in w {
      assert Count(w, p) > 0;
    }
  }

  /** Every edge joins two distinct nodes. */
  lemma EdgesJoinDistinctNodes(rows: seq<Row>, normalize: bool, dumps: Value -> string)
    ensures forall p :: p in Edges(rows) ==>
              p.0 in Nodes(rows, normalize, dumps) && p.1 in Nodes(rows, normalize, dumps) && p.0 != p.1
  {
    NodeKeysAreNames(rows, normalize, dumps);
  }

  /** An edge from `s` to `t` exists exactly when `t` is a registered name
      other than `s` that the rows named `s` mention, and its weight is the
      total of their mention counts. */
  lemma EdgeWeightIsMentionTotal(rows: seq<Row>, s: string, t: string)
    ensures (s, t) in Edges(rows) <==> t in Names(rows) && t != s && Weight(rows, s, t) > 0
    ensures (s, t) in Edges(rows) ==> Edges(rows)[(s, t)] == Weight(rows, s, t)
  {
    if t in Names(rows) && t != s && Weight(rows, s, t) > 0 {
      WeightNeedsSource(rows, s, t);
      assert (s, t) in Pairs(Names(rows));
    }
  }

  /** Weights add up over any split of the rows, so they do not depend on
      which rows come first. */
  lemma {:induction false} WeightIsAdditive(rows1: seq<Row>, rows2: seq<Row>, s: string, t: string)
    ensures Weight(rows1 + rows2, s, t) == Weight(rows1, s, t) + Weight(rows2, s, t)
    decreases |rows2|
  {
    if rows2 == [] {
      assert rows1 + rows2 == rows1;
    } else {
      var init2 := rows2[..|rows2| - 1];
      WeightIsAdditive(rows1, init2, s, t);
      assert (rows1 + rows2)[..|rows1 + rows2| - 1] == rows1 + init2;
    }
  }

  /** A row without a usable file name adds no node and no edge. */
  lemma RowWithoutNameIsIgnored(rows: seq<Row>, r: Row, normalize: bool, dumps: Value -> string)
    requires SourceName(r).None?
    ensures Nodes(rows + [r], normalize, dumps) == Nodes(rows, normalize, dumps)
    ensures Edges(rows + [r]) == Edges(rows)
  {
    var rows' := rows + [r];
    assert rows'[..|rows'| - 1] == rows;
    assert Names(rows') == Names(rows);
    forall p ensures Accumulated(rows', Names(rows'), p) == Accumulated(rows, Names(rows), p) {
    }
  }

  /** The text contributes at most one mention of a target however often it
      links to it; each property at most one more. */
  lemma MentionCountBound(r: Row, t: string)
    ensures MentionCount(r, t) <= 1 + |ScannedProperties(r)|
  {
    var props := ScannedProperties(r);
    SubsetCardinality(MentioningKeys(props, t), props.Keys);
  }

  lemma SubsetCardinality(a: set<string>, b: set<string>)
    requires a <= b
    ensures |a| <= |b|
  {
    assert b == a + (b - a);
  }
}
