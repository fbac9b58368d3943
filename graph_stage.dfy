/** The graph stage (src/generate-graphs.py:33-116): every decoded body is parsed and turned
    into a graph by `AstGraphGenerator`, whose edges and node labels `process_body` flattens
    and orders, and `process_data` keeps the samples of the bodies that could be handled.

    The parser and the graph generator are not part of this model. Together they are the
    parameter `graphOf`, which gives the generator's final state for a body, or `None` when
    parsing or graph building raises. */
module GraphStage {
  import opened Wrappers
  import opened Text
  import opened Tokenizer
  import opened Extractor
  import opened Decoder

  // ---------------------------------------------------------------------------
  // The generator's output and the samples
  // ---------------------------------------------------------------------------

  /** The state of an `AstGraphGenerator` after its visit: `graph.items()`, a list of
      `((origin, destination), edge types)` entries with distinct keys, in the dictionary's
      order; `node_label.items()`, the `(node id, label)` entries with distinct ids; and
      `terminal_path`. */
  datatype Graph = Graph(
    edges: seq<((int, int), seq<string>)>,
    labels: seq<(int, string)>,
    terminalPath: seq<int>)

  /** One `(t, origin, destination)` triple of `edge_list`. */
  datatype Edge = Edge(kind: string, origin: int, dest: int)

  /** The dictionary `process_body` returns. */
  datatype Sample = Sample(
    edges: seq<Edge>,
    backboneSequence: seq<int>,
    nodeLabels: seq<string>,
    docsWords: seq<string>)

  // ---------------------------------------------------------------------------
  // The edge list
  // ---------------------------------------------------------------------------

  /** The triples of one entry: one per edge type, in the entry's order. */
  function EntryEdges(entry: ((int, int), seq<string>)): (r: seq<Edge>)
    ensures |r| == |entry.1|
  {
    seq(|entry.1|, i requires 0 <= i < |entry.1| => Edge(entry.1[i], entry.0.0, entry.0.1))
  }

  /** `[(t, origin, destination) for (origin, destination), edges in graph.items() for t in edges]` */
  function EdgeList(entries: seq<((int, int), seq<string>)>): seq<Edge>
    decreases |entries|
  {
    if entries == [] then [] else EntryEdges(entries[0]) + EdgeList(entries[1..])
  }

  /** The number of edge types over all entries. */
  function TypeCount(entries: seq<((int, int), seq<string>)>): nat
    decreases |entries|
  {
    if entries == [] then 0 else |entries[0].1| + TypeCount(entries[1..])
  }

  /** One triple per edge type of each entry. */
  lemma {:induction false} EdgeListLength(entries: seq<((int, int), seq<string>)>)
    ensures |EdgeList(entries)| == TypeCount(entries)
    decreases |entries|
  {
    if entries != [] {
      EdgeListLength(entries[1..]);
    }
  }

  /** A triple is in the edge list exactly when its type is one of the types of the entry for
      its origin and destination. */
  lemma {:induction false} EdgeListMembers(entries: seq<((int, int), seq<string>)>, e: Edge)
    ensures e in EdgeList(entries) <==>
      exists k :: 0 <= k < |entries| && entries[k].0 == (e.origin, e.dest) && e.kind in entries[k].1
    decreases |entries|
  {
    if entries != [] {
      EdgeListMembers(entries[1..], e);
      var head := entries[0];
      if e in EntryEdges(head) {
        var i :| 0 <= i < |head.1| && EntryEdges(head)[i] == e;
        assert head.1[i] == e.kind;
      }
      if head.0 == (e.origin, e.dest) && e.kind in head.1 {
        var i :| 0 <= i < |head.1| && head.1[i] == e.kind;
        assert EntryEdges(head)[i] == e;
      }
      if exists k :: (0 <= k < |entries[1..]| && entries[1..][k].0 == (e.origin, e.dest)
                      && e.kind in entries[1..][k].1)
      {
        var k :| 0 <= k < |entries[1..]| && entries[1..][k].0 == (e.origin, e.dest)
          && e.kind in entries[1..][k].1;
        assert entries[k + 1] == entries[1..][k];
      }
      if exists k :: 0 <= k < |entries| && entries[k].0 == (e.origin, e.dest) && e.kind in entries[k].1 {
        var k :| 0 <= k < |entries| && entries[k].0 == (e.origin, e.dest) && e.kind in entries[k].1;
        if k > 0 {
          assert entries[1..][k - 1] == entries[k];
        }
      }
    }
  }

  // ---------------------------------------------------------------------------
  // The node labels
  // ---------------------------------------------------------------------------

  /** The entries are in ascending order of node id. */
  predicate SortedByKey(xs: seq<(int, string)>) {
    forall i, j :: 0 <= i < j < |xs| ==> xs[i].0 <= xs[j].0
  }

  /** No node id appears twice, as in a dictionary. */
  predicate DistinctKeys(xs: seq<(int, string)>) {
    forall i, j :: 0 <= i < j < |xs| ==> xs[i].0 != xs[j].0
  }

  /** `x` put in front of the first entry of `xs` whose id is not smaller. */
  function Insert(x: (int, string), xs: seq<(int, string)>): (r: seq<(int, string)>)
    ensures |r| == |xs| + 1
    decreases |xs|
  {
    if xs == [] || x.0 <= xs[0].0 then [x] + xs else [xs[0]] + Insert(x, xs[1..])
  }

  /** `sorted(node_label.items())`: with distinct ids, the entries in ascending order of id. */
  function SortByKey(xs: seq<(int, string)>): seq<(int, string)>
    decreases |xs|
  {
    if xs == [] then [] else Insert(xs[0], SortByKey(xs[1..]))
  }

  lemma {:induction false} InsertPermutes(x: (int, string), xs: seq<(int, string)>)
    ensures multiset(Insert(x, xs)) == multiset(xs) + multiset{x}
    decreases |xs|
  {
    if xs == [] || x.0 <= xs[0].0 {
      assert Insert(x, xs) == [x] + xs;
    } else {
      InsertPermutes(x, xs[1..]);
      assert Insert(x, xs) == [xs[0]] + Insert(x, xs[1..]);
      assert xs == [xs[0]] + xs[1..];
    }
  }

  lemma {:induction false} InsertSorted(x: (int, string), xs: seq<(int, string)>)
    requires SortedByKey(xs)
    ensures SortedByKey(Insert(x, xs))
    ensures Insert(x, xs)[0] == x || (xs != [] && Insert(x, xs)[0] == xs[0])
    decreases |xs|
  {
    if xs == [] || x.0 <= xs[0].0 {
      assert Insert(x, xs) == [x] + xs;
    } else {
      var rest := Insert(x, xs[1..]);
      InsertSorted(x, xs[1..]);
      assert Insert(x, xs) == [xs[0]] + rest;
      assert xs[0].0 <= rest[0].0;
    }
  }

  /** The sort orders the entries by id and keeps every one of them. */
  lemma {:induction false} SortByKeySorts(xs: seq<(int, string)>)
    ensures SortedByKey(SortByKey(xs)) && multiset(SortByKey(xs)) == multiset(xs)
    decreases |xs|
  {
    if xs != [] {
      SortByKeySorts(xs[1..]);
      InsertSorted(xs[0], SortByKey(xs[1..]));
      InsertPermutes(xs[0], SortByKey(xs[1..]));
      assert xs == [xs[0]] + xs[1..];
    }
  }

  /** `[label.strip() for (_, label) in sorted(node_label.items())]` */
  function NodeLabels(items: seq<(int, string)>): (r: seq<string>)
    ensures |r| == |SortByKey(items)|
  {
    var sorted := SortByKey(items);
    seq(|sorted|, i requires 0 <= i < |sorted| => Strip(sorted[i].1))
  }

  /** One label per node, stripped, in ascending order of node id: the `i`-th label is the
      stripped label of the `i`-th entry of a sorted permutation of the entries. */
  lemma NodeLabelsOrdered(items: seq<(int, string)>)
    ensures |NodeLabels(items)| == |items|
    ensures SortedByKey(SortByKey(items)) && multiset(SortByKey(items)) == multiset(items)
    ensures forall i :: 0 <= i < |items| ==>
      NodeLabels(items)[i] == Strip(SortByKey(items)[i].1) && Trimmed(NodeLabels(items)[i])
  {
    SortByKeySorts(items);
    assert |SortByKey(items)| == |multiset(SortByKey(items))| == |items|;
    forall i | 0 <= i < |items| ensures Trimmed(NodeLabels(items)[i]) {
      StripTrimmed(SortByKey(items)[i].1);
    }
  }

  /** No entry has the id `id`. */
  predicate LacksKey(xs: seq<(int, string)>, id: int) {
    forall k :: 0 <= k < |xs| ==> xs[k].0 != id
  }

  /** The entries are in strictly ascending order of node id. */
  predicate StrictlySortedByKey(xs: seq<(int, string)>) {
    forall i, j :: 0 <= i < j < |xs| ==> xs[i].0 < xs[j].0
  }

  lemma {:induction false} InsertStrict(x: (int, string), xs: seq<(int, string)>)
    requires StrictlySortedByKey(xs) && LacksKey(xs, x.0)
    ensures StrictlySortedByKey(Insert(x, xs))
    ensures Insert(x, xs)[0] == x || (xs != [] && Insert(x, xs)[0] == xs[0])
    decreases |xs|
  {
    if xs == [] || x.0 <= xs[0].0 {
      assert Insert(x, xs) == [x] + xs;
    } else {
      var rest := Insert(x, xs[1..]);
      assert LacksKey(xs[1..], x.0) by {
        forall k | 0 <= k < |xs[1..]| ensures xs[1..][k].0 != x.0 {
          assert xs[1..][k] == xs[k + 1];
        }
      }
      InsertStrict(x, xs[1..]);
      assert Insert(x, xs) == [xs[0]] + rest;
      assert xs[0].0 < rest[0].0;
    }
  }

  /** With distinct ids, as in a dictionary, the order is strict, so it is the order `sorted`
      gives the `(id, label)` pairs whatever the labels are. */
  lemma {:induction false} SortByKeyStrict(items: seq<(int, string)>)
    requires DistinctKeys(items)
    ensures StrictlySortedByKey(SortByKey(items))
    decreases |items|
  {
    if items != [] {
      var tail := items[1..];
      assert DistinctKeys(tail) by {
        forall i, j | 0 <= i < j < |tail| ensures tail[i].0 != tail[j].0 {
          assert tail[i] == items[i + 1] && tail[j] == items[j + 1];
        }
      }
      SortByKeyStrict(tail);
      SortByKeySorts(tail);
      var rest := SortByKey(tail);
      forall k | 0 <= k < |rest| ensures rest[k].0 != items[0].0 {
        assert rest[k] in multiset(tail);
        var j :| 0 <= j < |tail| && tail[j] == rest[k];
        assert tail[j] == items[j + 1];
      }
      InsertStrict(items[0], rest);
    }
  }

  // ---------------------------------------------------------------------------
  // process_body and process_data
  // ---------------------------------------------------------------------------

  /** `process_body(idx, total, body, docstring)`: the sample of a body whose graph could be
      built, `None` when parsing or graph building raised. */
  function ProcessBody(body: string, doc: string, graphOf: string -> Option<Graph>): Option<Sample> {
    match graphOf(body)
    case None => None
    case Some(g) =>
      Some(Sample(EdgeList(g.edges), g.terminalPath, NodeLabels(g.labels), DocstringTokenize(doc)))
  }

  /** `process_body` yields a sample exactly when the graph is built, and that sample holds
      one triple per edge type, one stripped label per node, the generator's terminal path
      and the docstring's tokens, none of them empty. */
  lemma ProcessBodyResult(body: string, doc: string, graphOf: string -> Option<Graph>)
    ensures ProcessBody(body, doc, graphOf).Some? <==> graphOf(body).Some?
    ensures ProcessBody(body, doc, graphOf).Some? ==>
      var g := graphOf(body).value;
      var r := ProcessBody(body, doc, graphOf).value;
      && |r.edges| == TypeCount(g.edges)
      && |r.nodeLabels| == |g.labels|
      && r.backboneSequence == g.terminalPath
      && r.docsWords == FindAll(doc)
      && forall k :: 0 <= k < |r.docsWords| ==> r.docsWords[k] != []
  {
    if graphOf(body).Some? {
      var g := graphOf(body).value;
      EdgeListLength(g.edges);
      NodeLabelsOrdered(g.labels);
      TokenizeFilterIsIdentity(doc);
      TokensClean(doc);
    }
  }

  /** The results of the sequential loop, one per `(body, docstring)` pair of
      `zip(inputs, outputs)`. */
  function Results(inputs: seq<string>, outputs: seq<string>, graphOf: string -> Option<Graph>)
    : (r: seq<Option<Sample>>)
    ensures |r| == (if |inputs| < |outputs| then |inputs| else |outputs|)
  {
    var n := if |inputs| < |outputs| then |inputs| else |outputs|;
    seq(n, i requires 0 <= i < n => ProcessBody(inputs[i], outputs[i], graphOf))
  }

  /** `[x for x in data if x is not None]` */
  function Somes<T>(xs: seq<Option<T>>): seq<T>
    decreases |xs|
  {
    if xs == [] then [] else OptionToSeq(xs[0]) + Somes(xs[1..])
  }

  /** The sequential branch of `process_data`: process the pairs in order, then drop the
      `None`s. */
  method ProcessData(inputs: seq<string>, outputs: seq<string>, graphOf: string -> Option<Graph>)
    returns (data: seq<Sample>)
    ensures data == Somes(Results(inputs, outputs, graphOf))
  {
    var collected: seq<Option<Sample>> := [];
    var n := if |inputs| < |outputs| then |inputs| else |outputs|;
    var idx := 0;
    while idx < n
      invariant 0 <= idx <= n
      invariant collected == Results(inputs, outputs, graphOf)[..idx]
    {
      collected := collected + [ProcessBody(inputs[idx], outputs[idx], graphOf)];
      idx := idx + 1;
    }
    assert collected == Results(inputs, outputs, graphOf);
    data := Somes(collected);
  }

  lemma {:induction false} SomesAppend<T>(xs: seq<Option<T>>, ys: seq<Option<T>>)
    ensures Somes(xs + ys) == Somes(xs) + Somes(ys)
    decreases |xs|
  {
    if xs == [] {
      assert xs + ys == ys;
    } else {
      assert (xs + ys)[0] == xs[0] && (xs + ys)[1..] == xs[1..] + ys;
      SomesAppend(xs[1..], ys);
    }
  }

  /** The filter keeps no more than it is given. */
  lemma {:induction false} SomesLength<T>(xs: seq<Option<T>>)
    ensures |Somes(xs)| <= |xs|
    decreases |xs|
  {
    if xs != [] {
      SomesLength(xs[1..]);
    }
  }

  /** When nothing is missing, the filter keeps every value, in order. */
  lemma {:induction false} SomesAllPresent<T>(xs: seq<Option<T>>)
    requires forall i :: 0 <= i < |xs| ==> xs[i].Some?
    ensures |Somes(xs)| == |xs| && forall i :: 0 <= i < |xs| ==> Somes(xs)[i] == xs[i].value
    decreases |xs|
  {
    if xs != [] {
      var tail := xs[1..];
      assert forall i :: 0 <= i < |tail| ==> tail[i] == xs[i + 1];
      SomesAllPresent(tail);
      var r := Somes(xs);
      assert r == [xs[0].value] + Somes(tail);
      forall i | 0 < i < |xs| ensures r[i] == xs[i].value {
        assert r[i] == Somes(tail)[i - 1];
      }
    }
  }

  /** A sample is kept exactly when it was produced. */
  lemma {:induction false} SomesMembers<T>(xs: seq<Option<T>>, x: T)
    ensures x in Somes(xs) <==> Some(x) in xs
    decreases |xs|
  {
    if xs != [] {
      SomesMembers(xs[1..], x);
      assert xs == [xs[0]] + xs[1..];
    }
  }

  /** `process_data` keeps at most one sample per input and, when every body yields a graph,
      exactly one per `(body, docstring)` pair, in input order. */
  lemma ProcessDataCount(inputs: seq<string>, outputs: seq<string>, graphOf: string -> Option<Graph>)
    ensures |Somes(Results(inputs, outputs, graphOf))| <= |inputs|
    ensures |inputs| == |outputs| && (forall i :: 0 <= i < |inputs| ==> graphOf(inputs[i]).Some?) ==>
      var data := Somes(Results(inputs, outputs, graphOf));
      |data| == |inputs| && forall i :: 0 <= i < |inputs| ==>
        Some(data[i]) == ProcessBody(inputs[i], outputs[i], graphOf)
  {
    var rs := Results(inputs, outputs, graphOf);
    SomesLength(rs);
    if |inputs| == |outputs| && (forall i :: 0 <= i < |inputs| ==> graphOf(inputs[i]).Some?) {
      forall i | 0 <= i < |rs| ensures rs[i].Some? {
        ProcessBodyResult(inputs[i], outputs[i], graphOf);
      }
      SomesAllPresent(rs);
    }
  }

  // ---------------------------------------------------------------------------
  // main
  // ---------------------------------------------------------------------------

  /** What `main` writes out for a corpus: the corpus decoded, then run through
      `process_data`. */
  function GraphData(corpus: seq<Record>, dedent: string -> string, graphOf: string -> Option<Graph>)
    : seq<Sample>
  {
    var lists := DecodeCorpus(corpus, dedent);
    Somes(Results(lists.0, lists.1, graphOf))
  }

  /** The data holds at most one sample per record, and a sample is there exactly when the
      graph of some record's decoded body could be built, paired with that record's decoded
      docstring. */
  lemma GraphDataFacts(corpus: seq<Record>, dedent: string -> string, graphOf: string -> Option<Graph>, x: Sample)
    ensures |GraphData(corpus, dedent, graphOf)| <= |corpus|
    ensures x in GraphData(corpus, dedent, graphOf) <==>
      exists i :: 0 <= i < |corpus| &&
        ProcessBody(dedent(DecodeBody(corpus[i].body)), DecodeDocstring(corpus[i].docstring), graphOf) == Some(x)
  {
    var lists := DecodeCorpus(corpus, dedent);
    var rs := Results(lists.0, lists.1, graphOf);
    SomesLength(rs);
    SomesMembers(rs, x);
    if Some(x) in rs {
      var i :| 0 <= i < |rs| && rs[i] == Some(x);
      assert ProcessBody(dedent(DecodeBody(corpus[i].body)), DecodeDocstring(corpus[i].docstring), graphOf) == Some(x);
    }
    if exists i :: 0 <= i < |corpus| &&
        ProcessBody(dedent(DecodeBody(corpus[i].body)), DecodeDocstring(corpus[i].docstring), graphOf) == Some(x)
    {
      var i :| 0 <= i < |corpus| &&
        ProcessBody(dedent(DecodeBody(corpus[i].body)), DecodeDocstring(corpus[i].docstring), graphOf) == Some(x);
      assert rs[i] == Some(x);
    }
  }
}
