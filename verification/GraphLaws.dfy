// What a rebuilt graph promises to its reader.
module GraphLaws {
  import opened TextOrder
  import opened CoEdit
  import opened GraphRebuild

  // ----- the graph is a function of the corpus -----

  function NodesWithin(nodes: map<NodeKey, real>, scope: Scope): map<NodeKey, real> {
    map k | k in nodes && k.scope == scope :: nodes[k]
  }

  function EdgesIn(edges: map<EdgeKey, Edge>, scope: Scope): map<EdgeKey, Edge> {
    map e | e in edges && edges[e].scope == scope :: edges[e]
  }

  function RebuiltNodes(scope: Scope, corpus: Corpus, nodes: map<NodeKey, real>): map<NodeKey, real>
    requires UniqueIds(corpus)
  {
    NodesOf(scope, corpus) + NodesElsewhere(nodes, scope)
  }

  function RebuiltEdges(scope: Scope, corpus: Corpus, edges: map<EdgeKey, Edge>): map<EdgeKey, Edge> {
    EdgesOf(scope, corpus) + EdgesElsewhere(edges, scope)
  }

  /** After a rebuild the rows of the project are those of its corpus, whatever was there before, and
      the rows of the other projects are untouched. */
  lemma RebuildForgetsThePast(scope: Scope, corpus: Corpus, nodes: map<NodeKey, real>, edges: map<EdgeKey, Edge>)
    requires UniqueIds(corpus) && EdgesWithin(nodes, edges)
    ensures NodesWithin(RebuiltNodes(scope, corpus, nodes), scope) == NodesOf(scope, corpus)
    ensures EdgesIn(RebuiltEdges(scope, corpus, edges), scope) == EdgesOf(scope, corpus)
    ensures forall other :: other != scope ==>
        NodesWithin(RebuiltNodes(scope, corpus, nodes), other) == NodesWithin(nodes, other)
    ensures forall other :: other != scope ==>
        EdgesIn(RebuiltEdges(scope, corpus, edges), other) == EdgesIn(edges, other)
  {
    NodesAreItsOwn(scope, corpus);
    NodesForgotten(scope, NodesOf(scope, corpus), nodes);
    DerivedEdgesWithin(scope, corpus);
    EdgesForgotten(scope, NodesOf(scope, corpus), EdgesOf(scope, corpus), nodes, edges);
  }

  lemma NodesAreItsOwn(scope: Scope, corpus: Corpus)
    requires UniqueIds(corpus)
    ensures forall k :: k in NodesOf(scope, corpus) ==> k.scope == scope
  {
  }

  lemma DerivedEdgesWithin(scope: Scope, corpus: Corpus)
    requires UniqueIds(corpus)
    ensures EdgesWithin(NodesOf(scope, corpus), EdgesOf(scope, corpus))
  {
    AllEdgesJoinNodes(scope, corpus, NodesOf(scope, corpus));
    EdgesTogether(NodesOf(scope, corpus), TouchEdges(scope, corpus), CoOccurEdges(scope, corpus),
      SessionEdges(scope, corpus), CoEditEdges(scope, corpus));
  }

  lemma EdgesTogether(nodes: map<NodeKey, real>, t: map<EdgeKey, Edge>, c: map<EdgeKey, Edge>, s: map<EdgeKey, Edge>,
                      w: map<EdgeKey, Edge>)
    requires EdgesWithin(nodes, t) && EdgesWithin(nodes, c) && EdgesWithin(nodes, s) && EdgesWithin(nodes, w)
    ensures EdgesWithin(nodes, t + c + s + w)
  {
  }

  lemma NodesForgotten(scope: Scope, derived: map<NodeKey, real>, nodes: map<NodeKey, real>)
    requires forall k :: k in derived ==> k.scope == scope
    ensures NodesWithin(derived + NodesElsewhere(nodes, scope), scope) == derived
    ensures forall other :: other != scope ==>
        NodesWithin(derived + NodesElsewhere(nodes, scope), other) == NodesWithin(nodes, other)
    ensures NodesElsewhere(derived + NodesElsewhere(nodes, scope), scope) == NodesElsewhere(nodes, scope)
  {
  }

  lemma EdgesForgotten(scope: Scope, joined: map<NodeKey, real>, derived: map<EdgeKey, Edge>, nodes: map<NodeKey, real>,
                       edges: map<EdgeKey, Edge>)
    requires forall k :: k in joined ==> k.scope == scope
    requires EdgesWithin(joined, derived) && EdgesWithin(nodes, edges)
    ensures EdgesIn(derived + EdgesElsewhere(edges, scope), scope) == derived
    ensures forall other :: other != scope ==>
        EdgesIn(derived + EdgesElsewhere(edges, scope), other) == EdgesIn(edges, other)
    ensures EdgesElsewhere(derived + EdgesElsewhere(edges, scope), scope) == EdgesElsewhere(edges, scope)
  {
  }

  /** Rebuilding at once again meets the same obstacles and gives the same nodes. */
  lemma RebuildTwiceGivesTheSameNodes(scope: Scope, corpus: Corpus, nodes: map<NodeKey, real>)
    requires UniqueIds(corpus)
    ensures NodesElsewhere(RebuiltNodes(scope, corpus, nodes), scope) == NodesElsewhere(nodes, scope)
    ensures RebuiltNodes(scope, corpus, RebuiltNodes(scope, corpus, nodes)) == RebuiltNodes(scope, corpus, nodes)
  {
    NodesAreItsOwn(scope, corpus);
    NodesForgotten(scope, NodesOf(scope, corpus), nodes);
  }

  /** And the same edges, rather than doubled weights. */
  lemma RebuildTwiceGivesTheSameEdges(scope: Scope, corpus: Corpus, nodes: map<NodeKey, real>,
                                      edges: map<EdgeKey, Edge>)
    requires UniqueIds(corpus) && EdgesWithin(nodes, edges)
    ensures RebuiltEdges(scope, corpus, RebuiltEdges(scope, corpus, edges)) == RebuiltEdges(scope, corpus, edges)
  {
    NodesAreItsOwn(scope, corpus);
    DerivedEdgesWithin(scope, corpus);
    EdgesForgotten(scope, NodesOf(scope, corpus), EdgesOf(scope, corpus), nodes, edges);
  }

  // ----- the files that are drawn -----

  lemma HeavierIsAnOrder(corpus: Corpus, a: string, b: string, c: string)
    ensures a != b ==> Heavier(corpus, a, b) || Heavier(corpus, b, a)
    ensures !Heavier(corpus, a, a) && !(Heavier(corpus, a, b) && Heavier(corpus, b, a))
    ensures Heavier(corpus, a, b) && Heavier(corpus, b, c) ==> Heavier(corpus, a, c)
  {
    LessIsTotal(a, b);
    if Less(a, b) && Less(b, c) {
      LessIsTransitive(a, b, c);
    }
  }

  lemma {:induction false} SomeLightest(corpus: Corpus, files: set<string>) returns (lightest: string)
    requires files != {}
    ensures lightest in files
    ensures forall f :: f in files && f != lightest ==> Heavier(corpus, f, lightest)
  {
    var f :| f in files;
    if files == {f} {
      lightest := f;
    } else {
      var other := SomeLightest(corpus, files - {f});
      HeavierIsAnOrder(corpus, f, other, other);
      lightest := if Heavier(corpus, f, other) then other else f;
      forall g | g in files && g != lightest
        ensures Heavier(corpus, g, lightest)
      {
        HeavierIsAnOrder(corpus, g, other, f);
      }
    }
  }

  /** No more files are drawn than the cap allows; a file is left out only for heavier ones, and only
      when there are more files than that. */
  lemma TheHeaviestFilesAreDrawn(corpus: Corpus)
    ensures |TopFiles(corpus)| <= NODE_CAP
    ensures forall kept, left :: kept in TopFiles(corpus) && left in Files(corpus) - TopFiles(corpus) ==>
        Heavier(corpus, kept, left)
    ensures |Files(corpus)| <= NODE_CAP ==> TopFiles(corpus) == Files(corpus)
  {
    var files, top := Files(corpus), TopFiles(corpus);
    if top != {} {
      var f := SomeLightest(corpus, top);
      SubsetIsSmaller(top - {f}, HeavierThan(corpus, files, f));
    }
    forall kept, left | kept in top && left in files - top
      ensures Heavier(corpus, kept, left)
    {
      HeavierIsAnOrder(corpus, kept, left, left);
      if Heavier(corpus, left, kept) {
        forall g | g in HeavierThan(corpus, files, left)
          ensures g in HeavierThan(corpus, files, kept)
        {
          HeavierIsAnOrder(corpus, g, left, kept);
        }
        SubsetIsSmaller(HeavierThan(corpus, files, left), HeavierThan(corpus, files, kept));
      }
    }
    forall f | f in files
      ensures |HeavierThan(corpus, files, f)| < |files|
    {
      HeavierIsAnOrder(corpus, f, f, f);
      SubsetIsSmaller(HeavierThan(corpus, files, f), files - {f});
    }
  }

  lemma SubsetIsSmaller(a: set<string>, b: set<string>)
    requires a <= b
    ensures |a| <= |b|
  {
    assert b == a + (b - a);
  }

  // ----- the weights -----

  /** Two drawn files are joined as edited together exactly when the walk over the sessions meets them
      within three steps of each other, and the weight is how often it does. */
  lemma CoEditedMeansMetOnTheWalk(scope: Scope, corpus: Corpus, a: string, b: string)
    requires a in TopFiles(corpus) && b in TopFiles(corpus)
    ensures var key := EdgeKey(NodeKey(scope, File, a), NodeKey(scope, File, b), CoEdited);
            var met := Walked(Mentions(corpus.observations), Pair(a, b));
            (key in CoEditEdges(scope, corpus) <==> met > 0)
            && (key in CoEditEdges(scope, corpus) ==> CoEditEdges(scope, corpus)[key].weight == met as real)
  {
    var mentions := Mentions(corpus.observations);
    WeightIsWalked(mentions, Pair(a, b));
    MetMeansWeight(mentions, Pair(a, b));
  }

  lemma MetMeansWeight(mentions: seq<Mention>, pair: Pair)
    ensures pair in Pairs(mentions) <==> Weight(mentions, pair) > 0
  {
    if p :| p in JoinedFor(mentions, pair) {
      assert pair in Pairs(mentions);
    } else {
      assert JoinedFor(mentions, pair) == {};
      forall p | p in Joined(mentions)
        ensures Between(mentions[p.0].file, mentions[p.1].file) != pair
      {
        assert p !in JoinedFor(mentions, pair);
      }
    }
  }

  /** The weights of any edges drawn between files edited together add up to at most three for every
      file an observation names. */
  lemma CoEditedWeightsAreBounded(corpus: Corpus, pairs: seq<Pair>)
    requires Distinct(pairs)
    ensures Summed(Mentions(corpus.observations), pairs) <= 3 * Filed(corpus.observations)
  {
    WeightsAreBounded(Mentions(corpus.observations), pairs);
    MentionsAreFiled(corpus.observations);
  }

  function NamingBoth(corpus: Corpus, pair: Pair): set<nat> {
    set m: nat | m < |corpus.memories| && !corpus.memories[m].deleted
                 && pair.first in corpus.memories[m].files && pair.second in corpus.memories[m].files
  }

  ghost predicate NamesOnce(m: MemoryRow, f: string) {
    forall i, j :: 0 <= i < j < |m.files| && m.files[i] == f ==> m.files[j] != f
  }

  /** The weight of two files named together is the number of memories that name both exactly when
      each of these memories lists each of the two once. A file listed twice counts twice. */
  lemma WeightIsMemoriesNamingBoth(corpus: Corpus, pair: Pair)
    ensures |NamedTogether(corpus, pair)| == |NamingBoth(corpus, pair)| <==>
            forall m :: m in NamingBoth(corpus, pair) ==>
              NamesOnce(corpus.memories[m], pair.first) && NamesOnce(corpus.memories[m], pair.second)
  {
    var rows := NamedTogether(corpus, pair);
    var both := NamingBoth(corpus, pair);
    forall m | m in both
      ensures m in Projected(rows)
    {
      var files := corpus.memories[m].files;
      var i :| 0 <= i < |files| && files[i] == pair.first;
      var j :| 0 <= j < |files| && files[j] == pair.second;
      assert (m, i, j) in rows && (m, i, j).0 == m;
    }
    assert Projected(rows) == both;
    ProjectionCount(rows);
    if m :| m in both && !(NamesOnce(corpus.memories[m], pair.first) && NamesOnce(corpus.memories[m], pair.second)) {
      var files := corpus.memories[m].files;
      var i :| 0 <= i < |files| && files[i] == pair.first;
      var j :| 0 <= j < |files| && files[j] == pair.second;
      var k, n :| 0 <= k < n < |files| && files[k] == files[n] && (files[k] == pair.first || files[k] == pair.second);
      var (r, s) := if files[k] == pair.first then ((m, k, j), (m, n, j)) else ((m, i, k), (m, i, n));
      assert r in rows && s in rows && r != s;
    }
  }

  function Projected(rows: set<(nat, nat, nat)>): set<nat> {
    set r | r in rows :: r.0
  }

  ghost predicate OneEach(rows: set<(nat, nat, nat)>) {
    forall r, s :: r in rows && s in rows && r.0 == s.0 ==> r == s
  }

  lemma {:induction false} ProjectionCount(rows: set<(nat, nat, nat)>)
    ensures |Projected(rows)| <= |rows|
    ensures |Projected(rows)| == |rows| <==> OneEach(rows)
  {
    if rows != {} {
      var r :| r in rows;
      var rest := rows - {r};
      ProjectionCount(rest);
      assert Projected(rows) == Projected(rest) + {r.0};
      assert OneEach(rows) <==> OneEach(rest) && r.0 !in Projected(rest);
    }
  }
}
