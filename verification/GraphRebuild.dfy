// The relationship graph of a project, derived afresh.
module GraphRebuild {
  // Node identifiers are hashes of a text. The hash is taken to have no collisions, so two nodes share
  // an identifier exactly when they share that text.

  import opened TextOrder
  import opened Strings
  import opened CoEdit

  const NODE_CAP := 1500

  datatype Scope = Scope(team: string, project: string)
  datatype Kind = File | Memory
  datatype Relation = Touches | CoOccurs | SameSession | CoEdited

  datatype NodeKey = NodeKey(scope: Scope, kind: Kind, name: string)
  datatype EdgeKey = EdgeKey(src: NodeKey, dst: NodeKey, relation: Relation)
  datatype Edge = Edge(scope: Scope, weight: real)

  datatype MemoryRow = MemoryRow(id: string, files: seq<string>, session: Option<string>, strength: real, deleted: bool)

  /** The rows of one project, the observations being in the order of their identifiers. */
  datatype Corpus = Corpus(memories: seq<MemoryRow>, observations: seq<Observation>)

  ghost predicate UniqueIds(corpus: Corpus) {
    forall i, j :: 0 <= i < j < |corpus.memories| ==> corpus.memories[i].id != corpus.memories[j].id
  }

  function KindText(kind: Kind): string {
    match kind
    case File => "file"
    case Memory => "memory"
  }

  function Text(key: NodeKey): string {
    key.scope.team + key.scope.project + KindText(key.kind) + key.name
  }

  predicate Clash(a: NodeKey, b: NodeKey) {
    a != b && Text(a) == Text(b)
  }

  lemma Regroup(a: string, b: string, c: string, d: string)
    ensures a + b + c + d == (a + b) + (c + d)
    ensures |a + b + c + d| == |a| + |b| + |c| + |d|
  {
  }

  lemma SameStart(a: string, b: string, c: string)
    requires a + b == a + c
    ensures b == c
  {
    assert (a + b)[|a|..] == b && (a + c)[|a|..] == c;
  }

  /** Within one project no two nodes share an identifier. */
  lemma SameProjectNeverClashes(a: NodeKey, b: NodeKey)
    requires a.scope == b.scope
    ensures !Clash(a, b)
  {
    if Text(a) == Text(b) {
      var scope := a.scope;
      Regroup(scope.team, scope.project, KindText(a.kind), a.name);
      Regroup(scope.team, scope.project, KindText(b.kind), b.name);
      SameStart(scope.team + scope.project, KindText(a.kind) + a.name, KindText(b.kind) + b.name);
      assert (KindText(a.kind) + a.name)[0] == KindText(a.kind)[0];
      assert (KindText(b.kind) + b.name)[0] == KindText(b.kind)[0];
      SameStart(KindText(a.kind), a.name, b.name);
    }
  }

  /** Two projects of one team can: the parts of the text run into each other. */
  lemma TwoProjectsCanClash(team: string)
    ensures Clash(NodeKey(Scope(team, "web"), File, "fileA.go"), NodeKey(Scope(team, "webfile"), File, "A.go"))
    ensures Clash(NodeKey(Scope(team, "web"), Memory, "memory7"), NodeKey(Scope(team, "webmemory"), Memory, "7"))
  {
    assert team + "web" + "memory" + "memory7" == team + ("web" + "memory" + "memory7");
    assert team + "webmemory" + "memory" + "7" == team + ("webmemory" + "memory" + "7");
    assert team + "web" + "file" + "fileA.go" == team + ("web" + "file" + "fileA.go");
    assert team + "webfile" + "file" + "A.go" == team + ("webfile" + "file" + "A.go");
  }

  // ----- the nodes a corpus gives -----

  function Count(f: string, files: seq<string>): nat {
    multiset(files)[f]
  }

  function NamedByMemories(memories: seq<MemoryRow>, f: string): nat {
    if memories == [] then 0
    else NamedByMemories(memories[1..], f) + if memories[0].deleted then 0 else Count(f, memories[0].files)
  }

  function NamedByObservations(observations: seq<Observation>, f: string): nat {
    if observations == [] then 0
    else NamedByObservations(observations[1..], f) + Count(f, observations[0].files)
  }

  function FileWeight(corpus: Corpus, f: string): nat {
    NamedByMemories(corpus.memories, f) + NamedByObservations(corpus.observations, f)
  }

  function Files(corpus: Corpus): set<string> {
    (set m, f | m in corpus.memories && !m.deleted && f in m.files && f != "" :: f)
    + (set o, f | o in corpus.observations && f in o.files && f != "" :: f)
  }

  predicate Heavier(corpus: Corpus, a: string, b: string) {
    FileWeight(corpus, a) > FileWeight(corpus, b) || (FileWeight(corpus, a) == FileWeight(corpus, b) && Less(a, b))
  }

  function HeavierThan(corpus: Corpus, files: set<string>, f: string): set<string> {
    set g | g in files && Heavier(corpus, g, f)
  }

  /** The heaviest files, as many as the cap allows. */
  function TopFiles(corpus: Corpus): set<string> {
    set f | f in Files(corpus) && |HeavierThan(corpus, Files(corpus), f)| < NODE_CAP
  }

  predicate Connects(m: MemoryRow) {
    !m.deleted && (m.files != [] || m.session.Some?)
  }

  function Strength(m: MemoryRow): real {
    if m.strength > 0.1 then m.strength else 0.1
  }

  function FileNodes(scope: Scope, corpus: Corpus): map<NodeKey, real> {
    map f | f in TopFiles(corpus) :: NodeKey(scope, File, f) := FileWeight(corpus, f) as real
  }

  function MemoryNodes(scope: Scope, corpus: Corpus): map<NodeKey, real>
    requires UniqueIds(corpus)
  {
    map m | m in corpus.memories && Connects(m) :: NodeKey(scope, Memory, m.id) := Strength(m)
  }

  function NodesOf(scope: Scope, corpus: Corpus): map<NodeKey, real>
    requires UniqueIds(corpus)
  {
    FileNodes(scope, corpus) + MemoryNodes(scope, corpus)
  }

  // ----- the edges -----

  function TouchEdges(scope: Scope, corpus: Corpus): map<EdgeKey, Edge> {
    map m, f | m in corpus.memories && Connects(m) && f in m.files && f in TopFiles(corpus)
      :: EdgeKey(NodeKey(scope, Memory, m.id), NodeKey(scope, File, f), Touches) := Edge(scope, 1.0)
  }

  /** The rows of the join of the live memories with two of their files. */
  function NamedTogether(corpus: Corpus, pair: Pair): set<(nat, nat, nat)> {
    set m: nat, i: nat, j: nat
      | m < |corpus.memories| && i < |corpus.memories[m].files| && j < |corpus.memories[m].files|
        && !corpus.memories[m].deleted
        && corpus.memories[m].files[i] == pair.first && corpus.memories[m].files[j] == pair.second
      :: (m, i, j)
  }

  function CoOccurEdges(scope: Scope, corpus: Corpus): map<EdgeKey, Edge> {
    map a, b | a in TopFiles(corpus) && b in TopFiles(corpus) && Less(a, b) && NamedTogether(corpus, Pair(a, b)) != {}
      :: EdgeKey(NodeKey(scope, File, a), NodeKey(scope, File, b), CoOccurs)
         := Edge(scope, |NamedTogether(corpus, Pair(a, b))| as real)
  }

  function SessionEdges(scope: Scope, corpus: Corpus): map<EdgeKey, Edge> {
    map m, n | m in corpus.memories && n in corpus.memories && !m.deleted && !n.deleted
               && m.session.Some? && m.session == n.session && Less(m.id, n.id)
      :: EdgeKey(NodeKey(scope, Memory, m.id), NodeKey(scope, Memory, n.id), SameSession) := Edge(scope, 1.0)
  }

  function CoEditEdges(scope: Scope, corpus: Corpus): map<EdgeKey, Edge> {
    var mentions := Mentions(corpus.observations);
    map p | p in Pairs(mentions) && p.first in TopFiles(corpus) && p.second in TopFiles(corpus)
      :: EdgeKey(NodeKey(scope, File, p.first), NodeKey(scope, File, p.second), CoEdited)
         := Edge(scope, Weight(mentions, p) as real)
  }

  function EdgesOf(scope: Scope, corpus: Corpus): map<EdgeKey, Edge> {
    TouchEdges(scope, corpus) + CoOccurEdges(scope, corpus) + SessionEdges(scope, corpus) + CoEditEdges(scope, corpus)
  }

  // ----- the tables -----

  function NodesElsewhere(nodes: map<NodeKey, real>, scope: Scope): map<NodeKey, real> {
    map k | k in nodes && k.scope != scope :: nodes[k]
  }

  function EdgesElsewhere(edges: map<EdgeKey, Edge>, scope: Scope): map<EdgeKey, Edge> {
    map e | e in edges && e.src.scope != scope && e.dst.scope != scope :: edges[e]
  }

  ghost predicate Outside(nodes: map<NodeKey, real>, scope: Scope) {
    forall k :: k in nodes ==> k.scope != scope
  }

  lemma NodesInTurn(scope: Scope, corpus: Corpus, others: map<NodeKey, real>)
    requires UniqueIds(corpus) && Outside(others, scope)
    ensures MemoryNodes(scope, corpus) + (FileNodes(scope, corpus) + others) == NodesOf(scope, corpus) + others
  {
  }

  ghost predicate IdsUnique(nodes: map<NodeKey, real>) {
    forall a, b :: a in nodes && b in nodes ==> !Clash(a, b)
  }

  ghost predicate EdgesWithin(nodes: map<NodeKey, real>, edges: map<EdgeKey, Edge>) {
    forall e :: e in edges ==>
      e.src in nodes && e.dst in nodes && e.src.scope == edges[e].scope && e.dst.scope == edges[e].scope
  }

  // Every derived edge joins two derived nodes.

  lemma NodesOfHas(scope: Scope, corpus: Corpus)
    requires UniqueIds(corpus)
    ensures forall f :: f in TopFiles(corpus) ==> NodeKey(scope, File, f) in NodesOf(scope, corpus)
    ensures forall m :: m in corpus.memories && Connects(m) ==> NodeKey(scope, Memory, m.id) in NodesOf(scope, corpus)
  {
    assert forall f :: f in TopFiles(corpus) ==> NodeKey(scope, File, f) in FileNodes(scope, corpus);
    assert forall m :: m in corpus.memories && Connects(m) ==>
        NodeKey(scope, Memory, m.id) in MemoryNodes(scope, corpus);
  }

  lemma TouchEdgesJoinNodes(scope: Scope, corpus: Corpus)
    requires UniqueIds(corpus)
    ensures EdgesWithin(NodesOf(scope, corpus), TouchEdges(scope, corpus))
  {
    NodesOfHas(scope, corpus);
    var nodes := NodesOf(scope, corpus);
    var top := TopFiles(corpus);
    forall e | e in TouchEdges(scope, corpus)
      ensures e.src in nodes && e.dst in nodes && e.src.scope == e.dst.scope == scope
    {
    }
  }

  lemma CoOccurEdgesJoinNodes(scope: Scope, corpus: Corpus)
    requires UniqueIds(corpus)
    ensures EdgesWithin(NodesOf(scope, corpus), CoOccurEdges(scope, corpus))
  {
    NodesOfHas(scope, corpus);
    var nodes := NodesOf(scope, corpus);
    forall e | e in CoOccurEdges(scope, corpus)
      ensures e.src in nodes && e.dst in nodes && e.src.scope == e.dst.scope == scope
    {
    }
  }

  lemma SessionEdgesJoinNodes(scope: Scope, corpus: Corpus)
    requires UniqueIds(corpus)
    ensures EdgesWithin(NodesOf(scope, corpus), SessionEdges(scope, corpus))
  {
    NodesOfHas(scope, corpus);
    var nodes := NodesOf(scope, corpus);
    forall e | e in SessionEdges(scope, corpus)
      ensures e.src in nodes && e.dst in nodes && e.src.scope == e.dst.scope == scope
    {
    }
  }

  lemma CoEditEdgesJoinNodes(scope: Scope, corpus: Corpus)
    requires UniqueIds(corpus)
    ensures EdgesWithin(NodesOf(scope, corpus), CoEditEdges(scope, corpus))
  {
    NodesOfHas(scope, corpus);
    var nodes := NodesOf(scope, corpus);
    forall e | e in CoEditEdges(scope, corpus)
      ensures e.src in nodes && e.dst in nodes && e.src.scope == e.dst.scope == scope
    {
    }
  }

  lemma AllEdgesJoinNodes(scope: Scope, corpus: Corpus, nodes: map<NodeKey, real>)
    requires UniqueIds(corpus)
    requires NodesOf(scope, corpus).Keys <= nodes.Keys
    ensures EdgesWithin(nodes, TouchEdges(scope, corpus))
    ensures EdgesWithin(nodes, CoOccurEdges(scope, corpus))
    ensures EdgesWithin(nodes, SessionEdges(scope, corpus))
    ensures EdgesWithin(nodes, CoEditEdges(scope, corpus))
  {
    TouchEdgesJoinNodes(scope, corpus);
    CoOccurEdgesJoinNodes(scope, corpus);
    SessionEdgesJoinNodes(scope, corpus);
    CoEditEdgesJoinNodes(scope, corpus);
  }

  ghost predicate AllOf(edges: map<EdgeKey, Edge>, relation: Relation, scope: Scope) {
    forall e :: e in edges ==> e.relation == relation && e.src.scope == scope
  }

  lemma EachOfItsRelation(scope: Scope, corpus: Corpus)
    ensures AllOf(TouchEdges(scope, corpus), Touches, scope)
    ensures AllOf(CoOccurEdges(scope, corpus), CoOccurs, scope)
    ensures AllOf(SessionEdges(scope, corpus), SameSession, scope)
    ensures AllOf(CoEditEdges(scope, corpus), CoEdited, scope)
  {
  }

  lemma InsertedInTurn(t: map<EdgeKey, Edge>, c: map<EdgeKey, Edge>, s: map<EdgeKey, Edge>, w: map<EdgeKey, Edge>,
                       others: map<EdgeKey, Edge>, scope: Scope)
    requires AllOf(t, Touches, scope) && AllOf(c, CoOccurs, scope) && AllOf(s, SameSession, scope)
        && AllOf(w, CoEdited, scope)
    requires forall e :: e in others ==> e.src.scope != scope
    ensures w + (s + (c + (t + others))) == t + c + s + w + others
  {
  }

  ghost predicate Clashes(rows: map<NodeKey, real>, nodes: map<NodeKey, real>) {
    exists a, b :: a in rows && b in nodes && Clash(a, b)
  }

  class GraphTables {
    var nodes: map<NodeKey, real>
    var edges: map<EdgeKey, Edge>

    ghost predicate Valid()
      reads this
    {
      IdsUnique(nodes) && EdgesWithin(nodes, edges)
    }

    constructor ()
      ensures Valid() && nodes == map[] && edges == map[]
    {
      nodes, edges := map[], map[];
    }

    method DeleteNodes(scope: Scope)
      requires Valid()
      modifies this
      ensures Valid()
      ensures Outside(nodes, scope) && nodes == NodesElsewhere(old(nodes), scope)
          && edges == EdgesElsewhere(old(edges), scope)
    {
      nodes := map k | k in nodes && k.scope != scope :: nodes[k];
      edges := map e | e in edges && e.src.scope != scope && e.dst.scope != scope :: edges[e];
    }

    /** A row whose key is taken is skipped; one whose identifier is taken by another key fails. */
    method InsertNodes(scope: Scope, rows: map<NodeKey, real>) returns (ok: bool)
      requires Valid()
      requires forall k :: k in rows ==> k.scope == scope
      modifies this`nodes
      ensures ok == !Clashes(rows, old(nodes))
      ensures ok ==> Valid() && nodes == rows + old(nodes)
      ensures !ok ==> nodes == old(nodes)
    {
      ok := forall k :: k in rows ==> forall m :: m in nodes ==> !Clash(k, m);
      if ok {
        nodes := rows + nodes;
        forall a, b | a in rows && b in rows
          ensures !Clash(a, b)
        {
          SameProjectNeverClashes(a, b);
        }
      }
    }

    method InsertEdges(rows: map<EdgeKey, Edge>)
      requires Valid() && EdgesWithin(nodes, rows)
      modifies this`edges
      ensures Valid() && edges == rows + old(edges)
    {
      edges := rows + edges;
    }

    /** Rebuilds one project's graph, or leaves every row as it was. */
    method Rebuild(scope: Scope, corpus: Corpus) returns (ok: bool)
      requires Valid() && UniqueIds(corpus)
      modifies this
      ensures Valid()
      ensures ok == !Clashes(NodesOf(scope, corpus), NodesElsewhere(old(nodes), scope))
      ensures ok ==> nodes == NodesOf(scope, corpus) + NodesElsewhere(old(nodes), scope)
      ensures ok ==> edges == EdgesOf(scope, corpus) + EdgesElsewhere(old(edges), scope)
      ensures !ok ==> nodes == old(nodes) && edges == old(edges)
    {
      var nodesBefore, edgesBefore := nodes, edges;
      DeleteNodes(scope);
      ok := InsertAllNodes(scope, corpus);
      if ok {
        InsertAllEdges(scope, corpus);
      } else {
        nodes, edges := nodesBefore, edgesBefore;
      }
    }

    method InsertAllNodes(scope: Scope, corpus: Corpus) returns (ok: bool)
      requires Valid() && UniqueIds(corpus)
      requires Outside(nodes, scope)
      modifies this`nodes
      ensures ok == !Clashes(NodesOf(scope, corpus), old(nodes))
      ensures ok ==> Valid() && nodes == NodesOf(scope, corpus) + old(nodes)
    {
      ghost var before := nodes;
      ClashesWithBoth(FileNodes(scope, corpus), MemoryNodes(scope, corpus), before, scope);
      ok := InsertNodes(scope, FileNodes(scope, corpus));
      if ok {
        ok := InsertNodes(scope, MemoryNodes(scope, corpus));
        NodesInTurn(scope, corpus, before);
      }
    }

    method InsertAllEdges(scope: Scope, corpus: Corpus)
      requires Valid() && UniqueIds(corpus)
      requires NodesOf(scope, corpus).Keys <= nodes.Keys
      requires forall e :: e in edges ==> e.src.scope != scope
      modifies this`edges
      ensures Valid() && edges == EdgesOf(scope, corpus) + old(edges)
    {
      AllEdgesJoinNodes(scope, corpus, nodes);
      EachOfItsRelation(scope, corpus);
      var t, c, s, w :=
        TouchEdges(scope, corpus), CoOccurEdges(scope, corpus), SessionEdges(scope, corpus), CoEditEdges(scope, corpus);
      InsertEdges(t);
      InsertEdges(c);
      InsertEdges(s);
      InsertEdges(w);
      InsertedInTurn(t, c, s, w, old(edges), scope);
    }
  }

  lemma ClashesWithBoth(files: map<NodeKey, real>, memories: map<NodeKey, real>, kept: map<NodeKey, real>, scope: Scope)
    requires forall k :: k in files || k in memories ==> k.scope == scope
    ensures Clashes(memories, files + kept) == Clashes(memories, kept)
    ensures Clashes(files + memories, kept) == (Clashes(files, kept) || Clashes(memories, kept))
  {
    forall a, b | a in memories && b in files
      ensures !Clash(a, b)
    {
      SameProjectNeverClashes(a, b);
    }
  }
}
