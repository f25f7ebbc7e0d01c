// Which nodes and edges a rebuilt graph has.
module GraphReading {
  // Everything is stated on the rows of the corpus: what a rebuild leaves for its project is exactly this.

  import opened TextOrder
  import opened CoEdit
  import opened GraphRebuild
  import opened GraphLaws

  // ----- from the tables to the derivation -----

  lemma RebuiltHasDerivedNodes(scope: Scope, corpus: Corpus, nodes: map<NodeKey, real>, key: NodeKey)
    requires UniqueIds(corpus) && key.scope == scope
    ensures key in RebuiltNodes(scope, corpus, nodes) <==> key in NodesOf(scope, corpus)
    ensures key in NodesOf(scope, corpus) ==> RebuiltNodes(scope, corpus, nodes)[key] == NodesOf(scope, corpus)[key]
  {
  }

  lemma RebuiltHasDerivedEdges(scope: Scope, corpus: Corpus, edges: map<EdgeKey, Edge>, key: EdgeKey)
    requires key.src.scope == scope
    ensures key in RebuiltEdges(scope, corpus, edges) <==> key in EdgesOf(scope, corpus)
    ensures key in EdgesOf(scope, corpus) ==> RebuiltEdges(scope, corpus, edges)[key] == EdgesOf(scope, corpus)[key]
  {
  }

  /** Each relation has its own edges. */
  lemma EdgesByRelation(scope: Scope, corpus: Corpus, key: EdgeKey)
    ensures key in EdgesOf(scope, corpus) <==>
      match key.relation
      case Touches => key in TouchEdges(scope, corpus)
      case CoOccurs => key in CoOccurEdges(scope, corpus)
      case SameSession => key in SessionEdges(scope, corpus)
      case CoEdited => key in CoEditEdges(scope, corpus)
    ensures key in EdgesOf(scope, corpus) ==>
      EdgesOf(scope, corpus)[key] ==
        match key.relation
        case Touches => TouchEdges(scope, corpus)[key]
        case CoOccurs => CoOccurEdges(scope, corpus)[key]
        case SameSession => SessionEdges(scope, corpus)[key]
        case CoEdited => CoEditEdges(scope, corpus)[key]
  {
    EachOfItsRelation(scope, corpus);
    var t, c, s, w :=
      TouchEdges(scope, corpus), CoOccurEdges(scope, corpus), SessionEdges(scope, corpus), CoEditEdges(scope, corpus);
    OneOfFour(t, c, s, w, scope, key);
  }

  lemma OneOfFour(t: map<EdgeKey, Edge>, c: map<EdgeKey, Edge>, s: map<EdgeKey, Edge>, w: map<EdgeKey, Edge>,
                  scope: Scope, key: EdgeKey)
    requires AllOf(t, Touches, scope) && AllOf(c, CoOccurs, scope) && AllOf(s, SameSession, scope)
        && AllOf(w, CoEdited, scope)
    ensures var own := match key.relation case Touches => t case CoOccurs => c case SameSession => s case CoEdited => w;
      (key in t + c + s + w <==> key in own) && (key in own ==> (t + c + s + w)[key] == own[key])
  {
  }

  // ----- memories of one session -----

  function MemoryNode(scope: Scope, id: string): NodeKey {
    NodeKey(scope, Memory, id)
  }

  function FileNode(scope: Scope, f: string): NodeKey {
    NodeKey(scope, File, f)
  }

  /** Two live memories, in the order of their identifiers, that name the same session. */
  ghost predicate OfOneSession(corpus: Corpus, a: string, b: string) {
    exists m, n ::
      && m in corpus.memories && n in corpus.memories && m.id == a && n.id == b && Less(a, b)
      && !m.deleted && !n.deleted
      && m.session.Some? && n.session.Some? && m.session.value == n.session.value
  }

  lemma SameSessionExactlyWhen(scope: Scope, corpus: Corpus, edges: map<EdgeKey, Edge>, a: string, b: string)
    ensures var key := EdgeKey(MemoryNode(scope, a), MemoryNode(scope, b), SameSession);
      && (key in RebuiltEdges(scope, corpus, edges) <==> OfOneSession(corpus, a, b))
      && (key in RebuiltEdges(scope, corpus, edges) ==> RebuiltEdges(scope, corpus, edges)[key] == Edge(scope, 1.0))
  {
    var key := EdgeKey(MemoryNode(scope, a), MemoryNode(scope, b), SameSession);
    RebuiltHasDerivedEdges(scope, corpus, edges, key);
    EdgesByRelation(scope, corpus, key);
    SessionEdgeExactlyWhen(scope, corpus, a, b);
  }

  lemma SessionEdgeExactlyWhen(scope: Scope, corpus: Corpus, a: string, b: string)
    ensures var key := EdgeKey(MemoryNode(scope, a), MemoryNode(scope, b), SameSession);
      && (key in SessionEdges(scope, corpus) <==> OfOneSession(corpus, a, b))
      && (key in SessionEdges(scope, corpus) ==> SessionEdges(scope, corpus)[key] == Edge(scope, 1.0))
  {
    var key := EdgeKey(MemoryNode(scope, a), MemoryNode(scope, b), SameSession);
    if key in SessionEdges(scope, corpus) {
      var m, n :| m in corpus.memories && n in corpus.memories && !m.deleted && !n.deleted && m.session.Some?
        && m.session == n.session && Less(m.id, n.id)
        && key == EdgeKey(NodeKey(scope, Memory, m.id), NodeKey(scope, Memory, n.id), SameSession);
      assert OfOneSession(corpus, a, b);
    }
    if OfOneSession(corpus, a, b) {
      var m, n :|
        && m in corpus.memories && n in corpus.memories && m.id == a && n.id == b && Less(a, b)
        && !m.deleted && !n.deleted
        && m.session.Some? && n.session.Some? && m.session.value == n.session.value;
      assert key == EdgeKey(NodeKey(scope, Memory, m.id), NodeKey(scope, Memory, n.id), SameSession);
    }
  }

  // ----- memories and files -----

  ghost predicate Names(corpus: Corpus, id: string, f: string) {
    exists m :: m in corpus.memories && m.id == id && !m.deleted && f in m.files
  }

  lemma TouchesExactlyWhen(scope: Scope, corpus: Corpus, edges: map<EdgeKey, Edge>, id: string, f: string)
    ensures var key := EdgeKey(MemoryNode(scope, id), FileNode(scope, f), Touches);
      && (key in RebuiltEdges(scope, corpus, edges) <==> Names(corpus, id, f) && f in TopFiles(corpus))
      && (key in RebuiltEdges(scope, corpus, edges) ==> RebuiltEdges(scope, corpus, edges)[key] == Edge(scope, 1.0))
  {
    var key := EdgeKey(MemoryNode(scope, id), FileNode(scope, f), Touches);
    RebuiltHasDerivedEdges(scope, corpus, edges, key);
    EdgesByRelation(scope, corpus, key);
    TouchEdgeExactlyWhen(scope, corpus, id, f);
  }

  lemma TouchEdgeExactlyWhen(scope: Scope, corpus: Corpus, id: string, f: string)
    ensures var key := EdgeKey(MemoryNode(scope, id), FileNode(scope, f), Touches);
      && (key in TouchEdges(scope, corpus) <==> Names(corpus, id, f) && f in TopFiles(corpus))
      && (key in TouchEdges(scope, corpus) ==> TouchEdges(scope, corpus)[key] == Edge(scope, 1.0))
  {
    var key := EdgeKey(MemoryNode(scope, id), FileNode(scope, f), Touches);
    if Names(corpus, id, f) && f in TopFiles(corpus) {
      var m :| m in corpus.memories && m.id == id && !m.deleted && f in m.files;
      assert Connects(m);
      assert key == EdgeKey(NodeKey(scope, Memory, m.id), NodeKey(scope, File, f), Touches);
    }
  }

  // ----- files named together -----

  /** How often one live memory after the other lists the two files of a pair, each time with each. */
  function TogetherIn(memories: seq<MemoryRow>, pair: Pair): nat {
    if memories == [] then 0
    else
      var last := memories[|memories| - 1];
      TogetherIn(memories[..|memories| - 1], pair)
      + if last.deleted then 0 else Count(pair.first, last.files) * Count(pair.second, last.files)
  }

  function Places(files: seq<string>, f: string): set<nat> {
    set i: nat | i < |files| && files[i] == f
  }

  lemma {:induction false} PlacesAreCounted(files: seq<string>, f: string)
    ensures |Places(files, f)| == Count(f, files)
  {
    if files == [] {
      assert Places(files, f) == {};
    } else {
      var n := |files| - 1;
      PlacesAreCounted(files[..n], f);
      assert files == files[..n] + [files[n]];
      assert Places(files, f) == Places(files[..n], f) + if files[n] == f then {n} else {};
    }
  }

  /** The joined rows of memory `m`. */
  function Rows(m: nat, places: set<nat>, others: set<nat>): set<(nat, nat, nat)> {
    set i, j | i in places && j in others :: (m, i, j)
  }

  lemma {:induction false} RowCount(m: nat, places: set<nat>, others: set<nat>)
    ensures |Rows(m, places, others)| == |places| * |others|
  {
    if places == {} {
      assert Rows(m, places, others) == {};
    } else {
      var i :| i in places;
      RowCount(m, places - {i}, others);
      OneRowCount(m, i, others);
      assert Rows(m, places, others) == Rows(m, places - {i}, others) + Rows(m, {i}, others);
      assert Rows(m, places - {i}, others) !! Rows(m, {i}, others);
      OneMoreTimes(|places - {i}|, |others|);
    }
  }

  lemma OneMoreTimes(n: nat, k: nat)
    ensures n * k + k == (n + 1) * k
  {
  }

  lemma {:induction false} OneRowCount(m: nat, i: nat, others: set<nat>)
    ensures |Rows(m, {i}, others)| == |others|
  {
    if others == {} {
      assert Rows(m, {i}, others) == {};
    } else {
      var j :| j in others;
      OneRowCount(m, i, others - {j});
      assert Rows(m, {i}, others) == Rows(m, {i}, others - {j}) + {(m, i, j)};
    }
  }

  function UpTo(corpus: Corpus, n: nat): Corpus
    requires n <= |corpus.memories|
  {
    corpus.(memories := corpus.memories[..n])
  }

  lemma OneMoreMemory(corpus: Corpus, pair: Pair, n: nat)
    requires n < |corpus.memories|
    ensures var m := corpus.memories[n];
      var rows := Rows(n, Places(m.files, pair.first), Places(m.files, pair.second));
      && NamedTogether(UpTo(corpus, n + 1), pair)
          == NamedTogether(UpTo(corpus, n), pair) + (if m.deleted then {} else rows)
      && NamedTogether(UpTo(corpus, n), pair) !! rows
  {
    var m := corpus.memories[n];
    var rows := Rows(n, Places(m.files, pair.first), Places(m.files, pair.second));
    var before, after := UpTo(corpus, n), UpTo(corpus, n + 1);
    assert forall k :: 0 <= k < n ==> before.memories[k] == after.memories[k];
    assert after.memories[n] == m;
    forall k: nat, i: nat, j: nat
      ensures (k, i, j) in NamedTogether(after, pair)
          <==> (k, i, j) in NamedTogether(before, pair) || (!m.deleted && (k, i, j) in rows)
    {
    }
  }

  lemma {:induction false} TogetherIsCounted(corpus: Corpus, pair: Pair, n: nat)
    requires n <= |corpus.memories|
    ensures |NamedTogether(UpTo(corpus, n), pair)| == TogetherIn(corpus.memories[..n], pair)
  {
    if n == 0 {
      assert NamedTogether(UpTo(corpus, 0), pair) == {};
    } else {
      var m := corpus.memories[n - 1];
      TogetherIsCounted(corpus, pair, n - 1);
      OneMoreMemory(corpus, pair, n - 1);
      PlacesAreCounted(m.files, pair.first);
      PlacesAreCounted(m.files, pair.second);
      RowCount(n - 1, Places(m.files, pair.first), Places(m.files, pair.second));
      assert corpus.memories[..n][..n - 1] == corpus.memories[..n - 1];
    }
  }

  /** The weight of two files named together adds up over the live memories. */
  lemma WeightAddsUp(corpus: Corpus, pair: Pair)
    ensures |NamedTogether(corpus, pair)| == TogetherIn(corpus.memories, pair)
  {
    TogetherIsCounted(corpus, pair, |corpus.memories|);
    assert corpus.memories[..|corpus.memories|] == corpus.memories;
    assert UpTo(corpus, |corpus.memories|) == corpus;
  }

  /** Two drawn files are joined, in their order, when a live memory names both, as often as memories do. */
  lemma CoOccursExactlyWhen(scope: Scope, corpus: Corpus, edges: map<EdgeKey, Edge>, a: string, b: string)
    ensures var key := EdgeKey(FileNode(scope, a), FileNode(scope, b), CoOccurs);
      var weight := TogetherIn(corpus.memories, Pair(a, b));
      && (key in RebuiltEdges(scope, corpus, edges)
          <==> a in TopFiles(corpus) && b in TopFiles(corpus) && Less(a, b) && weight > 0)
      && (key in RebuiltEdges(scope, corpus, edges)
          ==> RebuiltEdges(scope, corpus, edges)[key] == Edge(scope, weight as real))
  {
    var key := EdgeKey(FileNode(scope, a), FileNode(scope, b), CoOccurs);
    RebuiltHasDerivedEdges(scope, corpus, edges, key);
    EdgesByRelation(scope, corpus, key);
    WeightAddsUp(corpus, Pair(a, b));
    CoOccurEdgeExactlyWhen(scope, corpus, a, b);
  }

  lemma CoOccurEdgeExactlyWhen(scope: Scope, corpus: Corpus, a: string, b: string)
    ensures var key := EdgeKey(FileNode(scope, a), FileNode(scope, b), CoOccurs);
      var weight := |NamedTogether(corpus, Pair(a, b))|;
      && (key in CoOccurEdges(scope, corpus)
          <==> a in TopFiles(corpus) && b in TopFiles(corpus) && Less(a, b) && weight > 0)
      && (key in CoOccurEdges(scope, corpus)
          ==> CoOccurEdges(scope, corpus)[key] == Edge(scope, weight as real))
  {
    assert |NamedTogether(corpus, Pair(a, b))| > 0 <==> NamedTogether(corpus, Pair(a, b)) != {};
  }

  // ----- files worked on together -----

  lemma PairIsInOrder(a: string, b: string)
    ensures var p := Between(a, b);
      {p.first, p.second} == {a, b} && !Less(p.second, p.first)
  {
    LessIsTotal(a, b);
  }

  /** Files worked on together are joined in their order, and by how often the walk meets them. */
  lemma CoEditedExactlyWhen(scope: Scope, corpus: Corpus, edges: map<EdgeKey, Edge>, a: string, b: string)
    ensures var key := EdgeKey(FileNode(scope, a), FileNode(scope, b), CoEdited);
      var met := Walked(Mentions(corpus.observations), Pair(a, b));
      && (key in RebuiltEdges(scope, corpus, edges)
          <==> a in TopFiles(corpus) && b in TopFiles(corpus) && met > 0)
      && (key in RebuiltEdges(scope, corpus, edges)
          ==> Less(a, b) && RebuiltEdges(scope, corpus, edges)[key] == Edge(scope, met as real))
  {
    var key := EdgeKey(FileNode(scope, a), FileNode(scope, b), CoEdited);
    RebuiltHasDerivedEdges(scope, corpus, edges, key);
    EdgesByRelation(scope, corpus, key);
    if a in TopFiles(corpus) && b in TopFiles(corpus) {
      CoEditedMeansMetOnTheWalk(scope, corpus, a, b);
    }
    if key in CoEditEdges(scope, corpus) {
      CoEditedInOrder(scope, corpus, a, b);
    }
  }

  lemma CoEditedInOrder(scope: Scope, corpus: Corpus, a: string, b: string)
    requires EdgeKey(FileNode(scope, a), FileNode(scope, b), CoEdited) in CoEditEdges(scope, corpus)
    ensures a in TopFiles(corpus) && b in TopFiles(corpus) && Less(a, b)
    ensures CoEditEdges(scope, corpus)[EdgeKey(FileNode(scope, a), FileNode(scope, b), CoEdited)].scope == scope
  {
    var mentions := Mentions(corpus.observations);
    assert Pair(a, b) in Pairs(mentions);
    var p :| p in Joined(mentions) && Between(mentions[p.0].file, mentions[p.1].file) == Pair(a, b);
    PairIsInOrder(mentions[p.0].file, mentions[p.1].file);
    LessIsTotal(a, b);
    assert a in {a, b} && b in {a, b};
  }

  /** An edge of the project joins nodes of the kinds its relation says. */
  lemma EdgesJoinTheirKinds(scope: Scope, corpus: Corpus, edges: map<EdgeKey, Edge>, key: EdgeKey)
    requires key in RebuiltEdges(scope, corpus, edges) && key.src.scope == scope
    ensures key.dst.scope == scope
    ensures key.src.kind == if key.relation == Touches || key.relation == SameSession then Memory else File
    ensures key.dst.kind == if key.relation == SameSession then Memory else File
  {
    RebuiltHasDerivedEdges(scope, corpus, edges, key);
    EdgesByRelation(scope, corpus, key);
  }

  // ----- the nodes -----

  ghost predicate Named(corpus: Corpus, f: string) {
    || (exists m :: m in corpus.memories && !m.deleted && f in m.files)
    || (exists o :: o in corpus.observations && f in o.files)
  }

  lemma FilesAreNamed(corpus: Corpus, f: string)
    ensures f in Files(corpus) <==> f != "" && Named(corpus, f)
  {
  }

  /** How often the live memories and the observations list a file. */
  function ListedBy(memories: seq<MemoryRow>, f: string): nat {
    if memories == [] then 0
    else
      var last := memories[|memories| - 1];
      ListedBy(memories[..|memories| - 1], f) + if last.deleted then 0 else |Places(last.files, f)|
  }

  function SeenIn(observations: seq<Observation>, f: string): nat {
    if observations == [] then 0
    else SeenIn(observations[..|observations| - 1], f) + |Places(observations[|observations| - 1].files, f)|
  }

  lemma {:induction false} ListedBackwards(memories: seq<MemoryRow>, f: string)
    ensures NamedByMemories(memories, f) == ListedBy(memories, f)
  {
    if |memories| == 1 {
      PlacesAreCounted(memories[0].files, f);
      assert memories[1..] == [] && memories[..0] == [];
    } else if memories != [] {
      var n := |memories| - 1;
      ListedBackwards(memories[1..], f);
      ListedBackwards(memories[..n], f);
      ListedBackwards(memories[1..][..n - 1], f);
      assert memories[1..][..n - 1] == memories[..n][1..];
      PlacesAreCounted(memories[0].files, f);
      PlacesAreCounted(memories[n].files, f);
    }
  }

  lemma {:induction false} SeenBackwards(observations: seq<Observation>, f: string)
    ensures NamedByObservations(observations, f) == SeenIn(observations, f)
  {
    if |observations| == 1 {
      PlacesAreCounted(observations[0].files, f);
      assert observations[1..] == [] && observations[..0] == [];
    } else if observations != [] {
      var n := |observations| - 1;
      SeenBackwards(observations[1..], f);
      SeenBackwards(observations[..n], f);
      SeenBackwards(observations[1..][..n - 1], f);
      assert observations[1..][..n - 1] == observations[..n][1..];
      PlacesAreCounted(observations[0].files, f);
      PlacesAreCounted(observations[n].files, f);
    }
  }

  /** The files that come before a file: listed more often, or as often and sorting first. */
  ghost predicate ComesBefore(corpus: Corpus, g: string, f: string) {
    var own, other := Listings(corpus, f), Listings(corpus, g);
    other > own || (other == own && Less(g, f))
  }

  function Listings(corpus: Corpus, f: string): nat {
    ListedBy(corpus.memories, f) + SeenIn(corpus.observations, f)
  }

  /** A named file is drawn unless 1500 others come before it, and weighs as much as it is listed. */
  lemma FileNodeExactlyWhen(scope: Scope, corpus: Corpus, nodes: map<NodeKey, real>, f: string)
    requires UniqueIds(corpus)
    ensures FileNode(scope, f) in RebuiltNodes(scope, corpus, nodes) <==> f in TopFiles(corpus)
    ensures f in TopFiles(corpus) <==>
      f != "" && Named(corpus, f) && |set g | g in Files(corpus) && ComesBefore(corpus, g, f)| < 1500
    ensures f in TopFiles(corpus) ==>
      RebuiltNodes(scope, corpus, nodes)[FileNode(scope, f)] == Listings(corpus, f) as real
  {
    RebuiltHasDerivedNodes(scope, corpus, nodes, FileNode(scope, f));
    FilesAreNamed(corpus, f);
    forall g
      ensures FileWeight(corpus, g) == Listings(corpus, g)
    {
      ListedBackwards(corpus.memories, g);
      SeenBackwards(corpus.observations, g);
    }
    assert HeavierThan(corpus, Files(corpus), f) == set g | g in Files(corpus) && ComesBefore(corpus, g, f);
    assert FileNode(scope, f) in FileNodes(scope, corpus) <==> f in TopFiles(corpus);
    assert FileNode(scope, f) !in MemoryNodes(scope, corpus);
  }

  /** A live memory is drawn when it names a file or a session, and weighs its strength, but a tenth at least. */
  lemma MemoryNodeExactlyWhen(scope: Scope, corpus: Corpus, nodes: map<NodeKey, real>, m: MemoryRow)
    requires UniqueIds(corpus) && m in corpus.memories
    ensures MemoryNode(scope, m.id) in RebuiltNodes(scope, corpus, nodes)
        <==> !m.deleted && (|m.files| > 0 || m.session.Some?)
    ensures MemoryNode(scope, m.id) in RebuiltNodes(scope, corpus, nodes) ==>
      var weight := RebuiltNodes(scope, corpus, nodes)[MemoryNode(scope, m.id)];
      weight >= 0.1 && weight >= m.strength && (weight == 0.1 || weight == m.strength)
  {
    RebuiltHasDerivedNodes(scope, corpus, nodes, MemoryNode(scope, m.id));
    DerivedMemoryNode(scope, corpus, m);
    assert MemoryNode(scope, m.id) !in FileNodes(scope, corpus);
  }

  lemma DerivedMemoryNode(scope: Scope, corpus: Corpus, m: MemoryRow)
    requires UniqueIds(corpus) && m in corpus.memories
    ensures MemoryNode(scope, m.id) in MemoryNodes(scope, corpus) <==> Connects(m)
    ensures Connects(m) ==> MemoryNodes(scope, corpus)[MemoryNode(scope, m.id)] == Strength(m)
  {
    if MemoryNode(scope, m.id) in MemoryNodes(scope, corpus) {
      var n :| n in corpus.memories && Connects(n) && MemoryNode(scope, m.id) == NodeKey(scope, Memory, n.id);
      SameRow(corpus, m, n);
    }
  }

  lemma SameRow(corpus: Corpus, m: MemoryRow, n: MemoryRow)
    requires UniqueIds(corpus) && m in corpus.memories && n in corpus.memories && m.id == n.id
    ensures m == n
  {
  }

  lemma NoOtherMemoryNodes(scope: Scope, corpus: Corpus, nodes: map<NodeKey, real>, id: string)
    requires UniqueIds(corpus) && MemoryNode(scope, id) in RebuiltNodes(scope, corpus, nodes)
    ensures exists m :: m in corpus.memories && m.id == id
  {
    RebuiltHasDerivedNodes(scope, corpus, nodes, MemoryNode(scope, id));
  }
}
