/** The dependency graph: duplicate-free edges, adjacency in both directions, and the files a change can reach
    (src/dep_graph.ts). Import extraction is not modelled; its edges are the input. */
module DepGraph {
  import opened Text

  datatype Edge = Edge(source: string, target: string)

  type Adjacency = map<string, seq<string>>

  datatype Graph = Graph(edges: seq<Edge>, adjacency: Adjacency, reverseAdjacency: Adjacency)

  const ARROW := '\U{2192}'

  function Key(e: Edge): string {
    e.source + [ARROW] + e.target
  }

  function Neighbours(adj: Adjacency, node: string): seq<string> {
    if node in adj then adj[node] else []
  }

  // ----- Building the graph -----

  function Keys(edges: seq<Edge>): set<string> {
    set i | 0 <= i < |edges| :: Key(edges[i])
  }

  /** The edges kept: the first one with each key. */
  function Kept(raw: seq<Edge>): seq<Edge> {
    if raw == [] then []
    else
      var front, last := Kept(raw[..|raw| - 1]), raw[|raw| - 1];
      if Key(last) in Keys(raw[..|raw| - 1]) then front else front + [last]
  }

  lemma KeysFront(edges: seq<Edge>)
    requires edges != []
    ensures Keys(edges) == Keys(edges[..|edges| - 1]) + {Key(edges[|edges| - 1])}
  {
  }

  predicate NoRepeats<T(==)>(xs: seq<T>) {
    forall i, j | 0 <= i < j < |xs| :: xs[i] != xs[j]
  }

  /** An adjacency lists, without repeats, exactly the given pairs. */
  ghost predicate Lists(adj: Adjacency, edges: seq<Edge>) {
    && (forall x | x in adj :: adj[x] != [] && NoRepeats(adj[x]))
    && (forall x, y :: y in Neighbours(adj, x) <==> Edge(x, y) in edges)
  }

  ghost predicate ListsReversed(adj: Adjacency, edges: seq<Edge>) {
    && (forall x | x in adj :: adj[x] != [] && NoRepeats(adj[x]))
    && (forall x, y :: x in Neighbours(adj, y) <==> Edge(x, y) in edges)
  }

  lemma NoEdges()
    ensures Keys([]) == {} && Lists(map[], []) && ListsReversed(map[], [])
  {
  }

  /** Creates the list of a node if it is missing and pushes the neighbour if it is not there. */
  function AddTo(adj: Adjacency, node: string, neighbour: string): Adjacency {
    var list := Neighbours(adj, node);
    adj[node := if neighbour in list then list else list + [neighbour]]
  }

  lemma ListsMore(adj: Adjacency, edges: seq<Edge>, e: Edge)
    requires Lists(adj, edges)
    ensures Lists(AddTo(adj, e.source, e.target), edges + [e])
  {
  }

  lemma ListsReversedMore(adj: Adjacency, edges: seq<Edge>, e: Edge)
    requires ListsReversed(adj, edges)
    ensures ListsReversed(AddTo(adj, e.target, e.source), edges + [e])
  {
  }

  lemma {:induction false} KeptMeaning(raw: seq<Edge>)
    ensures Keys(Kept(raw)) == Keys(raw) && NoRepeats(Kept(raw))
    ensures forall e | e in Kept(raw) :: e in raw
  {
    if raw != [] {
      var front, last := raw[..|raw| - 1], raw[|raw| - 1];
      KeptMeaning(front);
      KeysFront(raw);
      assert raw == front + [last];
      if Key(last) !in Keys(front) {
        KeysFront(Kept(raw));
        assert Kept(raw)[..|Kept(front)|] == Kept(front);
        assert forall i | 0 <= i < |Kept(front)| :: Key(Kept(front)[i]) in Keys(Kept(front));
      }
    }
  }

  method BuildDependencyGraph(raw: seq<Edge>) returns (graph: Graph)
    ensures graph.edges == Kept(raw)
    ensures NoRepeats(graph.edges) && forall e | e in graph.edges :: e in raw
    ensures Lists(graph.adjacency, graph.edges) && ListsReversed(graph.reverseAdjacency, graph.edges)
  {
    hide Lists, ListsReversed, Keys, NoRepeats;
    NoEdges();
    var edges: seq<Edge>, seen: set<string> := [], {};
    for n := 0 to |raw|
      invariant edges == Kept(raw[..n]) && seen == Keys(raw[..n])
    {
      assert raw[..n + 1][..n] == raw[..n];
      KeysFront(raw[..n + 1]);
      var key := Key(raw[n]);
      if key !in seen {
        seen := seen + {key};
        edges := edges + [raw[n]];
      }
    }
    assert raw[..|raw|] == raw;
    var adjacency: Adjacency, reverseAdjacency: Adjacency := map[], map[];
    for n := 0 to |edges|
      invariant Lists(adjacency, edges[..n]) && ListsReversed(reverseAdjacency, edges[..n])
    {
      var e := edges[n];
      assert edges[..n + 1] == edges[..n] + [e];
      ListsMore(adjacency, edges[..n], e);
      ListsReversedMore(reverseAdjacency, edges[..n], e);
      adjacency := AddTo(adjacency, e.source, e.target);
      reverseAdjacency := AddTo(reverseAdjacency, e.target, e.source);
    }
    assert edges[..|edges|] == edges;
    KeptMeaning(raw);
    graph := Graph(edges, adjacency, reverseAdjacency);
  }

  /** The two adjacencies of a built graph are transposes of each other. */
  lemma Transposes(graph: Graph, x: string, y: string)
    requires Lists(graph.adjacency, graph.edges) && ListsReversed(graph.reverseAdjacency, graph.edges)
    ensures y in Neighbours(graph.adjacency, x) <==> x in Neighbours(graph.reverseAdjacency, y)
  {
  }

  predicate EdgeOver(e: Edge, alphabet: set<char>) {
    && (forall i | 0 <= i < |e.source| :: e.source[i] in alphabet)
    && (forall i | 0 <= i < |e.target| :: e.target[i] in alphabet)
  }

  predicate EdgesOver(edges: seq<Edge>, alphabet: set<char>) {
    forall i | 0 <= i < |edges| :: EdgeOver(edges[i], alphabet)
  }

  lemma KeyInjective(e: Edge, e': Edge)
    requires ARROW !in e.source && ARROW !in e.target && ARROW !in e'.source && ARROW !in e'.target
    ensures Key(e) == Key(e') ==> e == e'
  {
    SplitPrefix(e.source, e.target, ARROW);
    SplitPrefix(e'.source, e'.target, ARROW);
    SplitWhole(e.target, ARROW);
    SplitWhole(e'.target, ARROW);
    assert [e.source] + [e.target] == [e.source, e.target];
    assert [e'.source] + [e'.target] == [e'.source, e'.target];
  }

  ghost predicate LosslessOver(alphabet: set<char>) {
    forall raw, e | EdgesOver(raw, alphabet) && e in raw :: e in Kept(raw)
  }

  lemma Lossless(raw: seq<Edge>, alphabet: set<char>, e: Edge)
    requires ARROW !in alphabet && EdgesOver(raw, alphabet) && e in raw
    ensures e in Kept(raw)
  {
    KeptMeaning(raw);
    var k :| 0 <= k < |raw| && raw[k] == e;
    assert Key(raw[k]) in Keys(raw);
    var i :| 0 <= i < |Kept(raw)| && Key(Kept(raw)[i]) == Key(e);
    var e' := Kept(raw)[i];
    assert e' in raw;
    var j :| 0 <= j < |raw| && raw[j] == e';
    assert EdgeOver(raw[k], alphabet) && EdgeOver(raw[j], alphabet);
    KeyInjective(e, e');
  }

  /** Deduplication by joined keys loses no edge, over all edge lists, exactly when no path can contain the arrow. */
  lemma LosslessIffNoArrow(alphabet: set<char>)
    ensures LosslessOver(alphabet) <==> ARROW !in alphabet
  {
    if ARROW !in alphabet {
      forall raw, e | EdgesOver(raw, alphabet) && e in raw ensures e in Kept(raw) {
        Lossless(raw, alphabet, e);
      }
    } else {
      var a, b := Edge([ARROW], [ARROW, ARROW]), Edge([ARROW, ARROW], [ARROW]);
      assert Key(a) == [ARROW, ARROW, ARROW, ARROW] == Key(b);
      var raw := [a, b];
      assert raw[..1] == [a] && [a][..0] == [];
      assert Keys([a]) == {Key(a)} by { assert [a][0] == a; }
      assert Kept([a]) == [a];
      assert Kept(raw) == [a];
      assert EdgesOver(raw, alphabet) && b in raw && b !in Kept(raw);
    }
  }

  // ----- Reachability -----

  ghost predicate IsPath(adj: Adjacency, path: seq<string>) {
    path != [] && forall i | 0 < i < |path| :: path[i] in Neighbours(adj, path[i - 1])
  }

  ghost predicate Reachable(adj: Adjacency, a: string, b: string) {
    exists path :: IsPath(adj, path) && path[0] == a && path[|path| - 1] == b
  }

  lemma ReachableStep(adj: Adjacency, a: string, b: string, c: string)
    requires Reachable(adj, a, b) && c in Neighbours(adj, b)
    ensures Reachable(adj, a, c)
  {
    var path :| IsPath(adj, path) && path[0] == a && path[|path| - 1] == b;
    assert IsPath(adj, path + [c]);
  }

  /** A set that holds the start and is closed under neighbours holds the end of every path. */
  lemma {:induction false} ClosedContains(adj: Adjacency, closed: set<string>, path: seq<string>)
    requires IsPath(adj, path) && path[0] in closed
    requires forall x, y | x in closed && y in Neighbours(adj, x) :: y in closed
    ensures path[|path| - 1] in closed
  {
    if |path| > 1 {
      assert path[1] in Neighbours(adj, path[0]);
      ClosedContains(adj, closed, path[1..]);
    }
  }

  /** Every node the search can meet. */
  function Universe(adj: Adjacency, start: string): set<string> {
    {start} + set x, i | x in adj && 0 <= i < |adj[x]| :: adj[x][i]
  }

  ghost predicate SearchInv(adj: Adjacency, start: string, visited: seq<string>, queue: seq<string>) {
    && NoRepeats(visited)
    && (forall x | x in visited || x in queue :: Reachable(adj, start, x) && x in Universe(adj, start))
    && (start in visited || start in queue)
    && (forall x, y | x in visited && y in Neighbours(adj, x) :: y in visited || y in queue)
  }

  function Visited(visited: seq<string>): set<string> {
    set x | x in visited
  }

  /** The inner loop: queues the dependents not visited yet. */
  method PushUnvisited(queue: seq<string>, dependents: seq<string>, visited: seq<string>) returns (longer: seq<string>)
    ensures queue <= longer && forall x | x in longer :: x in queue || x in dependents
    ensures forall x | x in dependents :: x in visited || x in longer
  {
    longer := queue;
    for n := 0 to |dependents|
      invariant queue <= longer && forall x | x in longer :: x in queue || x in dependents
      invariant forall i | 0 <= i < n :: dependents[i] in visited || dependents[i] in longer
    {
      if dependents[n] !in visited {
        longer := longer + [dependents[n]];
      }
    }
  }

  lemma SearchStarts(adj: Adjacency, start: string)
    ensures SearchInv(adj, start, [], [start])
  {
  }

  lemma SearchPops(adj: Adjacency, start: string, visited: seq<string>, queue: seq<string>)
    requires SearchInv(adj, start, visited, queue) && queue != []
    ensures queue[0] in visited ==> SearchInv(adj, start, visited, queue[1..])
    ensures queue[0] in Universe(adj, start) && NoRepeats(visited)
    ensures SearchInv(adj, start, visited, [queue[0]] + queue[1..])
  {
  }

  lemma SearchVisits(adj: Adjacency, start: string, visited: seq<string>, rest: seq<string>, queue: seq<string>,
                     current: string)
    requires SearchInv(adj, start, visited, [current] + rest) && current !in visited
    requires rest <= queue && forall x | x in queue :: x in rest || x in Neighbours(adj, current)
    requires forall x | x in Neighbours(adj, current) :: x in visited + [current] || x in queue
    ensures SearchInv(adj, start, visited + [current], queue)
  {
    var old' := [current] + rest;
    assert current in old' && forall x :: x in old' <==> x == current || x in rest;
    forall x | x in Neighbours(adj, current) ensures Reachable(adj, start, x) && x in Universe(adj, start) {
      ReachableStep(adj, start, current, x);
      var i :| 0 <= i < |adj[current]| && adj[current][i] == x;
    }
  }

  lemma SearchEnds(adj: Adjacency, start: string, visited: seq<string>)
    requires SearchInv(adj, start, visited, [])
    ensures forall x :: x in visited <==> Reachable(adj, start, x)
    ensures NoRepeats(visited)
  {
    forall x | Reachable(adj, start, x) ensures x in visited {
      var path :| IsPath(adj, path) && path[0] == start && path[|path| - 1] == x;
      ClosedContains(adj, Visited(visited), path);
    }
  }

  // ----- Sorting strings -----

  predicate LexLe(a: string, b: string) {
    a == "" || (b != "" && (a[0] < b[0] || (a[0] == b[0] && LexLe(a[1..], b[1..]))))
  }

  /** The order is that of the first character that differs, a text coming after its own beginnings. */
  lemma {:induction false} LexLeIff(a: string, b: string)
    ensures LexLe(a, b) <==> a <= b || exists i: nat :: i < |a| && i < |b| && a[..i] == b[..i] && a[i] < b[i]
  {
    if a != "" && b != "" {
      LexLeIff(a[1..], b[1..]);
      if a[0] == b[0] {
        assert a <= b <==> a[1..] <= b[1..];
        if i: nat :| i < |a| && i < |b| && a[..i] == b[..i] && a[i] < b[i] {
          assert a[1..][..i - 1] == a[..i][1..] == b[..i][1..] == b[1..][..i - 1];
          assert a[1..][i - 1] < b[1..][i - 1];
        }
        if i: nat :| i < |a[1..]| && i < |b[1..]| && a[1..][..i] == b[1..][..i] && a[1..][i] < b[1..][i] {
          assert a[..i + 1] == [a[0]] + a[1..][..i] == b[..i + 1];
          assert a[i + 1] < b[i + 1];
        }
      } else if a[0] < b[0] {
        assert a[..0] == b[..0];
      } else {
        forall i | 0 < i < |a| && i < |b| ensures a[..i] != b[..i] {
          assert a[..i][0] == a[0] && b[..i][0] == b[0];
        }
      }
    }
  }

  predicate StrictlySorted(xs: seq<string>) {
    forall i, j | 0 <= i < j < |xs| :: xs[i] != xs[j] && LexLe(xs[i], xs[j])
  }

  function Without(xs: seq<string>, x: string): (rest: seq<string>)
    ensures forall y :: y in rest <==> y in xs && y != x
    ensures NoRepeats(xs) ==> NoRepeats(rest)
  {
    if xs == [] then []
    else
      var front, last := Without(xs[..|xs| - 1], x), xs[|xs| - 1];
      assert xs == xs[..|xs| - 1] + [last];
      assert NoRepeats(xs) ==> NoRepeats(xs[..|xs| - 1]) && last !in xs[..|xs| - 1];
      assert forall i | 0 <= i < |front| :: front[i] in front;
      if last == x then front else front + [last]
  }

  lemma {:induction false} LexTotal(a: string, b: string)
    ensures LexLe(a, b) || LexLe(b, a)
    ensures LexLe(a, b) && LexLe(b, a) ==> a == b
  {
    if a != "" && b != "" {
      LexTotal(a[1..], b[1..]);
      if a[0] == b[0] && a[1..] == b[1..] { assert a == [a[0]] + a[1..] == b; }
    }
  }

  lemma {:induction false} LexTransitive(a: string, b: string, c: string)
    requires LexLe(a, b) && LexLe(b, c)
    ensures LexLe(a, c)
  {
    if a != "" && a[0] == b[0] == c[0] {
      LexTransitive(a[1..], b[1..], c[1..]);
    }
  }

  lemma InsertFront(xs: seq<string>, x: string)
    requires StrictlySorted(xs) && x !in xs && xs != [] && LexLe(x, xs[0])
    ensures StrictlySorted([x] + xs)
  {
    forall j | 0 < j < |xs| ensures LexLe(x, xs[j]) {
      LexTransitive(x, xs[0], xs[j]);
    }
  }

  function Insert(xs: seq<string>, x: string): (r: seq<string>)
    requires StrictlySorted(xs) && x !in xs
    ensures StrictlySorted(r) && forall y :: y in r <==> y in xs || y == x
  {
    if xs == [] then [x]
    else
      LexTotal(x, xs[0]);
      if LexLe(x, xs[0]) then
        InsertFront(xs, x);
        [x] + xs
      else
        var rest := Insert(xs[1..], x);
        assert xs == [xs[0]] + xs[1..];
        assert forall i | 0 <= i < |rest| :: rest[i] in rest;
        [xs[0]] + rest
  }

  function SortStrings(xs: seq<string>): (r: seq<string>)
    requires NoRepeats(xs)
    ensures StrictlySorted(r) && forall y :: y in r <==> y in xs
  {
    if xs == [] then []
    else
      assert xs == xs[..|xs| - 1] + [xs[|xs| - 1]];
      Insert(SortStrings(xs[..|xs| - 1]), xs[|xs| - 1])
  }

  // ----- The affected files -----

  /** A chain of dependencies: each file has an edge to the next. */
  ghost predicate Chain(edges: seq<Edge>, files: seq<string>) {
    files != [] && forall i | 0 < i < |files| :: Edge(files[i - 1], files[i]) in edges
  }

  /** The one file depends on the other, directly or through others. */
  ghost predicate DependsOn(edges: seq<Edge>, x: string, y: string) {
    exists files :: Chain(edges, files) && files[0] == x && files[|files| - 1] == y
  }

  function Backwards(files: seq<string>): (r: seq<string>)
    ensures |r| == |files| && forall i | 0 <= i < |r| :: r[i] == files[|files| - 1 - i]
  {
    seq(|files|, i requires 0 <= i < |files| => files[|files| - 1 - i])
  }

  /** In a built graph the paths of the reverse adjacency are the chains of dependencies, read backwards. */
  lemma ReachableIffDepends(graph: Graph, x: string, y: string)
    requires ListsReversed(graph.reverseAdjacency, graph.edges)
    ensures Reachable(graph.reverseAdjacency, y, x) <==> DependsOn(graph.edges, x, y)
  {
    if path :| IsPath(graph.reverseAdjacency, path) && path[0] == y && path[|path| - 1] == x {
      var files := Backwards(path);
      forall i | 0 < i < |files| ensures Edge(files[i - 1], files[i]) in graph.edges {
        assert path[|path| - i] in Neighbours(graph.reverseAdjacency, path[|path| - i - 1]);
      }
      assert Chain(graph.edges, files);
    }
    if files :| Chain(graph.edges, files) && files[0] == x && files[|files| - 1] == y {
      var path := Backwards(files);
      forall i | 0 < i < |path| ensures path[i] in Neighbours(graph.reverseAdjacency, path[i - 1]) {
        assert Edge(files[|files| - i - 1], files[|files| - i]) in graph.edges;
      }
      assert IsPath(graph.reverseAdjacency, path);
    }
  }

  /** The other nodes that the reverse adjacency leads to, on every graph; in a built graph, exactly the other files
      that depend on the given one, directly or through others. They are sorted and without repeats. */
  method FindAffectedFiles(start: string, graph: Graph) returns (affected: seq<string>)
    ensures forall x :: x in affected <==> x != start && Reachable(graph.reverseAdjacency, start, x)
    ensures ListsReversed(graph.reverseAdjacency, graph.edges) ==>
              forall x :: x in affected <==> x != start && DependsOn(graph.edges, x, start)
    ensures StrictlySorted(affected)
  {
    hide SearchInv, Reachable, Universe, StrictlySorted, ListsReversed, DependsOn;
    var adj := graph.reverseAdjacency;
    if ListsReversed(graph.reverseAdjacency, graph.edges) {
      forall x ensures Reachable(adj, start, x) <==> DependsOn(graph.edges, x, start) {
        ReachableIffDepends(graph, x, start);
      }
    }
    var visited: seq<string>, queue := [], [start];
    SearchStarts(adj, start);
    while queue != []
      invariant SearchInv(adj, start, visited, queue)
      decreases Universe(adj, start) - Visited(visited), |queue|
    {
      var current := queue[0];
      SearchPops(adj, start, visited, queue);
      queue := queue[1..];
      if current in visited {
        continue;
      }
      var dependents := Neighbours(adj, current);
      ghost var before := visited;
      visited := visited + [current];
      assert Visited(visited) == Visited(before) + {current};
      ghost var queue0 := queue;
      queue := PushUnvisited(queue, dependents, visited);
      SearchVisits(adj, start, before, queue0, queue, current);
    }
    SearchEnds(adj, start, visited);
    return SortStrings(Without(visited, start));
  }
}
