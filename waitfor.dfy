/**
 * The waits-for graph and the depth-first search the transaction manager
 * runs over it to detect deadlock.
 *
 * An edge u -> v means transaction v waits for a lock held by u. The graph
 * maps each holder to the list of its waiters. The search keeps one
 * `visited` set per root and reports a cycle as soon as it reaches any node
 * visited before from the same root, so every real cycle is found (see
 * HasCycle) but a node reached along two different paths is reported too
 * (see DiamondReported).
 */
module WaitFor {

  import opened Choice

  type Graph = map<int, seq<int>>

  predicate Edge(g: Graph, u: int, v: int) {
    u in g && v in g[u]
  }

  /** The node after position `i` of the cyclic sequence `c`. */
  function Succ(c: seq<int>, i: int): int
    requires 0 <= i < |c|
  {
    if i + 1 < |c| then c[i + 1] else c[0]
  }

  /** `v` appears in the graph: it holds a lock somebody waits for, or it waits. */
  predicate IsNode(g: Graph, v: int) {
    v in g || exists u :: u in g && v in g[u]
  }

  /** Every entry of `path` from position `from` on is a node of `g`. */
  predicate NodesFrom(g: Graph, path: seq<int>, from: int) {
    forall k :: 0 <= from <= k < |path| ==> IsNode(g, path[k])
  }

  /** `c` lists the nodes of a directed cycle, each with an edge to the next. */
  ghost predicate IsCycle(g: Graph, c: seq<int>) {
    |c| > 0 && forall i :: 0 <= i < |c| ==> Edge(g, c[i], Succ(c, i))
  }

  ghost predicate HasDirectedCycle(g: Graph) {
    exists c :: IsCycle(g, c)
  }

  /** The state a search leaves behind: its verdict, the visited set and the path. */
  datatype Search = Search(found: bool, visited: set<int>, path: seq<int>)

  lemma SubsetCard(a: set<int>, b: set<int>)
    requires a <= b
    ensures |a| <= |b|
  {
    assert b == a + (b - a);
  }

  /**
   * `dfs(graph, visited, cur, path)`: pushes `cur`; succeeds at once when
   * `cur` was visited; stops (leaving `cur` on the path) at a node with no
   * waiters; otherwise marks `cur`, searches its waiters in list order and,
   * when none succeeds, pops the last element of the path.
   */
  function DfsSpec(g: Graph, visited: set<int>, cur: int, path: seq<int>): (r: Search)
    ensures visited <= r.visited
    ensures |r.path| >= |path|
    ensures r.found ==> |r.path| > |path|
    decreases |g.Keys - visited|, 0, 0
  {
    var p := path + [cur];
    if cur in visited then Search(true, visited, p)
    else if cur !in g then Search(false, visited, p)
    else
      assert g.Keys - (visited + {cur}) == (g.Keys - visited) - {cur};
      var r := ChildrenSpec(g, visited + {cur}, g[cur], p);
      if r.found then r else Search(false, r.visited, r.path[..|r.path| - 1])
  }

  /** The loop of `dfs` over the waiters `kids`, stopping at the first success. */
  function ChildrenSpec(g: Graph, visited: set<int>, kids: seq<int>, path: seq<int>): (r: Search)
    ensures visited <= r.visited
    ensures |r.path| >= |path|
    ensures r.found ==> |r.path| > |path|
    decreases |g.Keys - visited|, 1, |kids|
  {
    if kids == [] then Search(false, visited, path)
    else
      var r := DfsSpec(g, visited, kids[0], path);
      if r.found then r
      else
        SubsetCard(g.Keys - r.visited, g.Keys - visited);
        ChildrenSpec(g, r.visited, kids[1..], r.path)
  }

  /** The recursive search, updating `visited` and `path` as it goes. */
  method Dfs(g: Graph, visited: set<int>, cur: int, path: seq<int>)
    returns (found: bool, visited': set<int>, path': seq<int>)
    ensures Search(found, visited', path') == DfsSpec(g, visited, cur, path)
    decreases |g.Keys - visited|
  {
    path' := path + [cur];
    visited' := visited;
    if cur in visited {
      return true, visited', path';
    }
    if cur !in g {
      return false, visited', path';
    }
    visited' := visited' + {cur};
    var kids := g[cur];
    var i := 0;
    while i < |kids|
      invariant 0 <= i <= |kids|
      invariant visited + {cur} <= visited'
      invariant ChildrenSpec(g, visited + {cur}, kids, path + [cur]) == ChildrenSpec(g, visited', kids[i..], path')
      decreases |kids| - i
    {
      assert g.Keys - (visited + {cur}) == (g.Keys - visited) - {cur};
      SubsetCard(g.Keys - visited', g.Keys - (visited + {cur}));
      found, visited', path' := Dfs(g, visited', kids[i], path');
      if found {
        return;
      }
      assert kids[i..][1..] == kids[i + 1..];
      i := i + 1;
    }
    found := false;
    path' := path'[..|path'| - 1];
  }

  /**
   * A search from a node of the graph keeps the path it was given as a
   * prefix and appends only nodes of the graph.
   */
  lemma {:induction false} DfsPath(g: Graph, visited: set<int>, cur: int, path: seq<int>)
    requires IsNode(g, cur)
    ensures var r := DfsSpec(g, visited, cur, path);
      path <= r.path && NodesFrom(g, r.path, |path|)
    decreases |g.Keys - visited|, 0, 0
  {
    var p := path + [cur];
    if cur in visited || cur !in g {
      return;
    }
    assert g.Keys - (visited + {cur}) == (g.Keys - visited) - {cur};
    forall k | k in g[cur]
      ensures IsNode(g, k)
    {
    }
    ChildrenPath(g, visited + {cur}, g[cur], p);
    var r := ChildrenSpec(g, visited + {cur}, g[cur], p);
    if !r.found {
      var q := r.path[..|r.path| - 1];
      assert path <= p <= r.path;
      assert forall k :: |path| <= k < |q| ==> q[k] == r.path[k];
    }
  }

  /** The same for the scan of the waiters `kids`, all of them nodes. */
  lemma {:induction false} ChildrenPath(g: Graph, visited: set<int>, kids: seq<int>, path: seq<int>)
    requires forall k :: k in kids ==> IsNode(g, k)
    requires |path| > 0 && NodesFrom(g, path, |path| - 1)
    ensures var r := ChildrenSpec(g, visited, kids, path);
      path <= r.path && NodesFrom(g, r.path, |path| - 1)
    decreases |g.Keys - visited|, 1, |kids|
  {
    if kids == [] {
      return;
    }
    var r1 := DfsSpec(g, visited, kids[0], path);
    DfsPath(g, visited, kids[0], path);
    if !r1.found {
      SubsetCard(g.Keys - r1.visited, g.Keys - visited);
      assert forall k :: k in kids[1..] ==> k in kids;
      ChildrenPath(g, r1.visited, kids[1..], r1.path);
    }
  }

  /**
   * Every node of `D` has waiters, every waiter of a node in `D` is outside
   * `visited` and, when it has waiters itself, is in `D` with a higher rank.
   * This is what a failed search leaves behind in the nodes it marked.
   */
  ghost predicate Closed(g: Graph, visited: set<int>, D: set<int>, rank: map<int, int>) {
    && D <= g.Keys
    && D <= rank.Keys
    && (forall d :: d in D ==> rank[d] >= 1)
    && (forall d, e :: d in D && Edge(g, d, e) ==> e !in visited && (e in g ==> e in D && rank[e] > rank[d]))
  }

  /** A failed search from `cur` marks a closed set containing `cur` (when it has waiters). */
  lemma {:induction false} DfsFails(g: Graph, visited: set<int>, cur: int, path: seq<int>) returns (rank: map<int, int>)
    requires !DfsSpec(g, visited, cur, path).found
    ensures cur !in visited
    ensures Closed(g, visited, DfsSpec(g, visited, cur, path).visited - visited, rank)
    ensures cur in g ==> cur in DfsSpec(g, visited, cur, path).visited
    decreases |g.Keys - visited|, 0, 0
  {
    if cur !in g {
      rank := map[];
      return;
    }
    var V := visited + {cur};
    var p := path + [cur];
    assert g.Keys - V == (g.Keys - visited) - {cur};
    var rc := ChildrenFail(g, V, g[cur], p);
    var r := DfsSpec(g, visited, cur, path);
    var Dc := ChildrenSpec(g, V, g[cur], p).visited - V;
    assert r.visited == ChildrenSpec(g, V, g[cur], p).visited;
    var D := r.visited - visited;
    assert D == Dc + {cur};
    rank := ClosedAddRoot(g, visited, cur, Dc, rc);
  }

  /** A root whose waiters all lie in a closed set, or have no waiters, closes the set with it. */
  lemma ClosedAddRoot(g: Graph, visited: set<int>, cur: int, Dc: set<int>, rc: map<int, int>) returns (rank: map<int, int>)
    requires cur in g && cur !in visited && cur !in Dc
    requires Closed(g, visited + {cur}, Dc, rc)
    requires forall k :: k in g[cur] ==> k !in visited + {cur} && (k in g ==> k in Dc)
    ensures Closed(g, visited, Dc + {cur}, rank)
  {
    rank := map d | d in Dc + {cur} :: if d == cur then 1 else rc[d] + 1;
    forall d, e | d in Dc + {cur} && Edge(g, d, e)
      ensures e !in visited && (e in g ==> e in Dc + {cur} && rank[e] > rank[d])
    {
      if d == cur {
        assert e in g[cur];
      }
    }
  }

  /** A failed scan of the waiters `kids` marks a closed set containing every waiter with waiters. */
  lemma {:induction false} ChildrenFail(g: Graph, visited: set<int>, kids: seq<int>, path: seq<int>) returns (rank: map<int, int>)
    requires !ChildrenSpec(g, visited, kids, path).found
    ensures Closed(g, visited, ChildrenSpec(g, visited, kids, path).visited - visited, rank)
    ensures forall k :: k in kids ==> k !in visited && (k in g ==> k in ChildrenSpec(g, visited, kids, path).visited)
    decreases |g.Keys - visited|, 1, |kids|
  {
    if kids == [] {
      rank := map[];
      return;
    }
    var r1 := DfsSpec(g, visited, kids[0], path);
    var rank1 := DfsFails(g, visited, kids[0], path);
    SubsetCard(g.Keys - r1.visited, g.Keys - visited);
    var rank2 := ChildrenFail(g, r1.visited, kids[1..], r1.path);
    var r := ChildrenSpec(g, visited, kids, path);
    assert r == ChildrenSpec(g, r1.visited, kids[1..], r1.path);
    var D1 := r1.visited - visited;
    var D2 := r.visited - r1.visited;
    assert r.visited - visited == D1 + D2;
    rank := ClosedUnion(g, visited, r1.visited, D1, rank1, D2, rank2);
    forall k | k in kids
      ensures k !in visited && (k in g ==> k in r.visited)
    {
      if k != kids[0] {
        assert k in kids[1..];
      }
    }
  }

  /** Two closed sets marked one after the other form one closed set. */
  lemma ClosedUnion(g: Graph, visited: set<int>, V1: set<int>, D1: set<int>, rank1: map<int, int>,
                    D2: set<int>, rank2: map<int, int>) returns (rank: map<int, int>)
    requires Closed(g, visited, D1, rank1) && Closed(g, V1, D2, rank2)
    requires visited <= V1 && D1 == V1 - visited
    ensures Closed(g, visited, D1 + D2, rank)
  {
    rank := map d | d in D1 + D2 :: if d in D1 then rank1[d] else rank2[d];
    forall d, e | d in D1 + D2 && Edge(g, d, e)
      ensures e !in visited && (e in g ==> e in D1 + D2 && rank[e] > rank[d])
    {
      if d in D1 {
        assert e in g ==> e in D1;
      } else {
        assert d in D2;
      }
    }
  }

  /** Along a cycle through a closed set, ranks grow at every step. */
  lemma {:induction false} RankGrows(g: Graph, visited: set<int>, D: set<int>, rank: map<int, int>, c: seq<int>, i: nat)
    requires Closed(g, visited, D, rank) && IsCycle(g, c) && c[0] in D
    requires i < |c|
    ensures c[i] in D && rank[c[i]] >= rank[c[0]] + i
  {
    if i > 0 {
      RankGrows(g, visited, D, rank, c, i - 1);
      assert Edge(g, c[i - 1], Succ(c, i - 1));
      assert Succ(c, i - 1) == c[i];
    }
  }

  /** No cycle passes through a closed set. */
  lemma NoCycleThrough(g: Graph, visited: set<int>, D: set<int>, rank: map<int, int>, c: seq<int>)
    requires Closed(g, visited, D, rank) && IsCycle(g, c)
    ensures c[0] !in D
  {
    if c[0] in D {
      var n := |c|;
      RankGrows(g, visited, D, rank, c, n - 1);
      assert false;
    }
  }

  /** A rank that grows along every edge between nodes with waiters rules out cycles. */
  lemma AcyclicByRank(g: Graph, rank: map<int, int>)
    requires g.Keys <= rank.Keys
    requires forall u :: u in g ==> rank[u] >= 1
    requires forall u, v :: Edge(g, u, v) && v in g ==> rank[v] > rank[u]
    ensures !HasDirectedCycle(g)
  {
    if c :| IsCycle(g, c) {
      assert Edge(g, c[0], Succ(c, 0));
      NoCycleThrough(g, {}, g.Keys, rank, c);
    }
  }

  /** `v` lies on no cycle that starts at it. */
  ghost predicate OnNoCycle(g: Graph, v: int) {
    forall c :: IsCycle(g, c) ==> c[0] != v
  }

  /**
   * `hasCycle`: a search from every node with waiters, in the map's
   * (unspecified) order, with a fresh visited set per root and one path
   * shared by all of them. Any directed cycle is reported.
   */
  method HasCycle(g: Graph, path0: seq<int>) returns (found: bool, path: seq<int>)
    ensures HasDirectedCycle(g) ==> found
    ensures found ==> |path| > |path0| && g != map[]
    ensures path0 <= path && NodesFrom(g, path, |path0|)
  {
    path := path0;
    var pending := g.Keys;
    while pending != {}
      invariant pending <= g.Keys
      invariant path0 <= path && NodesFrom(g, path, |path0|)
      invariant forall v :: v in g && v !in pending ==> OnNoCycle(g, v)
      decreases pending
    {
      NonEmptyHasMember(pending);
      var root :| root in pending;
      ghost var before := path;
      var visited;
      found, visited, path := Dfs(g, {}, root, path);
      DfsPath(g, {}, root, before);
      if found {
        assert root in g.Keys;
        return;
      }
      ghost var rank := DfsFails(g, {}, root, before);
      forall c | IsCycle(g, c)
        ensures c[0] != root
      {
        NoCycleThrough(g, {}, DfsSpec(g, {}, root, before).visited, rank, c);
      }
      pending := pending - {root};
    }
    found := false;
    NoCycleLeft(g);
  }

  lemma NoCycleLeft(g: Graph)
    requires forall v :: v in g ==> OnNoCycle(g, v)
    ensures !HasDirectedCycle(g)
  {
    forall c | IsCycle(g, c)
      ensures false
    {
      CycleStartHasWaiters(g, c);
      assert false;
    }
  }

  lemma CycleStartHasWaiters(g: Graph, c: seq<int>)
    requires IsCycle(g, c)
    ensures c[0] in g
  {
    assert Edge(g, c[0], Succ(c, 0));
  }

  /**
   * What a report of `hasCycle` started on an empty path can look like: the
   * graph has an edge and the path holds only nodes of the graph.
   */
  predicate Reported(g: Graph, path: seq<int>) {
    g != map[] && |path| > 0 && NodesFrom(g, path, 0)
  }

  /** The first index of `x` in `s`, which contains it. */
  function FirstIndex(s: seq<int>, x: int): (i: nat)
    requires x in s
    ensures i < |s| && s[i] == x
    ensures forall j :: 0 <= j < i ==> s[j] != x
  {
    if s[0] == x then 0 else 1 + FirstIndex(s[1..], x)
  }

  /**
   * The candidate victims of `detectDeadLock`: the path from the first
   * occurrence of its last node up to, but excluding, that last node.
   */
  function Pool(path: seq<int>): (pool: seq<int>)
    requires |path| > 0
    ensures var i := FirstIndex(path, path[|path| - 1]);
      path == path[..i] + pool + [path[|path| - 1]]
    ensures path[|path| - 1] !in path[..|path| - |pool| - 1]
    ensures pool != [] ==> pool[0] == path[|path| - 1]
  {
    var last := path[|path| - 1];
    var i := FirstIndex(path, last);
    assert path == path[..i] + path[i..|path| - 1] + [last];
    path[i..|path| - 1]
  }

  /**
   * The search reports a cycle in an acyclic graph when one node is reached
   * along two paths: 1 -> 2 -> 3 and 1 -> 3. The extracted pool is then
   * empty.
   */
  lemma DiamondReported()
    ensures var g: Graph := map[1 := [2, 3], 2 := [3], 3 := [4]];
      var r := DfsSpec(g, {}, 1, []);
      && !HasDirectedCycle(g)
      && r.found
      && r.path == [1, 2, 3]
      && Pool(r.path) == []
  {
    var g: Graph := map[1 := [2, 3], 2 := [3], 3 := [4]];
    AcyclicByRank(g, map[1 := 1, 2 := 2, 3 := 3]);
    DiamondSearch(g);
    assert FirstIndex([1, 2, 3], 3) == 2;
  }

  predicate IsDiamond(g: Graph) {
    g == map[1 := [2, 3], 2 := [3], 3 := [4]]
  }

  /** The search over the diamond, call by call: 1, 2, 3, 4, then 3 again from 1. */
  lemma DiamondSearch(g: Graph)
    requires IsDiamond(g)
    ensures DfsSpec(g, {}, 1, []) == Search(true, {1, 2, 3}, [1, 2, 3])
  {
    DiamondTwo(g);
    assert [1, 2] + [3] == [1, 2, 3];
    assert DfsSpec(g, {1, 2, 3}, 3, [1, 2]) == Search(true, {1, 2, 3}, [1, 2, 3]);
    assert ChildrenSpec(g, {1, 2, 3}, [3], [1, 2]) == Search(true, {1, 2, 3}, [1, 2, 3]);
    assert [2, 3][0] == 2 && [2, 3][1..] == [3];
    assert ChildrenSpec(g, {1}, [2, 3], [1]) == Search(true, {1, 2, 3}, [1, 2, 3]);
    assert 1 in g && g[1] == [2, 3] && {} + {1} == {1} && [] + [1] == [1];
  }

  /** From 2 the search goes down to 3 and 4 and comes back without success. */
  lemma DiamondTwo(g: Graph)
    requires IsDiamond(g)
    ensures DfsSpec(g, {1}, 2, [1]) == Search(false, {1, 2, 3}, [1, 2])
  {
    DiamondThree(g);
    assert 2 in g && g[2] == [3] && {1} + {2} == {1, 2} && [1] + [2] == [1, 2];
    assert [1, 2, 3][..2] == [1, 2];
  }

  /** From 3 the search reaches 4, which has no waiters, and comes back. */
  lemma DiamondThree(g: Graph)
    requires IsDiamond(g)
    ensures ChildrenSpec(g, {1, 2}, [3], [1, 2]) == Search(false, {1, 2, 3}, [1, 2, 3])
  {
    assert 4 !in g && [1, 2, 3] + [4] == [1, 2, 3, 4];
    assert DfsSpec(g, {1, 2, 3}, 4, [1, 2, 3]) == Search(false, {1, 2, 3}, [1, 2, 3, 4]);
    assert [4][0] == 4 && [4][1..] == [];
    assert ChildrenSpec(g, {1, 2, 3}, [4], [1, 2, 3]) == Search(false, {1, 2, 3}, [1, 2, 3, 4]);
    assert 3 in g && g[3] == [4] && {1, 2} + {3} == {1, 2, 3} && [1, 2] + [3] == [1, 2, 3];
    assert [1, 2, 3, 4][..3] == [1, 2, 3];
    assert DfsSpec(g, {1, 2}, 3, [1, 2]) == Search(false, {1, 2, 3}, [1, 2, 3]);
    assert [3][0] == 3 && [3][1..] == [];
  }
}
